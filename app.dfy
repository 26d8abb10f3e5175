/**
 * The controller: which of the two screens is active (the menu or the game),
 * how a key press is routed to it, and the transitions between the screens
 * (Enter in the menu, Esc in the game).
 */
module AppController {
  import opened Board
  import opened RandomSource
  import opened GameState
  import opened MenuState

  /** The curses codes of the arrow keys, and the codes of Enter and Esc. */
  const KeyDown: int := 258
  const KeyUp: int := 259
  const KeyLeft: int := 260
  const KeyRight: int := 261
  const KeyEnter: int := 10
  const KeyEsc: int := 27

  /** `App.MENU` and `App.GAME`. */
  const MenuMode: int := 0
  const GameMode: int := 1

  /** `switch_state`'s `1 - state`: the other mode. */
  function Toggle(s: int): (r: int)
    ensures s == MenuMode ==> r == GameMode
    ensures s == GameMode ==> r == MenuMode
  {
    1 - s
  }

  /** Switching twice changes nothing. */
  lemma ToggleInvolution(s: int)
    ensures Toggle(Toggle(s)) == s
  {
  }

  /** The arrow a key code stands for, if any. */
  function KeyDirection(key: int): (d: Option<Direction>)
    ensures d.Some? <==> key in {KeyDown, KeyUp, KeyLeft, KeyRight}
    ensures d == Some(Down) <==> key == KeyDown
    ensures d == Some(Up) <==> key == KeyUp
    ensures d == Some(Left) <==> key == KeyLeft
    ensures d == Some(Right) <==> key == KeyRight
  {
    if key == KeyDown then Some(Down)
    else if key == KeyUp then Some(Up)
    else if key == KeyLeft then Some(Left)
    else if key == KeyRight then Some(Right)
    else None
  }

  /** Only what `save` writes can be in the slot. */
  ghost predicate SlotValid(slot: Option<SavedGame>) {
    slot.Some? ==> SnapshotValid(slot.value)
  }

  /** The screen `get_state` hands a key press to. */
  datatype Active = InMenu(menu: Menu) | InGame(game: Game)

  /** Everything a key press can change: the mode, the cursor, the game and the save slot. */
  datatype AppView = AppView(state: int, selected: int, game: SavedGame, slot: Option<SavedGame>)

  class App {
    const menu: Menu
    const game: Game
    const store: Store
    var state: int

    ghost predicate Valid()
      reads this, menu, game, store
    {
      && menu.Valid() && game.Valid()
      && (state == MenuMode || state == GameMode)
      && SlotValid(store.slot)
    }

    function View(): AppView
      reads this, menu, game, store
    {
      AppView(state, menu.selected, game.Snapshot(), store.slot)
    }

    /** `App()`: the menu with the cursor on "continue", a new game behind it, in menu mode. */
    constructor (store: Store, rng: Random)
      requires SlotValid(store.slot)
      modifies rng
      ensures Valid() && this.store == store && store.slot == old(store.slot)
      ensures fresh(menu) && fresh(game)
      ensures state == MenuMode && menu.selected == 0
      ensures game.level == 1 && game.h == 7 && game.w == 13 && game.me == Start
    {
      menu := new Menu();
      game := new Game(rng);
      this.store := store;
      state := MenuMode;
    }

    /** `get_state`: the menu in menu mode, the game otherwise. */
    function GetState(): (a: Active)
      reads this
      ensures a.InMenu? <==> state == MenuMode
      ensures a.InMenu? ==> a.menu == menu
      ensures a.InGame? ==> a.game == game
    {
      if state == MenuMode then InMenu(menu) else InGame(game)
    }

    /** `switch_state`. */
    method SwitchState()
      modifies this
      ensures state == Toggle(old(state))
    {
      state := 1 - state;
    }

    /**
     * The menu's `act_on_enter`: "exit" answers false and changes nothing;
     * "new game" switches to the game and starts a new one; "continue"
     * switches to the game and loads the saved one (a new one if nothing was
     * saved). Both of the latter answer true.
     */
    method MenuEnter(rng: Random) returns (r: bool)
      requires Valid() && state == MenuMode
      modifies this, game, rng
      ensures Valid()
      ensures r <==> menu.Choice() != "exit"
      ensures menu.Choice() == "exit" ==> View() == old(View())
      ensures menu.Choice() != "exit" ==> state == GameMode
      ensures menu.Choice() == "new game" || (menu.Choice() == "continue" && store.slot.None?) ==>
        game.level == 1 && game.h == 7 && game.w == 13 && game.me == Start
      ensures menu.Choice() == "continue" && store.slot.Some? ==> game.Snapshot() == store.slot.value
    {
      if menu.Choice() == "exit" {
        return false;
      }
      if menu.Choice() == "new game" {
        SwitchState();
        game.NewGame(rng);
      }
      if menu.Choice() == "continue" {
        SwitchState();
        game.Load(store, rng);
      }
      return true;
    }

    /** The game's `act_on_esc`: save, then back to the menu. */
    method GameEsc()
      requires Valid() && state == GameMode
      modifies this, store
      ensures Valid() && state == MenuMode
      ensures store.slot == Some(game.Snapshot())
      ensures View() == old(View()).(state := MenuMode, slot := Some(old(game.Snapshot())))
    {
      game.Save(store);
      SwitchState();
    }

    /** `act`: route one key press to the active screen; answers false only to quit. */
    method Act(key: int, rng: Random) returns (result: bool)
      requires Valid()
      modifies this, menu, game, store, rng
      ensures Valid()
      ensures key != KeyEnter ==> result
      ensures key == KeyEnter && old(state) == GameMode ==> result
      ensures key == KeyEnter && old(state) == MenuMode ==> (result <==> old(menu.selected) != 2)
      ensures key !in {KeyDown, KeyUp, KeyLeft, KeyRight, KeyEnter, KeyEsc} ==> View() == old(View())
      ensures old(state) == MenuMode && key == KeyDown ==> View() == old(View()).(selected := Next(old(menu.selected)))
      ensures old(state) == MenuMode && key == KeyUp ==> View() == old(View()).(selected := Prev(old(menu.selected)))
      ensures old(state) == MenuMode && key in {KeyLeft, KeyRight, KeyEsc} ==> View() == old(View())
      ensures old(state) == GameMode && KeyDirection(key).Some? ==>
        View() == old(View()).(game := Move(old(game.Snapshot()), KeyDirection(key).value))
      ensures old(state) == GameMode && key == KeyEsc ==>
        View() == old(View()).(state := MenuMode, slot := Some(old(game.Snapshot())))
      ensures old(state) == MenuMode && key == KeyEnter && old(menu.selected) == 2 ==> View() == old(View())
      ensures old(state) == MenuMode && key == KeyEnter && old(menu.selected) != 2 ==>
        state == GameMode && menu.selected == old(menu.selected) && store.slot == old(store.slot)
      ensures old(state) == MenuMode && key == KeyEnter && old(menu.selected) == 0 && store.slot.Some? ==>
        game.Snapshot() == store.slot.value
      ensures old(state) == MenuMode && key == KeyEnter && (old(menu.selected) == 1 || (old(menu.selected) == 0 && store.slot.None?)) ==>
        game.level == 1 && game.h == 7 && game.w == 13 && game.me == Start
      ensures old(state) == GameMode && key == KeyEnter ==>
        state == GameMode && menu.selected == old(menu.selected) && store.slot == old(store.slot)
      ensures old(state) == GameMode && key == KeyEnter && old(Pos(game.me)) == old(Pos(game.exit)) ==>
        game.level == old(game.level) + 1 && game.h == old(game.h) + 2 && game.w == old(game.w) + 4 && game.me == Start
      ensures old(state) == GameMode && key == KeyEnter && old(Pos(game.me)) != old(Pos(game.exit)) ==> View() == old(View())
    {
      result := true;
      if key == KeyLeft {
        if state == MenuMode { menu.ActOnLeft(); } else { game.MoveLeft(); }
      } else if key == KeyRight {
        if state == MenuMode { menu.ActOnRight(); } else { game.MoveRight(); }
      } else if key == KeyUp {
        if state == MenuMode { menu.ActOnUp(); } else { game.MoveUp(); }
      } else if key == KeyDown {
        if state == MenuMode { menu.ActOnDown(); } else { game.MoveDown(); }
      } else if key == KeyEnter {
        if state == MenuMode { result := MenuEnter(rng); } else { result := game.ActOnEnter(rng); }
      } else if key == KeyEsc {
        if state == MenuMode { menu.ActOnEsc(); } else { GameEsc(); }
      }
    }
  }

  /**
   * Esc in the game saves it; a new App over the same save slot starts in the
   * menu with the cursor on "continue", and Enter there brings back exactly
   * the saved level, player, exit, dimensions and maze.
   */
  method SaveQuitResume(app: App, rng: Random) returns (app2: App)
    requires app.Valid() && app.state == GameMode
    modifies app, app.menu, app.game, app.store, rng
    ensures app2.Valid() && app2.state == GameMode && app2.store == app.store
    ensures app2.game.Snapshot() == old(app.game.Snapshot())
  {
    ghost var saved := app.game.Snapshot();
    var _ := app.Act(KeyEsc, rng);
    assert app.store.slot == Some(saved);
    app2 := new App(app.store, rng);
    assert app2.store.slot == Some(saved) && app2.state == MenuMode && app2.menu.Choice() == "continue";
    var resumed := app2.Act(KeyEnter, rng);
  }
}
