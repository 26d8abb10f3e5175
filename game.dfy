/**
 * The playing state: the level counter, the maze dimensions, the maze, the
 * player and the exit, the four guarded moves, Enter on the exit, the field
 * of view, and saving to / loading from the save slot.
 */
module GameState {
  import opened Board
  import opened RandomSource
  import opened Maze

  datatype Option<T> = None | Some(value: T)

  datatype Direction = Up | Down | Left | Right

  /** The player's symbol, the copyright sign, drawn in colour pair 1. */
  const PlayerSymbol: string := "\U{00A9}"

  /** Where the player appears at the start of every level. */
  const Start: Element := Element(1, 1, PlayerSymbol, 1)

  /** The cell one step from p in direction d. */
  function Target(p: Cell, d: Direction): (t: Cell)
    ensures Adjacent(p, t)
  {
    match d
    case Up => (p.0 - 1, p.1)
    case Down => (p.0 + 1, p.1)
    case Left => (p.0, p.1 - 1)
    case Right => (p.0, p.1 + 1)
  }

  /**
   * Where the player at p ends up after pressing the arrow d, with the guards
   * of the four `act_on_*` methods: the player stays put when the step would
   * leave the h x w grid or enter a wall, and moves one cell otherwise.
   */
  function Step(maze: Grid, h: int, w: int, p: Cell, d: Direction): (q: Cell)
    requires Rect(maze, h, w) && InGrid(maze, p)
    ensures q == p || q == Target(p, d)
    ensures q == p <==> !IsOpen(maze, Target(p, d))
    ensures IsOpen(maze, p) ==> IsOpen(maze, q)
  {
    match d
    case Down => if p.0 + 1 == h || maze[p.0 + 1][p.1] != 0 then p else (p.0 + 1, p.1)
    case Up => if p.0 == 0 || maze[p.0 - 1][p.1] != 0 then p else (p.0 - 1, p.1)
    case Left => if p.1 == 0 || maze[p.0][p.1 - 1] != 0 then p else (p.0, p.1 - 1)
    case Right => if p.1 + 1 == w || maze[p.0][p.1 + 1] != 0 then p else (p.0, p.1 + 1)
  }

  /** A move never takes the player out of the part of the maze reachable from the start. */
  lemma StepKeepsReach(maze: Grid, h: int, w: int, p: Cell, d: Direction)
    requires Rect(maze, h, w) && IsOpen(maze, p) && Reach(maze, (1, 1), p)
    ensures Reach(maze, (1, 1), Step(maze, h, w, p, d))
  {
    var q := Step(maze, h, w, p, d);
    if q != p {
      ReachStep(maze, (1, 1), p, q);
    }
  }

  /**
   * The game after the arrow d: only the player's position changes, as Step
   * says, and the state stays valid.
   */
  function Move(s: SavedGame, d: Direction): (r: SavedGame)
    requires SnapshotValid(s)
    ensures SnapshotValid(r)
    ensures Pos(r.me) == Step(s.maze, s.h, s.w, Pos(s.me), d)
    ensures r.me.symbol == s.me.symbol && r.me.color == s.me.color
    ensures r.level == s.level && r.h == s.h && r.w == s.w && r.maze == s.maze && r.exit == s.exit
  {
    var q := Step(s.maze, s.h, s.w, Pos(s.me), d);
    StepKeepsReach(s.maze, s.h, s.w, Pos(s.me), d);
    s.(me := s.me.(x := q.0, y := q.1))
  }

  /** `is_visible`: a cell is drawn when its Manhattan distance from the player is below 6. */
  function Visible(p: Cell, i: int, j: int): (v: bool)
    ensures v ==> p.0 - 5 <= i <= p.0 + 5 && p.1 - 5 <= j <= p.1 + 5
    ensures (i, j) == p ==> v
    ensures i == p.0 ==> (v <==> -6 < j - p.1 < 6)
    ensures j == p.1 ==> (v <==> -6 < i - p.0 < 6)
  {
    Abs(p.0 - i) + Abs(p.1 - j) < 6
  }

  /** The visible cells include the player's neighbours, and visibility is symmetric. */
  lemma VisibleBounds(p: Cell, i: int, j: int)
    ensures Adjacent(p, (i, j)) ==> Visible(p, i, j)
    ensures Visible(p, i, j) <==> Visible((i, j), p.0, p.1)
  {
  }

  /** What `save` writes: the level, the player, the exit, the dimensions and the maze. */
  datatype SavedGame = SavedGame(level: int, me: Element, exit: Element, h: int, w: int, maze: Grid)

  /** The dimensions the game uses at a level: 5 + 2 * level rows and 9 + 4 * level columns. */
  predicate LevelDims(level: int, h: int, w: int) {
    h == 5 + 2 * level && w == 9 + 4 * level
  }

  /**
   * What holds of every state the game is in once a level is generated, and
   * so of every snapshot it saves: the player and the exit stand on open cells
   * reachable from the start.
   */
  ghost predicate SnapshotValid(s: SavedGame) {
    && s.level >= 1 && LevelDims(s.level, s.h, s.w)
    && Rect(s.maze, s.h, s.w) && Binary(s.maze)
    && IsOpen(s.maze, Pos(s.me)) && Reach(s.maze, (1, 1), Pos(s.me))
    && IsOpen(s.maze, Pos(s.exit)) && Reach(s.maze, (1, 1), Pos(s.exit))
  }

  /** The dimensions stay odd, and are at least 7 x 13. */
  lemma LevelDimsOdd(level: int, h: int, w: int)
    requires level >= 1 && LevelDims(level, h, w)
    ensures Odd(h) && Odd(w) && h >= 7 && w >= 13
  {
    assert h == 2 * (level + 2) + 1;
    assert w == 2 * (2 * level + 4) + 1;
  }

  /** In every valid state the player can walk to the exit. */
  lemma ExitReachableFromPlayer(s: SavedGame)
    requires SnapshotValid(s)
    ensures Reach(s.maze, Pos(s.me), Pos(s.exit))
  {
    ReachReverse(s.maze, (1, 1), Pos(s.me));
    ReachTrans(s.maze, Pos(s.me), (1, 1), Pos(s.exit));
  }

  /** A freshly generated level, with the player at the start, is a valid state. */
  lemma FreshLevelValid(level: int, h: int, w: int, maze: Grid, rx: int, ry: int)
    requires level >= 1 && LevelDims(level, h, w)
    requires Rect(maze, h, w) && Binary(maze)
    requires forall a, b :: Lattice(maze, a, b) ==> Reach(maze, (1, 1), (a, b))
    requires h / 2 <= rx <= h - 1 && w / 2 <= ry <= w - 1
    ensures SnapshotValid(SavedGame(level, Start, ExitAt(h, w, rx, ry), h, w, maze))
  {
    LevelDimsOdd(level, h, w);
    ExitReachable(h, w, rx, ry, maze);
    assert Lattice(maze, 1, 1);
  }

  /**
   * The maze and the exit `generate_next_level` draws for an h x w level:
   * `generate_maze(h, w)`, then `generate_exit(h, w)`.
   */
  method LevelLayout(level: int, h: int, w: int, rng: Random) returns (maze: Grid, exit: Element)
    requires level >= 1 && LevelDims(level, h, w)
    modifies rng
    ensures SnapshotValid(SavedGame(level, Start, exit, h, w, maze))
    ensures forall a, b :: Lattice(maze, a, b) ==> Reach(maze, (1, 1), (a, b))
    ensures exists rx, ry :: h / 2 <= rx <= h - 1 && w / 2 <= ry <= w - 1 && exit == ExitAt(h, w, rx, ry)
  {
    LevelDimsOdd(level, h, w);
    ghost var carved, openings;
    maze, carved, openings := GenerateMaze(h, w, rng);
    exit := GenerateExit(h, w, rng);
    ghost var rx, ry :| h / 2 <= rx <= h - 1 && w / 2 <= ry <= w - 1 && exit == ExitAt(h, w, rx, ry);
    FreshLevelValid(level, h, w, maze, rx, ry);
  }

  /** The `.saved_version` file: empty until the first save. */
  class Store {
    var slot: Option<SavedGame>

    constructor ()
      ensures slot == None
    {
      slot := None;
    }
  }

  class Game {
    var level: int
    var h: int
    var w: int
    var maze: Grid
    var me: Element
    var exit: Element

    /** `save`'s `packed` record: every field of the game, so nothing is lost. */
    function Snapshot(): (s: SavedGame)
      reads this
      ensures s.level == level && s.me == me && s.exit == exit
      ensures s.h == h && s.w == w && s.maze == maze
    {
      SavedGame(level, me, exit, h, w, maze)
    }

    ghost predicate Valid()
      reads this
    {
      SnapshotValid(Snapshot())
    }

    /** `Game()`: starts a new game. */
    constructor (rng: Random)
      modifies rng
      ensures Valid() && level == 1 && h == 7 && w == 13 && me == Start
    {
      new;
      NewGame(rng);
    }

    /**
     * `generate_next_level`: one level up, two rows and four columns more, a
     * new maze and exit, and the player back at (1, 1).
     */
    method GenerateNextLevel(rng: Random)
      requires level >= 0 && LevelDims(level, h, w)
      modifies this, rng
      ensures level == old(level) + 1 && h == old(h) + 2 && w == old(w) + 4
      ensures me == Start && Valid()
      ensures forall a, b :: Lattice(maze, a, b) ==> Reach(maze, (1, 1), (a, b))
      ensures exists rx, ry :: h / 2 <= rx <= h - 1 && w / 2 <= ry <= w - 1 && exit == ExitAt(h, w, rx, ry)
    {
      level := level + 1;
      h := h + 2;
      w := w + 4;
      me := Start;
      maze, exit := LevelLayout(level, h, w, rng);
    }

    /** `new_game`: level 0 with a 5 x 9 grid, advanced at once to level 1 with a 7 x 13 grid. */
    method NewGame(rng: Random)
      modifies this, rng
      ensures Valid() && level == 1 && h == 7 && w == 13 && me == Start
    {
      level := 0;
      h := 5;
      w := 9;
      GenerateNextLevel(rng);
    }

    /** `act_on_down`. */
    method MoveDown()
      requires Valid()
      modifies this
      ensures Valid() && Snapshot() == Move(old(Snapshot()), Down)
    {
      StepKeepsReach(maze, h, w, Pos(me), Down);
      if me.x + 1 == h || maze[me.x + 1][me.y] != 0 {
        return;
      }
      me := me.(x := me.x + 1);
    }

    /** `act_on_up`. */
    method MoveUp()
      requires Valid()
      modifies this
      ensures Valid() && Snapshot() == Move(old(Snapshot()), Up)
    {
      StepKeepsReach(maze, h, w, Pos(me), Up);
      if me.x == 0 || maze[me.x - 1][me.y] != 0 {
        return;
      }
      me := me.(x := me.x - 1);
    }

    /** `act_on_left`. */
    method MoveLeft()
      requires Valid()
      modifies this
      ensures Valid() && Snapshot() == Move(old(Snapshot()), Left)
    {
      StepKeepsReach(maze, h, w, Pos(me), Left);
      if me.y == 0 || maze[me.x][me.y - 1] != 0 {
        return;
      }
      me := me.(y := me.y - 1);
    }

    /** `act_on_right`. */
    method MoveRight()
      requires Valid()
      modifies this
      ensures Valid() && Snapshot() == Move(old(Snapshot()), Right)
    {
      StepKeepsReach(maze, h, w, Pos(me), Right);
      if me.y + 1 == w || maze[me.x][me.y + 1] != 0 {
        return;
      }
      me := me.(y := me.y + 1);
    }

    /** `act_on_enter`: on the exit, go to the next level; always answers true. */
    method ActOnEnter(rng: Random) returns (r: bool)
      requires Valid()
      modifies this, rng
      ensures r && Valid()
      ensures old(Pos(me)) == old(Pos(exit)) ==>
        level == old(level) + 1 && h == old(h) + 2 && w == old(w) + 4 && me == Start
      ensures old(Pos(me)) != old(Pos(exit)) ==> Snapshot() == old(Snapshot()) && unchanged(rng)
    {
      if me.x == exit.x && me.y == exit.y {
        GenerateNextLevel(rng);
      }
      return true;
    }

    /** `is_visible(i, j)`: only cells near the player are drawn, the player's own always. */
    function IsVisible(i: int, j: int): (v: bool)
      reads this
      ensures v ==> me.x - 5 <= i <= me.x + 5 && me.y - 5 <= j <= me.y + 5
      ensures i == me.x && j == me.y ==> v
      ensures Adjacent((me.x, me.y), (i, j)) ==> v
    {
      VisibleBounds(Pos(me), i, j);
      Visible(Pos(me), i, j)
    }

    /** `save`: the whole state goes to the slot. */
    method Save(store: Store)
      modifies store
      ensures store.slot == Some(Snapshot())
    {
      store.slot := Some(Snapshot());
    }

    /** `load`: a new game when nothing was saved, the saved state otherwise. */
    method Load(store: Store, rng: Random)
      requires store.slot.Some? ==> SnapshotValid(store.slot.value)
      modifies this, rng
      ensures Valid()
      ensures store.slot.None? ==> level == 1 && h == 7 && w == 13 && me == Start
      ensures store.slot.Some? ==> Snapshot() == store.slot.value
    {
      if store.slot.None? {
        NewGame(rng);
        return;
      }
      var packed := store.slot.value;
      level := packed.level;
      me := Element(packed.me.x, packed.me.y, packed.me.symbol, packed.me.color);
      exit := Element(packed.exit.x, packed.exit.y, packed.exit.symbol, packed.exit.color);
      h, w := packed.h, packed.w;
      maze := packed.maze;
    }
  }
}
