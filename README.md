# Roguelike maze game — a verified model of the game logic

The game shows a menu with three entries: continue, new game and exit. A
level is a rectangular maze of walls (1) and open cells (0). The player starts
in the top-left corner at (1, 1) and walks with the arrow keys. Pressing Enter
while standing on the exit `E` generates the next, larger level. Esc saves the
game and returns to the menu, and "continue" loads the save.

A maze is generated in two steps:

1. A recursive-backtracker carver (`dfs`) opens every cell with odd row and
   odd column (the *lattice*). It also opens the cell between each pair of
   lattice cells it connects.
2. `h + w` random cells are then set to 0.

The exit is placed on a cell with odd coordinates within one row and one
column of the lower-right quarter.

The model is split into six modules:

- `Board` (board.dfy): grids as values, and walks through open cells.
- `RandomSource` (random_source.dfy): `random.randint` as a stream of draws
  supplied by the caller.
- `Maze` (maze.dfy): `dfs` on a two-dimensional array, `generate_maze` and
  `generate_exit`.
- `GameState` (game.dfy): the `Game` class, its moves, Enter, save and load.
- `MenuState` (menu.dfy): the `Menu` class.
- `AppController` (app.dfy): the `App` class, its mode switch and key
  routing.

The main results:

- **dfs terminates.** The measure is the set of lattice cells still walled,
  which shrinks with every recursive call. Python's limit on recursion depth
  is not part of the model (see "## Left out").
- **dfs only writes 0, and only to carvable cells.** A carvable cell is a
  lattice cell or a midpoint between two in-bounds lattice cells.
- **dfs keeps every open cell reachable from (1, 1).**
- **dfs opens the whole lattice** when started at (1, 1) on a grid of walls.
- **dfs leaves the border walled** when the dimensions are odd.
- **The extra openings can hit the border.** The border property is
  therefore stated for the grid after `dfs` (`carved`), not for the finished
  maze.
- **Every lattice cell of the finished maze is reachable from (1, 1).** This
  includes the exit, for the odd dimensions the game uses.
- **Every reachable game state is valid.** The player and the exit stand on
  open cells reachable from (1, 1), so the player can always walk to the
  exit.
- **Moves change at most one coordinate, by one.** A move is refused exactly
  when the target is off the grid or a wall.
- **Menu cursor arithmetic.** It wraps modulo 3, and up undoes down.
- **Save, quit and continue restore the exact saved game.**

## Model

| member | source | states |
|---|---|---|
| RandomSource.Random.RandInt | app.py:277 | a `random.randint(lo, hi)` draw lies in [lo, hi] and consumes one draw of the stream |
| Board.Opened | app.py:278 | setting one cell to 0 opens it, keeps the shape, and leaves every other cell as it was |
| Board.Carve | app.py:264 | the array write `f[a][b] = 0` changes the grid value exactly as Opened says |
| Board.ReachGrows | app.py:255-256 | opening more cells never breaks a walk |
| Board.ReachReverse | app.py:123-145 | a walk through open cells can be taken backwards |
| Board.ReachTrans | app.py:123-145 | two walks through open cells chain into one |
| Board.ConnectedAfterOpen | app.py:278 | opening (1, 1), or a cell next to an open cell, keeps every open cell reachable from (1, 1) |
| Maze.Unvisited | app.py:266-274 | `unvisited` holds exactly the four candidates two steps away that are in bounds and still 1, so at most four entries |
| Maze.NoUnvisitedMeansNeighboursOpen | app.py:275-276 | when `unvisited` is empty, every in-bounds lattice neighbour is open |
| Maze.MidpointByHalving | app.py:278 | `((i + i2) // 2, (j + j2) // 2)` is the cell one step from (i, j) towards the candidate |
| Maze.MidpointFacts | app.py:277-278 | for an in-bounds candidate, the midpoint is in bounds, off the lattice, and adjacent to both ends; it is carvable; the candidate is odd-odd |
| Maze.CarvableIsInterior | app.py:261-262 | for odd h and w, no carvable cell lies in row 0, row h-1, column 0 or column w-1 |
| Maze.WalledShrinks | app.py:264 | opening a walled lattice cell strictly shrinks the set of walled lattice cells |
| Maze.WalledSame | app.py:278 | opening a midpoint leaves the set of walled lattice cells unchanged |
| Maze.DfsEntry | app.py:264 | opening (i, j) on entry establishes the loop invariant: only 0s written, only to carvable cells, connectivity kept |
| Maze.DfsExit | app.py:275-276 | leaving the loop, every lattice cell opened since entry has all its lattice neighbours open |
| Maze.DfsBeforeCall | app.py:277-279 | after the midpoint is opened, the chosen candidate is a walled lattice cell next to an open cell, with the grid still 0/1 and connected |
| Maze.DfsAfterCall | app.py:279 | after the recursive call the loop invariant holds again |
| Maze.ClosedAcrossCall | app.py:279 | closedness of the cells carved since entry survives the recursive call |
| Maze.Dfs | app.py:260-279 | dfs terminates (recursion depth unbounded); it writes only 0, only to carvable cells; it keeps every open cell reachable from (1, 1); it opens (i, j); every lattice cell it opened has all its lattice neighbours open |
| Maze.Branch | app.py:277-279 | one loop iteration opens the midpoint, then the recursive call's postcondition holds for the grid with the midpoint opened |
| Maze.BranchBeforeCall | app.py:277-278 | the recursive call's precondition holds, and the termination measure is unchanged by the midpoint |
| Maze.BranchAfterCall | app.py:279 | the loop invariant is restored, and the set of walled lattice cells has strictly shrunk |
| Maze.AllWalls | app.py:253 | `[[1] * w for _ in range(h)]` is h x w with every cell 1 |
| Maze.CellsAllWalls | app.py:253 | an array filled with 1 holds the all-walls grid |
| Maze.AllWallsReady | app.py:253-254 | dfs may start at (1, 1) on the all-walls grid when h, w >= 2 |
| Maze.CarvedFromWallsIsClosed | app.py:254 | from all walls, dfs's postcondition means every open lattice cell has all its lattice neighbours open |
| Maze.LatticeCellOpen | app.py:254 | in such a grid with (1, 1) open, each lattice cell is open (induction on a + b) |
| Maze.LatticeCovered | app.py:254 | dfs from (1, 1) on walls opens every lattice cell |
| Maze.CarvedKeepsBorder | app.py:254 | for odd h and w, dfs from walls leaves the whole border walled |
| Maze.CarvedFacts | app.py:253-254 | the grid after dfs has the whole lattice open, and for odd dimensions the border walled |
| Maze.OpeningsStart | app.py:255 | before the extra openings, the grid is the carved grid |
| Maze.OpeningsStep | app.py:256 | each extra write keeps the grid 0/1; a cell is 0 exactly when it was 0 after dfs or was hit by a write |
| Maze.OpeningsKeepReach | app.py:255-257 | after the extra writes, every lattice cell is still reachable from (1, 1) |
| Maze.GenerateMaze | app.py:252-257 | the maze is h x w and 0/1; after dfs it is connected with the whole lattice open and, for odd h and w, the border walled; exactly h + w in-bounds extra writes; every lattice cell of the result is reachable from (1, 1) |
| Maze.ExitAt | app.py:242-249 | given draws in range, the exit has odd coordinates and lies within one below the draws; for odd h and w it is strictly inside the grid; its symbol is "E", colour 4 |
| Maze.GenerateExit | app.py:242-249 | the exit is ExitAt of two draws in [h // 2, h - 1] and [w // 2, w - 1] |
| Maze.ExitReachable | app.py:242-257 | for odd h, w >= 3, the exit is strictly inside the grid and reachable from (1, 1) in a generated maze |
| GameState.Target | app.py:123-145 | an arrow's target cell is adjacent to the player |
| GameState.Step | app.py:123-145 | a move changes one coordinate by one or nothing. It changes nothing exactly when the target is off the grid or not 0. From an open cell it lands on an open cell |
| GameState.StepKeepsReach | app.py:123-145 | a move keeps the player reachable from (1, 1) |
| GameState.Move | app.py:123-145 | a move changes only the player's position, as Step says, and keeps the state valid |
| GameState.Visible | app.py:156-157 | a visible cell lies in the 11 x 11 square around the player; the player's own cell is visible; along the player's row or column exactly the cells fewer than 6 away are visible |
| GameState.VisibleBounds | app.py:156-157 | the player's neighbours are visible, and visibility is symmetric |
| GameState.LevelDimsOdd | app.py:109-121 | at every level from 1, the dimensions are odd and at least 7 x 13 |
| GameState.ExitReachableFromPlayer | app.py:109-115 | in every valid state the player can walk to the exit |
| GameState.FreshLevelValid | app.py:109-115 | a new level with the player at (1, 1) is a valid state |
| GameState.LevelLayout | app.py:113-115 | the level's maze and exit form a valid state with the player at the start; every lattice cell is reachable; the exit is ExitAt of draws in range |
| GameState.Store.constructor | app.py:186-188 | before any save the slot is empty |
| GameState.Game.constructor | app.py:104-107 | a new Game is at level 1, 7 x 13, player at the start, valid |
| GameState.Game.GenerateNextLevel | app.py:109-115 | the level goes up by 1, h by 2 and w by 4; the player is back at (1, 1); the state is valid; the exit comes from draws in range |
| GameState.Game.NewGame | app.py:117-121 | after new_game: level 1, 7 x 13, player at the start, valid |
| GameState.Game.MoveDown | app.py:123-127 | the new state is Move(old state, Down) |
| GameState.Game.MoveUp | app.py:129-133 | the new state is Move(old state, Up) |
| GameState.Game.MoveLeft | app.py:135-139 | the new state is Move(old state, Left) |
| GameState.Game.MoveRight | app.py:141-145 | the new state is Move(old state, Right) |
| GameState.Game.ActOnEnter | app.py:147-150 | always answers true; on the exit, goes to the next level; elsewhere, changes nothing |
| GameState.Game.Snapshot | app.py:178-182 | the saved record holds every field of the game unchanged: level, player, exit, dimensions and maze |
| GameState.Game.IsVisible | app.py:156-157 | a cell drawn lies within 5 rows and 5 columns of the player; the player's cell and its four neighbours are always drawn |
| GameState.Game.Save | app.py:176-183 | the slot holds the whole state: level, player, exit, dimensions and maze |
| GameState.Game.Load | app.py:185-197 | with an empty slot, a new game; otherwise the saved state, exactly; valid in both cases |
| MenuState.Next | app.py:60-61 | the cursor moves down one entry and wraps from the last entry to the first |
| MenuState.Prev | app.py:63-64 | the cursor moves up one entry and wraps from the first entry to the last |
| MenuState.NextPrevInverse | app.py:60-64 | down then up, and up then down, restore the cursor |
| MenuState.CycleThree | app.py:60-64 | three presses of one arrow restore the cursor |
| MenuState.Menu.constructor | app.py:57-58 | the cursor starts on "continue" |
| MenuState.Menu.Choice | app.py:72-80 | the entry under the cursor is "exit", "new game" or "continue" exactly for cursor 2, 1 or 0 |
| MenuState.Menu.ActOnDown | app.py:60-61 | the cursor becomes Next of itself |
| MenuState.Menu.ActOnUp | app.py:63-64 | the cursor becomes Prev of itself |
| MenuState.Menu.ActOnLeft | app.py:66-67 | nothing changes |
| MenuState.Menu.ActOnRight | app.py:69-70 | nothing changes |
| MenuState.Menu.ActOnEsc | app.py:83-84 | nothing changes |
| AppController.Toggle | app.py:215-216 | the mode switch maps menu to game and game to menu |
| AppController.ToggleInvolution | app.py:215-216 | switching twice is the identity |
| AppController.KeyDirection | app.py:220-227 | exactly the four arrow codes are moves, each to its direction |
| AppController.App.constructor | app.py:205-208 | a new App is in menu mode with the cursor on "continue" and a fresh game |
| AppController.App.GetState | app.py:210-213 | the active screen is the menu exactly in menu mode, otherwise the game |
| AppController.App.SwitchState | app.py:215-216 | the mode becomes the other mode |
| AppController.App.MenuEnter | app.py:72-81 | answers false exactly on "exit", which changes nothing. Otherwise it switches to the game: "new game" starts one; "continue" loads the saved game, or starts one when nothing was saved |
| AppController.App.GameEsc | app.py:152-154 | Esc in the game saves the whole state and returns to the menu, changing nothing else |
| AppController.App.Act | app.py:218-233 | answers true except for Enter in the menu, where it answers false exactly on "exit". Each key in each mode has its effect as listed. Unknown keys change nothing |
| AppController.SaveQuitResume | test/test_moves.py:46-61 | Esc, then a new App over the same save, then Enter on "continue", brings back the saved level, player, exit, dimensions and maze |

## Left out

- Drawing is not modelled: the `display` methods, `Element.draw`, `safe`,
  the instruction text and main.py are terminal I/O. Which cells `display`
  draws is modelled by the function `Visible` and the member `Game.IsVisible`.
- Files and JSON are not modelled. The `.saved_version` file is the `Store`
  object's optional `slot`. A save file that is corrupted, edited by hand
  or deleted by another program after a save is not modelled; the empty slot
  stands for the file that does not exist yet. `Game.Load` requires the slot to hold what
  `Game.Save` writes.
- `random.randint` is a stream of draws supplied by the caller. Its
  distribution cannot be stated; every result holds for every stream.
- The singleton `App.instance` and the module-level `get()` are not
  modelled. Menu and Game call into one explicit `App` object, which builds
  itself eagerly.
- Maze.Dfs: its precondition describes the only call the program makes (from
  `generate_maze`, on a 0/1 grid whose open cells are connected to (1, 1)).
  dfs on arbitrary lists is not modelled.
- Maze.Dfs: Python's default limit of 1000 stack frames is not modelled.
  `dfs` recurses once per lattice cell it carves, and the carving path can be
  as long as the lattice, 2 * (level + 2)^2 cells. From level 21 on (47 x 93,
  1058 lattice cells) `generate_next_level` can therefore raise
  RecursionError; the model's `Dfs` has unbounded depth and always returns.
- Maze.GenerateMaze: it requires h, w >= 2, because `dfs(maze, 1, 1)` indexes
  row 1 and column 1.
- Maze.GenerateMaze: it writes into a two-dimensional array and returns the
  grid value; the list-of-lists aliasing of Python rows is not modelled.
- GameState.Game.GenerateNextLevel: the player is reset before the maze is
  generated rather than between the maze and the exit. Neither step reads the
  player, so the order does not matter.
- AppController.App.Act: the six key tests are written as one if / else-if
  chain. The key codes are distinct, so at most one of the source's
  independent tests can succeed.
- Level numbering: `new_game` sets level 0 with a 5 x 9 grid and advances
  straight away. The first level the player sees is level 1, 7 x 13, and the
  model states that.
