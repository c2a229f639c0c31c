# Game of Life engine, modelled in Dafny

This project models the engine of a Rust Game of Life exercise crate and
proves properties of it. The board is a rectangle of boolean cells stored
row-major: cell (x, y) lives at index `x + y * width`. The engine offers
bounds-checked queries, toggles a cell in place, and runs a `tick` that
applies the B3/S23 rule. The board is bounded, so a neighbour position off
the board counts as dead. `tick` is double-buffered: it reads the old
generation and writes a copy.

The modules follow the crate's files:

- `Life` (life.dfy) is the shared specification, written as values:
  - `Cell` is the bounds-checked query;
  - `LiveNeighbours` is the neighbour count;
  - `Rule` is B3/S23;
  - `Next` is one generation;
  - `Toggle` flips one cell.

  Every grid implementation below (all but the deliberately broken
  `BrokenGame`) is proved equal to these functions. Small patterns (an
  isolated cell, the block, the blinker) are worked through `Next`.
- `ConwayTrait` (conway_trait.dfy) is the `GameOfLife` interface of the
  conway crate. It is written as predicates over what a caller observes,
  the answer of `is_cell_alive` at every position:
  - `QueryObeys`;
  - `ToggleObeys`;
  - `TickObeys`.

  A row-major grid is proved to obey all three, and `BrokenGame` is proved to break them.
- `ConwaySolution` (conway_solution.dfy) is the conway crate's reference
  solution. It has unsigned coordinates and a neighbour loop whose offsets
  start at 1 on the first row and column.
- `ConwayBroken` (conway_broken.dfy) is the deliberately wrong one-boolean
  implementation and its test.
- `AppSolution` (app_solution.dfy) is the application's solution. It has
  signed coordinates with an explicit negative check.
- `AppBoard` (app_board.dfy) is the application's fixed 49 × 40 array board.
  Its constructor seeds a ring one cell in from the edges.
- `AppMain` (app_main.dfy) is `apply_default_pattern`, the border-seeding
  routine, run on an `AppBoard.GameOfLife`.
- `Wrappers` (wrappers.dfy) is the `Option` type.

In every grid implementation (all but `BrokenGame`), `tick`/`update` is an
imperative method over a copy of the playground, and is proved to produce
`Life.Next` of the old playground. The neighbour
count loops and the three differently written rule `if`-chains are proved
equal to `Life.LiveNeighbours` and `Life.Rule`. Methods that change a
playground state the whole new playground in terms of `Life.Toggle` or
`Life.Next`.

## Model

| member | source | states |
|---|---|---|
| Life.IndexOfCoords | conway/src/game_of_life_solution.rs:143-144 | index u is cell (x, y) exactly when u % width == x and u / width == y: `x + y * width` and the `%`/`/` split in `tick` are inverse |
| Life.CellAtIndex | conway/src/game_of_life_solution.rs:142-144 | every index of a complete board is the cell (u % w, u / w), which is on the board and holds the value stored at u |
| Life.OriginIsFirstCell | conway/src/game_of_life.rs:12-13 | (0, 0) is the top-left cell, the first one stored |
| Life.CellOfToggle | conway/src/game_of_life.rs:8-14 | toggling (x, y) negates that cell when it is on the board and changes no other position; off the board it changes nothing |
| Life.ToggleTwice | conway/src/game_of_life.rs:8-10 | toggling the same cell twice restores the board |
| Life.NextAt | conway/src/game_of_life_solution.rs:142-181 | entry u of the next generation is the rule applied to old entry u and the live neighbours of (u % w, u / w) in the old board, and the length is kept |
| Life.CellOfNext | conway/src/game_of_life.rs:16-18 | each on-board cell of the next generation is the rule applied to its old value and its old live-neighbour count |
| Life.NeighbourTerms | conway/src/game_of_life_solution.rs:152-164 | the neighbour count is the sum over the eight Moore neighbours, off-board ones counting 0, and is at most 8 |
| Life.ClippedBoxSum | conway/src/game_of_life_solution.rs:145-153 | starting the column (row) offsets at 0 instead of -1 on the left column (top row) drops only off-board positions, so the count is unchanged |
| Life.NextOfDeadIsDead | conway/src/game_of_life_solution.rs:168-172 | an all-dead board stays all-dead after a generation |
| Life.NextOfPattern | conway/src/game_of_life.rs:16-18 | a board drawing a pattern p steps to the board drawing q whenever q is the rule applied to p's neighbour counts at every cell |
| Life.LoneCellDies | conway/src/game_of_life.rs:16-18 | on a 3 × 3 board with only the centre alive, every cell is dead after one tick |
| Life.BlockIsStill | conway/src/game_of_life.rs:16-18 | the fully live 2 × 2 block is unchanged by a tick, so it is a still life |
| Life.BlinkerTurns | conway/src/game_of_life.rs:16-18 | on a 5 × 5 board the horizontal blinker becomes the vertical one through the same middle cell, and a second tick restores it |
| Life.BlinkerHasPeriodTwo | conway/src/game_of_life.rs:16-18 | the blinker differs from itself after one tick and is back after two |
| ConwayTrait.GridObeysQuery | conway/src/game_of_life.rs:4-6 | a row-major grid answers Some(alive) exactly on its width × height board and None elsewhere |
| ConwayTrait.GridObeysToggle | conway/src/game_of_life.rs:8-14 | toggling a grid cell obeys the toggle contract at every position |
| ConwayTrait.ObservedGridNeighbours | conway/src/game_of_life.rs:16-18 | the neighbours a caller counts through the query equal the count over storage |
| ConwayTrait.GridObeysTick | conway/src/game_of_life.rs:16-24 | a grid's next generation keeps the board size and obeys the tick contract at every cell |
| ConwaySolution.DeadBoard | conway/src/game_of_life_solution.rs:106-111 | `new` allocates width * height cells, all dead |
| ConwaySolution.ZeroWidthLosesHeight | conway/src/game_of_life_solution.rs:106-111 | with width 0, every height gives the same empty board, so no `height()` can recover the height that was asked for |
| ConwaySolution.GameOfLifeSolution.constructor | conway/src/game_of_life_solution.rs:106-112 | for width > 0, a board of width * height dead cells whose width() and height() are the requested ones |
| ConwaySolution.GameOfLifeSolution.GetCellMut | conway/src/game_of_life_solution.rs:114-120 | Some(x + y * width), an index inside the playground, exactly when x < width and y < height; otherwise None |
| ConwaySolution.GameOfLifeSolution.IsCellAlive | conway/src/game_of_life_solution.rs:124-130 | Some(playground[x + y * width]) exactly when x < width and y < height, None otherwise |
| ConwaySolution.GameOfLifeSolution.ToggleCell | conway/src/game_of_life_solution.rs:132-138 | the new playground is `Toggle` of the old one, so it negates cell (x, y) in bounds and nothing else; width and height are kept |
| ConwaySolution.GameOfLifeSolution.Tick | conway/src/game_of_life_solution.rs:140-182 | the new playground is `Next` of the old one, computed into a clone that replaces it; width and height are kept |
| ConwaySolution.GameOfLifeSolution.CountLiveNeighbours | conway/src/game_of_life_solution.rs:145-164 | the unsigned offset loops count exactly the live on-board Moore neighbours of (x, y) |
| ConwaySolution.GameOfLifeSolution.CountColumn | conway/src/game_of_life_solution.rs:153-163 | the inner loop counts the live cells of one neighbour column, leaving out the cell itself |
| ConwaySolution.GameOfLifeSolution.ApplyRule | conway/src/game_of_life_solution.rs:168-179 | the if-chain computes `count == 3`, or `count == 2` for a live cell, including the dead-with-two case that falls through every branch |
| ConwaySolution.GameOfLifeSolution.Width | conway/src/game_of_life_solution.rs:184-186 | on a well-formed board the width is positive and the playground holds `height()` whole rows of it |
| ConwaySolution.GameOfLifeSolution.Height | conway/src/game_of_life_solution.rs:188-190 | height * width is the playground length |
| ConwayBroken.BrokenGame.constructor | conway/src/game_of_life_broken.rs:17-21 | only positive dimensions are accepted; the cell starts alive and the reported size is 49 × 40 whatever was asked |
| ConwayBroken.BrokenGame.IsCellAlive | conway/src/game_of_life_broken.rs:25-28 | Some(cell_state) at every position, never None |
| ConwayBroken.BrokenGame.ToggleCell | conway/src/game_of_life_broken.rs:32-35 | negates the one cell whatever the coordinates |
| ConwayBroken.BrokenGame.Tick | conway/src/game_of_life_broken.rs:37-43 | negates the one cell, so two ticks restore it |
| ConwayBroken.BrokenGame.Width | conway/src/game_of_life_broken.rs:45-47 | always 49, whatever width was asked for; `BrokenGameBreaksContract` shows that the query answers off this board |
| ConwayBroken.BrokenGame.Height | conway/src/game_of_life_broken.rs:49-51 | always 40, whatever height was asked for; `BrokenGameBreaksContract` shows that the query answers off this board |
| ConwayBroken.BrokenGameBreaksContract | conway/src/game_of_life_broken.rs:25-35 | the broken game answers off the board and a toggle of (1, 1) shows at (0, 0), against the query and toggle contracts |
| ConwayBroken.BrokenTickBreaksContract | conway/src/game_of_life_broken.rs:37-43 | from a dead cell, the broken tick brings every cell to life, against the tick contract |
| ConwayBroken.BrokenGameIsDefinitelyBroken | conway/src/game_of_life_broken.rs:60-77 | the crate's test: (0, 0) reads Some(true) before and Some(false) after toggling (1, 1) |
| AppSolution.GameOfLifeSolution.constructor | src/game_of_life_solution.rs:103-109 | a board of width * height dead cells whose width() and height() are the requested ones |
| AppSolution.GameOfLifeSolution.GetCellMut | src/game_of_life_solution.rs:111-117 | Some(x + y * width) exactly when 0 <= x < width and 0 <= y < height; otherwise None |
| AppSolution.GameOfLifeSolution.IsCellAlive | src/game_of_life_solution.rs:121-127 | None exactly for x < 0, y < 0, x >= width or y >= height; otherwise Some(playground[x + y * width]) |
| AppSolution.GameOfLifeSolution.ToggleCell | src/game_of_life_solution.rs:129-135 | the new playground is `Toggle` of the old one; width and height are kept |
| AppSolution.GameOfLifeSolution.Tick | src/game_of_life_solution.rs:137-164 | the new playground is `Next` of the old one, computed into a clone that replaces it |
| AppSolution.GameOfLifeSolution.CountLiveNeighbours | src/game_of_life_solution.rs:144-154 | the loops over offsets -1 .. 1, skipping (0, 0), count exactly the live on-board Moore neighbours |
| AppSolution.GameOfLifeSolution.CountColumn | src/game_of_life_solution.rs:145-153 | the inner loop counts the live cells of one neighbour column, leaving out the cell itself |
| AppSolution.GameOfLifeSolution.ApplyRule | src/game_of_life_solution.rs:155-161 | the if-chain, with its self-assignment for two neighbours, computes `count == 3`, or `count == 2` for a live cell |
| AppSolution.GameOfLifeSolution.Width | src/game_of_life_solution.rs:166-168 | on a well-formed board the width is positive and the playground holds `height()` whole rows of it |
| AppSolution.GameOfLifeSolution.Height | src/game_of_life_solution.rs:170-172 | height is non-negative and height * width is the playground length |
| AppSolution.TicksAgree | src/game_of_life_solution.rs:155-161 | from the same playground and width, this tick and the conway crate's tick reach the same playground |
| AppBoard.IndexOrder | src/game_of_life.rs:85-91 | element u of the cell array is cell (u % 49, u / 49) |
| AppBoard.SeededCell | src/game_of_life.rs:11-27 | after seeding, cell (x, y) of the board is alive exactly on the ring, corners included |
| AppBoard.GameOfLife.constructor | src/game_of_life.rs:11-27 | the two seeding loops write only in-bounds indices and leave index u alive exactly when (u % 49, u / 49) is on the ring |
| AppBoard.GameOfLife.Get | src/game_of_life.rs:29-36 | None exactly for a negative coordinate or one at or past 49 / 40; otherwise the stored cell |
| AppBoard.GameOfLife.GetMut | src/game_of_life.rs:38-45 | Some(x + y * 49), inside the array, exactly for an on-board (x, y) |
| AppBoard.GameOfLife.ToggleCell | src/game_of_life.rs:47-51 | the array afterwards is `Toggle` of the array before |
| AppBoard.GameOfLife.Update | src/game_of_life.rs:53-80 | the array afterwards is `Next` of the array before, computed into a copy that then replaces it |
| AppBoard.GameOfLife.CountLiveNeighbours | src/game_of_life.rs:60-70 | the loops count exactly the live on-board Moore neighbours |
| AppBoard.GameOfLife.CountColumn | src/game_of_life.rs:61-69 | the inner loop counts the live cells of one neighbour column, leaving out the cell itself |
| AppBoard.GameOfLife.Cells | src/game_of_life.rs:85-91 | the cells in array order: 49 * 40 of them, element u being what `get(u % 49, u / 49)` answers |
| AppMain.RowPassStep | src/main.rs:103-106 | one round of the first loop adds one toggle at (x, 1) and one at (x, 38) |
| AppMain.ColumnPassStep | src/main.rs:108-111 | one round of the second loop adds one toggle at (1, y) and one at (47, y) |
| AppMain.ApplyDefaultPattern | src/main.rs:100-112 | every cell ends toggled as often as the two loops reach it, `TogglesAt` |
| AppMain.TogglesStayOnRing | src/main.rs:103-111 | exactly the ring cells are toggled, and every toggled coordinate is on the 49 × 40 board |
| AppMain.CornersToggledTwice | src/main.rs:103-111 | the four corners are toggled twice and every other ring cell once |
| AppMain.PatternOnDeadBoard | src/main.rs:100-112 | from an all-dead board, the result is alive exactly on the ring without its corners |
| AppMain.PatternOnSeededBoard | src/main.rs:100-112 | from the board as `new` seeds it, only the four corners are alive afterwards |

## Left out

- The SDL2 user interface and its render and event loop are not modelled. They are I/O.
- Command-line parsing and implementation dispatch in src/main.rs are not modelled.
- The unimplemented pattern-file loader is not modelled.
- The benchmark harnesses only call `tick` repeatedly, and are not modelled.
- conway/src/game_of_life_mine.rs is not modelled: every method in it is unimplemented.
- conway/src/lib.rs is not modelled: it holds only module declarations and re-exports.
- The `println!`/`eprintln!` diagnostics are side output and are left out.
- Machine integers are modelled as mathematical integers:
  - overflow of `width * height` and of `x + y * width` is not modelled;
  - the `as i32`/`as u32`/`as usize` casts are not modelled;
  - the u32 neighbour counter cannot overflow, since it is at most 8.
- The interface is stated as predicates over observations rather than as
  a Dafny trait. Each grid implementation (all but `BrokenGame`) is tied
  to it through its query, which is proved equal to `Life.Cell`.
  `BrokenGame`'s query is tied to `ConwayBroken.BrokenView` instead.
- In both solutions' `tick`, each loop body's neighbour count and rule are
  split into methods (`CountLiveNeighbours`, `CountColumn`, `ApplyRule`).
  The source has them inline. In the array board's `update`, only the
  neighbour count is split out (`CountLiveNeighbours`, `CountColumn`). Its
  rule stays inline, as in the source. The loops and branches are the
  source's.
- AppBoard.GameOfLife.Update: the copy of the fixed-size array is a sequence
  value that is written back over the same array at the end. This matches
  Rust's by-value array assignment. Array identity across the update is not
  otherwise modelled.
- The src/ files come from mismatched revisions: src/main.rs calls
  constructors and uses types the shown files do not define. So
  `apply_default_pattern` is modelled on the board type that the shown
  src/game_of_life.rs defines.
- ConwaySolution.GameOfLifeSolution.constructor requires a positive width,
  which the source does not check. See the finding below.
- AppSolution.GameOfLifeSolution.constructor requires `width > 0` and
  `height >= 0`, which the source does not check. With width 0 the source's
  `height()` divides by zero. The `(width * height) as usize` cast wraps
  only when exactly one dimension is negative and the other is non-zero.
  The product is then negative and becomes a length near 2^64, which cannot
  be allocated. When both dimensions are negative, say `new(-2, -3)`, the
  product is positive. The source then builds 6 cells with width -2, every
  query answers None, a tick kills every cell, and `height()` is -3. A
  negative dimension with the other 0 gives an empty board. None of these
  cases is modelled.
- Neither solution's constructor rejects a height of 0. Both accept it and
  build an empty board, whose every query answers None and whose tick
  changes nothing. The model follows the code here. It does not model a
  failing construction for height 0, which only `BrokenGame::new` has.

## Findings

| source | as written | input that shows it | evidently intended | confidence | as-written member | corrected member |
|---|---|---|---|---|---|---|
| conway/src/game_of_life_solution.rs:106-111, 188-190 | `new` accepts width 0 and builds an empty playground; `height()` then divides by the width | `new(0, 5)`: the playground is empty, so the height 5 is lost, and `height()` divides by zero | a positive width, as the other constructors assert, so that `height()` returns the requested height | medium, not executed | ConwaySolution.ZeroWidthLosesHeight | ConwaySolution.GameOfLifeSolution.constructor |
