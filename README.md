# yacgol: Conway's Game of Life on a torus, in Dafny

yacgol is a small Tkinter program that shows Conway's Game of Life as a grid
of buttons. Each `CellButton` holds one `alive` flag that a click flips. A
`CellGrid` holds `width` rows of `length` buttons. Its `step` first stores
every button's neighbour count and then flips the buttons the rule selects.
The neighbour count adds up eight fixed offsets, and each coordinate wraps
around its axis, so the grid is a torus. The rule uses three constants:
under-population 2, over-population 3 and reproduction 3.

This project models that grid and its rule and proves properties of the model.

- `life.dfy`, module `Life`: the rule on values. It has the three thresholds
  and the eight offsets. A board is `seq<seq<bool>>` indexed `b[y][x]`.
  `Wrap` is Python's `%` for a positive modulus. `CountLive` and
  `NeighborCount` sum the wrapped lookups offset by offset. `NextAlive` is the
  source's three-branch flip rule. `Step` is one generation computed from the
  old board. `Dead`, `Flipped` and `Killed` are the boards that reset, flip
  and initialize produce.
- `life_facts.dfy`, module `LifeFacts`: lemmas about `Life`. The count is the
  number of live offsets. A cell's next state depends only on the old board
  around it. The rule's four branches hold, and the rule is B3/S23. An
  all-dead board stays dead. Flipping twice restores the board. A 1-by-1
  board counts its cell eight times.
- `small_boards.dfy`, module `SmallBoards`: worked 3-by-3 boards. On a 3-by-3
  torus every cell neighbours every other cell exactly once. So a lone cell
  is seen by all eight others, a vertical blinker fills the board, and a full
  board dies.
- `cell_grid.dfy`, module `Yacgol`: the `CellGrid` class. It keeps every
  button's flag in `cells: array2<bool>`, row `y` and column `x`. `Board()`
  relates the array to a `Life` board. The methods change the array in place
  with the source's loops. `Step` runs the two passes `NeighborCounts` and
  `ApplyRules`, and its postcondition is `Board() == Life.Step(old(Board()), …)`.

Four points about what the code does, each of which the model keeps:

- A non-positive dimension is not rejected. `range(n)` is empty for `n <= 0`,
  so the grid simply has no buttons (`Life.Extent`, `CellGrid.constructor`).
  With no buttons no neighbour count is ever taken, so the modulo by zero
  cannot happen.
- On yacgol's 3-by-3 torus every cell neighbours all eight others, so a
  vertical blinker fills the board after one step instead of oscillating
  (`SmallBoards.Blinker3Fills`).
- The neighbour count runs over the eight offsets, not over distinct cells.
  On an axis shorter than 3, two offsets can reach the same cell, or the cell
  itself, and each hit counts (`LifeFacts.LoneCellCountsItself`).
- Nothing in the code checks coordinates: `flip` and `initialize` are methods
  of a button and take none. The grid-level `Flip(x, y)` and
  `Initialize(x, y)` require an in-range (x, y), the only coordinates a
  button has.

## Model

| member | source | states |
|---|---|---|
| Life.Extent | yacgol.py:55-61 | the number of buttons `range(n)` gives an axis: at least n, never negative, and either n or 0, so a non-positive dimension gives an empty axis |
| Life.Wrap | yacgol.py:79 | the wrapped coordinate `c % n` lies in [0, n); it is unchanged inside the axis, -1 wraps to n-1 and n wraps to 0 |
| Life.OffsetAlive | yacgol.py:79 | the wrapped lookup `cell_buttons[(y + j) % width][(x + i) % length].alive`; with no displacement it reads the cell itself |
| LifeFacts.OffsetAliveReads | yacgol.py:79 | a lookup whose target is inside the grid reads that button; a target one past an edge reads the button at the opposite edge |
| Life.CountLive | yacgol.py:77-81 | summing one 0/1 lookup per offset gives at most as many as there are offsets |
| Life.NeighborCount | yacgol.py:77-81 | with the eight fixed offsets the neighbour count is at most 8, and every wrapped index it reads is inside the board |
| Life.NextAlive | yacgol.py:89-95 | the flip chain of apply_rules leaves a cell alive exactly when it is alive with a count between 2 and 3 inclusive, or dead with a count of exactly 3 |
| Life.Step | yacgol.py:83-97 | the next generation has the same dimensions as the old board |
| Life.Dead | yacgol.py:72-75 | the reset board has the grid's dimensions and every cell dead |
| Life.Flipped | yacgol.py:29-35 | flip negates the cell at (x, y), leaves every other cell unchanged and keeps the dimensions |
| Life.Killed | yacgol.py:25-27 | initialize makes the cell at (x, y) dead and leaves every other cell unchanged |
| LifeFacts.LiveOffsetsNext | yacgol.py:77-81 | taking one more offset adds one to the number of live offsets exactly when that offset's cell is alive |
| LifeFacts.LiveOffsetsPrefix | yacgol.py:77-81 | the live offsets of a prefix are the live offsets of the whole list below the cut |
| LifeFacts.CountLiveIsLiveOffsets | yacgol.py:77-81 | the summed count equals the number of offset positions whose wrapped cell is alive, with no merging of offsets that reach the same cell |
| LifeFacts.NeighborCountIsLiveNeighbors | yacgol.py:39-48 | neighbor_count(x, y) is the number of the eight offsets whose wrapped cell is alive, and it is 0 exactly when none of them is alive |
| LifeFacts.CountLiveLocal | yacgol.py:77-81 | two boards that agree on every cell the offsets reach give the same count |
| LifeFacts.StepIsLocal | yacgol.py:83-97 | a cell's next state depends only on its own old state and the old cells its eight offsets reach |
| LifeFacts.StepAt | yacgol.py:83-97 | cell (x, y) after the step is the rule applied to its old state and its count in the old board |
| LifeFacts.StepRule | yacgol.py:89-95 | after a step: a live cell with a count below 2 is dead, a live cell above 3 is dead, a dead cell with exactly 3 is alive, a live cell with 2 or 3 stays alive, and a dead cell with a count other than 3 stays dead |
| LifeFacts.RuleIsB3S23 | yacgol.py:6-8 | with thresholds 2, 3 and 3 the rule is birth on 3 and survival on 2 or 3 |
| LifeFacts.CountLiveDead | yacgol.py:77-81 | on an all-dead board every count is 0 |
| LifeFacts.StepDead | yacgol.py:83-97 | a step leaves an all-dead board all-dead |
| LifeFacts.FlipTwice | yacgol.py:29-35 | flipping the same cell twice restores the board |
| LifeFacts.CountLiveAllAlive | yacgol.py:77-81 | when every offset reaches a live cell, the count is the number of offsets |
| LifeFacts.LoneCellCountsItself | yacgol.py:77-81 | on a 1-by-1 board a live cell counts itself 8 times and dies in the next step |
| SmallBoards.CountLivePrefix | yacgol.py:77-81 | extending the offsets by one adds that offset's 0/1 lookup to the count |
| SmallBoards.CountLive8 | yacgol.py:77-81 | eight offsets give the sum of their eight wrapped lookups |
| SmallBoards.NeighborCountSum | yacgol.py:39-48 | neighbor_count is the sum of the eight lookups at (-1,-1), (-1,0), (-1,1), (0,1), (1,1), (1,0), (1,-1), (0,-1) |
| SmallBoards.NeighborCount3 | yacgol.py:77-81 | on a 3-by-3 board the eight lookups are the cells one step back or ahead on each axis, wrapping at the edges |
| SmallBoards.AroundRow3 | yacgol.py:79 | on an axis of length 3, stepping back, staying and stepping ahead visit each coordinate once |
| SmallBoards.Torus3Count | yacgol.py:77-81 | on a 3-by-3 torus a cell's count is the board's population minus the cell itself |
| SmallBoards.LoneCellSeenEverywhere3 | yacgol.py:77-81 | on a 3-by-3 torus a lone live cell at (0, 0) gives every other cell a count of 1 and itself a count of 0 |
| SmallBoards.Step3At | yacgol.py:83-97 | on a 3-by-3 torus a cell's next state is the rule applied to its own state and the population minus itself |
| SmallBoards.Blinker3Fills | yacgol.py:83-97 | a vertical blinker on a 3-by-3 torus becomes a full board after one step |
| SmallBoards.Full3Dies | yacgol.py:83-97 | a full 3-by-3 board is all dead after one step |
| Yacgol.CellGrid.constructor | yacgol.py:50-65 | a new grid keeps the given length and width, has max(width, 0) rows of max(length, 0) buttons, and every button is dead |
| Yacgol.CellGrid.BoardIsDead | yacgol.py:72-75 | a grid whose every button is dead shows the all-dead board |
| Yacgol.CellGrid.Initialize | yacgol.py:25-27 | the button at (x, y) becomes dead and no other button changes |
| Yacgol.CellGrid.Flip | yacgol.py:29-35 | the button at (x, y) toggles and no other button changes |
| Yacgol.CellGrid.ResetCells | yacgol.py:72-75 | after a reset every button of the grid is dead; the dimensions are fixed fields and do not change |
| Yacgol.CellGrid.CountLiveAt | yacgol.py:77-81 | the count read from the button array equals the count on the grid's board |
| Yacgol.CellGrid.NeighborCount | yacgol.py:77-81 | neighbor_count read from the button array equals the board-level count, and is at most 8 |
| Yacgol.CellGrid.NeighborCounts | yacgol.py:83-87 | the first pass produces a new array holding every button's count in the grid as it is, and changes no button |
| Yacgol.CellGrid.RowCounts | yacgol.py:83-87 | the first pass on one row stores every count of that row, taken on the unmodified grid, and leaves the other rows alone |
| Yacgol.CellGrid.ApplyRules | yacgol.py:89-97 | the second pass sets every button to the rule applied to its old state and its stored count |
| Yacgol.CellGrid.Step | yacgol.py:83-97 | after a step the grid shows the next generation of the old board; every count is taken before any flip |

## Left out

- Tkinter: button colours (`configure(bg=...)`), grid layout and click wiring (yacgol.py:11-26, 63-65). These are display code on a library that is not part of this model.
- `CellButton` objects: each button is reduced to its `alive` flag, stored in `cells[y, x]`. The buttons in the source are distinct objects, so no aliasing is lost.
- The `neighbor_count` attribute that step stores on each button (yacgol.py:85) is a local array of counts in `NeighborCounts`, dropped after `ApplyRules`.
- `_apply_cell_buttons` (yacgol.py:67-70) is written out as the nested row and column loops of `ResetCells` and `ApplyRules`, and as the row loop of `NeighborCounts` around the column loop of `RowCounts`.
- `parse_args` (yacgol.py:100-124): command-line parsing through argparse. The dimensions are constructor parameters.
- `main` and its Step, Reset and Exit buttons and `mainloop` (yacgol.py:127-160): a GUI event loop. Its Step and Reset call `CellGrid.Step` and `CellGrid.ResetCells`.
- Life.Step: its own contract states only the shape of the result. What a step does to each cell is stated by `LifeFacts.StepAt`, `LifeFacts.StepRule` and `LifeFacts.StepIsLocal`.
