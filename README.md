# Game of Life kernel

A model of the automaton behind the browser Game of Life in `life.ts`. The
board is a square of `CELLS` = 20 rows of 20 cells. Opposite edges are glued
together, so the board is a torus. Each render computes one generation of
Conway's rule: a dead cell with exactly three live neighbours is born, a
live cell with fewer than two or more than three live neighbours dies, and
every other cell keeps its state.

The project has three modules:

- `Torus` (`torus.dfy`) holds the constant `CELLS`, the pure wrap-around
  `Wrap` and `Fit`. `Fit` is `fit` of life.ts with its two `while` loops,
  proved to return `Wrap(n)`: the value in `[0, CELLS - 1]` congruent to `n`.
  The file also proves the facts about wrapping that the neighbour count
  relies on.
- `Generation` (`generation.dfy`) is the pure specification of one
  generation on a board value (`seq<seq<bool>>`):
  - the neighbour count `Neighbours`, written as `render` writes it;
  - the rule `Rule` and the next state of one cell, `NextCell`;
  - the next board, `NextGen`.

  It also proves properties of that specification:
  - the rule is B3/S23;
  - a dead board stays dead;
  - a cell with no live neighbours is dead next;
  - interior and corner neighbours are what they should be;
  - a generation commutes with shifting the whole torus.
- `Life` (`life.dfy`) is the imperative part, with the grid kept as in
  life.ts: an array of row arrays.
  - `Matrix` and `Copy` build fresh grids.
  - `Board` has the `state` field that `Toggle` writes into and `Render`
    replaces.
  - `GameOfLife` holds the board and the `isPaused` flag that `Pause` flips.
  - `NewGame` is the script at the end of life.ts: a fresh game plus five
    toggles.

`Render` is proved against `NextGen`. Its nested loops write a snapshot
buffer cell by cell. Every neighbour count reads the board itself, which the
loops never write: the snapshot's rows are fresh arrays, distinct from every
row of the board. So each cell of the result depends only on the old board,
whatever the order in which cells are visited. The loop invariant of
`RenderRow` states this: cells before the cursor hold `NextRow`, cells after
it still hold the old board. After the loop the board becomes a copy of the
snapshot, which is `NextGen` of the old board.

life.ts keeps a board as `boolean[][]`, so two rows could in principle be
one array. Every board it builds comes from `matrix` or `copy`, which
make a new array per row. `Board.Valid` therefore requires the rows to be
pairwise distinct (`DistinctRows`), and `Matrix` and `Copy` ensure it.

`toggle(x, y)` writes `state[y][x]`: the first argument is the column and the
second is the row. The comment above the preset script draws the walker with
its live cells at (row 0, column 1), (1, 2), (2, 0), (2, 1) and (2, 2). The
five toggles instead make (row 1, column 0), (2, 1), (0, 2), (1, 2) and
(2, 2) alive, which is the transpose of the picture. Both shapes are gliders.
`NewGame` models the toggles as written.

`toggle` does not wrap its coordinates, and an index off the board does not
set any cell:

- A row `y` outside `[0, CELLS - 1]` makes `state[y]` undefined, so the
  assignment throws a `TypeError`.
- A column `x >= CELLS` grows that row past `CELLS` cells.
- A negative column adds a property named after the number to the row array.
  The row's length and cells stay the same, and `paint` never sees it.

Every call of `toggle` in life.ts passes coordinates on the board: the mouse
handlers pass a cell's own coordinates, and the preset script passes
literals. `Toggle` therefore requires `0 <= x, y < CELLS`.

## Model

| member | source | states |
|---|---|---|
| `Torus.Fit` | life.ts:27-31 | Both loops end. The result lies in `[0, CELLS - 1]`, is congruent to `n` modulo `CELLS`, and equals `Wrap(n)`. |
| `Torus.WrapUnique` | life.ts:27-31 | Only one value in `[0, CELLS - 1]` is congruent to `v`, so any such value is the wrapped index. |
| `Torus.WrapOnBoard` | life.ts:28-30 | An index already on the board is returned unchanged, because neither loop runs. |
| `Torus.WrapEdges` | life.ts:28-30 | `-1` wraps to `CELLS - 1`, and `CELLS` wraps to `0`. |
| `Torus.WrapThenAdd` | life.ts:27-31 | Wrapping an index and then moving it by `b` lands where moving it first and then wrapping would. |
| `Generation.Dead` | life.ts:8-13 | The dead board is `CELLS` by `CELLS` with every cell false. |
| `Generation.Neighbours` | life.ts:122-131 | The neighbour count sums the eight wrapped neighbours and is at most 8. |
| `Generation.NeighboursAreBlockWithoutCentre` | life.ts:122-131 | The count is the live cells of the wrapped 3x3 block around the cell, minus the cell itself. |
| `Generation.InteriorNeighbours` | life.ts:122-131 | For an interior cell, the wrapped neighbours are the plain ±1 offsets. |
| `Generation.CornerNeighbours` | life.ts:122-131 | The neighbours of the corner (0, 0) are row and column `CELLS - 1` and row and column 1. |
| `Generation.RuleIsB3S23` | life.ts:133-138 | The two branches of render give: alive next iff 3 neighbours, or alive now with exactly 2. |
| `Generation.NextCell` | life.ts:133-138 | A cell is alive next iff it has 3 live neighbours, or is alive with exactly 2. |
| `Generation.NextGen` | life.ts:114-142 | One generation keeps the board `CELLS` by `CELLS`. |
| `Generation.DeadIsFixedPoint` | life.ts:114-142 | A dead board is a fixed point of a generation. |
| `Generation.Isolated` | life.ts:133-138 | A cell with no live neighbours is dead in the next generation. |
| `Generation.NeighboursShift` | life.ts:122-131 | Shifting the torus moves neighbour counts with it: the count at a cell of the shifted board is the count at the matching cell of the original. |
| `Generation.NextGenCommutesWithShift` | life.ts:114-142 | Shifting a board and then taking a generation equals taking a generation and then shifting. No cell is special. |
| `Generation.FromCellsAdd` | life.ts:109-110 | Setting row y, column x of a board to alive adds (y, x) to its set of live cells. |
| `Generation.DeadIsFromNoCells` | life.ts:8-13 | The dead board is the board with no live cells. |
| `Life.Matrix` | life.ts:8-13 | Returns `size` fresh, pairwise distinct rows of length `size`, with every cell false. |
| `Life.Copy` | life.ts:19-21 | The copy has the same row count, row lengths and cells. Its outer array and every row are fresh, so it shares no row with the grid it copies. |
| `Life.Board.constructor` | life.ts:104-107 | A board holds the grid it is given. |
| `Life.Board.Toggle` | life.ts:109-112 | Sets exactly the cell in row y, column x to `s`; every other cell is unchanged and the board keeps its shape. |
| `Life.Board.CountNeighbours` | life.ts:122-131 | The count read from the board's arrays through `Fit` equals `Neighbours` of the board value and is at most 8. |
| `Life.Board.RenderRow` | life.ts:120-139 | After the inner loop, buffer row y holds row y of the next generation of the unchanged board. |
| `Life.Board.Render` | life.ts:114-144 | The board becomes `NextGen` of the old board, in fresh arrays, and keeps its shape. |
| `Life.GameOfLife.constructor` | life.ts:166-188 | A new game is paused, on a fresh all-dead board. |
| `Life.GameOfLife.Pause` | life.ts:196-200 | Flips `isPaused` and returns its new value. |
| `Life.PlaceWalkerCell` | life.ts:213-217 | One toggle of the preset script adds its cell to the board's set of live cells. |
| `Life.NewGame` | life.ts:207-217 | After the five preset toggles, a new paused game holds exactly the walker: live cells (1, 0), (2, 1), (0, 2), (1, 2) and (2, 2) as (row, column). |

## Left out

- `Board.paint`, `Cell`, `ArrayOfCells` and the board's `self` element (life.ts:38-97, 101, 146-156) are DOM rendering. They do not touch `state`, so the calls to `paint()` in `toggle` and `render` are dropped.
- The mouse handlers and the globals `mouseIsDown` and `givingLife` (life.ts:33-35, 56-72) are input wiring. Their effect on the board is a `toggle`, which is modelled.
- `play`, `start`, the timer half of `pause`, `RPS`, and the DOM part of the `GameOfLife` constructor (life.ts:5, 166-204) are browser scheduling and elements. Only the board and the `isPaused` flag are kept.
- `gulpfile.js` is not part of this model: it is a build pipeline with no logic of the game.
- `Life.Board.Toggle`: requires in-range coordinates. It does not model what JavaScript does with an index off the board. An off-board row throws a `TypeError`. A column at or past `CELLS` grows the row. A negative column adds a property that is not a cell and leaves the row unchanged.
- `Life.Matrix`: takes a `nat` size. `new Array` with a negative or fractional size, which throws in JavaScript, is not modelled.
- Grids with rows of different lengths, or with two rows that are one array, are excluded by `Board.Valid`. No grid life.ts builds has either.
- Numbers are unbounded integers. The JavaScript values involved are small integers, so floating point plays no part.
- The preset walker is not run forward: the model states the board the script builds, not the generations that follow it.
