# Conway's Game of Life on a torus, in Dafny

This project models `gameOfLife.py`, a small Python implementation of
Conway's Game of Life. It uses the B3/S23 rule on a toroidal grid: the
grid's opposite edges are adjacent. The model covers five parts:

- the grid factory `zeroCells`;
- the neighbour counter `getCount`, which sums the eight wrapped
  neighbours of a cell;
- the generation stepper `tick`, which fills a fresh grid cell by cell
  from the old one;
- the text renderer `showRow` / `showCells`;
- the silent path of the simulation driver `simulate`, which applies
  `tick` a given number of times and returns the result.

A grid is a `seq<seq<int>>` of rows (module `Grids`). The program never
changes a grid once it is built. `tick` writes only its own freshly
allocated `newCells`; the model keeps that as a local sequence and
updates it one cell at a time. `getCount`, `tick` and `simulate` are
methods with loops. Each is proved equal to a pure specification:

- `NeighbourSum`: the eight wrapped neighbour cells, written out;
- `Next`: the B3/S23 rule applied to every cell;
- `Iterate`: `Next` applied `n` times.

The lemmas then state the program's properties about those functions:

- dimensions are kept and cells stay 0/1;
- the count lies in [0, 8];
- the count depends only on the wrapped 3 x 3 window;
- the all-dead grid never changes;
- the torus has no edges: shifting the grid cyclically commutes with stepping;
- block, blinker and wrap-around examples behave as expected;
- splitting the rendering into lines gives back one rendered row per grid row.

Files: `grid.dfy` (Grids), `neighbours.dfy` (Neighbours), `stepper.dfy`
(Stepper), `render.dfy` (Render), `driver.dfy` (Driver), `patterns.dfy`
(Patterns).

The model follows the code:

- Cells are arbitrary integers. 0 is dead and every other value is live
  (Python truthiness in `tick`, `== 0` in `showRow`). The grids the
  program itself builds hold only 0 and 1, which `Next` ensures.
- `tick` needs at least one row, because it reads `cells[0]`. It also
  needs every row to be at least as long as the first one (predicate
  `Steppable`). Longer rows are accepted, and their extra cells are
  dropped. A first row of length 0 gives a grid of empty rows.
- `zeroCells` with a non-positive size gives no rows or empty rows.
  `simulate` with a non-positive count returns its input unchanged.
- The count in [0, 8] comes from adding eight cells. It is not a count of
  eight distinct cells. On a torus narrower than 3 in either direction,
  several offsets reach the same cell, and sometimes the centre cell itself.
  On a 1 x 1 grid the one cell is counted eight times, so a live cell
  always dies (`SingleCellCountsItself`, `SingleCellDies`). From 3 x 3 up
  the centre never counts itself (`CentreExcluded`).
- Python's `%` with a positive modulus and Dafny's `%` both give a result
  in [0, modulus), so the wrapped indices are the same in both.

## Model

| member | source | states |
|---|---|---|
| `Grids.ZeroCells` | gameOfLife.py:15-16 | `rows` rows (none if `rows <= 0`), each of `columns` cells (none if `columns <= 0`); the grid is rectangular |
| `Grids.ZeroCellsDead` | gameOfLife.py:15-16 | every cell of `zeroCells` is 0, so the grid is all dead and 0/1 |
| `Neighbours.GetCount` | gameOfLife.py:40-47 | the nested loops over the offsets `Deltas` = -1, 0, 1 (centre skipped) return exactly the sum of the eight wrapped neighbours `NeighbourSum` |
| `Neighbours.AtOnTorus` | gameOfLife.py:46 | the wrapped read `At` of a position inside the torus is that cell; one step past the top, bottom, left or right edge it is the cell at the opposite edge |
| `Neighbours.WrappedInRange` | gameOfLife.py:46 | on a grid that covers the torus, every wrapped read `(y + dy) % rows`, `(x + dx) % columns` names one of the grid's rows and a cell inside that row, for any `y`, `x`, `dy`, `dx` |
| `Neighbours.NeighbourSumBounds` | gameOfLife.py:40-47 | on a 0/1 grid the neighbour count lies in [0, 8] |
| `Neighbours.CentreExcluded` | gameOfLife.py:43-46 | on a torus of at least 3 x 3, changing the centre cell leaves its own count unchanged: the centre is not one of its neighbours |
| `Neighbours.SingleCellCountsItself` | gameOfLife.py:40-47 | on a 1 x 1 torus all eight offsets wrap to the only cell, so the count is 8 times that cell |
| `Stepper.Rule` | gameOfLife.py:35-37 | the new value of a cell is always 0 or 1 |
| `Stepper.NextValue` | gameOfLife.py:33-37 | the new value of cell (y, x) is 0 or 1, and it is 1 exactly when the cell's count on the old grid is 3, or is 2 and the old cell is live |
| `Stepper.Next` | gameOfLife.py:27-38 | the next generation has as many rows as the input and as many columns as its first row; it is rectangular and holds only 0s and 1s |
| `Stepper.Tick` | gameOfLife.py:27-38 | filling a fresh all-dead grid cell by cell, with counts taken from the unchanged old grid, yields exactly `Next(cells)` |
| `Stepper.NextCell` | gameOfLife.py:33-37 | B3/S23: a new cell is 1 iff its old count is 3, or the count is 2 and the old cell is live; otherwise it is 0 |
| `Stepper.NextKeepsShape` | gameOfLife.py:28-31 | on a rectangular grid the next generation has the same rows x columns |
| `Stepper.NextIsLocal` | gameOfLife.py:33-34 | the next value of a cell depends only on the old cells in its wrapped 3 x 3 window: two grids that agree there agree on it |
| `Stepper.ZeroCellsStill` | gameOfLife.py:33-37 | the all-dead grid is a fixed point: `Next(ZeroCells(r, c)) == ZeroCells(r, c)` for `r >= 1` |
| `Stepper.NextCommutesWithShift` | gameOfLife.py:27-47 | wrap-around makes every position alike: shifting a rectangular grid cyclically on the torus and then stepping it equals stepping it and then shifting it |
| `Render.Join` | gameOfLife.py:22-25 | joining no pieces gives the empty string; joining one piece gives that piece |
| `Render.JoinEnds` | gameOfLife.py:22-25 | joining two or more pieces gives a text that starts with the first piece and the separator and ends with the separator and the last piece |
| `Render.Glyph` | gameOfLife.py:25 | a cell's glyph is `*` exactly when the cell is non-zero, and a space otherwise |
| `Render.ShowRow` | gameOfLife.py:24-25 | the line is `[`, then the glyphs in cell order at the odd positions with single spaces between them, then `]`; its length is `2c + 1` for `c >= 1` cells and 2 for an empty row |
| `Render.ShowRowGlyphAt` | gameOfLife.py:25 | position `2i + 1` of a row's line is `*` exactly when cell `i` is live |
| `Render.JoinSingles` | gameOfLife.py:25 | joining one-character strings with a one-character separator puts the pieces at the even positions and the separator at the odd ones; the result has length `2n - 1` |
| `Render.ShowCells` | gameOfLife.py:21-22 | the empty grid renders as the empty string; otherwise splitting the text at line breaks gives exactly one rendered row per grid row, in row order |
| `Render.LinesOfJoin` | gameOfLife.py:22 | splitting at line breaks undoes joining with line breaks, when no piece contains a line break |
| `Driver.Iterate` | gameOfLife.py:5-10 | after one or more generations the grid keeps its number of rows and its first row's width, is rectangular and holds only 0s and 1s |
| `Driver.Simulate` | gameOfLife.py:4-13 | the silent run returns `Next` applied `iterations` times (none if `iterations <= 0`); with no steps it returns its input unchanged |
| `Driver.IterateAdd` | gameOfLife.py:6-10 | running `m` generations and then `n` more equals running `m + n` |
| `Driver.ZeroCellsStayDead` | gameOfLife.py:6-10 | the all-dead grid is unchanged by any number of generations |
| `Driver.Periodic` | gameOfLife.py:6-10 | a grid that returns after `p` generations returns after every multiple of `p` |
| `Driver.IterateCommutesWithShift` | gameOfLife.py:6-10 | shifting the grid cyclically commutes with any number of generations |
| `Patterns.CornerWrapsAround` | gameOfLife.py:46 | in a 3 x 3 grid whose only live cell is (0, 0), the cells (2, 2), (2, 0) and (0, 2) each count one live neighbour |
| `Patterns.BlockIsStill` | gameOfLife.py:27-38 | a 2 x 2 block in a 4 x 4 grid is a still life |
| `Patterns.BlinkerRowTurns` | gameOfLife.py:27-38 | in a 5 x 5 grid a row of three live cells becomes a column of three |
| `Patterns.BlinkerColumnTurns` | gameOfLife.py:27-38 | the column of three turns back into the row |
| `Patterns.BlinkerPeriodTwo` | gameOfLife.py:4-13 | the blinker is back in its row after every even number of generations |
| `Patterns.SingleCellDies` | gameOfLife.py:27-47 | a 1 x 1 grid becomes `[[0]]` whatever its cell holds |

## Left out

- `randomCells` (gameOfLife.py:18-19) is not modelled. It reads Python's
  global random generator and rounds a float.
- The streaming branch of `simulate` (gameOfLife.py:7-9, 11-12) is not
  modelled. It prints an iteration label and the rendered grid, sleeps for
  `delay` seconds, and returns `None`. The `showSteps` and `delay`
  parameters are therefore absent. `Driver.Simulate` is the `showSteps=False` call.
- What happens when a precondition fails is not modelled: an empty grid,
  a row shorter than the first, or a count over a zero-sized torus.
  Python raises `IndexError` or `ZeroDivisionError` there. These are
  preconditions (`Steppable`, `Covers`). `Covers` also rules out negative
  sizes and more rows than the grid holds, which only a direct call of
  `getCount` can pass; with a negative modulus Python reads through
  negative indices and returns a count instead of raising.
- Cells are modelled as integers. Python would also accept other values
  that support truthiness, addition and `== 0` (booleans, floats).
- Python lists are mutable and may share rows. Aliasing is not modelled.
  No modelled operation writes to a grid it receives. `tick` writes only
  its own `newCells`, whose rows `zeroCells` builds separately.
