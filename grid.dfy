/**
 A generation of the Game of Life is a grid of integer cells, stored row by
 row. A cell is dead when it is 0 and live otherwise; the grids built by the
 program itself only ever hold 0 and 1.
 */
module Grids {

  type Row = seq<int>
  type Grid = seq<Row>

  /** The number of elements Python's `range(n)` and `[v] * n` produce. */
  function Clamp(n: int): (k: nat)
    ensures n > 0 ==> k == n
    ensures n <= 0 ==> k == 0
  {
    if n > 0 then n else 0
  }

  /** Every row has the same length. */
  predicate Rectangular(g: Grid) {
    forall y | 0 <= y < |g| :: |g[y]| == |g[0]|
  }

  /** Every cell is 0 or 1. */
  predicate Binary(g: Grid) {
    forall y, x | 0 <= y < |g| && 0 <= x < |g[y]| :: g[y][x] == 0 || g[y][x] == 1
  }

  /** Every cell is 0. */
  predicate AllDead(g: Grid) {
    forall y, x | 0 <= y < |g| && 0 <= x < |g[y]| :: g[y][x] == 0
  }

  /**
   What a stepper needs of its input: at least one row (the first row is
   read to find the width) and no row shorter than the first one (every
   row is read up to that width). Rows longer than the first are allowed;
   their extra cells are never read.
   */
  predicate Steppable(g: Grid) {
    |g| > 0 && forall y | 0 <= y < |g| :: |g[0]| <= |g[y]|
  }

  /**
   What a neighbour count over a `rows` x `columns` torus needs: positive
   dimensions (both are used as a modulus) and that many rows, each at
   least `columns` long.
   */
  predicate Covers(g: Grid, rows: int, columns: int) {
    0 < rows <= |g| && 0 < columns &&
    forall y | 0 <= y < rows :: columns <= |g[y]|
  }

  /**
   The all-dead grid of `rows` rows of `columns` cells each; non-positive
   sizes give no rows, or empty rows, as Python's list repetition does.
   */
  function ZeroCells(rows: int, columns: int): (z: Grid)
    ensures |z| == Clamp(rows)
    ensures forall y | 0 <= y < |z| :: |z[y]| == Clamp(columns)
    ensures Rectangular(z)
  {
    seq(Clamp(rows), _ => seq(Clamp(columns), _ => 0))
  }

  /** Every cell of the all-dead grid is 0. */
  lemma ZeroCellsDead(rows: int, columns: int)
    ensures AllDead(ZeroCells(rows, columns)) && Binary(ZeroCells(rows, columns))
  {
  }
}
