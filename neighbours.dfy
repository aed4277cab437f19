/**
 The neighbour counter: the number of live cells among the eight offsets
 around a cell on a torus, where indices wrap around both edges.
 */
module Neighbours {
  import opened Grids

  /**
   The cell at (y, x) on the `rows` x `columns` torus. Python's `%` with a
   positive modulus and Dafny's `%` agree: both land in [0, modulus).
   */
  function At(g: Grid, rows: int, columns: int, y: int, x: int): int
    requires Covers(g, rows, columns)
  {
    g[y % rows][x % columns]
  }

  /**
   Inside the torus a read is the cell itself; one step past an edge it
   is the cell at the opposite edge.
   */
  lemma {:induction false} AtOnTorus(g: Grid, rows: int, columns: int, y: int, x: int)
    requires Covers(g, rows, columns) && 0 <= y < rows && 0 <= x < columns
    ensures At(g, rows, columns, y, x) == g[y][x]
    ensures At(g, rows, columns, -1, x) == g[rows - 1][x] && At(g, rows, columns, rows, x) == g[0][x]
    ensures At(g, rows, columns, y, -1) == g[y][columns - 1] && At(g, rows, columns, y, columns) == g[y][0]
  {
    ModUnique(y, rows, 0, y); ModUnique(-1, rows, -1, rows - 1); ModUnique(rows, rows, 1, 0);
    ModUnique(x, columns, 0, x); ModUnique(-1, columns, -1, columns - 1); ModUnique(columns, columns, 1, 0);
  }

  /** The reference count: the eight cells at offsets (dy, dx) != (0, 0). */
  function NeighbourSum(g: Grid, rows: int, columns: int, y: int, x: int): int
    requires Covers(g, rows, columns)
  {
    At(g, rows, columns, y - 1, x - 1) + At(g, rows, columns, y - 1, x) + At(g, rows, columns, y - 1, x + 1) +
    At(g, rows, columns, y,     x - 1) +                                  At(g, rows, columns, y,     x + 1) +
    At(g, rows, columns, y + 1, x - 1) + At(g, rows, columns, y + 1, x) + At(g, rows, columns, y + 1, x + 1)
  }

  /** The offsets the counter walks through, in its order. */
  const Deltas: seq<int> := [-1, 0, 1]

  /** What one (dy, dx) step adds: nothing for the centre offset. */
  function Term(g: Grid, rows: int, columns: int, y: int, x: int, dy: int, dx: int): int
    requires Covers(g, rows, columns)
  {
    if dy != 0 || dx != 0 then At(g, rows, columns, y + dy, x + dx) else 0
  }

  /** The sum over the first `j` column offsets, for row offset `dy`. */
  function RowPart(g: Grid, rows: int, columns: int, y: int, x: int, dy: int, j: nat): int
    requires Covers(g, rows, columns) && j <= |Deltas|
  {
    if j == 0 then 0
    else RowPart(g, rows, columns, y, x, dy, j - 1) + Term(g, rows, columns, y, x, dy, Deltas[j - 1])
  }

  /** The sum over the first `i` row offsets. */
  function BlockPart(g: Grid, rows: int, columns: int, y: int, x: int, i: nat): int
    requires Covers(g, rows, columns) && i <= |Deltas|
  {
    if i == 0 then 0
    else BlockPart(g, rows, columns, y, x, i - 1) + RowPart(g, rows, columns, y, x, Deltas[i - 1], |Deltas|)
  }

  /** The full walk over all nine offsets is the eight-neighbour sum. */
  lemma BlockPartIsNeighbourSum(g: Grid, rows: int, columns: int, y: int, x: int)
    requires Covers(g, rows, columns)
    ensures BlockPart(g, rows, columns, y, x, |Deltas|) == NeighbourSum(g, rows, columns, y, x)
  {
    forall dy ensures RowPart(g, rows, columns, y, x, dy, 3) ==
      Term(g, rows, columns, y, x, dy, -1) + Term(g, rows, columns, y, x, dy, 0) + Term(g, rows, columns, y, x, dy, 1)
    {
      assert RowPart(g, rows, columns, y, x, dy, 1) == Term(g, rows, columns, y, x, dy, -1);
    }
    assert BlockPart(g, rows, columns, y, x, 1) == RowPart(g, rows, columns, y, x, -1, 3);
  }

  /**
   The counter: two nested loops over the offsets, skipping the centre,
   adding the wrapped cell for every other offset.
   */
  method GetCount(cells: Grid, x: int, y: int, rows: int, columns: int) returns (count: int)
    requires Covers(cells, rows, columns)
    ensures count == NeighbourSum(cells, rows, columns, y, x)
  {
    var deltas := Deltas;
    count := 0;
    for i := 0 to |deltas|
      invariant count == BlockPart(cells, rows, columns, y, x, i)
    {
      var dy := deltas[i];
      for j := 0 to |deltas|
        invariant count == BlockPart(cells, rows, columns, y, x, i) + RowPart(cells, rows, columns, y, x, dy, j)
      {
        var dx := deltas[j];
        if dy != 0 || dx != 0 {
          count := count + cells[(y + dy) % rows][(x + dx) % columns];
        }
      }
    }
    BlockPartIsNeighbourSum(cells, rows, columns, y, x);
  }

  /**
   Every read the counter makes lies inside the grid: the wrapped row is
   one of its first `rows` rows, and the wrapped column lies inside that row.
   */
  lemma {:induction false} WrappedInRange(g: Grid, rows: int, columns: int, y: int, x: int, dy: int, dx: int)
    requires Covers(g, rows, columns)
    ensures 0 <= (y + dy) % rows < rows <= |g|
    ensures 0 <= (x + dx) % columns < columns <= |g[(y + dy) % rows]|
  {
  }

  /** On a grid of 0s and 1s the count lies in [0, 8]. */
  lemma {:induction false} NeighbourSumBounds(g: Grid, rows: int, columns: int, y: int, x: int)
    requires Covers(g, rows, columns) && Binary(g)
    ensures 0 <= NeighbourSum(g, rows, columns, y, x) <= 8
  {
    AtBinary(g, rows, columns, y - 1, x - 1); AtBinary(g, rows, columns, y - 1, x); AtBinary(g, rows, columns, y - 1, x + 1);
    AtBinary(g, rows, columns, y, x - 1);                                              AtBinary(g, rows, columns, y, x + 1);
    AtBinary(g, rows, columns, y + 1, x - 1); AtBinary(g, rows, columns, y + 1, x); AtBinary(g, rows, columns, y + 1, x + 1);
  }

  lemma {:induction false} AtBinary(g: Grid, rows: int, columns: int, y: int, x: int)
    requires Covers(g, rows, columns) && Binary(g)
    ensures 0 <= At(g, rows, columns, y, x) <= 1
  {
    var r, c := y % rows, x % columns;
    assert 0 <= r < |g| && 0 <= c < |g[r]|;
  }

  /**
   On a torus at least 3 x 3 the eight offsets reach eight distinct cells,
   none of them the centre: the centre cell does not count itself.
   */
  lemma {:induction false} CentreExcluded(g: Grid, rows: int, columns: int, y: int, x: int, v: int)
    requires Covers(g, rows, columns) && 3 <= rows && 3 <= columns
    requires 0 <= y < rows && 0 <= x < columns
    ensures Covers(g[y := g[y][x := v]], rows, columns)
    ensures NeighbourSum(g[y := g[y][x := v]], rows, columns, y, x) == NeighbourSum(g, rows, columns, y, x)
  {
    var h := g[y := g[y][x := v]];
    OffsetUnchanged(g, h, rows, columns, y, x, v, -1, -1);
    OffsetUnchanged(g, h, rows, columns, y, x, v, -1, 0);
    OffsetUnchanged(g, h, rows, columns, y, x, v, -1, 1);
    OffsetUnchanged(g, h, rows, columns, y, x, v, 0, -1);
    OffsetUnchanged(g, h, rows, columns, y, x, v, 0, 1);
    OffsetUnchanged(g, h, rows, columns, y, x, v, 1, -1);
    OffsetUnchanged(g, h, rows, columns, y, x, v, 1, 0);
    OffsetUnchanged(g, h, rows, columns, y, x, v, 1, 1);
  }

  lemma {:induction false} OffsetUnchanged(g: Grid, h: Grid, rows: int, columns: int, y: int, x: int, v: int, dy: int, dx: int)
    requires Covers(g, rows, columns) && 3 <= rows && 3 <= columns
    requires 0 <= y < rows && 0 <= x < columns && h == g[y := g[y][x := v]]
    requires -1 <= dy <= 1 && -1 <= dx <= 1 && (dy != 0 || dx != 0)
    ensures Covers(h, rows, columns)
    ensures At(h, rows, columns, y + dy, x + dx) == At(g, rows, columns, y + dy, x + dx)
  {
    OffsetMoves(y, dy, rows);
    OffsetMoves(x, dx, columns);
  }

  /** On a ring of at least 3, a step of -1 or +1 leaves the position and a step of 0 keeps it. */
  lemma {:induction false} OffsetMoves(i: int, d: int, n: int)
    requires 3 <= n && 0 <= i < n && -1 <= d <= 1
    ensures (i + d) % n == i <==> d == 0
  {
    if i + d == -1 {
      assert (i + d) % n == n - 1;
    } else if i + d == n {
      assert (i + d) % n == 0;
    } else {
      assert (i + d) % n == i + d;
    }
  }

  /**
   On a 1 x 1 torus every offset wraps back to the only cell, so that cell
   is counted eight times as its own neighbour.
   */
  lemma {:induction false} SingleCellCountsItself(g: Grid, y: int, x: int)
    requires Covers(g, 1, 1)
    ensures NeighbourSum(g, 1, 1, y, x) == 8 * g[0][0]
  {
  }

  /** Quotient and remainder are the only pair with the remainder in [0, n). */
  lemma {:induction false} ModUnique(k: int, n: int, q: int, r: int)
    requires n > 0 && 0 <= r < n && k == q * n + r
    ensures k % n == r && k / n == q
  {
    var q', r' := k / n, k % n;
    var t := q - q';
    assert t * n == r' - r by {
      assert q * n - q' * n == (q - q') * n;
    }
    if t >= 1 {
      MulAtLeast(t, n);
    } else if t <= -1 {
      MulAtLeast(-t, n);
    }
  }

  lemma {:induction false} MulAtLeast(t: int, n: int)
    requires t >= 1 && n > 0
    ensures t * n >= n
    decreases t
  {
    if t > 1 {
      MulAtLeast(t - 1, n);
      assert t * n == (t - 1) * n + n;
    }
  }
}
