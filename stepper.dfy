/**
 The generation stepper: the B3/S23 rule applied to every cell at once,
 with every neighbour count taken from the old generation.
 */
module Stepper {
  import opened Grids
  import opened Neighbours

  /**
   The value a cell takes in the next generation, from its current value
   and its live-neighbour count: a dead cell with exactly three live
   neighbours is born, a live cell with two or three survives, every other
   cell is dead. Python's truthiness makes any non-zero value live.
   */
  function Rule(value: int, count: int): (v: int)
    ensures v == 0 || v == 1
  {
    var birth := value == 0 && count == 3;
    var survive := value != 0 && (count == 2 || count == 3);
    if birth || survive then 1 else 0
  }

  /**
   The value cell (y, x) takes in the next generation of `g`, counted on
   the torus of `g`'s rows and its first row's width: 1 for a birth or a
   survival, 0 otherwise.
   */
  function NextValue(g: Grid, y: int, x: int): (v: int)
    requires Steppable(g) && 0 <= y < |g| && 0 <= x < |g[0]|
    ensures v == 0 || v == 1
    ensures Covers(g, |g|, |g[0]|)
    ensures var n := NeighbourSum(g, |g|, |g[0]|, y, x); v == 1 <==> n == 3 || (g[y][x] != 0 && n == 2)
  {
    Rule(g[y][x], NeighbourSum(g, |g|, |g[0]|, y, x))
  }

  /**
   The next generation: a grid with as many rows as `g` and as many
   columns as the first row of `g`, of 0s and 1s.
   */
  function Next(g: Grid): (r: Grid)
    requires Steppable(g)
    ensures |r| == |g| && |r[0]| == |g[0]|
    ensures Rectangular(r) && Binary(r) && Steppable(r)
  {
    seq(|g|, y requires 0 <= y < |g| => seq(|g[0]|, x requires 0 <= x < |g[0]| => NextValue(g, y, x)))
  }

  /**
   The stepper: a fresh all-dead grid of the same size, filled row by row
   and cell by cell from the old grid, which is never written.
   */
  method Tick(cells: Grid) returns (newCells: Grid)
    requires Steppable(cells)
    ensures newCells == Next(cells)
  {
    var rows := |cells|;
    var columns := |cells[0]|;
    newCells := ZeroCells(rows, columns);
    for y := 0 to rows
      invariant |newCells| == rows
      invariant forall i | 0 <= i < rows :: |newCells[i]| == columns
      invariant forall i, j | 0 <= i < y && 0 <= j < columns :: newCells[i][j] == NextValue(cells, i, j)
    {
      for x := 0 to columns
        invariant |newCells| == rows
        invariant forall i | 0 <= i < rows :: |newCells[i]| == columns
        invariant forall i, j | 0 <= i < y && 0 <= j < columns :: newCells[i][j] == NextValue(cells, i, j)
        invariant forall j | 0 <= j < x :: newCells[y][j] == NextValue(cells, y, j)
      {
        var value := cells[y][x];
        var count := GetCount(cells, x, y, rows, columns);
        var birth := value == 0 && count == 3;
        var survive := value != 0 && (count == 2 || count == 3);
        newCells := newCells[y := newCells[y][x := if birth || survive then 1 else 0]];
      }
    }
    NextByCells(cells, newCells);
  }

  /** A grid of the right shape holding the next value in every cell is the next generation. */
  lemma NextByCells(g: Grid, h: Grid)
    requires Steppable(g) && |h| == |g| && forall y | 0 <= y < |h| :: |h[y]| == |g[0]|
    requires forall y, x | 0 <= y < |g| && 0 <= x < |g[0]| :: h[y][x] == NextValue(g, y, x)
    ensures h == Next(g)
  {
    var n := Next(g);
    forall y | 0 <= y < |g| ensures h[y] == n[y] {
      assert forall x | 0 <= x < |g[0]| :: h[y][x] == n[y][x];
    }
  }

  /**
   B3/S23 cell by cell: the new cell is live exactly when the old
   neighbourhood holds three live cells, or two and the old cell is live.
   */
  lemma {:induction false} NextCell(g: Grid, y: int, x: int)
    requires Steppable(g) && 0 <= y < |g| && 0 <= x < |g[0]|
    ensures Covers(g, |g|, |g[0]|)
    ensures var n := NeighbourSum(g, |g|, |g[0]|, y, x);
      && (Next(g)[y][x] == 1 <==> n == 3 || (g[y][x] != 0 && n == 2))
      && (Next(g)[y][x] == 0 <==> !(n == 3 || (g[y][x] != 0 && n == 2)))
  {
  }

  /** On a rectangular grid the next generation has the same rows x columns. */
  lemma {:induction false} NextKeepsShape(g: Grid)
    requires |g| > 0 && Rectangular(g)
    ensures Steppable(g)
    ensures |Next(g)| == |g| && forall y | 0 <= y < |g| :: |Next(g)[y]| == |g[y]|
  {
  }

  /** The toroidal 3 x 3 window around (y, x): row `i` is within one step of `y`, column `j` of `x`. */
  predicate InWindow(rows: int, columns: int, y: int, x: int, i: int, j: int)
    requires 0 < rows && 0 < columns
  {
    (i == (y - 1) % rows || i == y % rows || i == (y + 1) % rows) &&
    (j == (x - 1) % columns || j == x % columns || j == (x + 1) % columns)
  }

  /**
   The next value of a cell depends on nothing but the old cells in its
   window: two grids of one shape that agree there agree on it.
   */
  lemma {:induction false} NextIsLocal(g: Grid, h: Grid, y: int, x: int)
    requires Steppable(g) && Steppable(h) && |g| == |h| && |g[0]| == |h[0]|
    requires 0 <= y < |g| && 0 <= x < |g[0]|
    requires forall i, j | 0 <= i < |g| && 0 <= j < |g[0]| && InWindow(|g|, |g[0]|, y, x, i, j) :: g[i][j] == h[i][j]
    ensures Next(g)[y][x] == Next(h)[y][x]
  {
    assert InWindow(|g|, |g[0]|, y, x, y, x);
    WindowSumsAgree(g, h, y, x);
    assert Next(g)[y][x] == NextValue(g, y, x) && Next(h)[y][x] == NextValue(h, y, x);
  }

  /** Grids that agree on the window of (y, x) count the same neighbours there. */
  lemma {:induction false} WindowSumsAgree(g: Grid, h: Grid, y: int, x: int)
    requires Steppable(g) && Steppable(h) && |g| == |h| && |g[0]| == |h[0]|
    requires 0 <= y < |g| && 0 <= x < |g[0]|
    requires forall i, j | 0 <= i < |g| && 0 <= j < |g[0]| && InWindow(|g|, |g[0]|, y, x, i, j) :: g[i][j] == h[i][j]
    ensures Covers(g, |g|, |g[0]|) && Covers(h, |h|, |h[0]|)
    ensures NeighbourSum(g, |g|, |g[0]|, y, x) == NeighbourSum(h, |h|, |h[0]|, y, x)
  {
    WindowAgrees(g, h, y, x, -1, -1); WindowAgrees(g, h, y, x, -1, 0); WindowAgrees(g, h, y, x, -1, 1);
    WindowAgrees(g, h, y, x, 0, -1);                                   WindowAgrees(g, h, y, x, 0, 1);
    WindowAgrees(g, h, y, x, 1, -1);  WindowAgrees(g, h, y, x, 1, 0);  WindowAgrees(g, h, y, x, 1, 1);
  }

  lemma {:induction false} WindowAgrees(g: Grid, h: Grid, y: int, x: int, dy: int, dx: int)
    requires Steppable(g) && Steppable(h) && |g| == |h| && |g[0]| == |h[0]|
    requires 0 <= y < |g| && 0 <= x < |g[0]|
    requires forall i, j | 0 <= i < |g| && 0 <= j < |g[0]| && InWindow(|g|, |g[0]|, y, x, i, j) :: g[i][j] == h[i][j]
    requires -1 <= dy <= 1 && -1 <= dx <= 1
    ensures Covers(g, |g|, |g[0]|) && Covers(h, |h|, |h[0]|)
    ensures At(g, |g|, |g[0]|, y + dy, x + dx) == At(h, |h|, |h[0]|, y + dy, x + dx)
  {
    var rows, columns := |g|, |g[0]|;
    assert InWindow(rows, columns, y, x, (y + dy) % rows, (x + dx) % columns);
  }

  /** An all-dead neighbourhood counts zero. */
  lemma {:induction false} DeadNeighbourSum(g: Grid, rows: int, columns: int, y: int, x: int)
    requires Covers(g, rows, columns) && AllDead(g)
    ensures NeighbourSum(g, rows, columns, y, x) == 0
  {
    DeadAt(g, rows, columns, y - 1, x - 1); DeadAt(g, rows, columns, y - 1, x); DeadAt(g, rows, columns, y - 1, x + 1);
    DeadAt(g, rows, columns, y, x - 1);                                            DeadAt(g, rows, columns, y, x + 1);
    DeadAt(g, rows, columns, y + 1, x - 1); DeadAt(g, rows, columns, y + 1, x); DeadAt(g, rows, columns, y + 1, x + 1);
  }

  lemma {:induction false} DeadAt(g: Grid, rows: int, columns: int, y: int, x: int)
    requires Covers(g, rows, columns) && AllDead(g)
    ensures At(g, rows, columns, y, x) == 0
  {
    var r, c := y % rows, x % columns;
    assert 0 <= r < |g| && 0 <= c < |g[r]|;
  }

  /** The all-dead grid is a still life. */
  lemma {:induction false} ZeroCellsStill(rows: int, columns: int)
    requires rows > 0
    ensures Steppable(ZeroCells(rows, columns))
    ensures Next(ZeroCells(rows, columns)) == ZeroCells(rows, columns)
  {
    var z := ZeroCells(rows, columns);
    ZeroCellsDead(rows, columns);
    forall y, x | 0 <= y < |z| && 0 <= x < |z[0]| ensures z[y][x] == NextValue(z, y, x) {
      DeadNeighbourSum(z, |z|, |z[0]|, y, x);
    }
    NextByCells(z, z);
  }

  /** The grid `g` shifted cyclically on the torus, so that cell (a, b) moves to (0, 0). */
  function Shift(g: Grid, a: int, b: int): (s: Grid)
    requires |g| > 0 && |g[0]| > 0 && Rectangular(g)
    ensures |s| == |g| && Rectangular(s) && |s[0]| == |g[0]|
    ensures forall y, x | 0 <= y < |g| && 0 <= x < |g[0]| :: s[y][x] == g[(y + a) % |g|][(x + b) % |g[0]|]
  {
    seq(|g|, y requires 0 <= y < |g| => seq(|g[0]|, x requires 0 <= x < |g[0]| => g[(y + a) % |g|][(x + b) % |g[0]|]))
  }

  /**
   The torus has no edges: shifting the grid cyclically and then stepping it is the
   same as stepping it and then shifting the result.
   */
  lemma {:induction false} NextCommutesWithShift(g: Grid, a: int, b: int)
    requires |g| > 0 && |g[0]| > 0 && Rectangular(g)
    ensures Steppable(g) && Steppable(Shift(g, a, b))
    ensures Next(Shift(g, a, b)) == Shift(Next(g), a, b)
  {
    var rows, columns := |g|, |g[0]|;
    var s, n := Shift(g, a, b), Next(g);
    forall y, x | 0 <= y < rows && 0 <= x < columns ensures Shift(n, a, b)[y][x] == NextValue(s, y, x) {
      ShiftedNextCell(g, a, b, y, x);
    }
    NextByCells(s, Shift(n, a, b));
  }

  lemma {:induction false} ShiftedNextCell(g: Grid, a: int, b: int, y: int, x: int)
    requires |g| > 0 && |g[0]| > 0 && Rectangular(g)
    requires 0 <= y < |g| && 0 <= x < |g[0]|
    ensures Steppable(g) && Steppable(Shift(g, a, b))
    ensures Shift(Next(g), a, b)[y][x] == NextValue(Shift(g, a, b), y, x)
  {
    ShiftedNextValue(g, a, b, y, x);
    var y', x' := (y + a) % |g|, (x + b) % |g[0]|;
    assert Shift(Next(g), a, b)[y][x] == Next(g)[y'][x'] == NextValue(g, y', x');
  }

  /** The next value of a shifted cell is the next value of the cell it came from. */
  lemma {:induction false} ShiftedNextValue(g: Grid, a: int, b: int, y: int, x: int)
    requires |g| > 0 && |g[0]| > 0 && Rectangular(g)
    requires 0 <= y < |g| && 0 <= x < |g[0]|
    ensures Steppable(g) && Steppable(Shift(g, a, b))
    ensures NextValue(Shift(g, a, b), y, x) == NextValue(g, (y + a) % |g|, (x + b) % |g[0]|)
  {
    var rows, columns := |g|, |g[0]|;
    var s := Shift(g, a, b);
    var y', x' := (y + a) % rows, (x + b) % columns;
    ShiftedAt(g, a, b, y, x, -1, -1); ShiftedAt(g, a, b, y, x, -1, 0); ShiftedAt(g, a, b, y, x, -1, 1);
    ShiftedAt(g, a, b, y, x, 0, -1);                                    ShiftedAt(g, a, b, y, x, 0, 1);
    ShiftedAt(g, a, b, y, x, 1, -1);  ShiftedAt(g, a, b, y, x, 1, 0);  ShiftedAt(g, a, b, y, x, 1, 1);
    assert NeighbourSum(s, rows, columns, y, x) == NeighbourSum(g, rows, columns, y', x');
  }

  lemma {:induction false} ShiftedAt(g: Grid, a: int, b: int, y: int, x: int, dy: int, dx: int)
    requires |g| > 0 && |g[0]| > 0 && Rectangular(g)
    ensures Covers(g, |g|, |g[0]|) && Covers(Shift(g, a, b), |g|, |g[0]|)
    ensures At(Shift(g, a, b), |g|, |g[0]|, y + dy, x + dx)
         == At(g, |g|, |g[0]|, (y + a) % |g| + dy, (x + b) % |g[0]| + dx)
  {
    var rows, columns := |g|, |g[0]|;
    ModShift(y + dy, a, rows);
    ModShift(y + a, dy, rows);
    ModShift(x + dx, b, columns);
    ModShift(x + b, dx, columns);
    assert (y + dy) + a == (y + a) + dy && (x + dx) + b == (x + b) + dx;
  }

  /** Reducing before adding does not change the residue. */
  lemma {:induction false} ModShift(i: int, a: int, n: int)
    requires n > 0
    ensures (i % n + a) % n == (i + a) % n
  {
    var m := i % n + a;
    ModUnique(m, n, m / n, m % n);
    ModUnique(i + a, n, i / n + m / n, m % n);
  }
}
