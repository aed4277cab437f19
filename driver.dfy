/**
 The silent simulation driver: a fixed number of generations, one after the
 other, each computed from the one before.
 */
module Driver {
  import opened Grids
  import opened Stepper

  /** The grid `n` generations after `g`. */
  function Iterate(g: Grid, n: nat): (r: Grid)
    requires n > 0 ==> Steppable(g)
    ensures |r| == |g|
    ensures n > 0 ==> Steppable(r) && Rectangular(r) && Binary(r) && |r[0]| == |g[0]|
  {
    if n == 0 then g else Next(Iterate(g, n - 1))
  }

  /**
   The driver without output: `iterations` steps from `initialCells`; a
   count of zero or less runs no step and hands back the input itself.
   */
  method Simulate(initialCells: Grid, iterations: int) returns (cells: Grid)
    requires iterations > 0 ==> Steppable(initialCells)
    ensures cells == Iterate(initialCells, Clamp(iterations))
    ensures iterations <= 0 ==> cells == initialCells
  {
    cells := initialCells;
    for x := 0 to Clamp(iterations)
      invariant cells == Iterate(initialCells, x)
    {
      cells := Tick(cells);
    }
  }

  /** Running `m` generations and then `n` more is running `m + n`. */
  lemma {:induction false} IterateAdd(g: Grid, m: nat, n: nat)
    requires m + n > 0 ==> Steppable(g)
    ensures n > 0 ==> Steppable(Iterate(g, m))
    ensures Iterate(g, m + n) == Iterate(Iterate(g, m), n)
  {
    if n > 0 {
      IterateAdd(g, m, n - 1);
    }
  }

  /** The all-dead grid stays all dead for any number of generations. */
  lemma {:induction false} ZeroCellsStayDead(rows: int, columns: int, n: nat)
    requires rows > 0
    ensures Steppable(ZeroCells(rows, columns))
    ensures Iterate(ZeroCells(rows, columns), n) == ZeroCells(rows, columns)
  {
    ZeroCellsStill(rows, columns);
    if n > 0 {
      ZeroCellsStayDead(rows, columns, n - 1);
    }
  }

  /** A grid that comes back after `p` generations comes back after every multiple of `p`. */
  lemma {:induction false} Periodic(g: Grid, p: nat, k: nat)
    requires p > 0 && Steppable(g) && Iterate(g, p) == g
    ensures Iterate(g, k * p) == g
  {
    if k > 0 {
      Periodic(g, p, k - 1);
      assert k * p == (k - 1) * p + p;
      IterateAdd(g, (k - 1) * p, p);
    }
  }

  /** Shifting the grid cyclically commutes with any number of generations. */
  lemma {:induction false} IterateCommutesWithShift(g: Grid, a: int, b: int, n: nat)
    requires |g| > 0 && |g[0]| > 0 && Rectangular(g)
    ensures Steppable(g) && Steppable(Shift(g, a, b))
    ensures Iterate(Shift(g, a, b), n) == Shift(Iterate(g, n), a, b)
  {
    if n > 0 {
      IterateCommutesWithShift(g, a, b, n - 1);
      NextCommutesWithShift(Iterate(g, n - 1), a, b);
    }
  }
}
