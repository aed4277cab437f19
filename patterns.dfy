/**
 Small configurations whose behaviour is known: a wrap-around neighbour,
 the block still life, the blinker oscillator, and the single-cell torus.
 */
module Patterns {
  import opened Grids
  import opened Neighbours
  import opened Stepper
  import opened Driver

  /** A 3 x 3 grid whose only live cell is the corner (0, 0). */
  const Corner: Grid := [[1, 0, 0], [0, 0, 0], [0, 0, 0]]

  /** Across the edges, the corner is a neighbour of the three opposite corners. */
  lemma CornerWrapsAround()
    ensures Covers(Corner, 3, 3)
    ensures NeighbourSum(Corner, 3, 3, 2, 2) == 1
    ensures NeighbourSum(Corner, 3, 3, 2, 0) == 1
    ensures NeighbourSum(Corner, 3, 3, 0, 2) == 1
  {
  }

  /** A 2 x 2 block of live cells in a 4 x 4 grid. */
  const Block: Grid := [[0, 0, 0, 0], [0, 1, 1, 0], [0, 1, 1, 0], [0, 0, 0, 0]]

  /** The block is a still life. */
  lemma BlockIsStill()
    ensures Steppable(Block) && Next(Block) == Block
  {
    forall y, x | 0 <= y < 4 && 0 <= x < 4 ensures Block[y][x] == NextValue(Block, y, x) {
      assert y == 0 || y == 1 || y == 2 || y == 3;
      assert x == 0 || x == 1 || x == 2 || x == 3;
    }
    NextByCells(Block, Block);
  }

  /** Three live cells in a row, and in a column, through the centre of a 5 x 5 grid. */
  const BlinkerRow: Grid := [[0, 0, 0, 0, 0], [0, 0, 0, 0, 0], [0, 1, 1, 1, 0], [0, 0, 0, 0, 0], [0, 0, 0, 0, 0]]
  const BlinkerColumn: Grid := [[0, 0, 0, 0, 0], [0, 0, 1, 0, 0], [0, 0, 1, 0, 0], [0, 0, 1, 0, 0], [0, 0, 0, 0, 0]]

  /** The blinker turns from row to column ... */
  lemma BlinkerRowTurns()
    ensures Steppable(BlinkerRow) && Next(BlinkerRow) == BlinkerColumn
  {
    forall y, x | 0 <= y < 5 && 0 <= x < 5 ensures BlinkerColumn[y][x] == NextValue(BlinkerRow, y, x) {
      assert y == 0 || y == 1 || y == 2 || y == 3 || y == 4;
      assert x == 0 || x == 1 || x == 2 || x == 3 || x == 4;
    }
    NextByCells(BlinkerRow, BlinkerColumn);
  }

  /** ... and back. */
  lemma BlinkerColumnTurns()
    ensures Steppable(BlinkerColumn) && Next(BlinkerColumn) == BlinkerRow
  {
    forall y, x | 0 <= y < 5 && 0 <= x < 5 ensures BlinkerRow[y][x] == NextValue(BlinkerColumn, y, x) {
      assert y == 0 || y == 1 || y == 2 || y == 3 || y == 4;
      assert x == 0 || x == 1 || x == 2 || x == 3 || x == 4;
    }
    NextByCells(BlinkerColumn, BlinkerRow);
  }

  /** The blinker is back in its row after every even number of generations. */
  lemma {:induction false} BlinkerPeriodTwo(k: nat)
    ensures Iterate(BlinkerRow, 2 * k) == BlinkerRow
  {
    BlinkerRowTurns();
    BlinkerColumnTurns();
    assert Iterate(BlinkerRow, 2) == BlinkerRow;
    Periodic(BlinkerRow, 2, k);
    assert k * 2 == 2 * k;
  }

  /**
   On a 1 x 1 torus the only cell is its own eight neighbours: a live cell
   counts at least 8 (or at most -8) and dies, a dead cell stays dead.
   */
  lemma {:induction false} SingleCellDies(v: int)
    ensures Steppable([[v]]) && Next([[v]]) == [[0]]
  {
    SingleCellCountsItself([[v]], 0, 0);
    NextByCells([[v]], [[0]]);
  }
}
