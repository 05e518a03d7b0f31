/** The order in which the optimized generator visits matrix cells: one
    diagonal per call, rows `count` down to `0` in column 0, then columns `1`
    up to `count` in row 0. */
module Sweep {

  /** A matrix cell `(row, col)`. */
  datatype Cell = Cell(row: int, col: int)

  predicate InSquare(c: Cell, count: nat) {
    0 <= c.row <= count && 0 <= c.col <= count
  }

  /** The first `len` cells of the diagonal from `(row, col)`, in visiting order. */
  function DiagonalRun(row: int, col: int, len: nat): seq<Cell> {
    if len == 0 then [] else DiagonalRun(row, col, len - 1) + [Cell(row + len - 1, col + len - 1)]
  }

  /** The walk from `(row, col)` stops as soon as either index passes `count`. */
  function DiagonalLength(row: nat, col: nat, count: nat): nat
    requires row <= count && col <= count
  {
    if row <= col then count - col + 1 else count - row + 1
  }

  function DiagonalCells(row: nat, col: nat, count: nat): seq<Cell>
    requires row <= count && col <= count
  {
    DiagonalRun(row, col, DiagonalLength(row, col, count))
  }

  /** Cells written by the diagonals started at rows `count` down to `lo`. */
  function RowSweep(lo: nat, count: nat): seq<Cell>
    requires lo <= count + 1
    decreases count + 1 - lo
  {
    if lo > count then [] else RowSweep(lo + 1, count) + DiagonalCells(lo, 0, count)
  }

  /** Cells written by the diagonals started at columns `1` up to `hi`. */
  function ColumnSweep(hi: nat, count: nat): seq<Cell>
    requires hi <= count
  {
    if hi == 0 then [] else ColumnSweep(hi - 1, count) + DiagonalCells(0, hi, count)
  }

  /** Every write of a whole generation, in order. */
  function AllCells(count: nat): seq<Cell> {
    RowSweep(0, count) + ColumnSweep(count, count)
  }

  /** A run holds each cell of its diagonal between its first cell and its
      length once, and nothing else. */
  lemma {:induction false} DiagonalRunCount(row: int, col: int, len: nat, c: Cell)
    ensures multiset(DiagonalRun(row, col, len))[c]
         == if c.row - c.col == row - col && row <= c.row < row + len then 1 else 0
  {
    if len > 0 {
      DiagonalRunCount(row, col, len - 1, c);
    }
  }

  /** The row family writes each cell on or below the main diagonal whose lag
      `row - col` is at least `lo`, once. */
  lemma {:induction false} RowSweepCount(lo: nat, count: nat, c: Cell)
    requires lo <= count + 1
    ensures multiset(RowSweep(lo, count))[c]
         == if 0 <= c.col && c.row <= count && lo <= c.row - c.col then 1 else 0
    decreases count + 1 - lo
  {
    if lo <= count {
      RowSweepCount(lo + 1, count, c);
      var len := DiagonalLength(lo, 0, count);
      DiagonalRunCount(lo, 0, len, c);
      assert len == count - lo + 1;
      var later := RowSweep(lo + 1, count);
      var run := DiagonalRun(lo, 0, len);
      assert RowSweep(lo, count) == later + run;
      CountAppend(later, run, c);
      RowStep(lo, count, c.row, c.col, multiset(later)[c], multiset(run)[c]);
    }
  }

  /** The column family writes each cell above the main diagonal whose lag
      `col - row` is between `1` and `hi`, once. */
  lemma {:induction false} ColumnSweepCount(hi: nat, count: nat, c: Cell)
    requires hi <= count
    ensures multiset(ColumnSweep(hi, count))[c]
         == if 0 <= c.row && c.col <= count && 1 <= c.col - c.row <= hi then 1 else 0
  {
    if hi > 0 {
      var earlier := ColumnSweep(hi - 1, count);
      var len := count - hi + 1;
      var run := DiagonalRun(0, hi, len);
      assert ColumnSweep(hi, count) == earlier + run;
      ColumnSweepCount(hi - 1, count, c);
      DiagonalRunCount(0, hi, len, c);
      CountAppend(earlier, run, c);
      ColumnStep(hi, count, c.row, c.col, multiset(earlier)[c], multiset(run)[c]);
    }
  }

  lemma CountAppend(a: seq<Cell>, b: seq<Cell>, c: Cell)
    ensures multiset(a + b)[c] == multiset(a)[c] + multiset(b)[c]
  {
  }

  /** Adding the diagonal of lag `lo` to those of lags above it. */
  lemma RowStep(lo: int, count: int, row: int, col: int, later: int, run: int)
    requires later == if 0 <= col && row <= count && lo + 1 <= row - col then 1 else 0
    requires run == if row - col == lo && lo <= row < count + 1 then 1 else 0
    ensures later + run == if 0 <= col && row <= count && lo <= row - col then 1 else 0
  {
  }

  /** Adding the diagonal of lag `-hi` to those of lags `-1 .. 1 - hi`. */
  lemma ColumnStep(hi: int, count: int, row: int, col: int, earlier: int, run: int)
    requires 1 <= hi
    requires earlier == if 0 <= row && col <= count && 1 <= col - row <= hi - 1 then 1 else 0
    requires run == if row - col == 0 - hi && 0 <= row < count - hi + 1 then 1 else 0
    ensures earlier + run == if 0 <= row && col <= count && 1 <= col - row <= hi then 1 else 0
  {
  }

  /** The two families together write every cell of the `(count + 1)`-square
      exactly once and nothing outside it. */
  lemma AllCellsExactlyOnce(count: nat)
    ensures forall c :: multiset(AllCells(count))[c] == if InSquare(c, count) then 1 else 0
    ensures |AllCells(count)| == (count + 1) * (count + 1)
  {
    forall c
      ensures multiset(AllCells(count))[c] == if InSquare(c, count) then 1 else 0
    {
      RowSweepCount(0, count, c);
      ColumnSweepCount(count, count, c);
    }
    SweepLength(count);
  }

  /** `count + 1` row diagonals of lengths `count + 1 .. 1` and `count` column
      diagonals of lengths `count .. 1`. */
  lemma SweepLength(count: nat)
    ensures |AllCells(count)| == (count + 1) * (count + 1)
  {
    RowSweepLength(0, count);
    ColumnSweepLength(count, count);
  }

  lemma {:induction false} DiagonalRunLength(row: int, col: int, len: nat)
    ensures |DiagonalRun(row, col, len)| == len
  {
    if len > 0 {
      DiagonalRunLength(row, col, len - 1);
    }
  }

  lemma {:induction false} RowSweepLength(lo: nat, count: nat)
    requires lo <= count + 1
    ensures 2 * |RowSweep(lo, count)| == (count + 1 - lo) * (count + 2 - lo)
    decreases count + 1 - lo
  {
    if lo <= count {
      RowSweepLength(lo + 1, count);
      DiagonalRunLength(lo, 0, DiagonalLength(lo, 0, count));
      var u := count + 1 - lo;
      assert u * (u + 1) == (u - 1) * u + 2 * u;
    }
  }

  lemma {:induction false} ColumnSweepLength(hi: nat, count: nat)
    requires hi <= count
    ensures 2 * |ColumnSweep(hi, count)| == hi * (2 * count + 1 - hi)
  {
    if hi > 0 {
      ColumnSweepLength(hi - 1, count);
      DiagonalRunLength(0, hi, DiagonalLength(0, hi, count));
      assert hi * (2 * count + 1 - hi) == (hi - 1) * (2 * count + 2 - hi) + 2 * (count - hi + 1);
    }
  }

  /** The main diagonal is written only by the row family. */
  lemma MainDiagonalFromRowsOnly(count: nat, k: nat)
    requires k <= count
    ensures Cell(k, k) in RowSweep(0, count)
    ensures Cell(k, k) !in ColumnSweep(count, count)
  {
    RowSweepCount(0, count, Cell(k, k));
    ColumnSweepCount(count, count, Cell(k, k));
  }
}
