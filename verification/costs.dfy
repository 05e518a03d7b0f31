/** Arithmetic cost of the two generators: how many multiplications and
    additions of samples each performs, as ghost counters record them. */
module Costs {

  /** Numbers of multiplications and additions of sample values. */
  datatype Ops = Ops(mults: int, adds: int) {
    function Plus(o: Ops): Ops {
      Ops(mults + o.mults, adds + o.adds)
    }
  }

  /** Iterations of a loop `for (i = 0; i < v; i++)`. */
  function Max0(v: int): nat {
    if v < 0 then 0 else v
  }

  /** One diagonal at lag `pos`: one multiplication per product-table entry,
      one addition per term of the common sum, and `offset` additions for each
      of the `offset + 1` cells (`low` terms from one end, `high` from the other). */
  function DiagonalOps(n: int, count: nat, pos: nat): Ops {
    var offset := count - pos;
    Ops(Max0(n - pos), Max0(n - count - offset) + offset * (offset + 1))
  }

  /** The diagonals started from rows `count` down to `lo` in column 0. */
  function RowFamilyOps(n: int, count: nat, lo: nat): Ops
    requires lo <= count + 1
    decreases count + 1 - lo
  {
    if lo > count then Ops(0, 0) else DiagonalOps(n, count, lo).Plus(RowFamilyOps(n, count, lo + 1))
  }

  /** The diagonals started from columns `1` up to `hi` in row 0. */
  function ColumnFamilyOps(n: int, count: nat, hi: nat): Ops
    requires hi <= count
  {
    if hi == 0 then Ops(0, 0) else ColumnFamilyOps(n, count, hi - 1).Plus(DiagonalOps(n, count, hi))
  }

  /** Everything the optimized generator does: `2*count + 1` diagonals. */
  function OptimizedOps(n: int, count: nat): Ops {
    RowFamilyOps(n, count, 0).Plus(ColumnFamilyOps(n, count, count))
  }

  /** The reference generator: one multiplication and one addition per term,
      `n - count` terms for each of the `(count + 1)^2` cells. */
  function ReferenceOps(n: int, count: nat): Ops {
    var work := (count + 1) * (count + 1) * Max0(n - count);
    Ops(work, work)
  }

  lemma {:induction false} RowFamilyMults(n: int, count: nat, lo: nat)
    requires count <= n && lo <= count + 1
    ensures 2 * RowFamilyOps(n, count, lo).mults == (count + 1 - lo) * (2 * n - count - lo)
    decreases count + 1 - lo
  {
    if lo <= count {
      RowFamilyMults(n, count, lo + 1);
      var u := count - lo;
      assert (u + 1) * (2 * n - count - lo) == u * (2 * n - count - lo) + (2 * n - count - lo);
      assert u * (2 * n - count - lo - 1) == u * (2 * n - count - lo) - u;
    }
  }

  lemma {:induction false} ColumnFamilyMults(n: int, count: nat, hi: nat)
    requires count <= n && hi <= count
    ensures 2 * ColumnFamilyOps(n, count, hi).mults == hi * (2 * n - hi - 1)
  {
    if hi > 0 {
      ColumnFamilyMults(n, count, hi - 1);
      assert (hi - 1) * (2 * n - hi) == hi * (2 * n - hi) - (2 * n - hi);
      assert hi * (2 * n - hi - 1) == hi * (2 * n - hi) - hi;
    }
  }

  /** One product table of `n - pos` entries per diagonal adds up to
      `(2*count + 1)*n - count*(count + 1)` multiplications. */
  lemma OptimizedMultsClosedForm(n: int, count: nat)
    requires count <= n
    ensures OptimizedOps(n, count).mults == (2 * count + 1) * n - count * (count + 1)
  {
    RowFamilyMults(n, count, 0);
    ColumnFamilyMults(n, count, count);
    var rows := RowFamilyOps(n, count, 0).mults;
    var columns := ColumnFamilyOps(n, count, count).mults;
    assert OptimizedOps(n, count).mults == rows + columns;
    FamilyMultsAlgebra(n, count, rows, columns);
  }

  lemma FamilyMultsAlgebra(n: int, c: int, rows: int, columns: int)
    requires 2 * rows == (c + 1) * (2 * n - c)
    requires 2 * columns == c * (2 * n - c - 1)
    ensures rows + columns == (2 * c + 1) * n - c * (c + 1)
  {
    var nc := n * c;
    var cc := c * c;
    assert (c + 1) * (2 * n - c) == 2 * nc + 2 * n - cc - c;
    assert c * (2 * n - c - 1) == 2 * nc - cc - c;
    assert (2 * c + 1) * n == 2 * nc + n;
    assert c * (c + 1) == cc + c;
  }

  /** The optimized generator saves `count^2 * (n - count - 1)` multiplications
      for every `n >= count`. With `n > count` that is never negative: none
      are saved for `count == 0` or `n == count + 1`, and some in every other
      case. With `n == count` the reference sums nothing, and the optimized
      generator does `count^2` more multiplications than it. */
  lemma FewerMultiplications(n: int, count: nat)
    requires count <= n
    ensures ReferenceOps(n, count).mults - OptimizedOps(n, count).mults == count * count * (n - count - 1)
    ensures count < n ==> OptimizedOps(n, count).mults <= ReferenceOps(n, count).mults
  {
    OptimizedMultsClosedForm(n, count);
    var c := count;
    assert (c + 1) * (c + 1) * (n - c) == c * c * (n - c) + (2 * c + 1) * (n - c);
    assert c * c * (n - c) == c * c * (n - c - 1) + c * c;
    if count < n {
      NonNegativeProduct(c * c, n - c - 1);
    }
  }

  lemma NonNegativeProduct(a: int, b: int)
    requires 0 <= a && 0 <= b
    ensures 0 <= a * b
  {
  }

  /** The counts stated for 300 samples and count 4: 2680 multiplications and
      2708 additions, against 7400 of each for the reference generator. */
  lemma BenchmarkCounts()
    ensures OptimizedOps(300, 4) == Ops(2680, 2708)
    ensures ReferenceOps(300, 4) == Ops(7400, 7400)
  {
  }
}
