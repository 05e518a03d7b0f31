/** The optimized generator agrees with the defining formula only when there
    are at least `2 * count` samples. With `count <= n < 2 * count` the common
    range `[offset0, n - count)` of the diagonals with `offset0 > n - count` is
    inverted. The low and high ends then still cover a cell's window, but
    they overlap or reach past it, so the cell over-counts. Clamping both ends
    to the window repairs it for every `n`. */
module ShortInput {
  import opened Matrices
  import opened Sums
  import opened Diagonal
  import Reference
  import Optimized

  /** `n` samples, all equal to one. */
  function Ones(n: nat): (x: seq<int>)
    ensures |x| == n
    ensures forall i :: 0 <= i < n ==> x[i] == 1
  {
    seq(n, _ => 1)
  }

  lemma {:induction false} SpanOfOnes(p: seq<int>, lo: int, hi: int)
    requires 0 <= lo <= hi <= |p|
    requires forall t :: lo <= t < hi ==> p[t] == 1
    ensures Span(p, lo, hi) == hi - lo
    decreases hi - lo
  {
    if lo < hi {
      SpanOfOnes(p, lo, hi - 1);
    }
  }

  lemma {:induction false} LagSumOfOnes(n: nat, k: nat, j: nat, lo: int, hi: int)
    requires k <= lo && j <= lo && lo <= hi <= n
    ensures Reference.LagSum(Ones(n), k, j, lo, hi) == hi - lo
    decreases hi - lo
  {
    if lo < hi {
      LagSumOfOnes(n, k, j, lo, hi - 1);
    }
  }

  lemma {:induction false} SpanNonNegative(p: seq<int>, lo: int, hi: int)
    requires 0 <= lo && hi <= |p|
    requires forall t :: lo <= t < hi ==> 0 <= p[t]
    ensures 0 <= Span(p, lo, hi)
    decreases hi - lo
  {
    if lo < hi {
      SpanNonNegative(p, lo, hi - 1);
    }
  }

  /** On a diagonal whose common range is inverted (`n - count < offset0`)
      the common sum is empty, and the low range `[offset0 - s, offset0)`
      together with the high range `[n - count, n - count + offset0 - s)`
      covers the whole window of cell `s`. Both ranges hold `offset0 - s`
      and `s` terms, `offset0` in all, against the window's `n - count`:
      the cell gets every term of its window plus some extra ones, so on a
      table of non-negative products it never comes out too small. */
  lemma InvertedOverCounts(p: seq<int>, count: nat, offset0: nat, s: nat)
    requires count <= |p| && s <= offset0 <= count
    requires |p| - count < offset0
    requires forall t :: 0 <= t < |p| ==> 0 <= p[t]
    ensures Span(p, offset0, |p| - count) == 0
    ensures Pieces(p, count, offset0, s) >= Span(p, offset0 - s, |p| - count + offset0 - s)
  {
    var n := |p|;
    var lo := offset0 - s;
    var windowEnd := n - count + offset0 - s;
    if windowEnd <= offset0 {
      SpanSplit(p, lo, windowEnd, offset0);
      SpanNonNegative(p, windowEnd, offset0);
      SpanNonNegative(p, n - count, windowEnd);
    } else {
      SpanSplit(p, lo, offset0, windowEnd);
      SpanSplit(p, n - count, offset0, windowEnd);
      SpanNonNegative(p, n - count, offset0);
    }
  }

  /** Three samples and count 2: the generator stores `x[1]^2 + x[2]^2` in
      cell (0, 0), where the formula has the single term `x[2]^2`. */
  lemma ShortInputCounterexample()
    ensures Optimized.Entry([1, 1, 1], 2, 0, 0) == 2
    ensures Reference.Ref([1, 1, 1], 2, 0, 0) == 1
  {
    AsWrittenNeedsTwiceCount(3, 2);
    assert Ones(3) == [1, 1, 1];
  }

  /** For every `n` with `count <= n < 2 * count`, on all-ones input the
      generator stores `count` in cell (0, 0) where the formula gives
      `n - count`: the precondition `2 * count <= n` of the equivalence
      cannot be weakened. */
  lemma AsWrittenNeedsTwiceCount(n: nat, count: nat)
    requires count <= n < 2 * count
    ensures Optimized.Entry(Ones(n), count, 0, 0) == count
    ensures Reference.Ref(Ones(n), count, 0, 0) == n - count
    ensures Optimized.Entry(Ones(n), count, 0, 0) != Reference.Ref(Ones(n), count, 0, 0)
  {
    var x := Ones(n);
    var p := TableOf(x, 0, 0, count);
    assert forall t :: 0 <= t < n ==> p[t] == LagProduct(x, t, 0);
    SpanOfOnes(p, n - count, n);
    LagSumOfOnes(n, 0, 0, count, n);
  }

  /** calculateDiagonalCells with both end loops clamped to the window
      `[offset0 - s, n - count + offset0 - s)` of cell `s`: the low end stops
      at `min(offset0, end)` and the high end starts at `max(n - count, offset0)`.
      `count` may exceed `n`. */
  function ClampedPieces(p: seq<int>, count: nat, offset0: nat, s: nat): int
    requires s <= offset0 <= count
  {
    var n := |p|;
    var windowEnd := n - count + offset0 - s;
    var lowEnd := if offset0 < windowEnd then offset0 else windowEnd;
    var highStart := if n - count < offset0 then offset0 else n - count;
    Span(p, offset0, n - count) + Span(p, offset0 - s, lowEnd) + Span(p, highStart, windowEnd)
  }

  function CorrectedCellValue(x: seq<int>, count: nat, row: nat, col: nat, s: nat): int
    requires IsStart(row, col, count)
    requires s <= StartOf(row, col, count).offset
  {
    ClampedPieces(TableOf(x, row, col, count), count, StartOf(row, col, count).offset, s)
  }

  /** The clamped pieces tile the window of cell `s` for every length of table. */
  lemma CorrectedTiling(p: seq<int>, count: nat, offset0: nat, s: nat)
    requires s <= offset0 <= count
    ensures ClampedPieces(p, count, offset0, s) == Span(p, offset0 - s, |p| - count + offset0 - s)
  {
    var n := |p|;
    var lo := offset0 - s;
    var windowEnd := n - count + offset0 - s;
    if offset0 <= n - count {
      SpanSplit(p, lo, offset0, n - count);
      SpanSplit(p, lo, n - count, windowEnd);
    } else if offset0 <= windowEnd {
      SpanSplit(p, lo, offset0, windowEnd);
    }
  }

  /** The corrected cell has its defining value whatever the number of samples. */
  lemma CorrectedCellMatchesReference(x: seq<int>, count: nat, row: nat, col: nat, s: nat)
    requires IsStart(row, col, count)
    requires s <= StartOf(row, col, count).offset
    ensures CorrectedCellValue(x, count, row, col, s) == Reference.Ref(x, count, row + s, col + s)
  {
    CorrectedTiling(TableOf(x, row, col, count), count, StartOf(row, col, count).offset, s);
    WindowIsRef(x, count, row, col, s);
  }

  /** Where the source's pieces already tile the window, the correction
      changes nothing. */
  lemma CorrectionAgreesWhenTiled(x: seq<int>, count: nat, row: nat, col: nat, s: nat)
    requires IsStart(row, col, count) && count <= |x|
    requires s <= StartOf(row, col, count).offset
    requires StartOf(row, col, count).offset <= |x| - count
    ensures CorrectedCellValue(x, count, row, col, s) == CellValue(x, count, row, col, s)
  {
  }

  /** The correction changes only the cells of diagonals whose common range
      is inverted: on a diagonal at lag `|k - j|` with
      `count - |k - j| <= n - count`, the corrected entry is the as-written one. */
  lemma CorrectionChangesOnlyInvertedDiagonals(x: seq<int>, count: nat, k: nat, j: nat)
    requires count <= |x| && k <= count && j <= count
    requires count - (if j <= k then k - j else j - k) <= |x| - count
    ensures CorrectedEntry(x, count, k, j) == Optimized.Entry(x, count, k, j)
  {
    if j <= k {
      CorrectionAgreesWhenTiled(x, count, k - j, 0, j);
    } else {
      CorrectionAgreesWhenTiled(x, count, 0, j - k, k);
    }
  }

  /** The corrected entry of cell `(k, j)`, located on its diagonal as the
      generator does. */
  function CorrectedEntry(x: seq<int>, count: nat, k: nat, j: nat): int
    requires k <= count && j <= count
  {
    if j <= k then CorrectedCellValue(x, count, k - j, 0, j) else CorrectedCellValue(x, count, 0, j - k, k)
  }

  lemma CorrectedEntryMatchesReference(x: seq<int>, count: nat, k: nat, j: nat)
    requires k <= count && j <= count
    ensures CorrectedEntry(x, count, k, j) == Reference.Ref(x, count, k, j)
  {
    if j <= k {
      CorrectedCellMatchesReference(x, count, k - j, 0, j);
    } else {
      CorrectedCellMatchesReference(x, count, 0, j - k, k);
    }
  }

  /** The corrected generator: every entry is the defining value, for any
      number of samples (with fewer than `count + 1` every entry is zero, as
      in the reference). */
  function CorrectedGenerate(x: seq<int>, count: nat): (m: Matrix)
    ensures IsSquare(m, count + 1)
    ensures forall k, j :: 0 <= k <= count && 0 <= j <= count ==> m[k][j] == Reference.Ref(x, count, k, j)
  {
    var m := seq(count + 1, (k: int) requires 0 <= k <= count =>
      seq(count + 1, (j: int) requires 0 <= j <= count => CorrectedEntry(x, count, k, j)));
    assert forall k, j :: 0 <= k <= count && 0 <= j <= count ==> m[k][j] == CorrectedEntry(x, count, k, j);
    CorrectedEntriesMatch(x, count);
    m
  }

  lemma CorrectedEntriesMatch(x: seq<int>, count: nat)
    ensures forall k, j :: 0 <= k <= count && 0 <= j <= count ==> CorrectedEntry(x, count, k, j) == Reference.Ref(x, count, k, j)
  {
    forall k, j | 0 <= k <= count && 0 <= j <= count
      ensures CorrectedEntry(x, count, k, j) == Reference.Ref(x, count, k, j)
    {
      CorrectedEntryMatchesReference(x, count, k, j);
    }
  }
}
