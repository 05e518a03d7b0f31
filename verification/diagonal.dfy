/** The arithmetic of one diagonal in the optimized generator
    (OptimizedMatrixGenerator.calculateDiagonalCells): the products table, the
    common sum, and the two end sums each cell adds to it. */
module Diagonal {
  import opened Sums
  import Reference

  /** The locals the source sets up for a diagonal: its lag `pos`, the starting
      `offset` into the products table, and the lowest input index for each factor. */
  datatype Start = Start(pos: nat, offset: nat, inputIndexRow: nat, inputIndexCol: nat)

  /** The diagonals the generator walks: from `(row, 0)` for `row` in `0..count`
      (the row family, which owns the main diagonal) and from `(0, col)` for
      `col` in `1..count` (the column family). */
  predicate IsStart(row: int, col: int, count: nat) {
    (col == 0 && 0 <= row <= count) || (row == 0 && 1 <= col <= count)
  }

  /** The set-up branch on `col == 0`. */
  function StartOf(row: nat, col: nat, count: nat): (d: Start)
    requires IsStart(row, col, count)
  {
    if col == 0 then Start(row, count - row, 0, row) else Start(col, count - col, col, 0)
  }

  /** The product of the sample at `t` and the sample `lag` places later. */
  function LagProduct(x: seq<int>, t: int, lag: nat): int
    requires 0 <= t && t + lag < |x|
  {
    x[t] * x[t + lag]
  }

  /** The table `products[t] = input[inputIndexRow + t] * input[inputIndexCol + t]`
      for `t < n - pos`; the rest of the length-`n` table keeps its initial zero.
      In both families an entry is the product of two samples `pos` apart. */
  function Products(x: seq<int>, d: Start): (p: seq<int>)
    requires (d.inputIndexRow == 0 && d.inputIndexCol == d.pos) || (d.inputIndexRow == d.pos && d.inputIndexCol == 0)
    ensures |p| == |x|
    ensures forall t :: 0 <= t < |x| - d.pos ==> p[t] == LagProduct(x, t, d.pos)
    ensures forall t :: 0 <= t < |x| && |x| - d.pos <= t ==> p[t] == 0
  {
    seq(|x|, (t: int) requires 0 <= t < |x| =>
      if t < |x| - d.pos then x[d.inputIndexRow + t] * x[d.inputIndexCol + t] else 0)
  }

  /** The table of the diagonal that starts at `(row, col)`. */
  function TableOf(x: seq<int>, row: nat, col: nat, count: nat): (p: seq<int>)
    requires IsStart(row, col, count)
  {
    Products(x, StartOf(row, col, count))
  }

  /** The three pieces of a cell after `s` steps along a diagonal whose table
      is `p` and whose initial offset is `offset0`: by then `offset` has
      dropped to `offset0 - s` and `low` has grown to `s`. The cell is the
      common sum over `[offset0, n - count)`, plus `low` entries from
      `offset`, plus `high = offset` entries from `n - count`. */
  function Pieces(p: seq<int>, count: nat, offset0: nat, s: nat): int
    requires count <= |p| && s <= offset0 <= count
  {
    var n := |p|;
    var offset := offset0 - s;
    var low := s;
    var high := offset;
    Span(p, offset0, n - count) + Span(p, offset, offset + low) + Span(p, n - count, n - count + high)
  }

  /** The value the source stores in the `s`-th cell of the diagonal starting
      at `(row, col)`, i.e. in cell `(row + s, col + s)`. */
  function CellValue(x: seq<int>, count: nat, row: nat, col: nat, s: nat): int
    requires IsStart(row, col, count) && count <= |x|
    requires s <= StartOf(row, col, count).offset
  {
    Pieces(TableOf(x, row, col, count), count, StartOf(row, col, count).offset, s)
  }

  /** With the shifted index `t = i - max(k, j)`, the defining sum of cell
      `(k, j)` is the sum of the products table over a window of `n - count` entries. */
  lemma {:induction false} LagSumAsSpan(x: seq<int>, p: seq<int>, k: nat, j: nat, lo: int, hi: int)
    requires j <= k <= lo && hi <= |x| && hi - k <= |p|
    requires forall t :: lo - k <= t < hi - k ==> p[t] == LagProduct(x, t, k - j)
    ensures Reference.LagSum(x, k, j, lo, hi) == Span(p, lo - k, hi - k)
    decreases hi - lo
  {
    if lo < hi {
      LagSumAsSpan(x, p, k, j, lo, hi - 1);
    }
  }

  /** Row family: the window of cell `s` holds the terms of cell `(pos + s, s)`. */
  lemma WindowIsRefRow(x: seq<int>, count: nat, pos: nat, s: nat)
    requires pos <= count && s <= count - pos
    ensures Span(TableOf(x, pos, 0, count), count - pos - s, |x| - pos - s) == Reference.Ref(x, count, pos + s, s)
  {
    var p := TableOf(x, pos, 0, count);
    var n := |x|;
    var k := pos + s;
    assert k - s == pos;
    LagSumAsSpan(x, p, k, s, count, n);
  }

  /** Column family: the window of cell `s` holds the terms of cell `(s, pos + s)`. */
  lemma WindowIsRefColumn(x: seq<int>, count: nat, pos: nat, s: nat)
    requires 1 <= pos <= count && s <= count - pos
    ensures Span(TableOf(x, 0, pos, count), count - pos - s, |x| - pos - s) == Reference.Ref(x, count, s, pos + s)
  {
    var p := TableOf(x, 0, pos, count);
    var n := |x|;
    var j := pos + s;
    assert j - s == pos;
    LagSumAsSpan(x, p, j, s, count, n);
    Reference.LagSumSymmetric(x, s, j, count, n);
  }

  /** The window of cell `s`, `[offset0 - s, n - pos - s)`, holds exactly the
      terms of the defining formula for cell `(row + s, col + s)`. */
  lemma WindowIsRef(x: seq<int>, count: nat, row: nat, col: nat, s: nat)
    requires IsStart(row, col, count)
    requires s <= StartOf(row, col, count).offset
    ensures Span(TableOf(x, row, col, count), StartOf(row, col, count).offset - s, |x| - StartOf(row, col, count).pos - s)
         == Reference.Ref(x, count, row + s, col + s)
  {
    if col == 0 {
      WindowIsRefRow(x, count, row, s);
    } else {
      WindowIsRefColumn(x, count, col, s);
    }
  }

  /** When the common range starts no later than it ends
      (`offset0 <= n - count`), the low end, the common sum and the high end
      tile the window `[offset0 - s, n - count + offset0 - s)` of cell `s`
      without gap or overlap. */
  lemma Tiling(p: seq<int>, count: nat, offset0: nat, s: nat)
    requires count <= |p| && s <= offset0 <= count
    requires offset0 <= |p| - count
    ensures Pieces(p, count, offset0, s) == Span(p, offset0 - s, |p| - count + offset0 - s)
  {
    var n := |p|;
    SpanSplit(p, offset0 - s, offset0, n - count);
    SpanSplit(p, offset0 - s, n - count, n - count + offset0 - s);
  }

  /** Each cell of a diagonal gets its defining value, provided the common
      range is not empty-by-inversion (`offset0 <= n - count`). */
  lemma CellMatchesReference(x: seq<int>, count: nat, row: nat, col: nat, s: nat)
    requires IsStart(row, col, count) && count <= |x|
    requires s <= StartOf(row, col, count).offset
    requires StartOf(row, col, count).offset <= |x| - count
    ensures CellValue(x, count, row, col, s) == Reference.Ref(x, count, row + s, col + s)
  {
    Tiling(TableOf(x, row, col, count), count, StartOf(row, col, count).offset, s);
    WindowIsRef(x, count, row, col, s);
  }

  /** The row diagonal and the column diagonal at the same lag build the same
      products table, so their cells agree step for step. */
  lemma FamiliesAgree(x: seq<int>, count: nat, pos: nat, s: nat)
    requires 1 <= pos <= count && count <= |x| && s <= count - pos
    ensures TableOf(x, pos, 0, count) == TableOf(x, 0, pos, count)
    ensures CellValue(x, count, pos, 0, s) == CellValue(x, count, 0, pos, s)
  {
    var p := TableOf(x, pos, 0, count);
    var q := TableOf(x, 0, pos, count);
    assert forall t :: 0 <= t < |x| ==> p[t] == q[t];
  }

  /** `for (i = lo; i < hi; i++) a[i]` on an array of length `n` never
      leaves the array. */
  predicate RangeInBounds(lo: int, hi: int, n: int) {
    lo >= hi || (0 <= lo && hi <= n)
  }

  /** Cell `s` of the diagonal at lag `pos`: the low-end loop reads
      `products[offset .. offset + low)` and the high-end loop reads
      `products[n - count .. n - count + high)`. */
  predicate StepInBounds(n: int, count: nat, pos: nat, s: nat) {
    var offset := count - pos - s;
    RangeInBounds(offset, offset + s, n) && RangeInBounds(n - count, n - count + offset, n)
  }

  /** Every array access of the diagonal at lag `pos`: the product loop
      (`products[0 .. n - pos)`, `input[0 .. n - pos)`, `input[pos .. n)`),
      the common loop (`products[offset0 .. n - count)`), and every cell. */
  predicate DiagonalInBounds(n: int, count: nat, pos: nat) {
    && RangeInBounds(0, n - pos, n)
    && RangeInBounds(pos, n, n)
    && RangeInBounds(count - pos, n - count, n)
    && forall s: nat :: s <= count - pos ==> StepInBounds(n, count, pos, s)
  }

  /** No diagonal of the whole generation indexes outside an array. */
  predicate InBounds(n: int, count: nat) {
    forall pos: nat :: pos <= count ==> DiagonalInBounds(n, count, pos)
  }

  /** The generator stays inside its arrays exactly when there are at least
      `count` samples; with fewer, the high-end loop of the diagonal at lag
      `count - 1` reads `products[n - count]`, a negative index. */
  lemma InBoundsIffEnoughSamples(n: nat, count: nat)
    ensures InBounds(n, count) <==> count <= n
  {
    if n < count {
      assert !StepInBounds(n, count, count - 1, 0);
      assert !DiagonalInBounds(n, count, count - 1);
    }
  }
}
