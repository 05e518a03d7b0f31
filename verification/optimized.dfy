/** The optimized generator (OptimizedMatrixGenerator) as written: one products
    table per diagonal, a common sum per diagonal, and per cell the two end
    sums added to it. */
module Optimized {
  import opened Matrices
  import opened Sums
  import opened Costs
  import opened Diagonal
  import opened Sweep
  import Reference

  /** Cell `(k, j)` lies on the diagonal that starts at `(row, col)`. */
  predicate OnDiagonal(row: int, col: int, k: int, j: int) {
    k - j == row - col && row <= k
  }

  /** The value the generator leaves in cell `(k, j)`: the cell belongs to
      the diagonal from `(k - j, 0)` when `j <= k` and to the one from
      `(0, j - k)` otherwise, and is its `min(k, j)`-th cell. */
  function Entry(x: seq<int>, count: nat, k: nat, j: nat): int
    requires count <= |x| && k <= count && j <= count
  {
    if j <= k then CellValue(x, count, k - j, 0, j) else CellValue(x, count, 0, j - k, k)
  }

  /** Both families build the same table for a lag, so the result is
      symmetric whatever the number of samples. */
  lemma EntrySymmetric(x: seq<int>, count: nat, k: nat, j: nat)
    requires count <= |x| && k <= count && j <= count
    ensures Entry(x, count, k, j) == Entry(x, count, j, k)
  {
    if j < k {
      FamiliesAgree(x, count, k - j, j);
    } else if k < j {
      FamiliesAgree(x, count, j - k, k);
    }
  }

  /** With at least `2 * count` samples every entry has its defining value. */
  lemma EntryMatchesReference(x: seq<int>, count: nat, k: nat, j: nat)
    requires 2 * count <= |x| && k <= count && j <= count
    ensures Entry(x, count, k, j) == Reference.Ref(x, count, k, j)
  {
    if j <= k {
      CellMatchesReference(x, count, k - j, 0, j);
    } else {
      CellMatchesReference(x, count, 0, j - k, k);
    }
  }

  /** The product loop of calculateDiagonalCells: one multiplication per
      entry `t < n - pos`; the rest of the table stays zero. */
  method FillProducts(x: seq<int>, d: Start) returns (products: seq<int>, ghost mults: nat)
    requires (d.inputIndexRow == 0 && d.inputIndexCol == d.pos) || (d.inputIndexRow == d.pos && d.inputIndexCol == 0)
    ensures |products| == |x|
    ensures forall t :: 0 <= t < |x| - d.pos ==> products[t] == LagProduct(x, t, d.pos)
    ensures products == Products(x, d)
    ensures mults == Max0(|x| - d.pos)
  {
    var length := |x|;
    products := seq(length, _ => 0);
    mults := 0;
    var i := 0;
    while i < length - d.pos
      invariant 0 <= i && (i <= length - d.pos || i == 0)
      invariant |products| == length
      invariant forall t :: 0 <= t < i ==> products[t] == x[d.inputIndexRow + t] * x[d.inputIndexCol + t]
      invariant forall t :: i <= t < length ==> products[t] == 0
      invariant mults == i
    {
      products := products[i := x[d.inputIndexRow + i] * x[d.inputIndexCol + i]];
      mults := mults + 1;
      i := i + 1;
    }
  }

  /** The common loop: the table summed over `[offset, n - count)`, one
      addition per term. */
  method SumCommon(products: seq<int>, offset: nat, count: nat) returns (common: int, ghost adds: nat)
    requires offset <= count <= |products|
    ensures common == Span(products, offset, |products| - count)
    ensures adds == Max0(|products| - count - offset)
  {
    var length := |products|;
    common := 0;
    adds := 0;
    var i := offset;
    while i < length - count
      invariant offset <= i && (i <= length - count || i == offset)
      invariant common == Span(products, offset, i)
      invariant adds == i - offset
    {
      common := common + products[i];
      adds := adds + 1;
      i := i + 1;
    }
  }

  /** One cell: the common sum, then `low` entries from `offset`, then
      `high = offset` entries from `n - count`; one addition per entry. */
  method SumCell(products: seq<int>, common: int, offset: nat, low: nat, count: nat)
    returns (sum: int, ghost adds: nat)
    requires offset + low <= count <= |products|
    ensures sum == common + Span(products, offset, offset + low)
                 + Span(products, |products| - count, |products| - count + offset)
    ensures adds == low + offset
  {
    var length := |products|;
    sum := common;
    adds := 0;
    var i := 0;
    while i < low
      invariant 0 <= i <= low
      invariant sum == common + Span(products, offset, offset + i)
      invariant adds == i
    {
      sum := sum + products[offset + i];
      adds := adds + 1;
      i := i + 1;
    }
    var high := offset;
    i := 0;
    while i < high
      invariant 0 <= i <= high
      invariant sum == common + Span(products, offset, offset + low) + Span(products, length - count, length - count + i)
      invariant adds == low + i
    {
      sum := sum + products[length - count + i];
      adds := adds + 1;
      i := i + 1;
    }
  }

  /** calculateDiagonalCells: set up the diagonal, fill its products table,
      sum the common part once, then walk the diagonal storing one cell per
      step while `offset` drops and `low` grows. The walk (a do-while in the
      source, whose first test always holds here) stops as soon as either
      index passes `count`. Only the cells of this diagonal change. */
  method CalculateDiagonalCells(row: nat, col: nat, x: seq<int>, count: nat, m: Matrix)
    returns (m': Matrix, ghost written: seq<Cell>, ghost ops: Ops)
    requires IsStart(row, col, count) && count <= |x|
    requires IsSquare(m, count + 1)
    ensures IsSquare(m', count + 1)
    ensures forall k, j :: 0 <= k <= count && 0 <= j <= count ==>
      m'[k][j] == if OnDiagonal(row, col, k, j) then CellValue(x, count, row, col, k - row) else m[k][j]
    ensures written == DiagonalCells(row, col, count)
    ensures ops == DiagonalOps(|x|, count, row + col)
  {
    var pos: nat, offset: int, inputIndexRow: nat, inputIndexCol: nat;
    if col == 0 {
      pos := row;
      offset := count - pos;
      inputIndexRow := 0;
      inputIndexCol := pos;
    } else {
      pos := col;
      offset := count - pos;
      inputIndexRow := pos;
      inputIndexCol := 0;
    }
    var d := Start(pos, offset, inputIndexRow, inputIndexCol);
    assert d == StartOf(row, col, count);
    ghost var offset0: nat := offset;

    var products, mults := FillProducts(x, d);
    var common, commonAdds := SumCommon(products, offset, count);

    assert products == TableOf(x, row, col, count);
    ghost var cellAdds;
    m', written, cellAdds := WalkDiagonal(row, col, count, products, common, m);
    ops := Ops(mults, commonAdds + cellAdds);
  }

  /** The do-while walk of calculateDiagonalCells over a diagonal whose table
      is `products` and whose common sum is `common`: store one cell per step
      while `offset` drops and `low` grows, until either index passes `count`. */
  method WalkDiagonal(row: nat, col: nat, count: nat, products: seq<int>, common: int, m: Matrix)
    returns (m': Matrix, ghost written: seq<Cell>, ghost adds: nat)
    requires IsStart(row, col, count) && count <= |products|
    requires common == Span(products, count - row - col, |products| - count)
    requires IsSquare(m, count + 1)
    ensures IsSquare(m', count + 1)
    ensures forall k, j :: 0 <= k <= count && 0 <= j <= count ==>
      m'[k][j] == if OnDiagonal(row, col, k, j) then Pieces(products, count, count - row - col, k - row) else m[k][j]
    ensures written == DiagonalCells(row, col, count)
    ensures adds == (count - row - col + 1) * (count - row - col)
  {
    var offset0: nat := count - row - col;
    var offset: int := offset0;
    var low := 0;
    var r, c := row, col;
    m' := m;
    written := [];
    adds := 0;
    while r <= count && c <= count
      invariant r == row + low && c == col + low
      invariant 0 <= low <= offset0 + 1
      invariant offset == offset0 - low
      invariant IsSquare(m', count + 1)
      invariant forall k, j :: 0 <= k <= count && 0 <= j <= count ==>
        m'[k][j] == if OnDiagonal(row, col, k, j) && k < r then Pieces(products, count, offset0, k - row) else m[k][j]
      invariant written == DiagonalRun(row, col, low)
      invariant adds == low * offset0
      decreases count + 1 - r
    {
      var sum, cellAdds := SumCell(products, common, offset, low, count);
      assert sum == Pieces(products, count, offset0, low);
      m' := Store(m', r, c, sum);
      written := written + [Cell(r, c)];
      assert (low + 1) * offset0 == low * offset0 + offset0;
      adds := adds + cellAdds;
      offset := offset - 1;
      low := low + 1;
      r := r + 1;
      c := c + 1;
    }
  }

  /** The diagonal from `(row, 0)` holds exactly the entries with `k - j == row`. */
  lemma RowDiagonalEntry(x: seq<int>, count: nat, row: nat, k: nat, j: nat)
    requires count <= |x| && row <= count && k <= count && j <= count
    requires OnDiagonal(row, 0, k, j)
    ensures CellValue(x, count, row, 0, k - row) == Entry(x, count, k, j)
  {
  }

  /** The diagonal from `(0, col)` holds exactly the entries with `j - k == col`. */
  lemma ColumnDiagonalEntry(x: seq<int>, count: nat, col: nat, k: nat, j: nat)
    requires count <= |x| && 1 <= col <= count && k <= count && j <= count
    requires OnDiagonal(0, col, k, j)
    ensures CellValue(x, count, 0, col, k) == Entry(x, count, k, j)
  {
  }

  /** The first loop of generate: the diagonals from rows `count` down to `0`
      in column 0 fill every cell on or below the main diagonal. */
  method RowFamily(x: seq<int>, count: nat, m: Matrix) returns (m': Matrix, ghost written: seq<Cell>, ghost ops: Ops)
    requires count <= |x| && IsSquare(m, count + 1)
    ensures IsSquare(m', count + 1)
    ensures forall k, j :: 0 <= k <= count && 0 <= j <= count ==>
      m'[k][j] == if j <= k then Entry(x, count, k, j) else m[k][j]
    ensures written == RowSweep(0, count)
    ensures ops == RowFamilyOps(|x|, count, 0)
  {
    m' := m;
    written := [];
    ops := Ops(0, 0);
    var row: int := count;
    while row >= 0
      invariant -1 <= row <= count
      invariant IsSquare(m', count + 1)
      invariant forall k, j :: 0 <= k <= count && 0 <= j <= count && row < k - j ==> m'[k][j] == Entry(x, count, k, j)
      invariant forall k, j :: 0 <= k <= count && 0 <= j <= count && k - j <= row ==> m'[k][j] == m[k][j]
      invariant written == RowSweep(row + 1, count)
      invariant ops == RowFamilyOps(|x|, count, row + 1)
    {
      ghost var w: seq<Cell>;
      ghost var o: Ops;
      m', w, o := CalculateDiagonalCells(row, 0, x, count, m');
      forall k, j | 0 <= k <= count && 0 <= j <= count && OnDiagonal(row, 0, k, j)
        ensures m'[k][j] == Entry(x, count, k, j)
      {
        RowDiagonalEntry(x, count, row, k, j);
      }
      written := written + w;
      ops := o.Plus(ops);
      row := row - 1;
    }
  }

  /** The second loop of generate: the diagonals from columns `1` up to
      `count` in row 0 fill every cell above the main diagonal. */
  method ColumnFamily(x: seq<int>, count: nat, m: Matrix) returns (m': Matrix, ghost written: seq<Cell>, ghost ops: Ops)
    requires count <= |x| && IsSquare(m, count + 1)
    ensures IsSquare(m', count + 1)
    ensures forall k, j :: 0 <= k <= count && 0 <= j <= count ==>
      m'[k][j] == if k < j then Entry(x, count, k, j) else m[k][j]
    ensures written == ColumnSweep(count, count)
    ensures ops == ColumnFamilyOps(|x|, count, count)
  {
    m' := m;
    written := [];
    ops := Ops(0, 0);
    var col := 1;
    while col <= count
      invariant 1 <= col <= count + 1
      invariant IsSquare(m', count + 1)
      invariant forall k, j :: 0 <= k <= count && 0 <= j <= count && 0 < j - k < col ==> m'[k][j] == Entry(x, count, k, j)
      invariant forall k, j :: 0 <= k <= count && 0 <= j <= count && !(0 < j - k < col) ==> m'[k][j] == m[k][j]
      invariant written == ColumnSweep(col - 1, count)
      invariant ops == ColumnFamilyOps(|x|, count, col - 1)
    {
      ghost var w: seq<Cell>;
      ghost var o: Ops;
      m', w, o := CalculateDiagonalCells(0, col, x, count, m');
      forall k, j | 0 <= k <= count && 0 <= j <= count && OnDiagonal(0, col, k, j)
        ensures m'[k][j] == Entry(x, count, k, j)
      {
        ColumnDiagonalEntry(x, count, col, k, j);
      }
      written := written + w;
      ops := ops.Plus(o);
      col := col + 1;
    }
  }

  /** generate: all row-family diagonals, then all column-family diagonals,
      into a fresh zero matrix. With fewer than `count` samples the source
      indexes outside its products table and raises an exception; no matrix
      is returned then. */
  method Generate(x: seq<int>, count: nat) returns (r: Option<Matrix>, ghost written: seq<Cell>, ghost ops: Ops)
    ensures r.None? <==> |x| < count
    ensures r.None? <==> !InBounds(|x|, count)
    ensures r.Some? ==> IsSquare(r.value, count + 1)
    ensures r.Some? ==> forall k, j :: 0 <= k <= count && 0 <= j <= count ==> r.value[k][j] == Entry(x, count, k, j)
    ensures r.Some? ==> forall k, j :: 0 <= k <= count && 0 <= j <= count ==> r.value[k][j] == r.value[j][k]
    ensures r.Some? && 2 * count <= |x| ==>
      forall k, j :: 0 <= k <= count && 0 <= j <= count ==> r.value[k][j] == Reference.Ref(x, count, k, j)
    ensures r.Some? ==> written == AllCells(count)
    ensures r.Some? ==> forall cell :: multiset(written)[cell] == if InSquare(cell, count) then 1 else 0
    ensures r.Some? ==> ops == OptimizedOps(|x|, count)
  {
    InBoundsIffEnoughSamples(|x|, count);
    if |x| < count {
      return None, [], Ops(0, 0);
    }
    var matrix := Zeros(count + 1);
    ghost var rows: seq<Cell>, columns: seq<Cell>;
    ghost var rowOps: Ops, columnOps: Ops;
    matrix, rows, rowOps := RowFamily(x, count, matrix);
    matrix, columns, columnOps := ColumnFamily(x, count, matrix);
    written := rows + columns;
    ops := rowOps.Plus(columnOps);
    AllCellsExactlyOnce(count);

    forall k, j | 0 <= k <= count && 0 <= j <= count
      ensures matrix[k][j] == matrix[j][k]
    {
      EntrySymmetric(x, count, k, j);
    }
    if 2 * count <= |x| {
      forall k, j | 0 <= k <= count && 0 <= j <= count
        ensures matrix[k][j] == Reference.Ref(x, count, k, j)
      {
        EntryMatchesReference(x, count, k, j);
      }
    }
    r := Some(matrix);
  }
}
