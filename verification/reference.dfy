/** The reference generator (UnoptimizedMatrixGenerator): the defining formula
    evaluated cell by cell with a triple loop. */
module Reference {
  import opened Matrices
  import opened Costs

  /** `x[lo-k]*x[lo-j] + ... + x[hi-1-k]*x[hi-1-j]`: the summation index runs
      over `lo <= i < hi`, and terms are added in ascending `i`. */
  function LagSum(x: seq<int>, k: nat, j: nat, lo: int, hi: int): int
    requires k <= lo && j <= lo && hi <= |x|
    decreases hi - lo
  {
    if lo >= hi then 0 else LagSum(x, k, j, lo, hi - 1) + x[hi - 1 - k] * x[hi - 1 - j]
  }

  /** The matrix entry the system is defined to produce:
      `M[k][j] = sum over count <= i < n of x[i-k] * x[i-j]`. Every index
      `i - k` and `i - j` lies in `[0, n)` because `k, j <= count <= i < n`. */
  function Ref(x: seq<int>, count: nat, k: nat, j: nat): int
    requires k <= count && j <= count
  {
    LagSum(x, k, j, count, |x|)
  }

  /** Swapping the two lags swaps the factors of every term. */
  lemma {:induction false} LagSumSymmetric(x: seq<int>, k: nat, j: nat, lo: int, hi: int)
    requires k <= lo && j <= lo && hi <= |x|
    ensures LagSum(x, k, j, lo, hi) == LagSum(x, j, k, lo, hi)
    decreases hi - lo
  {
    if lo < hi {
      LagSumSymmetric(x, k, j, lo, hi - 1);
    }
  }

  /** The defined matrix is symmetric. */
  lemma {:induction false} RefSymmetric(x: seq<int>, count: nat, k: nat, j: nat)
    requires k <= count && j <= count
    ensures Ref(x, count, k, j) == Ref(x, count, j, k)
  {
    LagSumSymmetric(x, k, j, count, |x|);
  }

  /** The innermost loop: one cell's sum, one multiplication and one
      addition per term. */
  method SumTerms(x: seq<int>, count: nat, k: nat, j: nat) returns (sum: int, ghost steps: nat)
    requires k <= count && j <= count
    ensures sum == Ref(x, count, k, j)
    ensures steps == Max0(|x| - count)
  {
    sum := 0;
    steps := 0;
    var i := count;
    while i <= |x| - 1
      invariant count <= i && (i <= |x| || i == count)
      invariant sum == if i <= |x| then LagSum(x, k, j, count, i) else 0
      invariant steps == i - count
    {
      sum := sum + x[i - k] * x[i - j];
      steps := steps + 1;
      i := i + 1;
    }
  }

  /** The middle loop: every cell of row `k`, `count + 1` sums of `n - count` terms. */
  method FillRow(x: seq<int>, count: nat, k: nat, m: Matrix) returns (m': Matrix, ghost steps: nat)
    requires k <= count && IsSquare(m, count + 1)
    ensures IsSquare(m', count + 1)
    ensures forall r :: 0 <= r <= count && r != k ==> m'[r] == m[r]
    ensures forall c :: 0 <= c <= count ==> m'[k][c] == Ref(x, count, k, c)
    ensures steps == (count + 1) * Max0(|x| - count)
  {
    var terms := Max0(|x| - count);
    m' := m;
    steps := 0;
    var j := 0;
    while j <= count
      invariant 0 <= j <= count + 1
      invariant IsSquare(m', count + 1)
      invariant forall r :: 0 <= r <= count && r != k ==> m'[r] == m[r]
      invariant forall c :: 0 <= c < j ==> m'[k][c] == Ref(x, count, k, c)
      invariant steps == j * terms
    {
      var sum, cellSteps := SumTerms(x, count, k, j);
      m' := Store(m', k, j, sum);
      steps := steps + cellSteps;
      j := j + 1;
    }
  }

  /** The outer loop: all `count + 1` rows, one multiplication and one addition
      per term. */
  method FillMatrix(x: seq<int>, count: nat) returns (m: Matrix, ghost ops: Ops)
    ensures IsSquare(m, count + 1)
    ensures forall k, j :: 0 <= k <= count && 0 <= j <= count ==> m[k][j] == Ref(x, count, k, j)
    ensures ops == ReferenceOps(|x|, count)
  {
    var row := (count + 1) * Max0(|x| - count);
    m := Zeros(count + 1);
    ops := Ops(0, 0);
    var k := 0;
    while k <= count
      invariant 0 <= k <= count + 1
      invariant IsSquare(m, count + 1)
      invariant forall r, c :: 0 <= r < k && 0 <= c <= count ==> m[r][c] == Ref(x, count, r, c)
      invariant ops == Ops(k * row, k * row)
    {
      ghost var steps;
      m, steps := FillRow(x, count, k, m);
      ops := Ops(ops.mults + steps, ops.adds + steps);
      assert k * row + row == (k + 1) * row;
      k := k + 1;
    }
  }

  /** The triple loop: for every cell, sum the terms for `i = count .. n-1`.
      The input is a value and is left as it is; the result is a new matrix. */
  method Generate(x: seq<int>, count: nat) returns (m: Matrix, ghost ops: Ops)
    ensures IsSquare(m, count + 1)
    ensures forall k, j :: 0 <= k <= count && 0 <= j <= count ==> m[k][j] == Ref(x, count, k, j)
    ensures forall k, j :: 0 <= k <= count && 0 <= j <= count ==> m[k][j] == m[j][k]
    ensures |x| <= count ==> forall k, j :: 0 <= k <= count && 0 <= j <= count ==> m[k][j] == 0
    ensures |x| == count + 1 ==>
      forall k, j :: 0 <= k <= count && 0 <= j <= count ==> m[k][j] == x[count - k] * x[count - j]
    ensures ops == ReferenceOps(|x|, count)
  {
    m, ops := FillMatrix(x, count);
    forall k, j | 0 <= k <= count && 0 <= j <= count
      ensures m[k][j] == m[j][k]
    {
      RefSymmetric(x, count, k, j);
    }
    if |x| == count + 1 {
      forall k, j | 0 <= k <= count && 0 <= j <= count
        ensures m[k][j] == x[count - k] * x[count - j]
      {
        assert LagSum(x, k, j, count, count) == 0;
      }
    }
  }
}
