/** Value types shared by both generators. */
module Matrices {

  /** The generators' `float[][]` result: a sequence of rows. Samples and
      entries are exact integers, so sums do not depend on accumulation order. */
  type Matrix = seq<seq<int>>

  /** `m` has `size` rows of `size` entries each. */
  predicate IsSquare(m: Matrix, size: nat) {
    |m| == size && forall k :: 0 <= k < size ==> |m[k]| == size
  }

  /** A freshly allocated `new float[size][size]`: every entry starts at zero. */
  function Zeros(size: nat): (m: Matrix)
    ensures IsSquare(m, size)
    ensures forall k, j :: 0 <= k < size && 0 <= j < size ==> m[k][j] == 0
  {
    seq(size, _ => seq(size, _ => 0))
  }

  /** `m` after the assignment `m[k][j] = v`. */
  function Store(m: Matrix, k: nat, j: nat, v: int): (m': Matrix)
    requires k < |m| && j < |m[k]|
    ensures |m'| == |m|
    ensures forall r :: 0 <= r < |m| ==> |m'[r]| == |m[r]|
    ensures m'[k][j] == v
    ensures forall r, c :: 0 <= r < |m| && 0 <= c < |m[r]| && (r != k || c != j) ==> m'[r][c] == m[r][c]
  {
    m[k := m[k][j := v]]
  }

  /** A result that is absent when the source would have raised an exception. */
  datatype Option<T> = None | Some(value: T)
}
