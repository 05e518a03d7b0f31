/** The capability both generators provide (MatrixGenerator.generate): a
    sample sequence and a count in, a `(count + 1)`-square matrix out. The
    application picks one of the two implementations. */
module Generators {
  import opened Matrices
  import Reference
  import Optimized
  import ShortInput

  /** The two implementations of the source, and the optimized one with its
      end loops clamped to each cell's window. */
  datatype Kind = Reference | Optimized | Corrected

  /** Run the chosen generator. All return the defining matrix when there are
      at least `2 * count` samples, and the reference and corrected ones do so
      for any number; only the optimized one can fail, and only when there are
      fewer than `count` samples. */
  method Generate(kind: Kind, x: seq<int>, count: nat) returns (r: Option<Matrix>)
    ensures r.None? <==> kind.Optimized? && |x| < count
    ensures r.Some? ==> IsSquare(r.value, count + 1)
    ensures r.Some? ==> forall k, j :: 0 <= k <= count && 0 <= j <= count ==> r.value[k][j] == r.value[j][k]
    ensures r.Some? && (!kind.Optimized? || 2 * count <= |x|) ==>
      forall k, j :: 0 <= k <= count && 0 <= j <= count ==> r.value[k][j] == Reference.Ref(x, count, k, j)
  {
    if kind.Reference? {
      var m, ops := Reference.Generate(x, count);
      r := Some(m);
    } else if kind.Optimized? {
      ghost var written, ops;
      r, written, ops := Optimized.Generate(x, count);
    } else {
      var m := ShortInput.CorrectedGenerate(x, count);
      forall k, j | 0 <= k <= count && 0 <= j <= count
        ensures m[k][j] == m[j][k]
      {
        Reference.RefSymmetric(x, count, k, j);
      }
      r := Some(m);
    }
  }
}
