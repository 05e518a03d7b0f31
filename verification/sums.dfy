/** Sums over a contiguous range of a sequence, as the source's summation loops compute them. */
module Sums {

  /** `p[lo] + ... + p[hi-1]`, added in ascending index order; an empty range
      (`lo >= hi`) sums to zero, as a loop `for (i = lo; i < hi; i++)` that
      never runs leaves its accumulator unchanged. */
  function Span(p: seq<int>, lo: int, hi: int): int
    requires 0 <= lo && hi <= |p|
    decreases hi - lo
  {
    if lo >= hi then 0 else Span(p, lo, hi - 1) + p[hi - 1]
  }

  /** A range can be cut at any point in between. */
  lemma {:induction false} SpanSplit(p: seq<int>, lo: int, mid: int, hi: int)
    requires 0 <= lo <= mid <= hi <= |p|
    ensures Span(p, lo, hi) == Span(p, lo, mid) + Span(p, mid, hi)
    decreases hi - mid
  {
    if mid < hi {
      SpanSplit(p, lo, mid, hi - 1);
    }
  }
}
