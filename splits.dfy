/** The train/validation/test split: every per-position stream is cut at
    the same two indices, computed from the corpus length. */
module Splits {

  /** `int(n * 0.9)`, taken as the exact floor of 9n/10. */
  function TrainEnd(n: nat): nat
  {
    n * 9 / 10
  }

  /** `int(n * 0.95)`, taken as the exact floor of 19n/20. */
  function ValEnd(n: nat): nat
  {
    n * 19 / 20
  }

  /** The two cut points are ordered and lie within the stream. */
  lemma CutPointsOrdered(n: nat)
    ensures 0 <= TrainEnd(n) <= ValEnd(n) <= n
  {
  }

  function Min(a: nat, b: nat): nat
  {
    if a <= b then a else b
  }

  /** Python's `s[lo:hi]` for non-negative bounds: both bounds are clamped
      to the length, and a reversed range is empty. */
  function Slice<T>(s: seq<T>, lo: nat, hi: nat): (r: seq<T>)
    ensures |r| == if Min(lo, |s|) <= Min(hi, |s|) then Min(hi, |s|) - Min(lo, |s|) else 0
    ensures forall i :: 0 <= i < |r| ==> r[i] == s[Min(lo, |s|) + i]
  {
    var l, h := Min(lo, |s|), Min(hi, |s|);
    if l <= h then s[l..h] else []
  }

  datatype Split<T> = Split(train: seq<T>, val: seq<T>, test: seq<T>)

  /** The three slices put back together. */
  function Join<T>(r: Split<T>): seq<T>
  {
    r.train + r.val + r.test
  }

  /** `s[:a]`, `s[a:b]`, `s[b:]` with a and b the cut points of length n. */
  function SplitAt<T>(s: seq<T>, n: nat): (r: Split<T>)
    ensures Join(r) == s
    ensures |s| == n ==>
              && |r.train| == TrainEnd(n)
              && |r.val| == ValEnd(n) - TrainEnd(n)
              && |r.test| == n - ValEnd(n)
  {
    CutPointsOrdered(n);
    var r := Split(Slice(s, 0, TrainEnd(n)), Slice(s, TrainEnd(n), ValEnd(n)), Slice(s, ValEnd(n), |s|));
    assert r.train + r.val + r.test == s;
    r
  }

  /** Two streams of the same length are cut into slices of the same lengths,
      and the i-th element of each slice comes from the same position. */
  lemma SplitsAligned<T, U>(s: seq<T>, t: seq<U>, n: nat)
    requires |s| == |t| == n
    ensures |SplitAt(s, n).train| == |SplitAt(t, n).train|
    ensures |SplitAt(s, n).val| == |SplitAt(t, n).val|
    ensures |SplitAt(s, n).test| == |SplitAt(t, n).test|
    ensures forall i :: 0 <= i < |SplitAt(s, n).train| ==>
              SplitAt(s, n).train[i] == s[i] && SplitAt(t, n).train[i] == t[i]
    ensures forall i :: 0 <= i < |SplitAt(s, n).val| ==>
              SplitAt(s, n).val[i] == s[TrainEnd(n) + i] && SplitAt(t, n).val[i] == t[TrainEnd(n) + i]
    ensures forall i :: 0 <= i < |SplitAt(s, n).test| ==>
              SplitAt(s, n).test[i] == s[ValEnd(n) + i] && SplitAt(t, n).test[i] == t[ValEnd(n) + i]
  {
  }

  /** A one-element stream goes entirely to the test split. */
  lemma OneElementSplit<T>(x: T)
    ensures SplitAt([x], 1) == Split([], [], [x])
  {
  }
}
