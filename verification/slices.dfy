/** Python's leading slice `s[:n]`. */
module Slices {

  /** The first `n` elements of `s`, or all of `s` when it is shorter. */
  function Take<T>(s: seq<T>, n: nat): (h: seq<T>)
    ensures |h| == if |s| <= n then |s| else n
    ensures forall i :: 0 <= i < |h| ==> h[i] == s[i]
  {
    if |s| <= n then s else s[..n]
  }
}
