/** `Array.prototype.map` on sequences, used for the key and bar projections of a lane. */
module Sequences {
  /** `xs.map(f)`. */
  function Map<A, B>(xs: seq<A>, f: A -> B): (ys: seq<B>)
    ensures |ys| == |xs| && forall k :: 0 <= k < |xs| ==> ys[k] == f(xs[k])
  {
    seq(|xs|, k requires 0 <= k < |xs| => f(xs[k]))
  }
}
