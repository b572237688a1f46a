/** Small generic helpers shared by the answering engine. */
module Wrappers {

  /** An optional value: the engine's "maybe found" results. */
  datatype Option<+T> = None | Some(value: T)

  /** Python's slice `xs[:n]`: at most the first n elements. */
  function Prefix<T>(xs: seq<T>, n: nat): (r: seq<T>)
    ensures |r| == if |xs| <= n then |xs| else n
    ensures r <= xs
  {
    if |xs| <= n then xs else xs[..n]
  }

  /** Index of the first element satisfying p, if any. */
  function FirstIndex<T>(xs: seq<T>, p: T -> bool): (r: Option<nat>)
    ensures r.Some? ==> r.value < |xs| && p(xs[r.value])
    ensures forall k | 0 <= k < |xs| && (r.None? || k < r.value) :: !p(xs[k])
    decreases |xs|
  {
    if xs == [] then None
    else if p(xs[0]) then Some(0)
    else match FirstIndex(xs[1..], p)
      case None => None
      case Some(k) => Some(k + 1)
  }

  /** The first match in xs is also the first match in any extension of xs. */
  lemma {:induction false} FirstIndexAppend<T>(xs: seq<T>, ys: seq<T>, p: T -> bool)
    requires FirstIndex(xs, p).Some?
    ensures FirstIndex(xs + ys, p) == FirstIndex(xs, p)
    decreases |xs|
  {
    if !p(xs[0]) {
      assert (xs + ys)[1..] == xs[1..] + ys;
      FirstIndexAppend(xs[1..], ys, p);
    }
  }

  /** An index that satisfies p with nothing before it satisfying p is the first index. */
  lemma FirstIndexIs<T>(xs: seq<T>, p: T -> bool, k: nat)
    requires k < |xs| && p(xs[k])
    requires forall q | 0 <= q < k :: !p(xs[q])
    ensures FirstIndex(xs, p) == Some(k)
  {
  }

  function Min(a: int, b: int): int {
    if a <= b then a else b
  }
}
