/** `Array.prototype.find`, as an index search over a sequence. */
module Seqs {
  import opened Wrappers

  /** `k` is the first index of `xs` whose element satisfies `p`. */
  ghost predicate IsFirst<T>(xs: seq<T>, p: T -> bool, k: nat) {
    && k < |xs|
    && p(xs[k])
    && forall j :: 0 <= j < k ==> !p(xs[j])
  }

  /**
   Index of the first element, from `from` onward, that satisfies `p`, or
   `None` when no element from there on does.
   */
  function FindFrom<T>(xs: seq<T>, p: T -> bool, from: nat): (r: Option<nat>)
    requires from <= |xs|
    decreases |xs| - from
    ensures r.Some? ==> from <= r.value < |xs| && p(xs[r.value])
    ensures r.Some? ==> forall j :: from <= j < r.value ==> !p(xs[j])
    ensures r.None? <==> forall j :: from <= j < |xs| ==> !p(xs[j])
  {
    if from == |xs| then None
    else if p(xs[from]) then Some(from)
    else FindFrom(xs, p, from + 1)
  }

  /** `xs.find(p)`, returned as the index of the element found. */
  function Find<T>(xs: seq<T>, p: T -> bool): (r: Option<nat>)
    ensures r.Some? ==> IsFirst(xs, p, r.value)
    ensures r.None? <==> forall j :: 0 <= j < |xs| ==> !p(xs[j])
  {
    FindFrom(xs, p, 0)
  }

  /** Clamps a relative index of `Array.prototype.slice` into `[0, len]`; negative ones count from the end. */
  function RelativeIndex(i: int, len: nat): (r: nat)
    ensures r <= len
    ensures 0 <= i <= len ==> r == i
    ensures i < 0 && 0 <= len + i ==> r == len + i
    ensures len + i < 0 ==> r == 0
    ensures len < i ==> r == len
  {
    if i < 0 then (if len + i < 0 then 0 else len + i)
    else if i < len then i else len
  }

  /** `xs.slice(start, end)` with the clamping and negative-index rules of ECMAScript. */
  function JsSlice<T>(xs: seq<T>, start: int, end: int): (r: seq<T>)
    ensures 0 <= start <= end <= |xs| ==> r == xs[start..end]
    ensures 0 <= start && end < 0 && start <= |xs| + end ==> r == xs[start..|xs| + end]
    ensures |r| <= |xs|
    ensures RelativeIndex(end, |xs|) <= RelativeIndex(start, |xs|) ==> r == []
    ensures RelativeIndex(start, |xs|) < RelativeIndex(end, |xs|) ==>
              && |r| == RelativeIndex(end, |xs|) - RelativeIndex(start, |xs|)
              && forall k :: 0 <= k < |r| ==> r[k] == xs[RelativeIndex(start, |xs|) + k]
  {
    var lo := RelativeIndex(start, |xs|);
    var hi := RelativeIndex(end, |xs|);
    if lo < hi then xs[lo..hi] else []
  }
}
