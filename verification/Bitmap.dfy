/** A bitmap as a sequence of booleans, with first-fit scanning. */
module Bitmap {
  datatype Option<T> = None | Some(value: T)

  predicate AllAre(used: seq<bool>, from: nat, cnt: nat, v: bool) {
    from + cnt <= |used| && forall i :: from <= i < from + cnt ==> used[i] == v
  }

  /** The lowest run of `cnt` free places at or after `from`. */
  function Fit(used: seq<bool>, cnt: nat, from: nat): (r: Option<nat>)
    ensures r.Some? ==> from <= r.value && AllAre(used, r.value, cnt, false)
    ensures r.Some? ==> forall i :: from <= i < r.value ==> !AllAre(used, i, cnt, false)
    ensures r.None? ==> forall i :: from <= i ==> !AllAre(used, i, cnt, false)
    decreases |used| - from
  {
    if from + cnt > |used| then None
    else if AllAre(used, from, cnt, false) then Some(from)
    else if from < |used| then Fit(used, cnt, from + 1)
    else None
  }

  function Mark(used: seq<bool>, from: nat, cnt: nat, v: bool): (r: seq<bool>)
    requires from + cnt <= |used|
    ensures |r| == |used|
    ensures forall i :: 0 <= i < |r| ==> r[i] == if from <= i < from + cnt then v else used[i]
  {
    used[..from] + seq(cnt, i => v) + used[from + cnt..]
  }

  /** Marking free places and unmarking them. */
  lemma MarkBack(used: seq<bool>, from: nat, cnt: nat)
    requires AllAre(used, from, cnt, false)
    ensures AllAre(Mark(used, from, cnt, true), from, cnt, true)
    ensures Mark(Mark(used, from, cnt, true), from, cnt, false) == used
  {
  }
}
