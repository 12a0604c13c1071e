// Stock definitions shared by the other modules.
module Wrappers {
  // A pointer that may be NULL, or a function that may have no answer
  datatype Option<T> = None | Some(value: T)

  // A list without repeats
  predicate Distinct<T(==)>(s: seq<T>) {
    forall i, j :: 0 <= i < j < |s| ==> s[i] != s[j]
  }

  // The elements with the given numbers
  function Picked<T>(xs: seq<T>, ids: seq<int>): (out: seq<T>)
    requires forall k :: 0 <= k < |ids| ==> 0 <= ids[k] < |xs|
    ensures |out| == |ids| && forall k :: 0 <= k < |ids| ==> out[k] == xs[ids[k]]
  {
    seq(|ids|, k requires 0 <= k < |ids| => xs[ids[k]])
  }
}
