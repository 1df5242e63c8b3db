/** Sequences without repetition, and without one element. */
module Sequences {

  predicate NoDuplicates(s: seq<nat>) {
    forall j, k :: 0 <= j < k < |s| ==> s[j] != s[k]
  }

  /** The sequence without element `k`. */
  function Cut<T>(q: seq<T>, k: nat): (r: seq<T>)
    requires k < |q|
    ensures |r| == |q| - 1
    ensures forall j :: 0 <= j < |r| ==> r[j] == if j < k then q[j] else q[j + 1]
  {
    q[..k] + q[k + 1..]
  }
}
