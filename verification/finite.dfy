module Finite {
  /** A walk longer than the set it stays in meets some element twice. */
  lemma {:induction false} Pigeonhole<T>(walk: seq<T>, places: set<T>) returns (i: nat, j: nat)
    requires |walk| > |places|
    requires forall k :: 0 <= k < |walk| ==> walk[k] in places
    ensures i < j < |walk| && walk[i] == walk[j]
  {
    var last := walk[|walk| - 1];
    var init := walk[..|walk| - 1];
    if k :| 0 <= k < |init| && init[k] == last {
      i, j := k, |walk| - 1;
    } else {
      i, j := Pigeonhole(init, places - {last});
    }
  }
}
