/** Sets of positions, listed in ascending order. */
module Positions {
  /** The positions of a set, in order. */
  ghost predicate PicksExactly(at: seq<nat>, wanted: set<nat>) {
    && (forall i: nat :: i in at <==> i in wanted)
    && (forall k, l :: 0 <= k < l < |at| ==> at[k] < at[l])
  }

  lemma PicksNext(at: seq<nat>, wanted: set<nat>, n: nat)
    requires PicksExactly(at, wanted) && forall i :: i in wanted ==> i < n
    ensures PicksExactly(at + [n], wanted + {n})
  {
    forall k, l | 0 <= k < l < |at + [n]| ensures (at + [n])[k] < (at + [n])[l] {
      assert at[k] in at;
    }
  }
}
