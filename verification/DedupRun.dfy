/** The deduplication of a whole component list (internal/enrich/dedup/dedup.go). */
module DedupRun {
  import opened Dedup
  import opened DedupFold

  // ----- Buckets -----

  predicate Within(idxs: seq<nat>, n: nat) {
    forall a :: 0 <= a < |idxs| ==> idxs[a] < n
  }

  predicate Ascending(idxs: seq<nat>) {
    forall a, b :: 0 <= a < b < |idxs| ==> idxs[a] < idxs[b]
  }

  /** The positions holding a key, in order. */
  function Bucket(comps: seq<Component>, k: string): (idxs: seq<nat>)
    ensures Within(idxs, |comps|) && Ascending(idxs)
  {
    if comps == [] then []
    else
      var n := |comps| - 1;
      var init := Bucket(comps[..n], k);
      if DedupKey(comps[n]) == k then init + [n] else init
  }

  lemma {:induction false} InBucket(comps: seq<Component>, k: string)
    ensures forall i :: i in Bucket(comps, k) <==> 0 <= i < |comps| && DedupKey(comps[i]) == k
  {
    hide DedupKey;
    if comps != [] {
      InBucket(comps[..|comps| - 1], k);
    }
  }

  function KeySet(comps: seq<Component>): set<string> {
    set i | 0 <= i < |comps| && DedupKey(comps[i]) != "" :: DedupKey(comps[i])
  }

  lemma KeySetSnoc(comps: seq<Component>, c: Component)
    ensures KeySet(comps + [c]) == KeySet(comps) + if DedupKey(c) == "" then {} else {DedupKey(c)}
  {
    hide DedupKey;
    var all := comps + [c];
    forall k | k in KeySet(comps) ensures k in KeySet(all) {
      var i :| 0 <= i < |comps| && DedupKey(comps[i]) != "" && DedupKey(comps[i]) == k;
      assert all[i] == comps[i];
    }
    assert all[|comps|] == c;
  }

  // ----- The primary -----

  function Score(c: Component): nat {
    (if c.purl != "" then 100 else 0) + (if c.cpes != [] then 10 else 0) + |Locations(c.evidence)|
  }

  /** A best-scoring position; the earliest of those. */
  ghost predicate IsPrimary(comps: seq<Component>, idxs: seq<nat>, p: nat)
    requires Within(idxs, |comps|)
  {
    && (exists a :: 0 <= a < |idxs| && idxs[a] == p)
    && forall a :: 0 <= a < |idxs| ==>
      Score(comps[idxs[a]]) < Score(comps[p]) || (Score(comps[idxs[a]]) == Score(comps[p]) && p <= idxs[a])
  }

  method PickPrimary(comps: seq<Component>, idxs: seq<nat>) returns (best: nat)
    requires idxs != [] && Within(idxs, |comps|)
    ensures IsPrimary(comps, idxs, best)
  {
    hide Score;
    best := idxs[0];
    var bestScore := Score(comps[best]);
    for a := 1 to |idxs|
      invariant exists b :: 0 <= b < a && idxs[b] == best
      invariant bestScore == Score(comps[best])
      invariant forall b :: 0 <= b < a ==>
        Score(comps[idxs[b]]) < bestScore || (Score(comps[idxs[b]]) == bestScore && best <= idxs[b])
    {
      var i := idxs[a];
      var s := Score(comps[i]);
      if s > bestScore {
        best, bestScore := i, s;
      } else if s == bestScore && i < best {
        best := i;
      }
    }
  }

  function Others(comps: seq<Component>, idxs: seq<nat>, p: nat): seq<Component>
    requires Within(idxs, |comps|)
  {
    if idxs == [] then []
    else
      var last := idxs[|idxs| - 1];
      Others(comps, idxs[..|idxs| - 1], p) + if last == p then [] else [comps[last]]
  }

  /** Primary first, the rest in their order. */
  function Members(comps: seq<Component>, idxs: seq<nat>, p: nat): (members: seq<Component>)
    requires p < |comps| && Within(idxs, |comps|)
    ensures members != [] && members[0] == comps[p]
  {
    [comps[p]] + Others(comps, idxs, p)
  }

  lemma {:induction false} OthersAre(comps: seq<Component>, idxs: seq<nat>, p: nat)
    requires Within(idxs, |comps|)
    requires Ascending(idxs)
    ensures forall c :: c in Others(comps, idxs, p) <==> exists i :: i in idxs && i != p && comps[i] == c
    ensures |Others(comps, idxs, p)| == |idxs| - if p in idxs then 1 else 0
  {
    if idxs != [] {
      var init, last := idxs[..|idxs| - 1], idxs[|idxs| - 1];
      assert idxs == init + [last];
      assert last !in init;
      OthersAre(comps, init, p);
    }
  }

  /** The members are the bucket, each once. */
  lemma MembersAre(comps: seq<Component>, idxs: seq<nat>, p: nat)
    requires p in idxs && Within(idxs, |comps|)
    requires Ascending(idxs)
    ensures forall c :: c in Members(comps, idxs, p) <==> exists i :: i in idxs && comps[i] == c
    ensures |Members(comps, idxs, p)| == |idxs|
  {
    hide Others;
    OthersAre(comps, idxs, p);
  }

  method MergeBucket(comps: seq<Component>, idxs: seq<nat>, p: nat) returns (out: Component)
    requires p in idxs && Within(idxs, |comps|)
    ensures FoldsTo(Members(comps, idxs, p), out)
  {
    hide Merged, FoldsTo;
    out := comps[p];
    assert FoldsTo([out], out) by { FoldOne(out); }
    assert Others(comps, idxs[..0], p) == [];
    assert Members(comps, idxs[..0], p) == [comps[p]];
    for a := 0 to |idxs|
      invariant FoldsTo(Members(comps, idxs[..a], p), out)
    {
      var i := idxs[a];
      assert idxs[..a + 1] == idxs[..a] + [i];
      if i == p {
        assert Members(comps, idxs[..a + 1], p) == Members(comps, idxs[..a], p);
        continue;
      }
      var merged := MergePair(out, comps[i]);
      FoldSnoc(Members(comps, idxs[..a], p), comps[i], out, merged);
      assert Members(comps, idxs[..a], p) + [comps[i]] == Members(comps, idxs[..a + 1], p);
      out := merged;
    }
    assert idxs[..|idxs|] == idxs;
  }

  lemma FoldOne(c: Component)
    ensures FoldsTo([c], c)
  {
  }

  // ----- The whole run -----

  /** The positions that put something out: every unkeyed one, and the first one of each key. */
  function Firsts(comps: seq<Component>): (idxs: seq<nat>)
    ensures Within(idxs, |comps|) && Ascending(idxs)
  {
    if comps == [] then []
    else
      var n := |comps| - 1;
      var init := Firsts(comps[..n]);
      if DedupKey(comps[n]) == "" || DedupKey(comps[n]) !in KeySet(comps[..n]) then init + [n] else init
  }

  lemma FirstsSnoc(comps: seq<Component>, c: Component)
    ensures Firsts(comps + [c]) ==
      if DedupKey(c) == "" || DedupKey(c) !in KeySet(comps) then Firsts(comps) + [|comps|] else Firsts(comps)
  {
    assert (comps + [c])[..|comps|] == comps;
  }

  /** What stands for position i: itself without a key, its whole bucket otherwise. */
  ghost predicate StandsFor(comps: seq<Component>, i: nat, out: Component)
    requires i < |comps|
  {
    if DedupKey(comps[i]) == "" then out == comps[i] else FromBucket(comps, Bucket(comps, DedupKey(comps[i])), out)
  }

  ghost predicate FromBucket(comps: seq<Component>, idxs: seq<nat>, out: Component)
    requires Within(idxs, |comps|)
  {
    exists p :: p in idxs && IsPrimary(comps, idxs, p) && FoldsTo(Members(comps, idxs, p), out)
  }

  function Repeated(comps: seq<Component>, keys: set<string>): set<string> {
    set k | k in keys && |Bucket(comps, k)| > 1
  }

  ghost predicate Deduped(comps: seq<Component>, out: seq<Component>, groups: nat) {
    && |out| == |Firsts(comps)|
    && (forall a :: 0 <= a < |out| ==> StandsFor(comps, Firsts(comps)[a], out[a]))
    && groups == |Repeated(comps, KeySet(comps))|
  }

  method FillBuckets(comps: seq<Component>) returns (buckets: map<string, seq<nat>>)
    ensures buckets.Keys == KeySet(comps)
    ensures forall k :: k in buckets ==> buckets[k] == Bucket(comps, k)
  {
    hide DedupKey, KeySet;
    buckets := map[];
    assert KeySet(comps[..0]) == {} by { NoKeys(); }
    for i := 0 to |comps|
      invariant buckets.Keys == KeySet(comps[..i])
      invariant forall k :: k in buckets ==> buckets[k] == Bucket(comps[..i], k)
    {
      assert comps[..i + 1] == comps[..i] + [comps[i]];
      KeySetSnoc(comps[..i], comps[i]);
      var k := DedupKey(comps[i]);
      if k == "" {
        forall x | x in buckets ensures buckets[x] == Bucket(comps[..i + 1], x) {
          NoBlankKey(comps[..i]);
        }
        continue;
      }
      ghost var before := buckets;
      if k in buckets {
        buckets := buckets[k := buckets[k] + [i]];
      } else {
        NoBucket(comps[..i], k);
        buckets := buckets[k := [i]];
      }
      forall x | x in buckets ensures buckets[x] == Bucket(comps[..i + 1], x) {
      }
    }
    assert comps[..|comps|] == comps;
  }

  lemma NoKeys()
    ensures KeySet([]) == {}
  {
  }

  lemma NoBlankKey(comps: seq<Component>)
    ensures "" !in KeySet(comps)
  {
    hide DedupKey;
  }

  lemma NoBucket(comps: seq<Component>, k: string)
    requires k != "" && k !in KeySet(comps)
    ensures Bucket(comps, k) == []
  {
    hide DedupKey;
    assert forall i :: 0 <= i < |comps| ==> DedupKey(comps[i]) != k;
    InBucket(comps, k);
    assert forall i :: i !in Bucket(comps, k);
  }

  method Run(comps: seq<Component>) returns (out: seq<Component>, groups: nat)
    ensures Deduped(comps, out, groups)
  {
    hide DedupKey, KeySet, FromBucket, Firsts, Repeated;
    var buckets := FillBuckets(comps);
    out, groups := [], 0;
    var emitted: set<string> := {};
    assert KeySet(comps[..0]) == {} && Firsts(comps[..0]) == [] by { NoKeys(); NoFirsts(); }
    assert Repeated(comps, {}) == {} by { RepeatedNone(comps); }
    for i := 0 to |comps|
      invariant emitted == KeySet(comps[..i])
      invariant |out| == |Firsts(comps[..i])|
      invariant forall a :: 0 <= a < |out| ==> Firsts(comps[..i])[a] < i && StandsFor(comps, Firsts(comps[..i])[a], out[a])
      invariant groups == |Repeated(comps, emitted)|
    {
      assert comps[..i + 1] == comps[..i] + [comps[i]];
      KeySetSnoc(comps[..i], comps[i]);
      FirstsSnoc(comps[..i], comps[i]);
      var k := DedupKey(comps[i]);
      if k == "" {
        out := out + [comps[i]];
        continue;
      }
      KeyHasBucket(comps, i);
      RepeatedAdd(comps, emitted, k);
      if k in emitted {
        continue;
      }
      emitted := emitted + {k};
      var c := MergedOrAlone(comps, i, buckets[k]);
      out := out + [c];
      if |buckets[k]| > 1 {
        groups := groups + 1;
      }
    }
    assert comps[..|comps|] == comps;
  }

  method MergedOrAlone(comps: seq<Component>, i: nat, idxs: seq<nat>) returns (out: Component)
    requires i < |comps| && idxs == Bucket(comps, DedupKey(comps[i])) && idxs != []
    ensures FromBucket(comps, idxs, out)
  {
    hide DedupKey, FromBucket, FoldsTo, IsPrimary;
    if |idxs| == 1 {
      OneInBucket(comps, i);
      return comps[i];
    }
    var primary := PickPrimary(comps, idxs);
    IsPrimaryIn(comps, idxs, primary);
    out := MergeBucket(comps, idxs, primary);
    FromBucketBy(comps, idxs, primary, out);
  }

  lemma IsPrimaryIn(comps: seq<Component>, idxs: seq<nat>, p: nat)
    requires Within(idxs, |comps|) && IsPrimary(comps, idxs, p)
    ensures p in idxs
  {
  }

  lemma NoFirsts()
    ensures Firsts([]) == []
  {
  }

  lemma RepeatedNone(comps: seq<Component>)
    ensures Repeated(comps, {}) == {}
  {
  }

  lemma KeyHasBucket(comps: seq<Component>, i: nat)
    requires i < |comps| && DedupKey(comps[i]) != ""
    ensures DedupKey(comps[i]) in KeySet(comps) && i in Bucket(comps, DedupKey(comps[i]))
  {
    hide DedupKey;
  }

  lemma RepeatedAdd(comps: seq<Component>, keys: set<string>, k: string)
    ensures Repeated(comps, keys + {k}) == Repeated(comps, keys) + if |Bucket(comps, k)| > 1 then {k} else {}
    ensures k !in keys ==> k !in Repeated(comps, keys)
  {
    hide Bucket;
  }

  lemma OneInBucket(comps: seq<Component>, i: nat)
    requires i < |comps| && |Bucket(comps, DedupKey(comps[i]))| == 1
    ensures FromBucket(comps, Bucket(comps, DedupKey(comps[i])), comps[i])
  {
    hide DedupKey, Score, Merged;
    var idxs := Bucket(comps, DedupKey(comps[i]));
    InBucket(comps, DedupKey(comps[i]));
    assert idxs == [i];
    assert idxs[..0] == [];
    assert Others(comps, idxs, i) == [];
    assert Members(comps, idxs, i) == [comps[i]];
    FoldOne(comps[i]);
    FromBucketBy(comps, idxs, i, comps[i]);
  }

  lemma FromBucketBy(comps: seq<Component>, idxs: seq<nat>, p: nat, out: Component)
    requires Within(idxs, |comps|)
    requires IsPrimary(comps, idxs, p) && FoldsTo(Members(comps, idxs, p), out)
    ensures FromBucket(comps, idxs, out)
  {
    hide FoldsTo;
  }
}
