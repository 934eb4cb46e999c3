/** What a deduplication run guarantees for every component list (internal/enrich/dedup/dedup.go). */
module DedupLaws {
  import opened Wrappers
  import opened Strings
  import opened Dedup
  import opened DedupMerge
  import opened DedupFold
  import opened DedupRun

  // ----- Which positions put something out -----

  /** Position f puts out what stands for position i. */
  ghost predicate Covers(comps: seq<Component>, f: nat, i: nat)
    requires f < |comps| && i < |comps|
  {
    f <= i && DedupKey(comps[f]) == DedupKey(comps[i]) && (DedupKey(comps[i]) == "" ==> f == i)
  }

  lemma CoverStep(comps: seq<Component>, j: nat, i: nat, a: nat)
    requires j < |comps| - 1 && j <= i < |comps|
    requires DedupKey(comps[j]) == DedupKey(comps[i]) && (DedupKey(comps[i]) == "" ==> j == i)
    requires var init := comps[..|comps| - 1];
      a < |Firsts(init)| && Covers(init, Firsts(init)[a], j)
    ensures exists a :: 0 <= a < |Firsts(comps)| && Covers(comps, Firsts(comps)[a], i)
  {
    hide DedupKey;
    var init := comps[..|comps| - 1];
    assert Firsts(init) <= Firsts(comps);
    hide Firsts;
    assert Covers(comps, Firsts(comps)[a], i);
  }

  lemma {:induction false} FirstsCover(comps: seq<Component>, i: nat)
    requires i < |comps|
    ensures exists a :: 0 <= a < |Firsts(comps)| && Covers(comps, Firsts(comps)[a], i)
    decreases comps
  {
    hide DedupKey, Covers, KeySet, Firsts;
    var n := |comps| - 1;
    var init := comps[..n];
    if i < n {
      FirstsCover(init, i);
      var a :| 0 <= a < |Firsts(init)| && Covers(init, Firsts(init)[a], i);
      CoverStep(comps, i, i, a);
    } else if DedupKey(comps[n]) == "" || DedupKey(comps[n]) !in KeySet(init) {
      var firsts := Firsts(comps);
      CoversItself(comps, n);
      LastIsFirst(comps);
      assert Covers(comps, firsts[|firsts| - 1], n);
    } else {
      var j := SeenBefore(init, DedupKey(comps[n]));
      FirstsCover(init, j);
      var a :| 0 <= a < |Firsts(init)| && Covers(init, Firsts(init)[a], j);
      assert comps[j] == init[j];
      CoverStep(comps, j, n, a);
    }
  }

  lemma LastIsFirst(comps: seq<Component>)
    requires comps != []
    requires DedupKey(comps[|comps| - 1]) == "" || DedupKey(comps[|comps| - 1]) !in KeySet(comps[..|comps| - 1])
    ensures Firsts(comps) != [] && Firsts(comps)[|Firsts(comps)| - 1] == |comps| - 1
  {
    hide DedupKey, KeySet;
  }

  lemma SeenBefore(comps: seq<Component>, k: string) returns (j: nat)
    requires k in KeySet(comps)
    ensures j < |comps| && DedupKey(comps[j]) == k
  {
    hide DedupKey;
    j :| j < |comps| && DedupKey(comps[j]) != "" && DedupKey(comps[j]) == k;
  }

  lemma CoversItself(comps: seq<Component>, i: nat)
    requires i < |comps|
    ensures Covers(comps, i, i)
  {
  }

  /** A keyed position puts something out only where its key has not been seen before. */
  lemma {:induction false} FirstsAreFirst(comps: seq<Component>, a: nat, i: nat)
    requires a < |Firsts(comps)| && i < Firsts(comps)[a] && DedupKey(comps[Firsts(comps)[a]]) != ""
    ensures DedupKey(comps[i]) != DedupKey(comps[Firsts(comps)[a]])
    decreases comps
  {
    hide DedupKey;
    var n := |comps| - 1;
    var init := comps[..n];
    if a < |Firsts(init)| {
      assert Firsts(comps)[a] == Firsts(init)[a];
      FirstsAreFirst(init, a, i);
    } else {
      assert init[i] == comps[i];
    }
  }

  lemma {:induction false} FirstsCount(comps: seq<Component>)
    ensures |Firsts(comps)| == |Bucket(comps, "")| + |KeySet(comps)|
  {
    hide DedupKey, KeySet;
    if comps == [] {
      NoKeys();
    } else {
      var init, last := comps[..|comps| - 1], comps[|comps| - 1];
      assert comps == init + [last];
      FirstsCount(init);
      KeySetSnoc(init, last);
      FirstsSnoc(init, last);
      hide Firsts, Bucket;
      var k := DedupKey(last);
      if k == "" || k in KeySet(init) {
        assert KeySet(comps) == KeySet(init);
      } else {
        assert KeySet(comps) == KeySet(init) + {k};
        assert |KeySet(init) + {k}| == |KeySet(init)| + 1;
      }
      if k == "" {
        NoBlankKey(init);
        assert |Bucket(comps, "")| == |Bucket(init, "")| + 1;
      }
    }
  }

  /** A run puts out the components without a key and one component per distinct key. */
  lemma RunLength(comps: seq<Component>, out: seq<Component>, groups: nat)
    requires Deduped(comps, out, groups)
    ensures |out| == |Bucket(comps, "")| + |KeySet(comps)|
  {
    FirstsCount(comps);
  }

  // ----- Content -----

  lemma {:induction false} FactsFrom(cs: seq<Component>, ds: seq<Component>)
    requires forall c :: c in cs ==> c in ds
    ensures AllFacts(cs) <= AllFacts(ds)
  {
    hide AllFacts, Facts;
    forall f | f in AllFacts(cs) ensures f in AllFacts(ds) {
      InAllFacts(cs, f);
      InAllFacts(ds, f);
    }
  }

  /** What stands for a position has the facts of all positions of the same key and no others. */
  lemma StandsForFacts(comps: seq<Component>, i: nat, c: Component)
    requires i < |comps| && StandsFor(comps, i, c)
    ensures Facts(c) <= AllFacts(comps)
    ensures Facts(comps[i]) <= Facts(c)
    ensures DedupKey(comps[i]) != "" ==> forall j :: 0 <= j < |comps| && DedupKey(comps[j]) == DedupKey(comps[i]) ==> Facts(comps[j]) <= Facts(c)
  {
    hide AllFacts, Facts, DedupKey, Members, FoldsTo, IsPrimary, Bucket;
    var k := DedupKey(comps[i]);
    if k == "" {
      MemberFacts(comps, comps[i]);
    } else {
      var idxs := Bucket(comps, k);
      var p :| p in idxs && IsPrimary(comps, idxs, p) && FoldsTo(Members(comps, idxs, p), c);
      var members := Members(comps, idxs, p);
      MembersAre(comps, idxs, p);
      InBucket(comps, k);
      FoldConservesFacts(members, c);
      FactsFrom(members, comps);
      forall j | 0 <= j < |comps| && DedupKey(comps[j]) == k ensures Facts(comps[j]) <= Facts(c) {
        assert comps[j] in members;
        MemberFacts(members, comps[j]);
      }
    }
  }

  lemma MemberFacts(cs: seq<Component>, c: Component)
    requires c in cs
    ensures Facts(c) <= AllFacts(cs)
  {
    hide AllFacts, Facts;
    forall f | f in Facts(c) ensures f in AllFacts(cs) {
      InAllFacts(cs, f);
    }
  }

  /** A run neither loses nor invents a path, a hash, a CPE or a license. */
  lemma RunConservesFacts(comps: seq<Component>, out: seq<Component>, groups: nat)
    requires Deduped(comps, out, groups)
    ensures AllFacts(out) == AllFacts(comps)
  {
    hide AllFacts, Facts, DedupKey, StandsFor, Firsts;
    forall f | f in AllFacts(out) ensures f in AllFacts(comps) {
      InAllFacts(out, f);
      var c :| c in out && f in Facts(c);
      var a :| 0 <= a < |out| && out[a] == c;
      StandsForFacts(comps, Firsts(comps)[a], c);
    }
    forall f | f in AllFacts(comps) ensures f in AllFacts(out) {
      InAllFacts(comps, f);
      var c :| c in comps && f in Facts(c);
      var i :| 0 <= i < |comps| && comps[i] == c;
      FirstsCover(comps, i);
      var a :| 0 <= a < |Firsts(comps)| && Covers(comps, Firsts(comps)[a], i);
      StandsForFacts(comps, Firsts(comps)[a], out[a]);
      InAllFacts(out, f);
      assert out[a] in out;
    }
  }

  // ----- Keys -----

  /** The primary of a bucket of two or more does not rest on a shadowed SHA-256. */
  ghost predicate SafePrimary(comps: seq<Component>, k: string) {
    |Bucket(comps, k)| > 1 ==>
      forall p :: 0 <= p < |comps| && IsPrimary(comps, Bucket(comps, k), p) ==> Unshadowed(comps[p])
  }

  ghost predicate SafePrimaries(comps: seq<Component>) {
    forall k :: k in KeySet(comps) ==> SafePrimary(comps, k)
  }

  lemma OnePrimary(comps: seq<Component>, idxs: seq<nat>, p: nat, q: nat)
    requires Within(idxs, |comps|) && IsPrimary(comps, idxs, p) && IsPrimary(comps, idxs, q)
    ensures p == q
  {
    hide Score;
  }

  /** What stands for a keyed position has its key, exactly if the bucket's primary is safe. */
  lemma StandsForKeyIff(comps: seq<Component>, i: nat, c: Component)
    requires i < |comps| && DedupKey(comps[i]) != "" && StandsFor(comps, i, c)
    ensures DedupKey(c) == DedupKey(comps[i]) <==> SafePrimary(comps, DedupKey(comps[i]))
  {
    hide DedupKey, Members, IsPrimary, Bucket, Unshadowed, FoldsTo;
    var k := DedupKey(comps[i]);
    var idxs := Bucket(comps, k);
    var p :| p in idxs && IsPrimary(comps, idxs, p) && FoldsTo(Members(comps, idxs, p), c);
    var members := Members(comps, idxs, p);
    MembersAre(comps, idxs, p);
    InBucket(comps, k);
    if |members| > 1 {
      FoldKeepsKeyIff(members, c);
      forall q | 0 <= q < |comps| && IsPrimary(comps, idxs, q) ensures q == p {
        OnePrimary(comps, idxs, p, q);
      }
    } else {
      FoldOfOne(members, c);
    }
  }

  lemma StandsForKey(comps: seq<Component>, i: nat, c: Component)
    requires i < |comps| && StandsFor(comps, i, c) && SafePrimaries(comps)
    ensures DedupKey(c) == DedupKey(comps[i])
  {
    if DedupKey(comps[i]) != "" {
      KeyHasBucket(comps, i);
      hide DedupKey, StandsFor, SafePrimary;
      StandsForKeyIff(comps, i, c);
    }
  }

  lemma FoldOfOne(members: seq<Component>, c: Component)
    requires |members| == 1 && FoldsTo(members, c)
    ensures c == members[0]
  {
  }

  /** Every output keeps the key of its position exactly if the primary of every repeated key is safe. */
  lemma RunKeepsKeysIff(comps: seq<Component>, out: seq<Component>, groups: nat)
    requires Deduped(comps, out, groups)
    ensures (forall a :: 0 <= a < |out| ==> DedupKey(out[a]) == DedupKey(comps[Firsts(comps)[a]])) <==> SafePrimaries(comps)
  {
    hide DedupKey, StandsFor, SafePrimary, Firsts;
    if SafePrimaries(comps) {
      forall a | 0 <= a < |out| ensures DedupKey(out[a]) == DedupKey(comps[Firsts(comps)[a]]) {
        StandsForKey(comps, Firsts(comps)[a], out[a]);
      }
    } else {
      var k :| k in KeySet(comps) && !SafePrimary(comps, k);
      var i :| 0 <= i < |comps| && DedupKey(comps[i]) != "" && DedupKey(comps[i]) == k;
      FirstsCover(comps, i);
      var a :| 0 <= a < |Firsts(comps)| && Covers(comps, Firsts(comps)[a], i);
      StandsForKeyIff(comps, Firsts(comps)[a], out[a]);
    }
  }

  /** Then no two outputs share a key. */
  lemma RunKeys(comps: seq<Component>, out: seq<Component>, groups: nat)
    requires Deduped(comps, out, groups) && SafePrimaries(comps)
    ensures forall a :: 0 <= a < |out| ==> DedupKey(out[a]) == DedupKey(comps[Firsts(comps)[a]])
    ensures forall a, b :: 0 <= a < b < |out| && DedupKey(out[a]) != "" ==> DedupKey(out[a]) != DedupKey(out[b])
  {
    RunKeepsKeysIff(comps, out, groups);
    hide DedupKey, StandsFor, SafePrimaries;
    forall a, b | 0 <= a < b < |out| && DedupKey(out[a]) != "" ensures DedupKey(out[a]) != DedupKey(out[b]) {
      if DedupKey(out[b]) != "" {
        FirstsAreFirst(comps, b, Firsts(comps)[a]);
      }
    }
  }

  // ----- A second run -----

  ghost predicate KeysDiffer(comps: seq<Component>) {
    forall a, b :: 0 <= a < b < |comps| && DedupKey(comps[a]) != "" ==> DedupKey(comps[a]) != DedupKey(comps[b])
  }

  lemma {:induction false} DistinctKeysAllFirst(comps: seq<Component>)
    requires KeysDiffer(comps)
    ensures |Firsts(comps)| == |comps| && forall i :: 0 <= i < |comps| ==> Firsts(comps)[i] == i
  {
    hide DedupKey;
    if comps != [] {
      var n := |comps| - 1;
      var init := comps[..n];
      assert forall a :: 0 <= a < n ==> init[a] == comps[a];
      DistinctKeysAllFirst(init);
      if DedupKey(comps[n]) != "" {
        NewKey(comps, n);
      }
      hide KeysDiffer, KeySet;
    }
  }

  lemma NewKey(comps: seq<Component>, n: nat)
    requires KeysDiffer(comps) && n < |comps| && DedupKey(comps[n]) != ""
    ensures DedupKey(comps[n]) !in KeySet(comps[..n])
  {
    hide DedupKey;
  }

  lemma SingleBucket(comps: seq<Component>, i: nat)
    requires i < |comps| && KeysDiffer(comps) && DedupKey(comps[i]) != ""
    ensures Bucket(comps, DedupKey(comps[i])) == [i]
  {
    InBucket(comps, DedupKey(comps[i]));
    hide DedupKey, Bucket;
    OnlyOne(Bucket(comps, DedupKey(comps[i])), i);
  }

  lemma OnlyOne(idxs: seq<nat>, i: nat)
    requires Ascending(idxs) && i in idxs && forall x :: x in idxs ==> x == i
    ensures idxs == [i]
  {
    assert forall a :: 0 <= a < |idxs| ==> idxs[a] in idxs;
    TwoDiffer(idxs);
  }

  lemma TwoDiffer(idxs: seq<nat>)
    requires Ascending(idxs)
    ensures |idxs| > 1 ==> exists x, y :: x in idxs && y in idxs && x < y
  {
    assert |idxs| > 1 ==> idxs[0] in idxs && idxs[1] in idxs && idxs[0] < idxs[1];
  }

  lemma StandsForItself(comps: seq<Component>, i: nat, c: Component)
    requires i < |comps| && KeysDiffer(comps) && StandsFor(comps, i, c)
    ensures c == comps[i]
  {
    hide DedupKey, Bucket, IsPrimary, FoldsTo;
    var k := DedupKey(comps[i]);
    if k != "" {
      SingleBucket(comps, i);
      var idxs := Bucket(comps, k);
      var p :| p in idxs && IsPrimary(comps, idxs, p) && FoldsTo(Members(comps, idxs, p), c);
      MembersAre(comps, idxs, p);
      FoldOfOne(Members(comps, idxs, p), c);
    }
  }

  lemma NothingRepeats(comps: seq<Component>)
    requires KeysDiffer(comps)
    ensures Repeated(comps, KeySet(comps)) == {}
  {
    hide DedupKey, Bucket, KeysDiffer;
    forall k | k in KeySet(comps) ensures |Bucket(comps, k)| == 1 {
      var i :| 0 <= i < |comps| && DedupKey(comps[i]) != "" && DedupKey(comps[i]) == k;
      SingleBucket(comps, i);
    }
  }

  /** A list is left alone exactly if no key occurs twice; then nothing is merged. */
  lemma UnchangedIffKeysDiffer(comps: seq<Component>, out: seq<Component>, groups: nat)
    requires Deduped(comps, out, groups)
    ensures KeysDiffer(comps) <==> |out| == |comps|
    ensures KeysDiffer(comps) ==> out == comps && groups == 0
  {
    hide DedupKey, StandsFor;
    if KeysDiffer(comps) {
      DistinctKeysAllFirst(comps);
      NothingRepeats(comps);
      hide KeysDiffer;
      forall i | 0 <= i < |comps| ensures out[i] == comps[i] {
        StandsForItself(comps, i, out[i]);
      }
    } else {
      FewerFirsts(comps);
    }
  }

  lemma {:induction false} FewerFirsts(comps: seq<Component>)
    ensures |Firsts(comps)| <= |comps|
    ensures |Firsts(comps)| == |comps| ==> KeysDiffer(comps)
  {
    hide DedupKey;
    if comps != [] {
      var init := comps[..|comps| - 1];
      FewerFirsts(init);
      if |Firsts(comps)| == |comps| {
        forall a, b | 0 <= a < b < |comps| && DedupKey(comps[a]) != "" ensures DedupKey(comps[a]) != DedupKey(comps[b]) {
          assert init[a] == comps[a] && (b < |init| ==> init[b] == comps[b]);
        }
      }
    }
  }

  /** A second run changes nothing and merges nothing. */
  lemma RunIsIdempotent(comps: seq<Component>, out: seq<Component>, groups: nat, again: seq<Component>, groupsAgain: nat)
    requires Deduped(comps, out, groups) && SafePrimaries(comps)
    requires Deduped(out, again, groupsAgain)
    ensures again == out && groupsAgain == 0
  {
    hide DedupKey, Deduped, SafePrimaries, Firsts;
    RunKeys(comps, out, groups);
    UnchangedIffKeysDiffer(out, again, groupsAgain);
  }

  ghost predicate KeepsValues(c: Component, out: Component) {
    forall k :: k in c.properties && !InNamespace(k) ==> Lookup(out.properties, k) == Some(c.properties[k])
  }

  lemma BucketCounts(comps: seq<Component>, i: nat, out: Component)
    requires i < |comps| && DedupKey(comps[i]) != "" && StandsFor(comps, i, out)
    requires |Bucket(comps, DedupKey(comps[i]))| > 1
    requires forall j :: 0 <= j < |comps| ==> CountKey() !in comps[j].properties
    ensures Lookup(out.properties, CountKey()) == Some(Itoa(|Bucket(comps, DedupKey(comps[i]))| - 1))
    ensures exists p :: 0 <= p < |comps| && IsPrimary(comps, Bucket(comps, DedupKey(comps[i])), p) && KeepsValues(comps[p], out)
  {
    hide DedupKey, Bucket, IsPrimary, FoldsTo, CountKey, InNamespace, Itoa, Members;
    var idxs := Bucket(comps, DedupKey(comps[i]));
    var p :| p in idxs && IsPrimary(comps, idxs, p) && FoldsTo(Members(comps, idxs, p), out);
    var members := Members(comps, idxs, p);
    MembersAre(comps, idxs, p);
    FoldCounts(members, out);
    forall k | k in comps[p].properties && !InNamespace(k)
      ensures Lookup(out.properties, k) == Some(comps[p].properties[k])
    {
      FoldKeepsFirstValue(members, out, k);
      FirstMemberFirst(members, k);
    }
  }

  lemma CountKeyText()
    ensures CountKey() == "astinus:dedup:merged-count"
  {
  }

  /** A bucket of n unstamped members yields a merged-count of n - 1, and the primary's property values. */
  lemma BucketStamps(comps: seq<Component>, i: nat, out: Component)
    requires i < |comps| && DedupKey(comps[i]) != "" && StandsFor(comps, i, out)
    requires |Bucket(comps, DedupKey(comps[i]))| > 1
    requires forall j :: 0 <= j < |comps| ==> "astinus:dedup:merged-count" !in comps[j].properties
    ensures Lookup(out.properties, "astinus:dedup:merged-count") == Some(Itoa(|Bucket(comps, DedupKey(comps[i]))| - 1))
    ensures exists p :: 0 <= p < |comps| && IsPrimary(comps, Bucket(comps, DedupKey(comps[i])), p) && KeepsValues(comps[p], out)
  {
    CountKeyText();
    hide *;
    BucketCounts(comps, i, out);
  }

  lemma {:induction false} FirstMemberFirst(members: seq<Component>, k: string)
    requires members != [] && k in members[0].properties
    ensures FirstValue(members, k) == Some(members[0].properties[k])
  {
    if |members| > 1 {
      FirstMemberFirst(members[..|members| - 1], k);
    }
  }
}
