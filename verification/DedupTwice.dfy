/** A list that a deduplication run leaves with a key twice (internal/enrich/dedup/dedup.go). */
module DedupTwice {
  import opened Wrappers
  import opened Strings
  import opened Dedup
  import opened DedupMerge
  import opened DedupFold
  import opened DedupRun
  import opened DedupLaws

  const COLON_HASH := Hash("sha256:a", "b")
  const SHA_HASH := Hash("sha256", "a:b")

  function Named(hashes: seq<Hash>): Component {
    Component("", [], hashes, "library", "x", "1", [], map[], None, None)
  }

  lemma SameHashKey()
    ensures !IsSha(COLON_HASH) && IsSha(SHA_HASH) && HashKey(COLON_HASH) == HashKey(SHA_HASH) == ShaKey("a:b")
  {
    assert |Lower("sha256:a")| != |Lower(SHA256)|;
    assert Lower("a:b") == ['a', ':', 'b'];
    assert Lower("b") == ['b'];
    assert Lower("sha256:a") == Lower("sha256") + [':', 'a'];
    assert ([':', 'a'] + [':']) + ['b'] == [':'] + ['a', ':', 'b'];
  }

  lemma ShadowingKey()
    ensures var c := Named([COLON_HASH, SHA_HASH]);
      !Unshadowed(c) && FindSha(c.hashes) == "a:b" && DedupKey(c) != DedupKey(Named([])) && DedupKey(c) != "" && DedupKey(Named([])) != ""
  {
    SameHashKey();
    var c := Named([COLON_HASH, SHA_HASH]);
    hide IsSha, HashKey, Lower;
    assert c.hashes[1..] == [SHA_HASH] && c.hashes[..1] == [COLON_HASH];
    assert FindSha(c.hashes[..1]) == "";
    assert ShadowedAt(c.hashes[..1], c.hashes[1]) by { assert HashKey(c.hashes[..1][0]) == HashKey(c.hashes[1]); }
    assert DedupKey(c)[0] == 's' && DedupKey(Named([]))[0] == 'n';
  }

  lemma NoShaLeft(hashes: seq<Hash>)
    requires AllDistinct(hashes, HashKey) && Lost(hashes, "a:b") && forall h :: h in hashes ==> h == COLON_HASH || h == SHA_HASH
    ensures FindSha(hashes) == ""
  {
    SameHashKey();
    FindShaIsFirst(hashes);
    hide IsSha, HashKey, FindSha, ShaKey, COLON_HASH, SHA_HASH;
    var i :| 0 <= i < |hashes| && !IsSha(hashes[i]) && HashKey(hashes[i]) == ShaKey("a:b");
    forall h | h in hashes ensures !IsSha(h) {
      var j :| 0 <= j < |hashes| && hashes[j] == h;
      if i != j {
        assert HashKey(hashes[i]) != HashKey(hashes[j]);
      }
    }
  }

  /** Two components of one shadowed SHA-256 merge into one known by name only, which a third may share. */
  lemma ShadowedMergeFallsBack(p: Component, s: Component, out: Component)
    requires p == s == Named([COLON_HASH, SHA_HASH]) && Merged(p, s, out)
    ensures DedupKey(out) == DedupKey(Named([])) != DedupKey(p)
  {
    hide *;
    ShadowingKey();
    ShadowedPair(p, s, out);
    MergedNamed(p, s, out);
    NoShaLeft(out.hashes);
    NamedKey(out);
  }

  lemma ShadowedPair(p: Component, s: Component, out: Component)
    requires p == s == Named([COLON_HASH, SHA_HASH]) && Merged(p, s, out)
    ensures KeyLost(out, "a:b")
  {
    hide *;
    ShadowingKey();
    NamedHashes([COLON_HASH, SHA_HASH]);
    KeyOfShadowed(p, s, out);
  }

  lemma NamedHashes(hashes: seq<Hash>)
    ensures Named(hashes).hashes == hashes
  {
  }

  lemma MergedNamed(p: Component, s: Component, out: Component)
    requires p == s == Named([COLON_HASH, SHA_HASH]) && Merged(p, s, out)
    ensures out.purl == "" && FirstNonBlank(out.cpes) == ""
    ensures out.typ == "library" && out.name == "x" && out.version == "1"
    ensures AllDistinct(out.hashes, HashKey) && Lost(out.hashes, "a:b")
    ensures forall h :: h in out.hashes ==> h == COLON_HASH || h == SHA_HASH
  {
    hide Merged, Facts, COLON_HASH, SHA_HASH, Lost, AllDistinct, FirstNonBlank, IsSha, HashKey;
    ShadowedPair(p, s, out);
    MergeConservesFacts(p, s, out);
    MergedIdentity(p, s, out);
  }

  lemma MergedIdentity(p: Component, s: Component, out: Component)
    requires Merged(p, s, out)
    ensures out.purl == p.purl && out.typ == p.typ && out.name == p.name && out.version == p.version
  {
    hide MergedEvidence, Enumerates, Stamped, Distinct, AddProperties;
  }

  lemma NamedKey(out: Component)
    requires out.purl == "" && FirstNonBlank(out.cpes) == "" && FindSha(out.hashes) == ""
    requires out.typ == "library" && out.name == "x" && out.version == "1"
    ensures DedupKey(out) == DedupKey(Named([]))
  {
    hide Lower, CanonicalPurl, CanonicalCpe;
  }

  function Thrice(): seq<Component> {
    var c := Named([COLON_HASH, SHA_HASH]);
    [c, c, Named([])]
  }

  lemma BucketSnoc(comps: seq<Component>, c: Component, k: string)
    ensures Bucket(comps + [c], k) == if DedupKey(c) == k then Bucket(comps, k) + [|comps|] else Bucket(comps, k)
  {
    assert (comps + [c])[..|comps|] == comps;
  }

  lemma PairThenOther(c: Component, d: Component)
    requires DedupKey(c) != "" && DedupKey(d) != "" && DedupKey(c) != DedupKey(d)
    ensures Firsts([c, c, d]) == [0, 2]
  {
    hide DedupKey, KeySet;
    assert [] + [c] == [c] && [c] + [c] == [c, c] && [c, c] + [d] == [c, c, d];
    NoKeys();
    KeySetSnoc([], c);
    KeySetSnoc([c], c);
    assert KeySet([c, c]) == {DedupKey(c)};
    FirstsSnoc([], c);
    FirstsSnoc([c], c);
    FirstsSnoc([c, c], d);
    NoFirsts();
  }

  lemma PairThenOtherBuckets(c: Component, d: Component, k: string)
    requires DedupKey(c) != DedupKey(d)
    ensures Bucket([c, c, d], k) == if DedupKey(c) == k then [0, 1] else if DedupKey(d) == k then [2] else []
  {
    hide DedupKey;
    assert [] + [c] == [c] && [c] + [c] == [c, c] && [c, c] + [d] == [c, c, d];
    BucketSnoc([], c, k);
    BucketSnoc([c], c, k);
    BucketSnoc([c, c], d, k);
  }

  lemma ThriceKeys()
    ensures Firsts(Thrice()) == [0, 2]
    ensures Bucket(Thrice(), DedupKey(Thrice()[0])) == [0, 1] && Bucket(Thrice(), DedupKey(Thrice()[2])) == [2]
    ensures DedupKey(Thrice()[0]) != "" && DedupKey(Thrice()[2]) != ""
  {
    ShadowingKey();
    hide DedupKey, COLON_HASH, SHA_HASH, Firsts, Bucket, Named;
    var c, d := Named([COLON_HASH, SHA_HASH]), Named([]);
    PairThenOther(c, d);
    PairThenOtherBuckets(c, d, DedupKey(c));
    PairThenOtherBuckets(c, d, DedupKey(d));
  }

  lemma PairFolds(c: Component, idxs: seq<nat>, p: nat, comps: seq<Component>, out: Component)
    requires |comps| >= 2 && comps[0] == comps[1] == c && idxs == [0, 1] && p in idxs
    requires FoldsTo(Members(comps, idxs, p), out)
    ensures Merged(c, c, out)
  {
    hide Merged;
    assert idxs[..1] == [0] && [0][..0] == [];
    assert Others(comps, [0], p) == if p == 0 then [] else [c];
    assert Others(comps, idxs, p) == [c];
    var members := Members(comps, idxs, p);
    assert members == [c, c];
    var m := UnfoldLast(members, out);
    assert members[..1] == [c];
    FoldOfOne([c], m);
  }

  /** A list on which a run leaves a key twice, so that a second run merges once more. */
  lemma RunLeavesKeyTwice(out: seq<Component>, groups: nat, again: seq<Component>, groupsAgain: nat)
    requires Deduped(Thrice(), out, groups) && Deduped(out, again, groupsAgain)
    ensures |out| == 2 && DedupKey(out[0]) == DedupKey(out[1]) != ""
    ensures |again| != |out|
  {
    ThriceKeys();
    var comps := Thrice();
    var c := comps[0];
    assert StandsFor(comps, Firsts(comps)[0], out[0]) && StandsFor(comps, Firsts(comps)[1], out[1]);
    TwiceStands(out[0]);
    OnceStands(out[1]);
    UnchangedIffKeysDiffer(out, again, groupsAgain);
  }

  lemma TwiceStands(out: Component)
    requires StandsFor(Thrice(), 0, out)
    ensures DedupKey(out) == DedupKey(Named([])) != ""
  {
    ThriceKeys();
    ShadowingKey();
    hide DedupKey, COLON_HASH, SHA_HASH, Bucket, IsPrimary, FoldsTo, Merged, Members;
    var comps := Thrice();
    var idxs := Bucket(comps, DedupKey(comps[0]));
    var p :| p in idxs && IsPrimary(comps, idxs, p) && FoldsTo(Members(comps, idxs, p), out);
    PairFolds(comps[0], idxs, p, comps, out);
    ShadowedMergeFallsBack(comps[0], comps[0], out);
  }

  lemma OnceStands(out: Component)
    requires StandsFor(Thrice(), 2, out)
    ensures out == Named([])
  {
    ThriceKeys();
    hide DedupKey, COLON_HASH, SHA_HASH, Bucket, IsPrimary, FoldsTo;
    var comps := Thrice();
    var idxs := Bucket(comps, DedupKey(comps[2]));
    var p :| p in idxs && IsPrimary(comps, idxs, p) && FoldsTo(Members(comps, idxs, p), out);
    MembersAre(comps, idxs, p);
    FoldOfOne(Members(comps, idxs, p), out);
  }
}
