/** What a merge of two components keeps: the identity key, the evidence, the property values. */
module DedupMerge {
  import opened Wrappers
  import opened Strings
  import opened Dedup

  // ----- Content -----

  datatype Fact = AtPath(path: string) | HasHash(key: string) | HasCpe(key: string) | HasLicense(key: string)

  /** What a component is known by, up to the keys that the unions compare. */
  function Facts(c: Component): set<Fact> {
    (set p | p in Paths(Locations(c.evidence)) :: AtPath(p)) +
    (set k | k in Keys(c.hashes, HashKey) :: HasHash(k)) +
    (set k | k in Keys(c.cpes, CanonicalCpe) :: HasCpe(k)) +
    (set k | k in Keys(c.licenses, LicenseKey) :: HasLicense(k))
  }

  lemma UnionKeys<T(!new)>(a: seq<T>, b: seq<T>, key: T -> string)
    ensures Keys(Distinct(a + b, key), key) == Keys(a, key) + Keys(b, key)
    ensures AllDistinct(Distinct(a + b, key), key)
    ensures forall x :: x in Distinct(a + b, key) ==> x in a || x in b
  {
    DistinctKeepsKeys(a + b, key);
    KeysAppend(a, b, key);
    forall x | x in Distinct(a + b, key) ensures x in a || x in b {
      assert x in a + b;
    }
  }

  lemma MergedEvidencePaths(a: Option<Evidence>, b: Option<Evidence>)
    ensures Paths(Locations(MergedEvidence(a, b))) == Paths(Locations(a)) + Paths(Locations(b))
    ensures Locations(a) <= Locations(MergedEvidence(a, b))
  {
    hide Paths;
    NoPaths();
    MergedLocationsAre(Locations(a), Locations(b));
  }

  /** A merge adds up the facts of both sides: nothing is lost and nothing is made up. */
  lemma MergeConservesFacts(p: Component, s: Component, out: Component)
    requires Merged(p, s, out)
    ensures Facts(out) == Facts(p) + Facts(s)
    ensures AllDistinct(out.hashes, HashKey) && AllDistinct(out.cpes, CanonicalCpe) && AllDistinct(out.licenses, LicenseKey)
    ensures forall h :: h in out.hashes ==> h in p.hashes || h in s.hashes
    ensures forall c :: c in out.cpes ==> c in p.cpes || c in s.cpes
    ensures forall l :: l in out.licenses ==> l in p.licenses || l in s.licenses
  {
    hide Keys, Distinct, AllDistinct, HashKey, CanonicalCpe, LicenseKey, MergedEvidence, Paths, Locations;
    hide AddProperties, Enumerates, Stamped;
    UnionKeys(p.hashes, s.hashes, HashKey);
    UnionKeys(p.cpes, s.cpes, CanonicalCpe);
    UnionKeys(p.licenses, s.licenses, LicenseKey);
    MergedEvidencePaths(p.evidence, s.evidence);
  }

  // ----- Single fields -----

  /** The primary's method or confidence, unless it has none. */
  ghost predicate EvidenceIs(p: Component, s: Component, out: Component) {
    && (out.evidence.None? <==> p.evidence.None? && s.evidence.None?)
    && (p.evidence.None? && s.evidence.Some? ==>
          out.evidence.value.method_ == s.evidence.value.method_ && out.evidence.value.confidence == s.evidence.value.confidence)
    && (p.evidence.Some? ==>
          && (p.evidence.value.method_ != "" || s.evidence.None? ==> out.evidence.value.method_ == p.evidence.value.method_)
          && (p.evidence.value.method_ == "" && s.evidence.Some? ==> out.evidence.value.method_ == s.evidence.value.method_)
          && (p.evidence.value.confidence != 0.0 || s.evidence.None? ==> out.evidence.value.confidence == p.evidence.value.confidence)
          && (p.evidence.value.confidence == 0.0 && s.evidence.Some? ==> out.evidence.value.confidence == s.evidence.value.confidence))
  }

  /** The primary's layer, or the secondary's where it has none; a different second layer leaves its index behind. */
  ghost predicate LayerIs(p: Component, s: Component, out: Component) {
    && (p.layer.Some? ==> out.layer == p.layer)
    && (p.layer.None? ==> out.layer == s.layer)
    && (p.layer.Some? && s.layer.Some? && p.layer.value.index != s.layer.value.index ==>
          "astinus:dedup:also-in-layer" in out.properties &&
          Atoi(out.properties["astinus:dedup:also-in-layer"]) == Some(s.layer.value.index))
  }

  lemma MergedFields(p: Component, s: Component, out: Component)
    requires Merged(p, s, out)
    ensures out.purl == p.purl && out.typ == p.typ && out.name == p.name && out.version == p.version
    ensures EvidenceIs(p, s, out) && LayerIs(p, s, out)
  {
    hide MergedLocations, Enumerates, Distinct, AddProperties, Itoa, Atoi, CountIn;
    assert NAMESPACE + ALSO_IN_LAYER == "astinus:dedup:also-in-layer";
    assert NAMESPACE + ALSO_IN_LAYER != NAMESPACE + MERGED_COUNT by { BreadcrumbNames(""); }
    if s.layer.Some? {
      ItoaRoundTrip(s.layer.value.index);
    }
  }

  /** A value that loses to the primary's is kept under its breadcrumb, whatever the walk's order. */
  lemma {:induction false} LosingValueIsKept(a: map<string, string>, b: map<string, string>, order: seq<string>, k: string)
    requires NoneTwice(order) && (forall x :: x in order ==> x in b)
    requires k in order && k in a && a[k] != b[k] && !("astinus:dedup:" <= k)
    ensures var out := AddProperties(a, b, order);
      "astinus:dedup:conflict:" + k in out && out["astinus:dedup:conflict:" + k] == b[k]
  {
    hide NAMESPACE, CONFLICT, InNamespace;
    var crumb := "astinus:dedup:conflict:" + k;
    BreadcrumbIs(k);
    var init, last := order[..|order| - 1], order[|order| - 1];
    assert order == init + [last];
    if last == k {
      PrimaryPropertyWins(a, b, init, k);
    } else {
      LosingValueIsKept(a, b, init, k);
      BreadcrumbIs(last);
      SameCrumb(last, k);
    }
  }

  lemma BreadcrumbIs(k: string)
    ensures NAMESPACE + CONFLICT + k == "astinus:dedup:conflict:" + k != k
    ensures InNamespace(k) <==> "astinus:dedup:" <= k
  {
    assert |NAMESPACE + CONFLICT + k| > |k|;
    assert NAMESPACE + CONFLICT == "astinus:dedup:conflict:";
  }

  lemma SameCrumb(x: string, k: string)
    ensures "astinus:dedup:conflict:" + x == "astinus:dedup:conflict:" + k <==> x == k
  {
    var p := "astinus:dedup:conflict:";
    assert (p + x)[|p|..] == x && (p + k)[|p|..] == k;
  }

  // ----- The identity key -----

  lemma KeyKind(c: Component)
    ensures DedupKey(c) != "" ==> match DedupKey(c)[0]
      case 'p' => c.purl != ""
      case 'c' => c.purl == "" && FirstNonBlank(c.cpes) != ""
      case 's' => c.purl == "" && FirstNonBlank(c.cpes) == "" && FindSha(c.hashes) != ""
      case 'n' => c.purl == "" && FirstNonBlank(c.cpes) == "" && FindSha(c.hashes) == "" && c.name != "" && c.version != ""
      case _ => false
    ensures DedupKey(c) == "" ==>
      c.purl == "" && FirstNonBlank(c.cpes) == "" && FindSha(c.hashes) == "" && (c.name == "" || c.version == "")
  {
    hide CanonicalPurl, CanonicalCpe, FirstNonBlank, FindSha, Lower;
  }

  lemma {:induction false} FirstNonBlankSnoc(xs: seq<string>, x: string)
    ensures FirstNonBlank(xs + [x]) ==
      if FirstNonBlank(xs) != "" then FirstNonBlank(xs) else if TrimSpace(x) != "" then x else ""
  {
    if xs != [] {
      assert (xs + [x])[1..] == xs[1..] + [x];
      FirstNonBlankSnoc(xs[1..], x);
    }
  }

  lemma {:induction false} FirstNonBlankIs(xs: seq<string>)
    ensures FirstNonBlank(xs) == "" <==> Keys(xs, CanonicalCpe) == {}
  {
    if xs != [] {
      var init, x := xs[..|xs| - 1], xs[|xs| - 1];
      assert xs == init + [x];
      FirstNonBlankIs(init);
      FirstNonBlankSnoc(init, x);
      KeysSnoc(init, x, CanonicalCpe);
    }
  }

  /** Dropping repeats and blanks does not change which CPE comes first. */
  lemma {:induction false} UnionKeepsFirstCpe(xs: seq<string>)
    ensures FirstNonBlank(Distinct(xs, CanonicalCpe)) == FirstNonBlank(xs)
  {
    if xs != [] {
      var init, x := xs[..|xs| - 1], xs[|xs| - 1];
      assert xs == init + [x];
      UnionKeepsFirstCpe(init);
      FirstNonBlankSnoc(init, x);
      FirstNonBlankSnoc(Distinct(init, CanonicalCpe), x);
      FirstNonBlankIs(Distinct(init, CanonicalCpe));
    }
  }

  lemma {:induction false} FirstNonBlankAppend(a: seq<string>, b: seq<string>)
    ensures FirstNonBlank(a + b) == if FirstNonBlank(a) != "" then FirstNonBlank(a) else FirstNonBlank(b)
  {
    if a == [] {
      assert a + b == b;
    } else {
      assert (a + b)[1..] == a[1..] + b;
      FirstNonBlankAppend(a[1..], b);
    }
  }

  lemma {:induction false} FindShaAppend(a: seq<Hash>, b: seq<Hash>)
    ensures FindSha(a + b) == if FindSha(a) != "" then FindSha(a) else FindSha(b)
  {
    if a == [] {
      assert a + b == b;
    } else {
      assert (a + b)[1..] == a[1..] + b;
      FindShaAppend(a[1..], b);
    }
  }

  lemma FindShaSnoc(xs: seq<Hash>, x: Hash)
    ensures FindSha(xs + [x]) ==
      if FindSha(xs) != "" then FindSha(xs) else if IsSha(x) then x.value else ""
  {
    FindShaAppend(xs, [x]);
  }

  function ShaKey(value: string): string {
    Lower(SHA256) + ":" + Lower(value)
  }

  /** An earlier hash of another algorithm takes the key of the first SHA-256, so that the union drops it. */
  predicate Shadowed(hashes: seq<Hash>) {
    exists j :: 0 <= j < |hashes| && ShadowedAt(hashes[..j], hashes[j])
  }

  predicate ShadowedAt(before: seq<Hash>, h: Hash) {
    FindSha(before) == "" && IsSha(h) && exists i :: 0 <= i < |before| && HashKey(before[i]) == HashKey(h)
  }

  /** The identity key does not rest on a shadowed SHA-256. */
  predicate Unshadowed(c: Component) {
    c.purl != "" || FirstNonBlank(c.cpes) != "" || !Shadowed(c.hashes)
  }

  lemma {:induction false} FindShaIsFirst(xs: seq<Hash>)
    ensures FindSha(xs) == "" <==> forall h :: h in xs ==> !IsSha(h)
    ensures FindSha(xs) != "" ==> exists h :: h in xs && IsSha(h) && h.value == FindSha(xs)
  {
    if xs != [] && !IsSha(xs[0]) {
      FindShaIsFirst(xs[1..]);
    }
  }

  lemma ShadowedSnoc(xs: seq<Hash>, x: Hash)
    ensures Shadowed(xs + [x]) <==>
      if FindSha(xs) != "" then Shadowed(xs) else IsSha(x) && exists i :: 0 <= i < |xs| && HashKey(xs[i]) == HashKey(x)
  {
    var all := xs + [x];
    hide HashKey, IsSha, FindSha;
    assert ShadowedAt(all[..|xs|], all[|xs|]) == ShadowedAt(xs, x) by { assert all[..|xs|] == xs; }
    forall j | 0 <= j < |xs| ensures ShadowedAt(all[..j], all[j]) == ShadowedAt(xs[..j], xs[j]) {
      assert all[..j] == xs[..j];
    }
    if FindSha(xs) == "" {
      FindShaIsFirst(xs);
    }
    hide ShadowedAt;
    assert Shadowed(all) <==> Shadowed(xs) || ShadowedAt(xs, x) by {
      if Shadowed(xs) {
        var j :| 0 <= j < |xs| && ShadowedAt(xs[..j], xs[j]);
        assert ShadowedAt(all[..j], all[j]);
      }
    }
    assert ShadowedAt(xs, x) <==> FindSha(xs) == "" && IsSha(x) && exists i :: 0 <= i < |xs| && HashKey(xs[i]) == HashKey(x);
    assert FindSha(xs) == "" ==> !Shadowed(xs);
  }

  lemma {:induction false} ShadowedAppend(a: seq<Hash>, b: seq<Hash>)
    requires FindSha(a) != ""
    ensures Shadowed(a + b) <==> Shadowed(a)
    decreases |b|
  {
    if b == [] {
      assert a + b == a;
    } else {
      var init, x := b[..|b| - 1], b[|b| - 1];
      assert a + b == (a + init) + [x];
      ShadowedAppend(a, init);
      FindShaAppend(a, init);
      ShadowedSnoc(a + init, x);
    }
  }

  /** The key of a SHA-256 is held by a hash of another algorithm. */
  ghost predicate Lost(hashes: seq<Hash>, value: string) {
    exists i :: 0 <= i < |hashes| && !IsSha(hashes[i]) && HashKey(hashes[i]) == ShaKey(value)
  }

  lemma LostMeans(hashes: seq<Hash>, value: string)
    requires AllDistinct(hashes, HashKey) && Lost(hashes, value) && value != ""
    ensures Lower(FindSha(hashes)) != Lower(value)
  {
    FindShaIsFirst(hashes);
  }

  lemma LostSnoc(hashes: seq<Hash>, x: Hash, value: string)
    requires Lost(hashes, value)
    ensures Lost(hashes + [x], value)
  {
    hide IsSha, HashKey, ShaKey;
    var i :| 0 <= i < |hashes| && !IsSha(hashes[i]) && HashKey(hashes[i]) == ShaKey(value);
    assert (hashes + [x])[i] == hashes[i];
  }

  lemma LostTo(hashes: seq<Hash>, x: Hash)
    requires FindSha(hashes) == "" && IsSha(x) && HashKey(x) in Keys(hashes, HashKey)
    ensures Lost(hashes, x.value)
  {
    var i :| 0 <= i < |hashes| && HashKey(hashes[i]) == HashKey(x);
    FindShaIsFirst(hashes);
    assert hashes[i] in hashes;
  }

  /** A union finds the same first SHA-256, unless that one is shadowed. */
  ghost predicate UnionFindsSha(xs: seq<Hash>) {
    if FindSha(xs) == "" then FindSha(Distinct(xs, HashKey)) == ""
    else if Shadowed(xs) then Lost(Distinct(xs, HashKey), FindSha(xs))
    else FindSha(Distinct(xs, HashKey)) == FindSha(xs)
  }

  lemma {:induction false} UnionKeepsShaUnlessShadowed(xs: seq<Hash>)
    ensures UnionFindsSha(xs)
  {
    if xs != [] {
      var init, x := xs[..|xs| - 1], xs[|xs| - 1];
      assert xs == init + [x];
      UnionKeepsShaUnlessShadowed(init);
      if FindSha(init) != "" {
        UnionShaLater(init, x);
      } else {
        UnionShaFirst(init, x);
      }
    }
  }

  lemma KeyInDistinct(xs: seq<Hash>, x: Hash)
    requires HashKey(x) != ""
    ensures HashKey(x) in Keys(Distinct(xs, HashKey), HashKey) <==> exists i :: 0 <= i < |xs| && HashKey(xs[i]) == HashKey(x)
  {
    hide HashKey;
    DistinctKeepsKeys(xs, HashKey);
  }

  lemma UnionShaLater(init: seq<Hash>, x: Hash)
    requires UnionFindsSha(init) && FindSha(init) != ""
    ensures UnionFindsSha(init + [x])
  {
    hide Shadowed, Lost, HashKey, IsSha, Distinct, Keys, FindSha;
    var d := Distinct(init, HashKey);
    DistinctSnoc(init, x, HashKey);
    FindShaSnoc(init, x);
    FindShaSnoc(d, x);
    ShadowedSnoc(init, x);
    if Shadowed(init) {
      LostSnoc(d, x, FindSha(init));
    }
  }

  lemma UnionShaFirst(init: seq<Hash>, x: Hash)
    requires UnionFindsSha(init) && FindSha(init) == ""
    ensures UnionFindsSha(init + [x])
  {
    assert IsSha(x) ==> HashKey(x) != "" && x.value != "";
    hide Shadowed, Lost, HashKey, IsSha, Distinct, Keys, FindSha;
    var d := Distinct(init, HashKey);
    DistinctSnoc(init, x, HashKey);
    FindShaSnoc(init, x);
    FindShaSnoc(d, x);
    ShadowedSnoc(init, x);
    if IsSha(x) {
      KeyInDistinct(init, x);
      if HashKey(x) in Keys(d, HashKey) {
        LostTo(d, x);
      }
    }
  }

  // ----- A merge keeps the key -----

  lemma SameKeySameKind(p: Component, s: Component)
    requires DedupKey(p) == DedupKey(s) != ""
    ensures p.purl != "" <==> s.purl != ""
    ensures p.purl == "" ==> (FirstNonBlank(p.cpes) != "" <==> FirstNonBlank(s.cpes) != "")
    ensures p.purl == "" && FirstNonBlank(p.cpes) == "" ==> (FindSha(p.hashes) != "" <==> FindSha(s.hashes) != "")
  {
    hide DedupKey, FirstNonBlank, FindSha;
    KeyKind(p);
    KeyKind(s);
  }

  lemma MergedCpes(p: Component, s: Component, out: Component)
    requires Merged(p, s, out)
    ensures FirstNonBlank(out.cpes) == if FirstNonBlank(p.cpes) != "" then FirstNonBlank(p.cpes) else FirstNonBlank(s.cpes)
  {
    hide MergedEvidence, Enumerates, Stamped, Distinct, CanonicalCpe, HashKey, LicenseKey, FirstNonBlank;
    UnionKeepsFirstCpe(p.cpes + s.cpes);
    FirstNonBlankAppend(p.cpes, s.cpes);
  }

  lemma MergedSha(p: Component, s: Component, out: Component)
    requires Merged(p, s, out)
    ensures FindSha(p.hashes) == "" && FindSha(s.hashes) == "" ==> FindSha(out.hashes) == ""
    ensures FindSha(p.hashes) != "" && !Shadowed(p.hashes) ==> FindSha(out.hashes) == FindSha(p.hashes)
    ensures FindSha(p.hashes) != "" && Shadowed(p.hashes) ==> Lost(out.hashes, FindSha(p.hashes))
  {
    hide MergedEvidence, Enumerates, Stamped, Distinct, CanonicalCpe, HashKey, LicenseKey, FindSha, Shadowed, Lost;
    UnionKeepsShaUnlessShadowed(p.hashes + s.hashes);
    FindShaAppend(p.hashes, s.hashes);
    if FindSha(p.hashes) != "" {
      ShadowedAppend(p.hashes, s.hashes);
    }
  }

  lemma ShadowedHasSha(hashes: seq<Hash>)
    requires Shadowed(hashes)
    ensures FindSha(hashes) != ""
  {
    FindShaIsFirst(hashes);
  }

  /** No further merge brings back the key of a SHA-256 that was shadowed. */
  ghost predicate KeyLost(c: Component, value: string) {
    && c.purl == "" && FirstNonBlank(c.cpes) == "" && value != ""
    && AllDistinct(c.hashes, HashKey) && Lost(c.hashes, value)
  }

  lemma KeyLostMeans(c: Component, value: string)
    requires KeyLost(c, value)
    ensures DedupKey(c) != "sha256:" + Lower(value)
  {
    LostMeans(c.hashes, value);
    hide FirstNonBlank, FindSha, Lower, Lost, AllDistinct;
    var k, other := DedupKey(c), "sha256:" + Lower(value);
    if FindSha(c.hashes) != "" {
      assert k[7..] == Lower(FindSha(c.hashes)) && other[7..] == Lower(value);
    } else if k != "" {
      assert k[0] == 'n' && other[0] == 's';
    }
  }

  lemma KeyStaysLost(m: Component, s: Component, out: Component, value: string)
    requires KeyLost(m, value) && s.purl == "" && FirstNonBlank(s.cpes) == "" && Merged(m, s, out)
    ensures KeyLost(out, value)
  {
    MergedCpes(m, s, out);
    MergeConservesFacts(m, s, out);
    DistinctKeepsPrefix(m.hashes, s.hashes, HashKey);
    hide MergedEvidence, Enumerates, Stamped, Distinct, Lost, FirstNonBlank, AllDistinct, CanonicalCpe, HashKey, LicenseKey;
    assert out.hashes == Distinct(m.hashes + s.hashes, HashKey);
  }

  lemma KeyOfUnshadowed(p: Component, s: Component, out: Component)
    requires DedupKey(p) == DedupKey(s) != "" && Merged(p, s, out) && Unshadowed(p)
    ensures DedupKey(out) == DedupKey(p)
  {
    SameKeySameKind(p, s);
    MergedCpes(p, s, out);
    MergedSha(p, s, out);
    hide Merged, Shadowed, Lost, FirstNonBlank, FindSha, Lower, CanonicalPurl, CanonicalCpe;
  }

  lemma KeyOfShadowed(p: Component, s: Component, out: Component)
    requires DedupKey(p) == DedupKey(s) != "" && Merged(p, s, out) && !Unshadowed(p)
    ensures KeyLost(out, FindSha(p.hashes)) && DedupKey(p) == "sha256:" + Lower(FindSha(p.hashes))
  {
    SameKeySameKind(p, s);
    MergedCpes(p, s, out);
    MergedSha(p, s, out);
    ShadowedHasSha(p.hashes);
    MergeConservesFacts(p, s, out);
    hide Merged, Shadowed, Lost, FirstNonBlank, FindSha, AllDistinct, Lower, CanonicalPurl, CanonicalCpe, HashKey, Facts;
  }

  /** Merging two components of one key gives that key back, exactly unless it rests on a shadowed SHA-256. */
  lemma MergeKeepsKeyIff(p: Component, s: Component, out: Component)
    requires DedupKey(p) == DedupKey(s) != "" && Merged(p, s, out)
    ensures DedupKey(out) == DedupKey(p) <==> Unshadowed(p)
  {
    hide Merged, KeyLost, DedupKey, Unshadowed, FindSha, Lower;
    if Unshadowed(p) {
      KeyOfUnshadowed(p, s, out);
    } else {
      KeyOfShadowed(p, s, out);
      KeyLostMeans(out, FindSha(p.hashes));
    }
  }

  /** A merged component never rests on a shadowed hash: its hash keys are distinct. */
  lemma MergedIsUnshadowed(p: Component, s: Component, out: Component)
    requires Merged(p, s, out)
    ensures Unshadowed(out)
  {
    MergeConservesFacts(p, s, out);
    hide Merged, Facts, FindSha, HashKey, IsSha;
  }

  lemma KeyTellsAlgorithm(x: Hash, y: Hash)
    requires ':' !in x.algorithm && ':' !in y.algorithm && HashKey(x) == HashKey(y) != ""
    ensures Lower(x.algorithm) == Lower(y.algorithm) && x.value != ""
  {
    hide Lower;
    var a, b := Lower(x.algorithm), Lower(y.algorithm);
    IndexOfFirst(a, ':', Lower(x.value));
    IndexOfFirst(b, ':', Lower(y.value));
    assert HashKey(x) == a + [':'] + Lower(x.value);
    assert HashKey(y) == b + [':'] + Lower(y.value);
    assert a == HashKey(x)[..|a|] && b == HashKey(y)[..|b|];
  }

  /** Algorithm names without a colon cannot shadow. */
  lemma PlainAlgorithmsAreUnshadowed(c: Component)
    requires forall h :: h in c.hashes ==> ':' !in h.algorithm
    ensures Unshadowed(c)
  {
    hide FirstNonBlank, FindSha;
    var hashes := c.hashes;
    if Shadowed(hashes) {
      var j :| 0 <= j < |hashes| && ShadowedAt(hashes[..j], hashes[j]);
      var before := hashes[..j];
      var i :| 0 <= i < |before| && HashKey(before[i]) == HashKey(hashes[j]);
      assert HashKey(hashes[j]) != "";
      KeyTellsAlgorithm(before[i], hashes[j]);
      assert IsSha(before[i]);
      FindShaIsFirst(before);
    }
  }
}
