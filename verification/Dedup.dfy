/**
  Deduplication of two components (internal/enrich/dedup/dedup.go): the identity key and
  the merge of a secondary component into a primary one.
*/
module Dedup {
  import opened Wrappers
  import opened Strings
  import opened Positions

  datatype Hash = Hash(algorithm: string, value: string)

  datatype License = License(expression: string, spdxId: string, name: string)

  datatype Location = Location(path: string, line: int)

  datatype Evidence = Evidence(method_: string, confidence: real, locations: seq<Location>)

  datatype LayerInfo = LayerInfo(digest: string, index: int)

  datatype Component = Component(
    purl: string, cpes: seq<string>, hashes: seq<Hash>, typ: string, name: string, version: string,
    licenses: seq<License>, properties: map<string, string>, evidence: Option<Evidence>, layer: Option<LayerInfo>)

  const SHA256 := "sha256"

  // ----- Identity -----

  function CanonicalPurl(p: string): string {
    var query := IndexOf(p, '?');
    Lower(if query > 0 then p[..query] else p)
  }

  function CanonicalCpe(cpe: string): string {
    Lower(TrimSpace(cpe))
  }

  predicate IsSha(h: Hash) {
    Lower(h.algorithm) == Lower(SHA256) && h.value != ""
  }

  function FindSha(hashes: seq<Hash>): string {
    if hashes == [] then ""
    else if IsSha(hashes[0]) then hashes[0].value
    else FindSha(hashes[1..])
  }

  function FirstNonBlank(cpes: seq<string>): string {
    if cpes == [] then ""
    else if TrimSpace(cpes[0]) != "" then cpes[0]
    else FirstNonBlank(cpes[1..])
  }

  function DedupKey(c: Component): string {
    if c.purl != "" then "purl:" + CanonicalPurl(c.purl)
    else if FirstNonBlank(c.cpes) != "" then "cpe:" + CanonicalCpe(FirstNonBlank(c.cpes))
    else if FindSha(c.hashes) != "" then "sha256:" + Lower(FindSha(c.hashes))
    else if c.name != "" && c.version != "" then
      "nvt:" + Lower(c.typ) + ":" + Lower(c.name) + ":" + Lower(c.version)
    else ""
  }

  // ----- Unions by key -----

  function HashKey(h: Hash): string {
    if h.value == "" then "" else Lower(h.algorithm) + ":" + Lower(h.value)
  }

  function LicenseKey(l: License): string {
    var expression := Lower(TrimSpace(l.expression));
    var k := if expression == "" then Lower(TrimSpace(l.spdxId)) + "|" + Lower(TrimSpace(l.name)) else expression;
    if k == "|" then "" else k
  }

  function Keys<T(!new)>(xs: seq<T>, key: T -> string): set<string> {
    set i | 0 <= i < |xs| && key(xs[i]) != "" :: key(xs[i])
  }

  /** The first element of each non-blank key, in order. */
  function Distinct<T(!new)>(xs: seq<T>, key: T -> string): seq<T> {
    if xs == [] then []
    else
      var init := Distinct(xs[..|xs| - 1], key);
      var x := xs[|xs| - 1];
      if key(x) == "" || key(x) in Keys(init, key) then init else init + [x]
  }

  ghost predicate AllDistinct<T(!new)>(xs: seq<T>, key: T -> string) {
    && (forall i :: 0 <= i < |xs| ==> key(xs[i]) != "")
    && (forall i, j :: 0 <= i < j < |xs| ==> key(xs[i]) != key(xs[j]))
  }

  lemma KeysSnoc<T(!new)>(xs: seq<T>, x: T, key: T -> string)
    ensures Keys(xs + [x], key) == Keys(xs, key) + if key(x) == "" then {} else {key(x)}
  {
    var all := xs + [x];
    forall k | k in Keys(xs, key) ensures k in Keys(all, key) {
      var i :| 0 <= i < |xs| && key(xs[i]) != "" && key(xs[i]) == k;
      assert all[i] == xs[i];
    }
    assert all[|xs|] == x;
  }

  lemma DistinctSnoc<T(!new)>(xs: seq<T>, x: T, key: T -> string)
    ensures Distinct(xs + [x], key) ==
      var init := Distinct(xs, key);
      if key(x) == "" || key(x) in Keys(init, key) then init else init + [x]
  {
    assert (xs + [x])[..|xs|] == xs;
  }

  lemma {:induction false} DistinctKeepsKeys<T(!new)>(xs: seq<T>, key: T -> string)
    ensures Keys(Distinct(xs, key), key) == Keys(xs, key)
    ensures AllDistinct(Distinct(xs, key), key)
    ensures forall x :: x in Distinct(xs, key) ==> x in xs
  {
    if xs != [] {
      var init, x := xs[..|xs| - 1], xs[|xs| - 1];
      assert xs == init + [x];
      DistinctKeepsKeys(init, key);
      KeysSnoc(init, x, key);
      KeysSnoc(Distinct(init, key), x, key);
    }
  }

  /** The positions whose key is not blank and has not been met before. */
  ghost function FirstMet<T(!new)>(xs: seq<T>, key: T -> string): set<nat> {
    set i: nat | i < |xs| && key(xs[i]) != "" && forall j :: 0 <= j < i ==> key(xs[j]) != key(xs[i])
  }

  ghost predicate At<T(!new)>(xs: seq<T>, at: seq<nat>, picked: seq<T>) {
    |picked| == |at| && forall k :: 0 <= k < |at| ==> at[k] < |xs| && picked[k] == xs[at[k]]
  }

  /** What stays are the elements at the first positions of their keys, in their order. */
  lemma {:induction false} DistinctIs<T(!new)>(xs: seq<T>, key: T -> string) returns (at: seq<nat>)
    ensures PicksExactly(at, FirstMet(xs, key)) && At(xs, at, Distinct(xs, key))
  {
    hide PicksExactly;
    if xs == [] {
      at := [];
      NoneMet(xs, key);
    } else {
      var front, last := xs[..|xs| - 1], xs[|xs| - 1];
      at := DistinctIs(front, key);
      assert xs == front + [last];
      DistinctKeepsKeys(front, key);
      MetNext(front, last, key);
      assert FirstMet(front, key) + {} == FirstMet(front, key);
      if key(last) != "" && key(last) !in Keys(front, key) {
        PicksNext(at, FirstMet(front, key), |front|);
        at := at + [|front|];
      }
    }
  }

  lemma NoneMet<T(!new)>(xs: seq<T>, key: T -> string)
    requires xs == []
    ensures PicksExactly([], FirstMet(xs, key))
  {
  }

  lemma MetNext<T(!new)>(xs: seq<T>, x: T, key: T -> string)
    ensures FirstMet(xs + [x], key) == FirstMet(xs, key) + if key(x) != "" && key(x) !in Keys(xs, key) then {|xs|} else {}
  {
    var all := xs + [x];
    assert all[|xs|] == x && forall i :: 0 <= i < |xs| ==> all[i] == xs[i];
  }

  lemma KeysAppend<T(!new)>(a: seq<T>, b: seq<T>, key: T -> string)
    ensures Keys(a + b, key) == Keys(a, key) + Keys(b, key)
  {
    forall k | k in Keys(a, key) + Keys(b, key) ensures k in Keys(a + b, key) {
      if k in Keys(a, key) {
        var i :| 0 <= i < |a| && key(a[i]) != "" && key(a[i]) == k;
        assert (a + b)[i] == a[i];
      } else {
        var i :| 0 <= i < |b| && key(b[i]) != "" && key(b[i]) == k;
        assert (a + b)[|a| + i] == b[i];
      }
    }
  }

  /** What is already distinct stays, in front. */
  lemma {:induction false} DistinctKeepsPrefix<T(!new)>(a: seq<T>, b: seq<T>, key: T -> string)
    requires AllDistinct(a, key)
    ensures a <= Distinct(a + b, key)
    decreases |a| + |b|
  {
    if b != [] {
      assert (a + b)[..|a + b| - 1] == a + b[..|b| - 1];
      DistinctKeepsPrefix(a, b[..|b| - 1], key);
    } else if a != [] {
      var init, x := a[..|a| - 1], a[|a| - 1];
      assert a + b == init + [x] && init + [] == init;
      DistinctKeepsPrefix(init, [], key);
      DistinctKeepsKeys(init, key);
      DistinctSnoc(init, x, key);
      assert |Distinct(init, key)| <= |init| by { DistinctIsShorter(init, key); }
      assert Distinct(init, key) == init;
    }
  }

  lemma {:induction false} DistinctIsShorter<T(!new)>(xs: seq<T>, key: T -> string)
    ensures |Distinct(xs, key)| <= |xs|
  {
    if xs != [] {
      DistinctIsShorter(xs[..|xs| - 1], key);
    }
  }

  method UnionByKey<T(!new)>(a: seq<T>, b: seq<T>, key: T -> string) returns (out: seq<T>)
    ensures out == Distinct(a + b, key)
  {
    out := [];
    var seen: set<string> := {};
    var all := a + b;
    for i := 0 to |all|
      invariant out == Distinct(all[..i], key) && seen == Keys(out, key)
    {
      var x := all[i];
      assert all[..i + 1] == all[..i] + [x];
      DistinctSnoc(all[..i], x, key);
      var k := key(x);
      if k == "" || k in seen {
        continue;
      }
      seen := seen + {k};
      KeysSnoc(out, x, key);
      out := out + [x];
    }
    assert all[..|all|] == all;
  }

  // ----- Evidence -----

  function Paths(locs: seq<Location>): (paths: set<string>)
    ensures forall l :: l in locs ==> l.path in paths
  {
    set l | l in locs :: l.path
  }

  /** Every location of the first list, then those of the second with a path not seen before. */
  function MergedLocations(a: seq<Location>, b: seq<Location>): seq<Location> {
    if b == [] then a
    else
      var init := MergedLocations(a, b[..|b| - 1]);
      var l := b[|b| - 1];
      if l.path in Paths(init) then init else init + [l]
  }

  function Locations(e: Option<Evidence>): seq<Location> {
    if e.None? then [] else e.value.locations
  }

  lemma NoPaths()
    ensures Paths([]) == {}
  {
  }

  lemma PathsSnoc(locs: seq<Location>, l: Location)
    ensures Paths(locs + [l]) == Paths(locs) + {l.path}
  {
  }

  lemma {:induction false} MergedLocationsAre(a: seq<Location>, b: seq<Location>)
    ensures a <= MergedLocations(a, b)
    ensures Paths(MergedLocations(a, b)) == Paths(a) + Paths(b)
    ensures forall l :: l in MergedLocations(a, b) ==> l in a || l in b
  {
    hide Paths;
    if b == [] {
      assert Paths([]) == {} by { NoPaths(); }
    } else {
      var init, l := b[..|b| - 1], b[|b| - 1];
      MergedLocationsAre(a, init);
      assert b == init + [l];
      PathsSnoc(init, l);
      PathsSnoc(MergedLocations(a, init), l);
    }
  }

  /** No path is added that is there already, and none twice. */
  lemma {:induction false} AddedPathsAreNew(a: seq<Location>, b: seq<Location>)
    ensures var r := MergedLocations(a, b);
      |a| <= |r| && forall i, j :: 0 <= i < j < |r| && |a| <= j ==> r[i].path != r[j].path
  {
    hide Paths;
    if b != [] {
      var init, l := b[..|b| - 1], b[|b| - 1];
      AddedPathsAreNew(a, init);
      var r := MergedLocations(a, init);
      forall i | 0 <= i < |r| && l.path !in Paths(r) ensures r[i].path != l.path {
        assert r[i] in r;
      }
    }
  }

  function MergedEvidence(a: Option<Evidence>, b: Option<Evidence>): Option<Evidence> {
    if a.None? && b.None? then None
    else
      var x := if a.Some? then a.value else Evidence("", 0.0, []);
      var y := if b.Some? then b.value else Evidence("", 0.0, []);
      Some(Evidence(if x.method_ == "" then y.method_ else x.method_,
                    if x.confidence == 0.0 then y.confidence else x.confidence,
                    MergedLocations(x.locations, y.locations)))
  }

  method MergeLocations(a: seq<Location>, b: seq<Location>) returns (out: seq<Location>)
    ensures out == MergedLocations(a, b)
  {
    hide Paths;
    out := a;
    var seen := Paths(a);
    for i := 0 to |b|
      invariant out == MergedLocations(a, b[..i]) && seen == Paths(out)
    {
      assert b[..i + 1] == b[..i] + [b[i]];
      if b[i].path !in seen {
        PathsSnoc(out, b[i]);
        out := out + [b[i]];
        seen := seen + {b[i].path};
      }
    }
    assert b[..|b|] == b;
  }

  method MergeEvidence(a: Option<Evidence>, b: Option<Evidence>) returns (out: Option<Evidence>)
    ensures out == MergedEvidence(a, b)
  {
    if a.None? && b.None? {
      return None;
    }
    var e := if a.Some? then a.value else Evidence("", 0.0, []);
    if b.Some? {
      if e.method_ == "" {
        e := e.(method_ := b.value.method_);
      }
      if e.confidence == 0.0 {
        e := e.(confidence := b.value.confidence);
      }
    }
    var locations := MergeLocations(e.locations, Locations(b));
    return Some(e.(locations := locations));
  }

  // ----- Properties -----

  const NAMESPACE := "astinus:dedup:"
  const CONFLICT := "conflict:"
  const MERGED_COUNT := "merged-count"
  const ALSO_IN_LAYER := "also-in-layer"

  predicate InNamespace(k: string) {
    NAMESPACE <= k
  }

  /** One property of the secondary; the primary's value wins and the other goes under a breadcrumb. */
  function AddProperty(out: map<string, string>, k: string, v: string): map<string, string> {
    if k in out && out[k] != v then out[NAMESPACE + CONFLICT + k := v] else out[k := v]
  }

  /** A map is walked in an order of the runtime's choosing. */
  function AddProperties(out: map<string, string>, b: map<string, string>, order: seq<string>): map<string, string>
    requires forall k :: k in order ==> k in b
  {
    if order == [] then out
    else
      var k := order[|order| - 1];
      AddProperty(AddProperties(out, b, order[..|order| - 1]), k, b[k])
  }

  method MergeProperties(a: map<string, string>, b: map<string, string>)
    returns (out: map<string, string>, ghost order: seq<string>)
    ensures Enumerates(order, b.Keys) && out == AddProperties(a, b, order)
  {
    out, order := a, [];
    var todo := b.Keys;
    while todo != {}
      invariant todo <= b.Keys && Enumerates(order, b.Keys - todo)
      invariant out == AddProperties(a, b, order)
      decreases |todo|
    {
      var k :| k in todo;
      ghost var next := order + [k];
      assert next[..|order|] == order;
      if k in out && out[k] != b[k] {
        out := out[NAMESPACE + CONFLICT + k := b[k]];
      } else {
        out := out[k := b[k]];
      }
      todo := todo - {k};
      order := next;
    }
  }

  lemma BreadcrumbNames(k: string)
    ensures InNamespace(NAMESPACE + CONFLICT + k)
    ensures InNamespace(NAMESPACE + MERGED_COUNT) && InNamespace(NAMESPACE + ALSO_IN_LAYER)
    ensures NAMESPACE + CONFLICT + k != NAMESPACE + MERGED_COUNT
    ensures NAMESPACE + ALSO_IN_LAYER != NAMESPACE + MERGED_COUNT
  {
    assert (NAMESPACE + CONFLICT + k)[14] == 'c';
    assert (NAMESPACE + MERGED_COUNT)[14] == 'm';
    assert (NAMESPACE + ALSO_IN_LAYER)[14] == 'a';
  }

  /** Outside the enricher's own namespace the primary's value wins, whatever the walk's order. */
  lemma {:induction false} PrimaryPropertyWins(a: map<string, string>, b: map<string, string>, order: seq<string>, k: string)
    requires forall x :: x in order ==> x in b
    requires !InNamespace(k) || k == NAMESPACE + MERGED_COUNT
    ensures var out := AddProperties(a, b, order);
      && (k in out <==> k in a || k in order)
      && (k in a ==> out[k] == a[k])
      && (k !in a && k in order ==> out[k] == b[k])
  {
    hide InNamespace, NAMESPACE, CONFLICT, MERGED_COUNT;
    if order != [] {
      var init, x := order[..|order| - 1], order[|order| - 1];
      assert order == init + [x];
      PrimaryPropertyWins(a, b, init, k);
      BreadcrumbNames(x);
    }
  }

  // ----- Merging two components -----

  function DigitRun(s: string): (run: string)
    ensures run <= s
  {
    if s != [] && '0' <= s[0] <= '9' then [s[0]] + DigitRun(s[1..]) else []
  }

  /** A formatted read of one decimal number; 0 where there is none. */
  function ScanCount(s: string): int {
    var t := TrimLeft(s);
    var signed := t != [] && t[0] in {'+', '-'};
    match DigitsValue(DigitRun(if signed then t[1..] else t))
    case None => 0
    case Some(v) => if signed && t[0] == '-' then 0 - v else v
  }

  function CountIn(properties: map<string, string>): int {
    if NAMESPACE + MERGED_COUNT in properties then ScanCount(properties[NAMESPACE + MERGED_COUNT]) else 0
  }

  function Stamped(p: Component, s: Component, properties: map<string, string>): map<string, string> {
    var out :=
      if p.layer.Some? && s.layer.Some? && p.layer.value.index != s.layer.value.index
      then properties[NAMESPACE + ALSO_IN_LAYER := Itoa(s.layer.value.index)]
      else properties;
    out[NAMESPACE + MERGED_COUNT := Itoa(CountIn(out) + 1)]
  }

  function MergedPair(p: Component, s: Component, order: seq<string>): Component
    requires Enumerates(order, s.properties.Keys)
  {
    p.(evidence := MergedEvidence(p.evidence, s.evidence),
       hashes := Distinct(p.hashes + s.hashes, HashKey),
       cpes := Distinct(p.cpes + s.cpes, CanonicalCpe),
       licenses := Distinct(p.licenses + s.licenses, LicenseKey),
       properties := Stamped(p, s, AddProperties(p.properties, s.properties, order)),
       layer := if p.layer.None? then s.layer else p.layer)
  }

  ghost predicate Merged(p: Component, s: Component, out: Component) {
    exists order :: Enumerates(order, s.properties.Keys) && out == MergedPair(p, s, order)
  }

  method MergePair(primary: Component, secondary: Component) returns (out: Component)
    ensures Merged(primary, secondary, out)
  {
    hide Distinct, MergedEvidence, AddProperties, InNamespace;
    var evidence := MergeEvidence(primary.evidence, secondary.evidence);
    var hashes := UnionByKey(primary.hashes, secondary.hashes, HashKey);
    var cpes := UnionByKey(primary.cpes, secondary.cpes, CanonicalCpe);
    var licenses := UnionByKey(primary.licenses, secondary.licenses, LicenseKey);
    var properties, order := MergeProperties(primary.properties, secondary.properties);
    var layer := primary.layer;
    if primary.layer.Some? && secondary.layer.Some? {
      if primary.layer.value.index != secondary.layer.value.index {
        properties := properties[NAMESPACE + ALSO_IN_LAYER := Itoa(secondary.layer.value.index)];
      }
    } else if primary.layer.None? {
      layer := secondary.layer;
    }
    var prev := 0;
    if NAMESPACE + MERGED_COUNT in properties {
      prev := ScanCount(properties[NAMESPACE + MERGED_COUNT]);
    }
    properties := properties[NAMESPACE + MERGED_COUNT := Itoa(prev + 1)];
    out := primary.(evidence := evidence, hashes := hashes, cpes := cpes, licenses := licenses,
                    properties := properties, layer := layer);
    assert out == MergedPair(primary, secondary, order);
  }
}
