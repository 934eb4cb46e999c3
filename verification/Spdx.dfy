/**
  The SPDX 2.3 mapper (internal/sbom/spdx/mapper.go): component trees flattened into
  packages and CONTAINS edges, rebuilt on read; typed fields projected into
  "<key>=<value>" annotations.
*/
module Spdx {
  import opened Wrappers
  import opened Strings

  datatype LayerInfo = LayerInfo(digest: string, index: int, dockerfileLine: string, addedBy: string)

  /** origin "" stands for an unset origin. */
  datatype Component = Component(
    bomRef: string,
    name: string,
    version: string,
    purl: string,
    cpes: seq<string>,
    properties: map<string, string>,
    origin: string,
    layerInfo: Option<LayerInfo>,
    subs: seq<Component>)

  datatype RelType = DependsOn | Provides | Contains | UnknownRel

  datatype Relationship = Relationship(source: string, target: string, typ: RelType)

  datatype Sbom = Sbom(components: seq<Component>, relationships: seq<Relationship>)

  // ----- The wire structures -----

  datatype RefType = PurlRef | CpeRef | OtherRef

  datatype ExternalRef = ExternalRef(refType: RefType, locator: string)

  /** annotations holds the comments. */
  datatype Package = Package(
    id: string, name: string, version: string, refs: seq<ExternalRef>, annotations: seq<string>)

  /** The relationship names that the mapper tells apart. */
  datatype RelKind = CONTAINS | DESCRIBES | DEPENDS_ON | DEPENDENCY_OF | OTHER(name: string)

  datatype Rel = Rel(from: string, to: string, kind: RelKind)

  datatype Document = Document(packages: seq<Package>, rels: seq<Rel>)

  // ----- Typed fields as annotations -----

  const ORIGIN := "astinus:origin"
  const LAYER_DIGEST := "astinus:layer:digest"
  const LAYER_INDEX := "astinus:layer:index"
  const LAYER_LINE := "astinus:layer:dockerfile-line"
  const LAYER_ADDED_BY := "astinus:layer:added-by"
  const RESERVED := {ORIGIN, LAYER_DIGEST, LAYER_INDEX, LAYER_LINE, LAYER_ADDED_BY}

  function Entry(key: string, value: string): map<string, string> {
    if value == "" then map[] else map[key := value]
  }

  function AstinusProps(c: Component): map<string, string> {
    Entry(ORIGIN, c.origin) +
    match c.layerInfo
    case None => map[]
    case Some(li) =>
      Entry(LAYER_DIGEST, li.digest) + map[LAYER_INDEX := Itoa(li.index)] +
      Entry(LAYER_LINE, li.dockerfileLine) + Entry(LAYER_ADDED_BY, li.addedBy)
  }

  function AnnotationsFromProps(keys: seq<string>, props: map<string, string>): seq<string>
    requires forall k :: k in keys ==> k in props
  {
    if keys == [] then []
    else
      var key := keys[|keys| - 1];
      AnnotationsFromProps(keys[..|keys| - 1], props) + [key + "=" + props[key]]
  }

  /** A comment without "=", or with nothing but blanks before it, is ignored; a later key wins. */
  function PropsFromAnnotations(comments: seq<string>): map<string, string> {
    if comments == [] then map[]
    else
      var before, comment := PropsFromAnnotations(comments[..|comments| - 1]), comments[|comments| - 1];
      var i := IndexOf(comment, '=');
      if i <= 0 || TrimSpace(comment[..i]) == "" then before
      else before[TrimSpace(comment[..i]) := comment[i + 1..]]
  }

  function ValueOr(props: map<string, string>, key: string, default: string): string {
    if key in props then props[key] else default
  }

  function HydrateAstinusFields(c: Component): Component {
    var p := c.properties;
    var index := if LAYER_INDEX in p && Atoi(p[LAYER_INDEX]).Some? then Atoi(p[LAYER_INDEX]).value else 0;
    c.(origin := ValueOr(p, ORIGIN, c.origin),
       layerInfo :=
         if LAYER_DIGEST in p || LAYER_INDEX in p || LAYER_LINE in p || LAYER_ADDED_BY in p
         then Some(LayerInfo(ValueOr(p, LAYER_DIGEST, ""), index, ValueOr(p, LAYER_LINE, ""), ValueOr(p, LAYER_ADDED_BY, "")))
         else c.layerInfo,
       properties := p - RESERVED)
  }

  // ----- One component, one package -----

  predicate IdChar(c: char) {
    'A' <= c <= 'Z' || 'a' <= c <= 'z' || '0' <= c <= '9' || c == '.' || c == '-'
  }

  function RefToId(s: string): (id: string)
    ensures id != "" && forall k :: 0 <= k < |id| ==> IdChar(id[k])
    ensures s != "" && (forall k :: 0 <= k < |s| ==> IdChar(s[k])) ==> id == s
  {
    if s == "" then "Package" else seq(|s|, k requires 0 <= k < |s| => if IdChar(s[k]) then s[k] else '-')
  }

  function PkgId(c: Component): string {
    RefToId(if c.bomRef != "" then c.bomRef else c.name + "-" + c.version)
  }

  function CpeRefs(cpes: seq<string>): seq<ExternalRef> {
    if cpes == [] then [] else CpeRefs(cpes[..|cpes| - 1]) + [ExternalRef(CpeRef, cpes[|cpes| - 1])]
  }

  function ExternalRefs(c: Component): seq<ExternalRef> {
    (if c.purl != "" then [ExternalRef(PurlRef, c.purl)] else []) + CpeRefs(c.cpes)
  }

  function AllProps(c: Component): map<string, string> {
    c.properties + AstinusProps(c)
  }

  function ComponentToPackage(c: Component): Package {
    Package(PkgId(c), c.name, c.version, ExternalRefs(c),
            AnnotationsFromProps(SortedKeys(AllProps(c).Keys), AllProps(c)))
  }

  function PurlOf(refs: seq<ExternalRef>): string {
    if refs == [] then ""
    else if refs[|refs| - 1].refType == PurlRef then refs[|refs| - 1].locator
    else PurlOf(refs[..|refs| - 1])
  }

  function CpesOf(refs: seq<ExternalRef>): seq<string> {
    if refs == [] then []
    else CpesOf(refs[..|refs| - 1]) +
         if refs[|refs| - 1].refType == CpeRef then [refs[|refs| - 1].locator] else []
  }

  function PackageToComponent(p: Package): (c: Component)
    ensures c.bomRef == p.id && c.subs == []
  {
    HydrateAstinusFields(Component(
      p.id, p.name, p.version, PurlOf(p.refs), CpesOf(p.refs), PropsFromAnnotations(p.annotations), "", None, []))
  }

  // ----- Which properties survive -----

  ghost predicate WellFormedKey(key: string) {
    key != "" && '=' !in key && Trimmed(key)
  }

  lemma {:induction false} ReadKeysAreWellFormed(comments: seq<string>)
    ensures forall k :: k in PropsFromAnnotations(comments) ==> WellFormedKey(k)
  {
    if comments != [] {
      ReadKeysAreWellFormed(comments[..|comments| - 1]);
      var comment := comments[|comments| - 1];
      var i := IndexOf(comment, '=');
      if i > 0 {
        TrimSpaceFixes(comment[..i]);
        TrimSpaceKeeps(comment[..i], '=');
      }
    }
  }

  lemma TrimSpaceKeeps(s: string, c: char)
    requires c !in s
    ensures c !in TrimSpace(s)
  {
    TrimLeftKeeps(s, c);
    TrimRightKeeps(TrimLeft(s), c);
  }

  lemma {:induction false} TrimLeftKeeps(s: string, c: char)
    requires c !in s
    ensures c !in TrimLeft(s)
  {
    if s != [] && IsSpace(s[0]) { TrimLeftKeeps(s[1..], c); }
  }

  lemma {:induction false} TrimRightKeeps(s: string, c: char)
    requires c !in s
    ensures c !in TrimRight(s)
  {
    if s != [] && IsSpace(s[|s| - 1]) { TrimRightKeeps(s[..|s| - 1], c); }
  }

  lemma {:induction false} AnnotationsReadBack(keys: seq<string>, props: map<string, string>)
    requires forall k :: k in keys ==> k in props && WellFormedKey(k)
    ensures PropsFromAnnotations(AnnotationsFromProps(keys, props)) == map k | k in keys :: props[k]
  {
    hide TrimSpace, Trimmed, IndexOf;
    if keys != [] {
      var front, key := keys[..|keys| - 1], keys[|keys| - 1];
      AnnotationsReadBack(front, props);
      assert keys == front + [key];
      CommentReadsBack(AnnotationsFromProps(front, props), key, props[key]);
    }
  }

  lemma CommentReadsBack(comments: seq<string>, key: string, value: string)
    requires WellFormedKey(key)
    ensures PropsFromAnnotations(comments + [key + "=" + value]) == PropsFromAnnotations(comments)[key := value]
  {
    hide TrimSpace, Trimmed, IndexOf;
    var comment := key + "=" + value;
    assert comment == key + ['='] + value;
    IndexOfFirst(key, '=', value);
    assert comment[..|key|] == key && comment[|key| + 1..] == value;
    TrimSpaceFixes(key);
    assert (comments + [comment])[..|comments|] == comments;
  }

  function WriteProps(props: map<string, string>): seq<string> {
    AnnotationsFromProps(SortedKeys(props.Keys), props)
  }

  /** A property bag survives the trip through annotations exactly when every key is non-empty, trimmed and free of '='. */
  lemma PropsRoundTripIff(props: map<string, string>)
    ensures PropsFromAnnotations(WriteProps(props)) == props <==> forall k :: k in props ==> WellFormedKey(k)
  {
    ReadKeysAreWellFormed(WriteProps(props));
    if forall k :: k in props ==> WellFormedKey(k) {
      AnnotationsReadBack(SortedKeys(props.Keys), props);
    }
  }

  lemma OneMoreRef(refs: seq<ExternalRef>, cpe: string)
    ensures CpesOf(refs + [ExternalRef(CpeRef, cpe)]) == CpesOf(refs) + [cpe]
    ensures PurlOf(refs + [ExternalRef(CpeRef, cpe)]) == PurlOf(refs)
  {
    assert (refs + [ExternalRef(CpeRef, cpe)])[..|refs|] == refs;
  }

  lemma {:induction false} CpesReadBack(prefix: seq<ExternalRef>, cpes: seq<string>)
    requires CpesOf(prefix) == []
    ensures CpesOf(prefix + CpeRefs(cpes)) == cpes
    ensures PurlOf(prefix + CpeRefs(cpes)) == PurlOf(prefix)
  {
    hide CpesOf, PurlOf;
    if cpes == [] {
      assert prefix + CpeRefs(cpes) == prefix;
    } else {
      var front, last := cpes[..|cpes| - 1], cpes[|cpes| - 1];
      CpesReadBack(prefix, front);
      OneMoreRef(prefix + CpeRefs(front), last);
      assert prefix + CpeRefs(cpes) == prefix + CpeRefs(front) + [ExternalRef(CpeRef, last)];
    }
  }

  ghost predicate WellFormedProps(c: Component) {
    forall k :: k in c.properties ==> WellFormedKey(k) && k !in RESERVED
  }

  /** Everything the model keeps of one component survives, reserved keys and malformed keys aside. */
  lemma PackageReadsBack(c: Component)
    requires WellFormedProps(c)
    ensures PackageToComponent(ComponentToPackage(c)) == c.(bomRef := PkgId(c), subs := [])
  {
    hide HydrateAstinusFields, AstinusProps, WellFormedKey, RESERVED, SortedKeys, AnnotationsFromProps, PropsFromAnnotations;
    var all := AllProps(c);
    ReservedKeysAreWellFormed();
    ProjectedFields(c);
    assert forall k :: k in all ==> WellFormedKey(k);
    PropsRoundTripIff(all);
    CpesReadBack(if c.purl != "" then [ExternalRef(PurlRef, c.purl)] else [], c.cpes);
    var flat := c.(bomRef := PkgId(c), subs := []);
    SameProps(c, flat);
    HydrationUndoesProjection(flat, all);
  }

  lemma SameProps(c: Component, d: Component)
    requires c.properties == d.properties && c.origin == d.origin && c.layerInfo == d.layerInfo
    ensures AllProps(c) == AllProps(d)
  {
  }

  lemma ReservedKeysAreWellFormed()
    ensures forall k :: k in RESERVED ==> WellFormedKey(k)
  {
  }

  lemma ReservedKeysDiffer()
    ensures |ORIGIN| == 14 && |LAYER_DIGEST| == 20 && |LAYER_INDEX| == 19 && |LAYER_LINE| == 29 && |LAYER_ADDED_BY| == 22
  {
  }

  lemma ProjectedLayer(li: LayerInfo, c: Component)
    requires c.layerInfo == Some(li)
    ensures var p := AstinusProps(c);
      && LAYER_INDEX in p && p[LAYER_INDEX] == Itoa(li.index)
      && ValueOr(p, LAYER_DIGEST, "") == li.digest
      && ValueOr(p, LAYER_LINE, "") == li.dockerfileLine
      && ValueOr(p, LAYER_ADDED_BY, "") == li.addedBy
  {
    hide ORIGIN, LAYER_DIGEST, LAYER_INDEX, LAYER_LINE, LAYER_ADDED_BY, RESERVED, Itoa;
    ReservedKeysDiffer();
  }

  lemma ProjectedFields(c: Component)
    ensures var p := AstinusProps(c);
      && p.Keys <= RESERVED
      && ValueOr(p, ORIGIN, "") == c.origin
      && (c.layerInfo.None? ==> LAYER_DIGEST !in p && LAYER_INDEX !in p && LAYER_LINE !in p && LAYER_ADDED_BY !in p)
  {
    hide ORIGIN, LAYER_DIGEST, LAYER_INDEX, LAYER_LINE, LAYER_ADDED_BY, Itoa;
    ReservedKeysDiffer();
  }

  lemma HydrationUndoesProjection(c: Component, all: map<string, string>)
    requires all == AllProps(c) && forall k :: k in c.properties ==> k !in RESERVED
    ensures HydrateAstinusFields(c.(properties := all, origin := "", layerInfo := None)) == c
  {
    hide ORIGIN, LAYER_DIGEST, LAYER_INDEX, LAYER_LINE, LAYER_ADDED_BY, Itoa, Atoi, AstinusProps;
    ProjectedFields(c);
    forall k | k in RESERVED
      ensures k in all <==> k in AstinusProps(c)
      ensures ValueOr(all, k, "") == ValueOr(AstinusProps(c), k, "")
    {
    }
    if c.layerInfo.Some? {
      ProjectedLayer(c.layerInfo.value, c);
      ItoaRoundTrip(c.layerInfo.value.index);
    }
    assert all - RESERVED == c.properties;
  }
}
