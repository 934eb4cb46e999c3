/** What a package and a document say, and how they are read, entry by entry (internal/sbom/spdx/mapper.go). */
module SpdxFields {
  import opened Wrappers
  import opened Strings
  import opened Texts
  import opened Spdx
  import opened SpdxTrees

  // ----- Identifiers -----

  ghost predicate Allowed(c: char) {
    'A' <= c <= 'Z' || 'a' <= c <= 'z' || '0' <= c <= '9' || c == '.' || c == '-'
  }

  lemma IdAt(s: string)
    requires s != ""
    ensures |RefToId(s)| == |s| && forall i :: 0 <= i < |s| ==> RefToId(s)[i] == if Allowed(s[i]) then s[i] else '-'
  {
  }

  ghost predicate SameInId(c: char, d: char) {
    c == d || ((c == '-' || !Allowed(c)) && (d == '-' || !Allowed(d)))
  }

  /** Two references become one id exactly if they differ only where both have a hyphen or a character that is not allowed. */
  lemma SameIdIff(s: string, t: string)
    requires s != "" && t != ""
    ensures RefToId(s) == RefToId(t) <==> |s| == |t| && forall i :: 0 <= i < |s| ==> SameInId(s[i], t[i])
  {
    IdAt(s);
    IdAt(t);
    hide RefToId;
    if RefToId(s) == RefToId(t) {
      forall i | 0 <= i < |s| ensures SameInId(s[i], t[i]) {
        assert RefToId(s)[i] == RefToId(t)[i];
      }
    } else if |s| == |t| {
      var i :| 0 <= i < |s| && RefToId(s)[i] != RefToId(t)[i];
      assert !SameInId(s[i], t[i]);
    }
  }

  /** A component is identified by its reference, or by name and version where it has none. */
  lemma IdOf(c: Component)
    ensures c.bomRef != "" ==> PkgId(c) == RefToId(c.bomRef)
    ensures c.bomRef == "" ==> PkgId(c) == RefToId(c.name + "-" + c.version)
    ensures IsId(c.bomRef) ==> PkgId(c) == c.bomRef
  {
  }

  // ----- What a package says -----

  /** The typed fields as properties; an empty text is not written, the layer index always is. */
  ghost predicate FieldProperty(c: Component, k: string, v: string) {
    || (k == "astinus:origin" && v == c.origin != "")
    || (c.layerInfo.Some? &&
        (|| (k == "astinus:layer:digest" && v == c.layerInfo.value.digest != "")
         || (k == "astinus:layer:index" && v == Itoa(c.layerInfo.value.index))
         || (k == "astinus:layer:dockerfile-line" && v == c.layerInfo.value.dockerfileLine != "")
         || (k == "astinus:layer:added-by" && v == c.layerInfo.value.addedBy != "")))
  }

  /** A typed field hides a property of the same name. */
  ghost predicate WritesProperty(c: Component, k: string, v: string) {
    || FieldProperty(c, k, v)
    || (k in c.properties && v == c.properties[k] && forall w :: !FieldProperty(c, k, w))
  }

  lemma EntryIff(key: string, value: string, k: string, v: string)
    ensures k in Entry(key, value) && Entry(key, value)[k] == v <==> k == key && v == value != ""
    ensures k in Entry(key, value) ==> k == key
  {
  }

  function LayerProps(li: LayerInfo): map<string, string> {
    Entry(LAYER_DIGEST, li.digest) + map[LAYER_INDEX := Itoa(li.index)] +
    Entry(LAYER_LINE, li.dockerfileLine) + Entry(LAYER_ADDED_BY, li.addedBy)
  }

  ghost predicate LayerProperty(li: LayerInfo, k: string, v: string) {
    || (k == "astinus:layer:digest" && v == li.digest != "")
    || (k == "astinus:layer:index" && v == Itoa(li.index))
    || (k == "astinus:layer:dockerfile-line" && v == li.dockerfileLine != "")
    || (k == "astinus:layer:added-by" && v == li.addedBy != "")
  }

  lemma LayerPropertyIff(li: LayerInfo, k: string, v: string)
    ensures LayerProperty(li, k, v) <==> k in LayerProps(li) && LayerProps(li)[k] == v
    ensures "astinus:origin" !in LayerProps(li)
  {
    ReservedKeysDiffer();
    EntryIff(LAYER_DIGEST, li.digest, k, v);
    EntryIff(LAYER_LINE, li.dockerfileLine, k, v);
    EntryIff(LAYER_ADDED_BY, li.addedBy, k, v);
    EntryIff(LAYER_DIGEST, li.digest, ORIGIN, v);
    EntryIff(LAYER_LINE, li.dockerfileLine, ORIGIN, v);
    EntryIff(LAYER_ADDED_BY, li.addedBy, ORIGIN, v);
    hide Entry, Itoa;
  }

  lemma FieldPropertyIff(c: Component, k: string, v: string)
    ensures FieldProperty(c, k, v) <==> k in AstinusProps(c) && AstinusProps(c)[k] == v
  {
    EntryIff(ORIGIN, c.origin, k, v);
    if c.layerInfo.Some? {
      LayerPropertyIff(c.layerInfo.value, k, v);
      assert AstinusProps(c) == Entry(ORIGIN, c.origin) + LayerProps(c.layerInfo.value);
    }
    hide Entry, Itoa, LayerProps;
  }

  lemma WritesPropertyIff(c: Component, k: string, v: string)
    ensures WritesProperty(c, k, v) <==> k in AllProps(c) && AllProps(c)[k] == v
  {
    hide FieldProperty, AstinusProps;
    FieldPropertyIff(c, k, v);
    forall w ensures FieldProperty(c, k, w) <==> k in AstinusProps(c) && AstinusProps(c)[k] == w {
      FieldPropertyIff(c, k, w);
    }
    if k in AstinusProps(c) {
      assert FieldProperty(c, k, AstinusProps(c)[k]);
    }
  }

  lemma {:induction false} CommentsAre(keys: seq<string>, props: map<string, string>)
    requires forall k :: k in keys ==> k in props
    ensures |AnnotationsFromProps(keys, props)| == |keys|
    ensures forall i :: 0 <= i < |keys| ==> AnnotationsFromProps(keys, props)[i] == keys[i] + "=" + props[keys[i]]
  {
    if keys != [] {
      CommentsAre(keys[..|keys| - 1], props);
    }
  }

  ghost predicate WritesComment(c: Component, k: string, comment: string) {
    exists v :: WritesProperty(c, k, v) && comment == k + "=" + v
  }

  /** The annotations are exactly the written properties, sorted by key. */
  ghost predicate Annotates(c: Component, annotations: seq<string>, keys: seq<string>) {
    && |keys| == |annotations|
    && (forall i, j :: 0 <= i < j < |keys| ==> LexLeq(keys[i], keys[j]) && keys[i] != keys[j])
    && (forall i :: 0 <= i < |keys| ==> WritesComment(c, keys[i], annotations[i]))
    && (forall k, v :: WritesProperty(c, k, v) ==> k in keys)
  }

  lemma {:induction false} CpeRefsAre(cpes: seq<string>)
    ensures |CpeRefs(cpes)| == |cpes| && forall i :: 0 <= i < |cpes| ==> CpeRefs(cpes)[i] == ExternalRef(CpeRef, cpes[i])
  {
    if cpes != [] {
      CpeRefsAre(cpes[..|cpes| - 1]);
    }
  }

  lemma CommentIs(c: Component, k: string)
    requires k in AllProps(c)
    ensures WritesComment(c, k, k + "=" + AllProps(c)[k])
  {
    WritesPropertyIff(c, k, AllProps(c)[k]);
    hide AllProps, WritesProperty;
  }

  lemma WrittenKeys(c: Component, keys: seq<string>)
    requires forall k :: k in AllProps(c) ==> k in keys
    ensures forall k, v :: WritesProperty(c, k, v) ==> k in keys
  {
    hide AllProps, WritesProperty;
    forall k, v | WritesProperty(c, k, v) ensures k in keys {
      WritesPropertyIff(c, k, v);
    }
  }

  /** The annotations of a package, and what they are made from. */
  lemma AnnotationsAre(c: Component)
    ensures exists keys :: Annotates(c, ComponentToPackage(c).annotations, keys)
  {
    hide AllProps, WritesProperty, ExternalRefs, LexLeq, WritesComment;
    var props := AllProps(c);
    var keys := SortedKeys(props.Keys);
    hide SortedKeys;
    CommentsAre(keys, props);
    WrittenKeys(c, keys);
    assert ComponentToPackage(c).annotations == AnnotationsFromProps(keys, props);
    hide AnnotationsFromProps, ComponentToPackage;
    forall i | 0 <= i < |keys| ensures WritesComment(c, keys[i], AnnotationsFromProps(keys, props)[i]) {
      CommentIs(c, keys[i]);
    }
    assert forall i, j :: 0 <= i < j < |keys| ==> LexLeq(keys[i], keys[j]) && keys[i] != keys[j];
    assert Annotates(c, AnnotationsFromProps(keys, props), keys);
  }

  /** Name and version, and the PURL, if there is one, in front of the CPEs. */
  lemma PackageIs(c: Component)
    ensures var p := ComponentToPackage(c); var n := if c.purl == "" then 0 else 1;
      && p.name == c.name && p.version == c.version
      && |p.refs| == n + |c.cpes|
      && (c.purl != "" ==> p.refs[0] == ExternalRef(PurlRef, c.purl))
      && (forall i :: 0 <= i < |c.cpes| ==> p.refs[n + i] == ExternalRef(CpeRef, c.cpes[i]))
  {
    CpeRefsAre(c.cpes);
    hide AllProps, CpeRefs, PkgId, SortedKeys, AnnotationsFromProps;
  }

  // ----- How a package is read -----

  ghost predicate LastPurl(refs: seq<ExternalRef>, i: nat) {
    i < |refs| && refs[i].refType == PurlRef && forall j :: i < j < |refs| ==> refs[j].refType != PurlRef
  }

  /** Of several PURLs the last one counts. */
  lemma {:induction false} PurlIsLast(refs: seq<ExternalRef>)
    ensures forall i: nat :: LastPurl(refs, i) ==> PurlOf(refs) == refs[i].locator
    ensures (forall r :: r in refs ==> r.refType != PurlRef) ==> PurlOf(refs) == ""
  {
    if refs != [] {
      var front := refs[..|refs| - 1];
      PurlIsLast(front);
      forall i: nat | LastPurl(refs, i) && i < |front| ensures LastPurl(front, i) {
      }
    }
  }

  lemma OneRef(refs: seq<ExternalRef>, r: ExternalRef)
    ensures CpesOf(refs + [r]) == CpesOf(refs) + if r.refType == CpeRef then [r.locator] else []
  {
    assert (refs + [r])[..|refs|] == refs;
  }

  /** All CPEs are read, in their order, wherever they stand. */
  lemma {:induction false} CpesAre(refs: seq<ExternalRef>, r: ExternalRef, more: seq<ExternalRef>)
    ensures CpesOf(refs + [r] + more) == CpesOf(refs) + (if r.refType == CpeRef then [r.locator] else []) + CpesOf(more)
  {
    hide CpesOf;
    if more == [] {
      OneRef(refs, r);
      assert refs + [r] + more == refs + [r];
      assert CpesOf([]) == [] by { NoCpes(); }
    } else {
      var front, last := more[..|more| - 1], more[|more| - 1];
      CpesAre(refs, r, front);
      OneRef(refs + [r] + front, last);
      OneRef(front, last);
      assert refs + [r] + more == refs + [r] + front + [last] && more == front + [last];
    }
  }

  lemma NoCpes()
    ensures CpesOf([]) == []
  {
  }

  /** The text in front of the first equals sign, trimmed, and the text behind it. */
  ghost predicate Says(comment: string, k: string, v: string) {
    exists i :: 0 < i < |comment| && comment[i] == '=' && '=' !in comment[..i]
      && TrimmedTo(comment[..i], k) && k != "" && v == comment[i + 1..]
  }

  lemma SaysIff(comment: string, k: string, v: string)
    ensures var i := IndexOf(comment, '=');
      Says(comment, k, v) <==> i > 0 && TrimSpace(comment[..i]) == k != "" && comment[i + 1..] == v
  {
    var i := IndexOf(comment, '=');
    if i > 0 {
      TrimIff(comment[..i], k);
    }
    hide TrimSpace, TrimmedTo;
    if Says(comment, k, v) {
      var j :| 0 < j < |comment| && comment[j] == '=' && '=' !in comment[..j]
               && TrimmedTo(comment[..j], k) && k != "" && v == comment[j + 1..];
      assert comment[j] in comment;
      FirstIsFirst(comment, '=', i, j);
    }
  }

  ghost predicate LastSaid(comments: seq<string>, i: nat, k: string, v: string) {
    && i < |comments| && Says(comments[i], k, v)
    && forall j, w :: i < j < |comments| ==> !Says(comments[j], k, w)
  }

  lemma OneComment(comments: seq<string>, comment: string, k: string)
    ensures var before, props := PropsFromAnnotations(comments), PropsFromAnnotations(comments + [comment]);
      && (forall v :: Says(comment, k, v) ==> k in props && props[k] == v)
      && ((forall v :: !Says(comment, k, v)) ==> (k in props <==> k in before) && (k in props ==> props[k] == before[k]))
  {
    assert (comments + [comment])[..|comments|] == comments;
    var i := IndexOf(comment, '=');
    hide IndexOf, TrimSpace, Says;
    forall v ensures Says(comment, k, v) <==> i > 0 && TrimSpace(comment[..i]) == k != "" && comment[i + 1..] == v {
      SaysIff(comment, k, v);
    }
    assert i > 0 && TrimSpace(comment[..i]) == k != "" ==> Says(comment, k, comment[i + 1..]);
  }

  /** A property is read exactly if some comment says it; the last such comment counts. */
  lemma {:induction false} ReadProperty(comments: seq<string>, k: string)
    ensures var props := PropsFromAnnotations(comments);
      && (k in props <==> exists i, v :: 0 <= i < |comments| && Says(comments[i], k, v))
      && (k in props ==> exists i: nat :: LastSaid(comments, i, k, props[k]))
  {
    hide PropsFromAnnotations, Says;
    if comments == [] {
      assert PropsFromAnnotations([]) == map[] by { NoComments(); }
    } else {
      var front, last := comments[..|comments| - 1], comments[|comments| - 1];
      assert comments == front + [last];
      ReadProperty(front, k);
      OneComment(front, last, k);
      var before, props := PropsFromAnnotations(front), PropsFromAnnotations(comments);
      if v :| Says(last, k, v) {
        assert Says(comments[|front|], k, v);
        assert LastSaid(comments, |front|, k, props[k]);
      } else if k in before {
        var i: nat :| LastSaid(front, i, k, before[k]);
        assert comments[i] == front[i];
        assert LastSaid(comments, i, k, props[k]);
      } else {
        assert forall i :: 0 <= i < |front| ==> comments[i] == front[i];
      }
    }
  }

  lemma NoComments()
    ensures PropsFromAnnotations([]) == map[]
  {
  }

  ghost predicate HasLayerProperty(p: map<string, string>) {
    || "astinus:layer:digest" in p || "astinus:layer:index" in p
    || "astinus:layer:dockerfile-line" in p || "astinus:layer:added-by" in p
  }

  function TextOf(p: map<string, string>, k: string): string {
    if k in p then p[k] else ""
  }

  /** Any one of the four layer properties makes a layer; an index that is no number counts as zero; the rest stays. */
  lemma HydratedIs(c: Component)
    ensures var p, r := c.properties, HydrateAstinusFields(c);
      && r == c.(origin := r.origin, layerInfo := r.layerInfo, properties := r.properties)
      && r.origin == (if "astinus:origin" in p then p["astinus:origin"] else c.origin)
      && (!HasLayerProperty(p) ==> r.layerInfo == c.layerInfo)
      && (HasLayerProperty(p) ==>
            && r.layerInfo.Some?
            && r.layerInfo.value.digest == TextOf(p, "astinus:layer:digest")
            && r.layerInfo.value.dockerfileLine == TextOf(p, "astinus:layer:dockerfile-line")
            && r.layerInfo.value.addedBy == TextOf(p, "astinus:layer:added-by")
            && (forall n :: "astinus:layer:index" in p && Atoi(p["astinus:layer:index"]) == Some(n) ==> r.layerInfo.value.index == n)
            && ("astinus:layer:index" !in p || Atoi(p["astinus:layer:index"]).None? ==> r.layerInfo.value.index == 0))
      && (forall k :: k in r.properties <==>
            k in p && k !in {"astinus:origin", "astinus:layer:digest", "astinus:layer:index", "astinus:layer:dockerfile-line", "astinus:layer:added-by"})
      && forall k :: k in r.properties ==> r.properties[k] == p[k]
  {
    hide Atoi;
  }

  // ----- Relationships -----

  function Describing(rels: seq<Rel>): seq<Rel> {
    if rels == [] then []
    else Describing(rels[..|rels| - 1]) + if rels[|rels| - 1].kind == DESCRIBES then [rels[|rels| - 1]] else []
  }

  lemma {:induction false} DescribingConcat(a: seq<Rel>, b: seq<Rel>)
    ensures Describing(a + b) == Describing(a) + Describing(b)
    decreases |b|
  {
    if b == [] {
      assert a + b == a && Describing(a) + [] == Describing(a);
    } else {
      assert (a + b)[..|a + b| - 1] == a + b[..|b| - 1];
      DescribingConcat(a, b[..|b| - 1]);
    }
  }

  lemma {:induction false} NoneDescribe(rels: seq<Rel>)
    requires forall r :: r in rels ==> r.kind != DESCRIBES
    ensures Describing(rels) == []
  {
    if rels != [] {
      assert rels[|rels| - 1] in rels && forall r :: r in rels[..|rels| - 1] ==> r in rels;
      NoneDescribe(rels[..|rels| - 1]);
    }
  }

  lemma {:induction false} EdgesContain(parent: string, cs: seq<Component>)
    ensures forall r :: r in EdgesUnder(parent, cs) ==> r.kind == CONTAINS
    decreases cs
  {
    hide ComponentToPackage, PkgId;
    if cs != [] {
      EdgesContain(parent, cs[..|cs| - 1]);
      var last := cs[|cs| - 1];
      EdgesContain(PkgId(last), last.subs);
    }
  }

  lemma {:induction false} ForestContains(cs: seq<Component>)
    ensures forall r :: r in ForestEdges(cs) ==> r.kind == CONTAINS
  {
    hide PkgId;
    if cs != [] {
      ForestContains(cs[..|cs| - 1]);
      EdgesContain(PkgId(cs[|cs| - 1]), cs[|cs| - 1].subs);
    }
  }

  lemma {:induction false} RelsDescribeNothing(rs: seq<Relationship>)
    ensures forall r :: r in WrittenRels(rs) ==> r.kind != DESCRIBES
  {
    hide RefToId;
    if rs != [] {
      RelsDescribeNothing(rs[..|rs| - 1]);
    }
  }

  lemma {:induction false} DescribesAre(cs: seq<Component>)
    ensures |DescribesRels(cs)| == |cs|
    ensures forall i :: 0 <= i < |cs| ==> DescribesRels(cs)[i] == Rel("DOCUMENT", PkgId(cs[i]), DESCRIBES)
  {
    hide PkgId;
    if cs != [] {
      DescribesAre(cs[..|cs| - 1]);
    }
  }

  lemma {:induction false} AllDescribe(rels: seq<Rel>)
    requires forall i :: 0 <= i < |rels| ==> rels[i].kind == DESCRIBES
    ensures Describing(rels) == rels
  {
    if rels != [] {
      AllDescribe(rels[..|rels| - 1]);
    }
  }

  lemma OnlyMiddle(a: seq<Rel>, b: seq<Rel>, c: seq<Rel>)
    requires (forall r :: r in a ==> r.kind != DESCRIBES) && (forall r :: r in c ==> r.kind != DESCRIBES)
    requires forall i :: 0 <= i < |b| ==> b[i].kind == DESCRIBES
    ensures Describing(a + b + c) == b
  {
    NoneDescribe(a);
    AllDescribe(b);
    NoneDescribe(c);
    DescribingConcat(a + b, c);
    DescribingConcat(a, b);
    hide Describing;
    assert [] + b + [] == b;
  }

  /** The document describes exactly its top-level components, in their order. */
  lemma DocumentDescribes(sbom: Sbom)
    ensures var described := Describing(ToSpdxDocument(sbom).rels);
      && |described| == |sbom.components|
      && forall i :: 0 <= i < |described| ==> described[i] == Rel("DOCUMENT", PkgId(sbom.components[i]), DESCRIBES)
  {
    hide Describing, ForestEdges, DescribesRels, WrittenRels, PkgId, AllPackages;
    ForestContains(sbom.components);
    DescribesAre(sbom.components);
    RelsDescribeNothing(sbom.relationships);
    OnlyMiddle(ForestEdges(sbom.components), DescribesRels(sbom.components), WrittenRels(sbom.relationships));
  }

  /** What each kind of relationship is called in a document; a relationship of unknown kind is left out. */
  lemma WrittenAs(source: string, target: string)
    ensures WrittenRel(Relationship(source, target, DependsOn)) == [Rel(RefToId(source), RefToId(target), DEPENDS_ON)]
    ensures WrittenRel(Relationship(source, target, Provides)) == [Rel(RefToId(source), RefToId(target), DEPENDENCY_OF)]
    ensures WrittenRel(Relationship(source, target, Contains)) == [Rel(RefToId(source), RefToId(target), CONTAINS)]
    ensures WrittenRel(Relationship(source, target, UnknownRel)) == []
  {
  }

  /** The edge does not stay: it describes the document, or it nests one of the packages in another. */
  predicate Vanishes(r: Rel, ids: set<string>) {
    r.kind == DESCRIBES || (r.kind == CONTAINS && r.from in ids && r.to in ids)
  }

  function ReadAs(r: Rel): Relationship {
    Relationship(r.from, r.to,
      if r.kind == DEPENDS_ON then DependsOn
      else if r.kind == DEPENDENCY_OF then Provides
      else if r.kind == CONTAINS then Contains
      else UnknownRel)
  }

  function Staying(rels: seq<Rel>, ids: set<string>): seq<Relationship> {
    if rels == [] then []
    else
      var last := rels[|rels| - 1];
      Staying(rels[..|rels| - 1], ids) + if Vanishes(last, ids) then [] else [ReadAs(last)]
  }

  lemma {:induction false} LinkAllKeeps(h: Hydration, byId: map<string, nat>, rels: seq<Rel>)
    requires Resolves(byId, |h.comps|)
    ensures LinkAll(h, byId, rels).kept == h.kept + Staying(rels, byId.Keys)
  {
    if rels == [] {
      assert h.kept + [] == h.kept;
    } else {
      var front, last := rels[..|rels| - 1], rels[|rels| - 1];
      LinkAllKeeps(h, byId, front);
      var before := LinkAll(h, byId, front);
      LinkKeeps(before, byId, last);
    }
  }

  lemma LinkKeeps(h: Hydration, byId: map<string, nat>, r: Rel)
    requires Resolves(byId, |h.comps|)
    ensures Link(h, byId, r).kept == h.kept + if Vanishes(r, byId.Keys) then [] else [ReadAs(r)]
  {
  }

  lemma {:induction false} ByIdKeys(cs: seq<Component>)
    ensures forall id :: id in ById(cs) <==> exists c :: c in cs && c.bomRef == id
  {
    if cs != [] {
      ByIdKeys(cs[..|cs| - 1]);
    }
  }

  lemma PackageIds(packages: seq<Package>)
    ensures ById(FromPackages(packages)).Keys == set p | p in packages :: p.id
  {
    hide ById, PackageToComponent;
    var cs := FromPackages(packages);
    ByIdKeys(cs);
    var ids := set p | p in packages :: p.id;
    forall id ensures id in ById(cs) <==> id in ids {
      if id in ids {
        var p :| p in packages && p.id == id;
        var k :| 0 <= k < |packages| && packages[k] == p;
        assert cs[k].bomRef == id;
      }
      if id in ById(cs) {
        var k := ById(cs)[id];
        assert packages[k] in packages;
      }
    }
  }

  /** The relationships read are those of the document in their order, without the edges that describe or nest. */
  lemma ReadRelationships(doc: Document)
    ensures FromSpdxDocument(doc).relationships == Staying(doc.rels, set p | p in doc.packages :: p.id)
  {
    hide LinkAll, Staying, ById, NotConsumed, PackageToComponent;
    var cs := FromPackages(doc.packages);
    LinkAllKeeps(Hydration(cs, {}, []), ById(cs), doc.rels);
    PackageIds(doc.packages);
    hide FromPackages;
  }
}
