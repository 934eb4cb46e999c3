/**
  The SPDX mapper on whole documents (internal/sbom/spdx/mapper.go): emitting a forest
  as packages and edges, and rebuilding it from them.
*/
module SpdxTrees {
  import opened Wrappers
  import opened Strings
  import opened Spdx

  const DOCUMENT := "DOCUMENT"

  // ----- Writing -----

  /** A parent's package comes before its children's. */
  function Packages(c: Component): seq<Package>
    decreases c, 1
  {
    [ComponentToPackage(c)] + AllPackages(c.subs)
  }

  function AllPackages(cs: seq<Component>): seq<Package>
    decreases cs, 0
  {
    if cs == [] then [] else AllPackages(cs[..|cs| - 1]) + Packages(cs[|cs| - 1])
  }

  /** The edge to a child comes after the edges inside the child. */
  function ContainsRels(c: Component): seq<Rel>
    decreases c, 1
  {
    EdgesUnder(PkgId(c), c.subs)
  }

  function EdgesUnder(parent: string, cs: seq<Component>): seq<Rel>
    decreases cs, 0
  {
    if cs == [] then []
    else
      EdgesUnder(parent, cs[..|cs| - 1]) + ContainsRels(cs[|cs| - 1]) +
      [Rel(parent, PkgId(cs[|cs| - 1]), CONTAINS)]
  }

  lemma EmitStep(parent: string, cs: seq<Component>, i: nat)
    requires i < |cs|
    ensures AllPackages(cs[..i + 1]) == AllPackages(cs[..i]) + Packages(cs[i])
    ensures EdgesUnder(parent, cs[..i + 1]) ==
      EdgesUnder(parent, cs[..i]) + ContainsRels(cs[i]) + [Rel(parent, PkgId(cs[i]), CONTAINS)]
  {
    hide Packages, ContainsRels, PkgId;
    assert cs[..i + 1][..i] == cs[..i];
  }

  method EmitComponent(c: Component, packages0: seq<Package>, rels0: seq<Rel>)
    returns (packages: seq<Package>, rels: seq<Rel>)
    ensures packages == packages0 + Packages(c) && rels == rels0 + ContainsRels(c)
    decreases c
  {
    hide PkgId, ComponentToPackage, AllPackages, EdgesUnder;
    packages, rels := packages0 + [ComponentToPackage(c)], rels0;
    NoChildren(PkgId(c));
    var i := 0;
    while i < |c.subs|
      invariant 0 <= i <= |c.subs|
      invariant packages == packages0 + [ComponentToPackage(c)] + AllPackages(c.subs[..i])
      invariant rels == rels0 + EdgesUnder(PkgId(c), c.subs[..i])
    {
      EmitStep(PkgId(c), c.subs, i);
      packages, rels := EmitComponent(c.subs[i], packages, rels);
      rels := rels + [Rel(PkgId(c), PkgId(c.subs[i]), CONTAINS)];
      i := i + 1;
    }
    assert c.subs[..i] == c.subs;
  }

  lemma NoChildren(parent: string)
    ensures AllPackages([]) == [] && EdgesUnder(parent, []) == []
  {
  }

  function ForestEdges(cs: seq<Component>): seq<Rel> {
    if cs == [] then [] else ForestEdges(cs[..|cs| - 1]) + ContainsRels(cs[|cs| - 1])
  }

  function DescribesRels(cs: seq<Component>): seq<Rel> {
    if cs == [] then [] else DescribesRels(cs[..|cs| - 1]) + [Rel(DOCUMENT, PkgId(cs[|cs| - 1]), DESCRIBES)]
  }

  function CanonicalToSpdx(t: RelType): Option<RelKind> {
    match t
    case DependsOn => Some(DEPENDS_ON)
    case Provides => Some(DEPENDENCY_OF)
    case Contains => Some(CONTAINS)
    case UnknownRel => None
  }

  function WrittenRel(r: Relationship): seq<Rel> {
    match CanonicalToSpdx(r.typ)
    case None => []
    case Some(kind) => [Rel(RefToId(r.source), RefToId(r.target), kind)]
  }

  function WrittenRels(rs: seq<Relationship>): seq<Rel> {
    if rs == [] then [] else WrittenRels(rs[..|rs| - 1]) + WrittenRel(rs[|rs| - 1])
  }

  function ToSpdxDocument(sbom: Sbom): Document {
    Document(AllPackages(sbom.components),
             ForestEdges(sbom.components) + DescribesRels(sbom.components) + WrittenRels(sbom.relationships))
  }

  lemma ForestStep(cs: seq<Component>, i: nat)
    requires i < |cs|
    ensures AllPackages(cs[..i + 1]) == AllPackages(cs[..i]) + Packages(cs[i])
    ensures ForestEdges(cs[..i + 1]) == ForestEdges(cs[..i]) + ContainsRels(cs[i])
    ensures DescribesRels(cs[..i + 1]) == DescribesRels(cs[..i]) + [Rel(DOCUMENT, PkgId(cs[i]), DESCRIBES)]
  {
    hide Packages, ContainsRels, PkgId;
    assert cs[..i + 1][..i] == cs[..i];
  }

  method ToSpdx(sbom: Sbom) returns (doc: Document)
    ensures doc == ToSpdxDocument(sbom)
  {
    hide Packages, ContainsRels, PkgId, AllPackages, DescribesRels, ForestEdges;
    var cs, rs := sbom.components, sbom.relationships;
    var packages, rels := [], [];
    EmptyForest();
    var i := 0;
    while i < |cs|
      invariant 0 <= i <= |cs|
      invariant packages == AllPackages(cs[..i]) && rels == ForestEdges(cs[..i])
    {
      ForestStep(cs, i);
      packages, rels := EmitComponent(cs[i], packages, rels);
      i := i + 1;
    }
    assert cs[..i] == cs;
    i := 0;
    while i < |cs|
      invariant 0 <= i <= |cs|
      invariant rels == ForestEdges(cs) + DescribesRels(cs[..i])
    {
      ForestStep(cs, i);
      rels := rels + [Rel(DOCUMENT, PkgId(cs[i]), DESCRIBES)];
      i := i + 1;
    }
    assert cs[..i] == cs;
    var written := WriteRelationships(rs);
    return Document(packages, rels + written);
  }

  lemma EmptyForest()
    ensures AllPackages([]) == [] && ForestEdges([]) == [] && DescribesRels([]) == []
  {
  }

  method WriteRelationships(rs: seq<Relationship>) returns (rels: seq<Rel>)
    ensures rels == WrittenRels(rs)
  {
    rels := [];
    var i := 0;
    while i < |rs|
      invariant 0 <= i <= |rs|
      invariant rels == WrittenRels(rs[..i])
    {
      assert rs[..i + 1][..i] == rs[..i];
      var kind := CanonicalToSpdx(rs[i].typ);
      if kind.Some? {
        rels := rels + [Rel(RefToId(rs[i].source), RefToId(rs[i].target), kind.value)];
      }
      i := i + 1;
    }
    assert rs[..i] == rs;
  }

  // ----- Reading -----

  function SpdxToCanonical(kind: RelKind): RelType {
    match kind
    case DEPENDS_ON => DependsOn
    case DEPENDENCY_OF => Provides
    case CONTAINS => Contains
    case _ => UnknownRel
  }

  function FromPackages(packages: seq<Package>): (cs: seq<Component>)
    ensures |cs| == |packages| && forall k :: 0 <= k < |cs| ==> cs[k] == PackageToComponent(packages[k])
  {
    seq(|packages|, k requires 0 <= k < |packages| => PackageToComponent(packages[k]))
  }

  /** The last component with an id is the one edges resolve to. */
  function ById(cs: seq<Component>): (m: map<string, nat>)
    ensures forall id :: id in m ==> m[id] < |cs| && cs[m[id]].bomRef == id
    ensures forall k :: 0 <= k < |cs| ==> cs[k].bomRef in m
  {
    if cs == [] then map[] else ById(cs[..|cs| - 1])[cs[|cs| - 1].bomRef := |cs| - 1]
  }

  datatype Hydration = Hydration(comps: seq<Component>, consumed: set<string>, kept: seq<Relationship>)

  predicate Resolves(byId: map<string, nat>, n: nat) {
    forall id :: id in byId ==> byId[id] < n
  }

  /** A resolved CONTAINS edge copies the child, as it is now, under the parent. */
  function Link(h: Hydration, byId: map<string, nat>, r: Rel): (r': Hydration)
    requires Resolves(byId, |h.comps|)
    ensures |r'.comps| == |h.comps|
  {
    if r.kind == DESCRIBES then h
    else if r.kind == CONTAINS && r.from in byId && r.to in byId then
      var parent, child := h.comps[byId[r.from]], h.comps[byId[r.to]];
      h.(comps := h.comps[byId[r.from] := parent.(subs := parent.subs + [child])], consumed := h.consumed + {r.to})
    else h.(kept := h.kept + [Relationship(r.from, r.to, SpdxToCanonical(r.kind))])
  }

  function LinkAll(h: Hydration, byId: map<string, nat>, rels: seq<Rel>): (r: Hydration)
    requires Resolves(byId, |h.comps|)
    ensures |r.comps| == |h.comps|
  {
    if rels == [] then h else Link(LinkAll(h, byId, rels[..|rels| - 1]), byId, rels[|rels| - 1])
  }

  function NotConsumed(cs: seq<Component>, consumed: set<string>): seq<Component> {
    if cs == [] then []
    else
      NotConsumed(cs[..|cs| - 1], consumed) +
      if cs[|cs| - 1].bomRef in consumed then [] else [cs[|cs| - 1]]
  }

  function FromSpdxDocument(doc: Document): Sbom {
    var cs := FromPackages(doc.packages);
    var h := LinkAll(Hydration(cs, {}, []), ById(cs), doc.rels);
    Sbom(NotConsumed(h.comps, h.consumed), h.kept)
  }

  method IndexById(cs: seq<Component>) returns (byId: map<string, nat>)
    ensures byId == ById(cs)
  {
    byId := map[];
    var i := 0;
    while i < |cs|
      invariant 0 <= i <= |cs|
      invariant byId == ById(cs[..i])
    {
      assert cs[..i + 1][..i] == cs[..i];
      byId := byId[cs[i].bomRef := i];
      i := i + 1;
    }
    assert cs[..i] == cs;
  }

  method LinkRels(cs: seq<Component>, byId: map<string, nat>, rels: seq<Rel>)
    returns (comps: seq<Component>, consumed: set<string>, kept: seq<Relationship>)
    requires Resolves(byId, |cs|)
    ensures Hydration(comps, consumed, kept) == LinkAll(Hydration(cs, {}, []), byId, rels)
  {
    hide SpdxToCanonical;
    comps, consumed, kept := cs, {}, [];
    var i := 0;
    while i < |rels|
      invariant 0 <= i <= |rels| && |comps| == |cs|
      invariant Hydration(comps, consumed, kept) == LinkAll(Hydration(cs, {}, []), byId, rels[..i])
    {
      var r := rels[i];
      assert rels[..i + 1][..i] == rels[..i];
      if r.kind == CONTAINS && r.from in byId && r.to in byId {
        var parent := comps[byId[r.from]];
        comps := comps[byId[r.from] := parent.(subs := parent.subs + [comps[byId[r.to]]])];
        consumed := consumed + {r.to};
      } else if r.kind != DESCRIBES {
        kept := kept + [Relationship(r.from, r.to, SpdxToCanonical(r.kind))];
      }
      i := i + 1;
    }
    assert rels[..i] == rels;
  }

  method HydrateRelationships(cs: seq<Component>, rels: seq<Rel>) returns (comps: seq<Component>, kept: seq<Relationship>)
    ensures var h := LinkAll(Hydration(cs, {}, []), ById(cs), rels);
      comps == NotConsumed(h.comps, h.consumed) && kept == h.kept
  {
    hide LinkAll, ById, Link;
    var byId := IndexById(cs);
    var linked, consumed;
    linked, consumed, kept := LinkRels(cs, byId, rels);
    comps := [];
    var i := 0;
    while i < |linked|
      invariant 0 <= i <= |linked|
      invariant comps == NotConsumed(linked[..i], consumed)
    {
      assert linked[..i + 1][..i] == linked[..i];
      if linked[i].bomRef !in consumed {
        comps := comps + [linked[i]];
      }
      i := i + 1;
    }
    assert linked[..i] == linked;
  }

  method FromSpdx(doc: Document) returns (sbom: Sbom)
    ensures sbom == FromSpdxDocument(doc)
  {
    var comps, kept := HydrateRelationships(FromPackages(doc.packages), doc.rels);
    return Sbom(comps, kept);
  }

  // ----- The forest comes back -----

  /** What one component reads back as, children left aside. */
  function Leaf(c: Component): Component {
    PackageToComponent(ComponentToPackage(c))
  }

  function Rebuilt(c: Component): Component
    decreases c, 1
  {
    Leaf(c).(subs := AllRebuilt(c.subs))
  }

  function AllRebuilt(cs: seq<Component>): seq<Component>
    decreases cs, 0
  {
    if cs == [] then [] else AllRebuilt(cs[..|cs| - 1]) + [Rebuilt(cs[|cs| - 1])]
  }

  ghost predicate DistinctIds(cs: seq<Component>) {
    forall i, j :: 0 <= i < j < |cs| ==> cs[i].bomRef != cs[j].bomRef
  }

  ghost function IdsOf(packages: seq<Package>): set<string> {
    set p | p in packages :: p.id
  }

  /** The packages from position at on are still as they were read. */
  ghost predicate Block(h: Hydration, at: nat, packages: seq<Package>) {
    at + |packages| <= |h.comps| && forall k :: 0 <= k < |packages| ==> h.comps[at + k] == PackageToComponent(packages[k])
  }

  /** r differs from h only in the components of [from, to) and at position also, and nowhere in an id. */
  ghost predicate OnlyTouches(h: Hydration, r: Hydration, from: nat, to: nat, also: nat) {
    && |r.comps| == |h.comps|
    && (forall k :: 0 <= k < |h.comps| ==> r.comps[k].bomRef == h.comps[k].bomRef)
    && (forall k :: 0 <= k < |h.comps| && !(from <= k < to) && k != also ==> r.comps[k] == h.comps[k])
    && r.kept == h.kept
  }

  lemma {:induction false} LinkConcat(h: Hydration, byId: map<string, nat>, a: seq<Rel>, b: seq<Rel>)
    requires Resolves(byId, |h.comps|)
    ensures LinkAll(h, byId, a + b) == LinkAll(LinkAll(h, byId, a), byId, b)
  {
    if b == [] {
      assert a + b == a;
    } else {
      assert (a + b)[..|a + b| - 1] == a + b[..|b| - 1];
      LinkConcat(h, byId, a, b[..|b| - 1]);
    }
  }

  ghost predicate Indexes(byId: map<string, nat>, h: Hydration) {
    && Resolves(byId, |h.comps|)
    && forall k :: 0 <= k < |h.comps| ==> h.comps[k].bomRef in byId && byId[h.comps[k].bomRef] == k
  }

  lemma TreeParts(c: Component)
    ensures ContainsRels(c) == EdgesUnder(PkgId(c), c.subs)
    ensures Rebuilt(c) == PackageToComponent(ComponentToPackage(c)).(subs := AllRebuilt(c.subs))
  {
    hide ComponentToPackage, PackageToComponent, PkgId, AllRebuilt, EdgesUnder;
  }

  /** The edges of one tree turn its first component into the whole tree and touch nothing outside its block. */
  lemma {:induction false} TreeBuilds(h: Hydration, byId: map<string, nat>, c: Component, at: nat)
    requires Indexes(byId, h) && Block(h, at, Packages(c))
    ensures var r := LinkAll(h, byId, ContainsRels(c));
      && OnlyTouches(h, r, at, at + |Packages(c)|, at)
      && r.comps[at] == Rebuilt(c)
      && r.consumed == h.consumed + IdsOf(AllPackages(c.subs))
    decreases c, 1
  {
    TreeParts(c);
    hide ComponentToPackage, PackageToComponent, AllPackages, AllRebuilt, EdgesUnder, LinkAll, Block, OnlyTouches;
    hide Packages, ContainsRels, Rebuilt, PkgId, IdsOf;
    RootOf(c);
    BlockSplits(h, at, [ComponentToPackage(c)], AllPackages(c.subs));
    BlockHead(h, at, ComponentToPackage(c));
    ChildrenBuild(h, byId, at, c.subs, at + 1);
    Widen(h, LinkAll(h, byId, ContainsRels(c)), at, at + |Packages(c)|);
  }

  lemma BlockHead(h: Hydration, at: nat, package: Package)
    requires Block(h, at, [package])
    ensures at < |h.comps| && h.comps[at] == PackageToComponent(package)
  {
    assert h.comps[at + 0] == PackageToComponent([package][0]);
  }

  lemma Widen(h: Hydration, r: Hydration, at: nat, end: nat)
    requires at < end && OnlyTouches(h, r, at + 1, end, at)
    ensures OnlyTouches(h, r, at, end, at)
  {
  }

  lemma IndexesKept(byId: map<string, nat>, h: Hydration, r: Hydration, from: nat, to: nat, also: nat)
    requires Indexes(byId, h) && OnlyTouches(h, r, from, to, also)
    ensures Indexes(byId, r) && |r.comps| == |h.comps|
    ensures also < |h.comps| ==> r.comps[also].bomRef == h.comps[also].bomRef
  {
  }

  lemma {:induction false} ChildrenBuild(h: Hydration, byId: map<string, nat>, parent: nat, cs: seq<Component>, at: nat)
    requires Indexes(byId, h) && parent < at && Block(h, at, AllPackages(cs))
    requires h.comps[parent].subs == []
    ensures var r := LinkAll(h, byId, EdgesUnder(h.comps[parent].bomRef, cs));
      && OnlyTouches(h, r, at, at + |AllPackages(cs)|, parent)
      && r.comps[parent] == h.comps[parent].(subs := AllRebuilt(cs))
      && r.consumed == h.consumed + IdsOf(AllPackages(cs))
    decreases cs, 0
  {
    hide ComponentToPackage, PackageToComponent, PkgId, Block, Packages, ContainsRels, LinkAll, Link, Rebuilt, OnlyTouches, IdsOf;
    BlockFits(h, at, AllPackages(cs));
    var id := h.comps[parent].bomRef;
    if cs == [] {
      NoEdges(h, byId, at, parent);
    } else {
      var front, last := cs[..|cs| - 1], cs[|cs| - 1];
      var before := AllPackages(front);
      BlockSplits(h, at, before, Packages(last));
      ChildrenBuild(h, byId, parent, front, at);
      var h1 := LinkAll(h, byId, EdgesUnder(id, front));
      IndexesKept(byId, h, h1, at, at + |before|, parent);
      BlockUntouched(h, h1, at, at + |before|, parent, at + |before|, Packages(last));
      TreeBuilds(h1, byId, last, at + |before|);
      var h2 := LinkAll(h1, byId, ContainsRels(last));
      var edge := Rel(id, PkgId(last), CONTAINS);
      LinkConcat(h, byId, EdgesUnder(id, front), ContainsRels(last));
      LinkConcat(h, byId, EdgesUnder(id, front) + ContainsRels(last), [edge]);
      LinkOne(h2, byId, edge);
      RootOf(last);
      IdsOfConcat(before, Packages(last));
      AttachLast(h, h1, h2, byId, parent, at, at + |before|, at + |before| + |Packages(last)|);
    }
  }

  /** Linking a finished child at position mid under its parent. */
  lemma AttachLast(h: Hydration, h1: Hydration, h2: Hydration, byId: map<string, nat>, parent: nat, at: nat, mid: nat, end: nat)
    requires Indexes(byId, h) && parent < at <= mid < end <= |h.comps|
    requires OnlyTouches(h, h1, at, mid, parent) && OnlyTouches(h1, h2, mid, end, mid)
    ensures var r := Link(h2, byId, Rel(h.comps[parent].bomRef, h2.comps[mid].bomRef, CONTAINS));
      && OnlyTouches(h, r, at, end, parent)
      && r.comps[parent] == h1.comps[parent].(subs := h1.comps[parent].subs + [h2.comps[mid]])
      && r.consumed == h2.consumed + {h2.comps[mid].bomRef}
  {
    assert h2.comps[mid].bomRef == h.comps[mid].bomRef;
    assert h2.comps[parent] == h1.comps[parent];
  }

  /** A tree's first package is its root's. */
  lemma RootOf(c: Component)
    ensures Packages(c) == [ComponentToPackage(c)] + AllPackages(c.subs)
    ensures Rebuilt(c).bomRef == PkgId(c) == ComponentToPackage(c).id
    ensures IdsOf(Packages(c)) == {PkgId(c)} + IdsOf(AllPackages(c.subs))
  {
    hide RefToId, SortedKeys;
  }

  lemma NoEdges(h: Hydration, byId: map<string, nat>, at: nat, parent: nat)
    requires Resolves(byId, |h.comps|) && parent < |h.comps| && h.comps[parent].subs == []
    ensures LinkAll(h, byId, []) == h && OnlyTouches(h, h, at, at, parent) && h.consumed == h.consumed + IdsOf([])
    ensures h.comps[parent].(subs := []) == h.comps[parent]
  {
  }

  lemma IdsOfConcat(a: seq<Package>, b: seq<Package>)
    ensures IdsOf(a + b) == IdsOf(a) + IdsOf(b)
  {
  }

  lemma BlockFits(h: Hydration, at: nat, packages: seq<Package>)
    requires Block(h, at, packages)
    ensures at + |packages| <= |h.comps|
  {
  }

  lemma LinkOne(h: Hydration, byId: map<string, nat>, r: Rel)
    requires Resolves(byId, |h.comps|)
    ensures LinkAll(h, byId, [r]) == Link(h, byId, r)
  {
    assert [r][..0] == [];
  }

  lemma BlockSplits(h: Hydration, at: nat, first: seq<Package>, second: seq<Package>)
    requires Block(h, at, first + second)
    ensures Block(h, at, first) && Block(h, at + |first|, second)
  {
    forall k | 0 <= k < |second| ensures h.comps[at + |first| + k] == PackageToComponent(second[k]) {
      assert (first + second)[|first| + k] == second[k];
      assert h.comps[at + (|first| + k)] == PackageToComponent((first + second)[|first| + k]);
    }
    forall k | 0 <= k < |first| ensures h.comps[at + k] == PackageToComponent(first[k]) {
      assert (first + second)[k] == first[k];
    }
  }

  lemma BlockUntouched(h: Hydration, r: Hydration, from: nat, to: nat, also: nat, at: nat, packages: seq<Package>)
    requires OnlyTouches(h, r, from, to, also) && Block(h, at, packages) && to <= at && also < at
    ensures Block(r, at, packages)
  {
  }

  // ----- The whole document -----

  ghost predicate DistinctPackageIds(packages: seq<Package>) {
    forall i, j :: 0 <= i < j < |packages| ==> packages[i].id != packages[j].id
  }

  lemma {:induction false} KeepConcat(a: seq<Component>, b: seq<Component>, consumed: set<string>)
    ensures NotConsumed(a + b, consumed) == NotConsumed(a, consumed) + NotConsumed(b, consumed)
  {
    if b == [] {
      assert a + b == a;
    } else {
      assert (a + b)[..|a + b| - 1] == a + b[..|b| - 1];
      KeepConcat(a, b[..|b| - 1], consumed);
    }
  }

  lemma {:induction false} KeepSame(cs: seq<Component>, consumed: set<string>, more: set<string>)
    requires forall k :: 0 <= k < |cs| ==> cs[k].bomRef !in more
    ensures NotConsumed(cs, consumed + more) == NotConsumed(cs, consumed)
  {
    if cs != [] {
      KeepSame(cs[..|cs| - 1], consumed, more);
    }
  }

  lemma {:induction false} KeepNone(cs: seq<Component>, consumed: set<string>)
    requires forall k :: 0 <= k < |cs| ==> cs[k].bomRef in consumed
    ensures NotConsumed(cs, consumed) == []
  {
    if cs != [] {
      KeepNone(cs[..|cs| - 1], consumed);
    }
  }

  /** Of a finished block only the root is still on the top level. */
  lemma KeepRoot(cs: seq<Component>, consumed: set<string>)
    requires cs != [] && cs[0].bomRef !in consumed
    requires forall k :: 1 <= k < |cs| ==> cs[k].bomRef in consumed
    ensures NotConsumed(cs, consumed) == [cs[0]]
  {
    assert cs == [cs[0]] + cs[1..];
    KeepConcat([cs[0]], cs[1..], consumed);
    KeepNone(cs[1..], consumed);
    assert [cs[0]][..0] == [];
  }

  /** After n packages' worth of edges: the finished trees are what is left on the top level. */
  ghost predicate Finished(h: Hydration, r: Hydration, n: nat, trees: seq<Component>) {
    && n <= |h.comps| && OnlyTouches(h, r, 0, n, |h.comps|)
    && (forall id :: id in r.consumed ==> exists k :: 0 <= k < n && h.comps[k].bomRef == id)
    && NotConsumed(r.comps[..n], r.consumed) == trees
  }

  lemma {:induction false} ForestBuilds(h: Hydration, byId: map<string, nat>, cs: seq<Component>)
    requires Indexes(byId, h) && h.consumed == {} && Block(h, 0, AllPackages(cs))
    ensures Finished(h, LinkAll(h, byId, ForestEdges(cs)), |AllPackages(cs)|, AllRebuilt(cs))
  {
    hide ComponentToPackage, PackageToComponent, PkgId, Block, Packages, ContainsRels, LinkAll, Rebuilt, IdsOf;
    BlockFits(h, 0, AllPackages(cs));
    if cs == [] {
      NoEdges'(h, byId);
    } else {
      var front, last := cs[..|cs| - 1], cs[|cs| - 1];
      var n, more := |AllPackages(front)|, Packages(last);
      BlockSplits(h, 0, AllPackages(front), more);
      ForestBuilds(h, byId, front);
      var h1 := LinkAll(h, byId, ForestEdges(front));
      IndexesKept(byId, h, h1, 0, n, |h.comps|);
      BlockUntouchedAbove(h, h1, n, more);
      TreeBuilds(h1, byId, last, n);
      LinkConcat(h, byId, ForestEdges(front), ContainsRels(last));
      OneMoreTree(h, h1, LinkAll(h1, byId, ContainsRels(last)), byId, n, front, last);
    }
  }

  lemma NoEdges'(h: Hydration, byId: map<string, nat>)
    requires Resolves(byId, |h.comps|) && h.consumed == {}
    ensures Finished(h, LinkAll(h, byId, []), 0, [])
  {
    assert h.comps[..0] == [];
  }

  lemma BlockUntouchedAbove(h: Hydration, r: Hydration, n: nat, packages: seq<Package>)
    requires OnlyTouches(h, r, 0, n, |h.comps|) && Block(h, n, packages)
    ensures Block(r, n, packages)
  {
  }

  lemma BlockIds(h: Hydration, at: nat, packages: seq<Package>, id: string)
    requires Block(h, at, packages)
    ensures id in IdsOf(packages) <==> exists k :: at <= k < at + |packages| && h.comps[k].bomRef == id
  {
    if id in IdsOf(packages) {
      var p :| p in packages && p.id == id;
      var k :| 0 <= k < |packages| && packages[k] == p;
      assert h.comps[at + k] == PackageToComponent(packages[k]);
    }
    if k :| at <= k < at + |packages| && h.comps[k].bomRef == id {
      assert h.comps[at + (k - at)] == PackageToComponent(packages[k - at]);
      assert packages[k - at] in packages;
    }
  }

  lemma OneMoreTree(h: Hydration, h1: Hydration, h2: Hydration, byId: map<string, nat>, n: nat, front: seq<Component>, last: Component)
    requires Indexes(byId, h) && Finished(h, h1, n, AllRebuilt(front))
    requires Block(h1, n, Packages(last)) && OnlyTouches(h1, h2, n, n + |Packages(last)|, n)
    requires h2.comps[n] == Rebuilt(last) && h2.consumed == h1.consumed + IdsOf(AllPackages(last.subs))
    ensures Finished(h, h2, n + |Packages(last)|, AllRebuilt(front) + [Rebuilt(last)])
  {
    hide ComponentToPackage, PackageToComponent, PkgId, Packages, Rebuilt, AllRebuilt, AllPackages, Block, IdsOf, Indexes;
    hide NotConsumed, OnlyTouches;
    RootOf(last);
    BlockFits(h1, n, Packages(last));
    var end, ids := n + |Packages(last)|, IdsOf(AllPackages(last.subs));
    BlockSplits(h1, n, [ComponentToPackage(last)], AllPackages(last.subs));
    forall id ensures id in ids <==> exists k :: n + 1 <= k < end && h1.comps[k].bomRef == id {
      BlockIds(h1, n + 1, AllPackages(last.subs), id);
    }
    OnePositionPerId(byId, h);
    SameIds(h, h1, h2, n, end);
    NewIds(h, h1, n, end, ids);
    ConsumedBelow(h, h1, n, end, AllRebuilt(front), ids);
    TreeOnTop(h1, h2, n, end, ids);
    hide Finished;
    FinishedNow(h, h2, end, AllRebuilt(front) + [Rebuilt(last)]);
  }

  lemma ConsumedBelow(h: Hydration, h1: Hydration, n: nat, end: nat, trees: seq<Component>, ids: set<string>)
    requires Finished(h, h1, n, trees) && n < end <= |h.comps|
    requires forall id :: id in ids ==> exists k :: 0 <= k < end && h.comps[k].bomRef == id
    ensures forall id :: id in h1.consumed + ids ==> exists k :: 0 <= k < end && h.comps[k].bomRef == id
  {
    hide OnlyTouches, NotConsumed;
  }

  /** The finished trees stay on top, and the new root joins them. */
  lemma TreeOnTop(h1: Hydration, h2: Hydration, n: nat, end: nat, ids: set<string>)
    requires n < end <= |h1.comps| == |h2.comps| && h2.consumed == h1.consumed + ids
    requires forall k :: 0 <= k < n ==> h1.comps[k] == h2.comps[k]
    requires forall k :: 0 <= k < |h1.comps| ==> h1.comps[k].bomRef == h2.comps[k].bomRef
    requires forall k :: 0 <= k <= n ==> h1.comps[k].bomRef !in ids
    requires forall k :: n + 1 <= k < end ==> h1.comps[k].bomRef in ids
    requires h1.comps[n].bomRef !in h1.consumed
    ensures NotConsumed(h2.comps[..end], h2.consumed) == NotConsumed(h1.comps[..n], h1.consumed) + [h2.comps[n]]
  {
    hide NotConsumed;
    var done, block := h2.comps[..n], h2.comps[n..end];
    forall k | 0 <= k < |done| ensures done[k].bomRef !in ids {
      assert done[k] == h1.comps[k];
    }
    forall k | 1 <= k < |block| ensures block[k].bomRef in ids {
      assert block[k] == h2.comps[n + k] && h1.comps[n + k].bomRef == h2.comps[n + k].bomRef;
    }
    assert block[0] == h2.comps[n];
    TopAfterTree(done, block, h1.consumed, ids);
    assert done == h1.comps[..n];
    assert h2.comps[..end] == done + block;
  }

  lemma FinishedNow(h: Hydration, r: Hydration, n: nat, trees: seq<Component>)
    requires n <= |h.comps| && OnlyTouches(h, r, 0, n, |h.comps|)
    requires forall id :: id in r.consumed ==> exists k :: 0 <= k < n && h.comps[k].bomRef == id
    requires NotConsumed(r.comps[..n], r.consumed) == trees
    ensures Finished(h, r, n, trees)
  {
    hide OnlyTouches, NotConsumed;
  }

  /** The ids below a new root are those of the positions behind it, and of no position up to it. */
  lemma NewIds(h: Hydration, h1: Hydration, n: nat, end: nat, ids: set<string>)
    requires n < end <= |h.comps| == |h1.comps|
    requires forall k :: 0 <= k < |h.comps| ==> h.comps[k].bomRef == h1.comps[k].bomRef
    requires forall i, j :: 0 <= i < |h.comps| && 0 <= j < |h.comps| && h.comps[i].bomRef == h.comps[j].bomRef ==> i == j
    requires forall id :: id in ids <==> exists k :: n + 1 <= k < end && h1.comps[k].bomRef == id
    ensures forall k :: 0 <= k <= n ==> h1.comps[k].bomRef !in ids
    ensures forall k :: n + 1 <= k < end ==> h1.comps[k].bomRef in ids
    ensures forall id :: id in ids ==> exists k :: 0 <= k < end && h.comps[k].bomRef == id
  {
    forall k | 0 <= k <= n ensures h1.comps[k].bomRef !in ids {
      assert h.comps[k].bomRef == h1.comps[k].bomRef;
    }
    forall id | id in ids ensures exists k :: 0 <= k < end && h.comps[k].bomRef == id {
      var k :| n + 1 <= k < end && h1.comps[k].bomRef == id;
      assert h.comps[k].bomRef == id;
    }
  }

  lemma SameIds(h: Hydration, h1: Hydration, h2: Hydration, n: nat, end: nat)
    requires n < end <= |h1.comps| && OnlyTouches(h, h1, 0, n, |h.comps|) && OnlyTouches(h1, h2, n, end, n)
    ensures OnlyTouches(h, h2, 0, end, |h.comps|)
    ensures |h.comps| == |h1.comps| == |h2.comps|
    ensures forall k :: 0 <= k < |h.comps| ==> h.comps[k].bomRef == h1.comps[k].bomRef == h2.comps[k].bomRef
    ensures forall k :: 0 <= k < n ==> h1.comps[k] == h2.comps[k]
  {
  }

  lemma TopAfterTree(done: seq<Component>, block: seq<Component>, consumed: set<string>, ids: set<string>)
    requires forall k :: 0 <= k < |done| ==> done[k].bomRef !in ids
    requires block != [] && block[0].bomRef !in consumed + ids
    requires forall k :: 1 <= k < |block| ==> block[k].bomRef in ids
    ensures NotConsumed(done + block, consumed + ids) == NotConsumed(done, consumed) + [block[0]]
  {
    KeepSame(done, consumed, ids);
    KeepRoot(block, consumed + ids);
    KeepConcat(done, block, consumed + ids);
  }

  lemma OnePositionPerId(byId: map<string, nat>, h: Hydration)
    requires Indexes(byId, h)
    ensures forall i, j :: 0 <= i < |h.comps| && 0 <= j < |h.comps| && h.comps[i].bomRef == h.comps[j].bomRef ==> i == j
  {
  }

  /** DESCRIBES edges are dropped on read. */
  lemma {:induction false} DescribesAreDropped(h: Hydration, byId: map<string, nat>, cs: seq<Component>)
    requires Resolves(byId, |h.comps|)
    ensures LinkAll(h, byId, DescribesRels(cs)) == h
  {
    if cs != [] {
      var rels := DescribesRels(cs);
      DescribesAreDropped(h, byId, cs[..|cs| - 1]);
      assert rels[..|rels| - 1] == DescribesRels(cs[..|cs| - 1]);
    }
  }

  function SurvivingRel(r: Relationship): seq<Relationship> {
    if r.typ == UnknownRel then [] else [Relationship(RefToId(r.source), RefToId(r.target), r.typ)]
  }

  /** What is left of the relationships: depends-on and provides edges, in order, with sanitised ends. */
  function SurvivingRels(rs: seq<Relationship>): seq<Relationship> {
    if rs == [] then [] else SurvivingRels(rs[..|rs| - 1]) + SurvivingRel(rs[|rs| - 1])
  }

  lemma RelationshipSurvives(h: Hydration, byId: map<string, nat>, r: Relationship)
    requires Resolves(byId, |h.comps|) && r.typ != Contains
    ensures LinkAll(h, byId, WrittenRel(r)) == h.(kept := h.kept + SurvivingRel(r))
  {
    hide RefToId;
    if r.typ == UnknownRel {
      assert h.kept + [] == h.kept;
    } else {
      LinkOne(h, byId, WrittenRel(r)[0]);
    }
  }

  lemma {:induction false} RelationshipsSurvive(h: Hydration, byId: map<string, nat>, rs: seq<Relationship>)
    requires Resolves(byId, |h.comps|)
    requires forall r :: r in rs ==> r.typ != Contains
    ensures LinkAll(h, byId, WrittenRels(rs)) == h.(kept := h.kept + SurvivingRels(rs))
  {
    hide WrittenRel, SurvivingRel, LinkAll;
    if rs != [] {
      var front, last := rs[..|rs| - 1], rs[|rs| - 1];
      RelationshipsSurvive(h, byId, front);
      LinkConcat(h, byId, WrittenRels(front), WrittenRel(last));
      RelationshipSurvives(LinkAll(h, byId, WrittenRels(front)), byId, last);
      assert h.kept + SurvivingRels(front) + SurvivingRel(last) == h.kept + SurvivingRels(rs);
    } else {
      NoLinks(h, byId);
      assert h.kept + [] == h.kept;
    }
  }

  lemma NoLinks(h: Hydration, byId: map<string, nat>)
    requires Resolves(byId, |h.comps|)
    ensures LinkAll(h, byId, []) == h
  {
  }

  lemma {:induction false} ByIdIsUnique(cs: seq<Component>)
    requires DistinctIds(cs)
    ensures forall k :: 0 <= k < |cs| ==> ById(cs)[cs[k].bomRef] == k
  {
    if cs != [] {
      ByIdIsUnique(cs[..|cs| - 1]);
    }
  }

  /**
    A forest of any depth comes back with the same shape and the same sibling order, and with
    the same depends-on and provides edges, when the sanitised ids are distinct and no
    relationship is an explicit "contains".
  */
  lemma ForestRoundTrip(sbom: Sbom)
    requires DistinctPackageIds(AllPackages(sbom.components))
    requires forall r :: r in sbom.relationships ==> r.typ != Contains
    ensures FromSpdxDocument(ToSpdxDocument(sbom)) ==
      Sbom(AllRebuilt(sbom.components), SurvivingRels(sbom.relationships))
  {
    hide PackageToComponent, AllPackages, ForestEdges, DescribesRels, WrittenRels, NotConsumed, LinkAll, AllRebuilt, SurvivingRels;
    var cs, rs := sbom.components, sbom.relationships;
    var flat := FromPackages(AllPackages(cs));
    var h, byId := Hydration(flat, {}, []), ById(flat);
    assert DistinctIds(flat);
    ByIdIsUnique(flat);
    ForestBuilds(h, byId, cs);
    var r := LinkAll(h, byId, ForestEdges(cs));
    assert r.comps[..|flat|] == r.comps;
    LinkConcat(h, byId, ForestEdges(cs), DescribesRels(cs));
    DescribesAreDropped(r, byId, cs);
    LinkConcat(h, byId, ForestEdges(cs) + DescribesRels(cs), WrittenRels(rs));
    RelationshipsSurvive(r, byId, rs);
    assert [] + SurvivingRels(rs) == SurvivingRels(rs);
  }

  // ----- When nothing at all is lost -----

  ghost predicate IsId(s: string) {
    s != "" && forall k :: 0 <= k < |s| ==> IdChar(s[k])
  }

  /** Ids are SPDX ids already and every property key is well formed, at every depth. */
  ghost predicate Faithful(cs: seq<Component>) {
    forall c :: c in cs ==> IsId(c.bomRef) && WellFormedProps(c) && Faithful(c.subs)
  }

  lemma {:induction false} FaithfulRebuilds(cs: seq<Component>)
    requires Faithful(cs)
    ensures AllRebuilt(cs) == cs
    decreases cs
  {
    hide ComponentToPackage, PackageToComponent, WellFormedProps, IsId;
    if cs != [] {
      var front, last := cs[..|cs| - 1], cs[|cs| - 1];
      FaithfulRebuilds(front);
      FaithfulRebuilds(last.subs);
      FaithfulLeaf(last);
      assert cs == front + [last];
    }
  }

  lemma FaithfulLeaf(c: Component)
    requires IsId(c.bomRef) && WellFormedProps(c)
    ensures Leaf(c) == c.(subs := [])
  {
    hide ComponentToPackage, PackageToComponent, WellFormedProps;
    PackageReadsBack(c);
  }

  lemma {:induction false} CleanRelsSurvive(rs: seq<Relationship>)
    requires forall r :: r in rs ==> r.typ != UnknownRel && IsId(r.source) && IsId(r.target)
    ensures SurvivingRels(rs) == rs
  {
    if rs != [] {
      CleanRelsSurvive(rs[..|rs| - 1]);
      assert rs == rs[..|rs| - 1] + [rs[|rs| - 1]];
    }
  }

  /** Nested components, identifiers, CPEs, properties, origin, layer and edges all survive a write and a read. */
  lemma LosslessRoundTrip(sbom: Sbom)
    requires Faithful(sbom.components) && DistinctPackageIds(AllPackages(sbom.components))
    requires forall r :: r in sbom.relationships ==> r.typ in {DependsOn, Provides} && IsId(r.source) && IsId(r.target)
    ensures FromSpdxDocument(ToSpdxDocument(sbom)) == sbom
  {
    ForestRoundTrip(sbom);
    FaithfulRebuilds(sbom.components);
    CleanRelsSurvive(sbom.relationships);
  }

  /** An edge from an id to itself consumes every component with that id. */
  lemma SelfEdgeConsumes(packages: seq<Package>, id: string, roots: seq<Component>)
    requires packages != [] && forall k :: 0 <= k < |packages| ==> packages[k].id == id
    ensures FromSpdxDocument(Document(packages, [Rel(id, id, CONTAINS)] + DescribesRels(roots))).components == []
  {
    hide PackageToComponent, NotConsumed, LinkAll, DescribesRels;
    var flat := FromPackages(packages);
    var h, byId, edge := Hydration(flat, {}, []), ById(flat), Rel(id, id, CONTAINS);
    assert flat[0].bomRef == id;
    LinkConcat(h, byId, [edge], DescribesRels(roots));
    LinkOne(h, byId, edge);
    var r := Link(h, byId, edge);
    DescribesAreDropped(r, byId, roots);
    KeepNone(r.comps, r.consumed);
  }

  /** Distinct references that sanitise to the same id: the edge links the child to itself and both components vanish. */
  lemma CollidingIdsLoseComponents(child: Component, parent: Component)
    requires child.bomRef == "a-1" && child.subs == []
    requires parent.bomRef == "a@1" && parent.subs == [child]
    ensures FromSpdxDocument(ToSpdxDocument(Sbom([parent], []))).components == []
  {
    hide ComponentToPackage, Packages, AllPackages, ContainsRels, EdgesUnder, ForestEdges, DescribesRels, FromSpdxDocument;
    assert PkgId(parent) == "a-1" && PkgId(child) == "a-1";
    assert ComponentToPackage(parent).id == "a-1" && ComponentToPackage(child).id == "a-1" by {
      RootOf(parent);
      RootOf(child);
    }
    OneTree(child);
    OneTree(parent);
    OneLeaf(child);
    OneChild("a-1", child);
    NoRelationships();
    var doc := ToSpdxDocument(Sbom([parent], []));
    assert doc.packages == [ComponentToPackage(parent), ComponentToPackage(child)];
    SelfEdgeConsumes(doc.packages, "a-1", [parent]);
    assert doc.rels == [Rel("a-1", "a-1", CONTAINS)] + DescribesRels([parent]);
  }

  lemma NoRelationships()
    ensures WrittenRels([]) == []
  {
  }

  lemma OneTree(c: Component)
    ensures AllPackages([c]) == [ComponentToPackage(c)] + AllPackages(c.subs)
    ensures ForestEdges([c]) == ContainsRels(c) == EdgesUnder(PkgId(c), c.subs)
  {
    hide *;
    TreeParts(c);
    RootOf(c);
    ForestStep([c], 0);
    EmptyForest();
    assert [c][..0] == [] && [c][..1] == [c];
    assert [] + Packages(c) == Packages(c) && [] + ContainsRels(c) == ContainsRels(c);
  }

  lemma OneChild(parent: string, c: Component)
    ensures EdgesUnder(parent, [c]) == ContainsRels(c) + [Rel(parent, PkgId(c), CONTAINS)]
  {
    hide *;
    EmitStep(parent, [c], 0);
    NoChildren(parent);
    assert [c][..0] == [] && [c][..1] == [c];
    assert [] + ContainsRels(c) == ContainsRels(c);
  }

  lemma OneLeaf(c: Component)
    requires c.subs == []
    ensures ContainsRels(c) == [] && AllPackages(c.subs) == []
  {
    TreeParts(c);
    NoChildren(PkgId(c));
  }
}
