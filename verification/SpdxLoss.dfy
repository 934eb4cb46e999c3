/**
  Which top-level components a trip through SPDX loses when references collide
  (internal/sbom/spdx/mapper.go): an edge resolves to an id, not to a component.
*/
module SpdxLoss {
  import opened Spdx
  import opened SpdxTrees

  /** The ids of everything below the top level. */
  ghost function NestedIds(cs: seq<Component>): set<string> {
    if cs == [] then {} else NestedIds(cs[..|cs| - 1]) + IdsOf(AllPackages(cs[|cs| - 1].subs))
  }

  /** r and h agree position by position, children aside. */
  ghost predicate SameButChildren(h: seq<Component>, r: seq<Component>) {
    |r| == |h| && forall k :: 0 <= k < |h| ==> r[k].(subs := []) == h[k].(subs := [])
  }

  /** The edges only move children and consume exactly these ids. */
  ghost predicate Consumes(h: Hydration, r: Hydration, ids: set<string>) {
    SameButChildren(h.comps, r.comps) && r.consumed == h.consumed + ids && r.kept == h.kept
  }

  lemma ConsumesNext(h: Hydration, m: Hydration, r: Hydration, a: set<string>, b: set<string>)
    requires Consumes(h, m, a) && Consumes(m, r, b)
    ensures Consumes(h, r, a + b)
  {
    forall k | 0 <= k < |h.comps| ensures r.comps[k].(subs := []) == h.comps[k].(subs := []) {
      assert m.comps[k].(subs := []) == h.comps[k].(subs := []);
    }
    assert h.consumed + a + b == h.consumed + (a + b);
  }

  lemma LinkConsumes(h: Hydration, byId: map<string, nat>, from: string, to: string)
    requires Resolves(byId, |h.comps|) && from in byId && to in byId
    ensures Consumes(h, Link(h, byId, Rel(from, to, CONTAINS)), {to})
  {
  }

  lemma {:induction false} TreeConsumes(h: Hydration, byId: map<string, nat>, c: Component)
    requires Resolves(byId, |h.comps|) && IdsOf(Packages(c)) <= byId.Keys
    ensures Consumes(h, LinkAll(h, byId, ContainsRels(c)), IdsOf(AllPackages(c.subs)))
    decreases c, 1
  {
    hide IdsOf, Consumes, PkgId, ComponentToPackage, LinkAll, Link, AllPackages;
    RootOf(c);
    assert PkgId(c) in byId && IdsOf(AllPackages(c.subs)) <= byId.Keys;
    ChildrenConsume(h, byId, PkgId(c), c.subs);
  }

  /** The edges under one parent consume every id below it. */
  lemma {:induction false} ChildrenConsume(h: Hydration, byId: map<string, nat>, parent: string, cs: seq<Component>)
    requires Resolves(byId, |h.comps|) && parent in byId && IdsOf(AllPackages(cs)) <= byId.Keys
    ensures Consumes(h, LinkAll(h, byId, EdgesUnder(parent, cs)), IdsOf(AllPackages(cs)))
    decreases cs, 0
  {
    hide IdsOf, Consumes, PkgId, ComponentToPackage, Link, Packages, ContainsRels;
    if cs == [] {
      NothingConsumed(h);
      assert EdgesUnder(parent, cs) == [] && AllPackages(cs) == [];
    } else {
      var front, last := cs[..|cs| - 1], cs[|cs| - 1];
      var edges, own, edge := EdgesUnder(parent, front), ContainsRels(last), Rel(parent, PkgId(last), CONTAINS);
      IdsOfConcat(AllPackages(front), Packages(last));
      RootIds(last);
      hide LinkAll, EdgesUnder, AllPackages;
      ChildrenConsume(h, byId, parent, front);
      var h1 := LinkAll(h, byId, edges);
      TreeConsumes(h1, byId, last);
      var h2 := LinkAll(h1, byId, own);
      LinkConsumes(h2, byId, parent, PkgId(last));
      LinkOne(h2, byId, edge);
      LinkConcat(h, byId, edges, own);
      LinkConcat(h, byId, edges + own, [edge]);
      ConsumesNext(h, h1, h2, IdsOf(AllPackages(front)), IdsOf(AllPackages(last.subs)));
      ConsumesNext(h, h2, LinkAll(h2, byId, [edge]), IdsOf(AllPackages(front)) + IdsOf(AllPackages(last.subs)), {PkgId(last)});
      assert IdsOf(AllPackages(front)) + IdsOf(AllPackages(last.subs)) + {PkgId(last)} ==
        IdsOf(AllPackages(front)) + ({PkgId(last)} + IdsOf(AllPackages(last.subs)));
      UnderLast(parent, cs);
    }
  }

  lemma UnderLast(parent: string, cs: seq<Component>)
    requires cs != []
    ensures var front, last := cs[..|cs| - 1], cs[|cs| - 1];
      && EdgesUnder(parent, cs) == EdgesUnder(parent, front) + ContainsRels(last) + [Rel(parent, PkgId(last), CONTAINS)]
      && AllPackages(cs) == AllPackages(front) + Packages(last)
  {
    hide Packages, ContainsRels, PkgId;
  }

  lemma RootIds(c: Component)
    ensures IdsOf(Packages(c)) == {PkgId(c)} + IdsOf(AllPackages(c.subs))
  {
    RootOf(c);
  }

  lemma NothingConsumed(h: Hydration)
    ensures Consumes(h, h, IdsOf([]))
  {
    assert IdsOf([]) == {};
    assert h.consumed + {} == h.consumed;
  }

  /** All the edges of a forest consume exactly the nested ids, colliding or not. */
  lemma {:induction false} ForestConsumes(h: Hydration, byId: map<string, nat>, cs: seq<Component>)
    requires Resolves(byId, |h.comps|) && IdsOf(AllPackages(cs)) <= byId.Keys
    ensures Consumes(h, LinkAll(h, byId, ForestEdges(cs)), NestedIds(cs))
  {
    hide IdsOf, Consumes, PkgId, Link, Packages, ContainsRels;
    if cs == [] {
      NothingConsumed(h);
      NoIds();
      assert ForestEdges(cs) == [];
    } else {
      var front, last := cs[..|cs| - 1], cs[|cs| - 1];
      IdsOfConcat(AllPackages(front), Packages(last));
      hide LinkAll, AllPackages;
      ForestConsumes(h, byId, front);
      var m := LinkAll(h, byId, ForestEdges(front));
      TreeConsumes(m, byId, last);
      LinkConcat(h, byId, ForestEdges(front), ContainsRels(last));
      ConsumesNext(h, m, LinkAll(m, byId, ContainsRels(last)), NestedIds(front), IdsOf(AllPackages(last.subs)));
    }
  }

  lemma NoIds()
    ensures IdsOf([]) == {} && NestedIds([]) == {}
  {
  }

  // ----- The survivors -----

  /** The top-level components whose id nothing nested has, as they read back, children aside. */
  ghost function Survivors(cs: seq<Component>, nested: set<string>): seq<Component> {
    if cs == [] then []
    else
      var last := cs[|cs| - 1];
      Survivors(cs[..|cs| - 1], nested) + if PkgId(last) in nested then [] else [Leaf(last)]
  }

  lemma FromPackagesConcat(a: seq<Package>, b: seq<Package>)
    ensures FromPackages(a + b) == FromPackages(a) + FromPackages(b)
  {
    hide PackageToComponent;
  }

  lemma {:induction false} OnlyRootsSurvive(cs: seq<Component>, nested: set<string>)
    requires NestedIds(cs) <= nested
    ensures NotConsumed(FromPackages(AllPackages(cs)), nested) == Survivors(cs, nested)
  {
    hide PackageToComponent, ComponentToPackage, Packages, PkgId;
    if cs != [] {
      var front, last := cs[..|cs| - 1], cs[|cs| - 1];
      OnlyRootsSurvive(front, nested);
      hide AllPackages, NotConsumed, FromPackages, IdsOf;
      TreeSurvivor(last, nested);
      FromPackagesConcat(AllPackages(front), Packages(last));
      KeepConcat(FromPackages(AllPackages(front)), FromPackages(Packages(last)), nested);
      LastPackages(cs);
    }
  }

  lemma LastPackages(cs: seq<Component>)
    requires cs != []
    ensures AllPackages(cs) == AllPackages(cs[..|cs| - 1]) + Packages(cs[|cs| - 1])
  {
    hide Packages;
  }

  lemma TreeSurvivor(c: Component, nested: set<string>)
    requires IdsOf(AllPackages(c.subs)) <= nested
    ensures NotConsumed(FromPackages(Packages(c)), nested) == if PkgId(c) in nested then [] else [Leaf(c)]
  {
    hide PackageToComponent, ComponentToPackage, AllPackages, PkgId;
    RootOf(c);
    var root, below := [ComponentToPackage(c)], AllPackages(c.subs);
    FromPackagesConcat(root, below);
    var tree := FromPackages(below);
    forall k | 0 <= k < |tree| ensures tree[k].bomRef in nested {
      assert below[k] in below;
    }
    KeepNone(tree, nested);
    KeepConcat(FromPackages(root), tree, nested);
    var one := FromPackages(root);
    assert one == [Leaf(c)] && one[..0] == [];
    assert NotConsumed(one, nested) == if PkgId(c) in nested then [] else [Leaf(c)];
  }

  /** The components without their children. */
  ghost function Bare(cs: seq<Component>): seq<Component> {
    if cs == [] then [] else Bare(cs[..|cs| - 1]) + [cs[|cs| - 1].(subs := [])]
  }

  lemma {:induction false} BareNotConsumed(h: seq<Component>, r: seq<Component>, consumed: set<string>)
    requires SameButChildren(h, r) && forall k :: 0 <= k < |h| ==> h[k].subs == []
    ensures Bare(NotConsumed(r, consumed)) == NotConsumed(h, consumed)
  {
    if h != [] {
      var n := |h| - 1;
      BareNotConsumed(h[..n], r[..n], consumed);
      assert r[n].bomRef == r[n].(subs := []).bomRef == h[n].(subs := []).bomRef == h[n].bomRef;
      var front := NotConsumed(r[..n], consumed);
      assert (front + [r[n]])[..|front|] == front;
      assert h[n].(subs := []) == h[n];
      assert front + [] == front;
    }
  }

  /**
    For every forest without explicit containment, colliding ids or not: the top-level components that
    come back are, in order, exactly those whose id no nested component has.
  */
  lemma TopLevelSurvivors(sbom: Sbom)
    requires forall r :: r in sbom.relationships ==> r.typ != Contains
    ensures var nested := NestedIds(sbom.components);
      Bare(FromSpdxDocument(ToSpdxDocument(sbom)).components) == Survivors(sbom.components, nested)
  {
    hide PackageToComponent, AllPackages, ForestEdges, DescribesRels, WrittenRels, NotConsumed, LinkAll, Bare, NestedIds;
    var cs, rs := sbom.components, sbom.relationships;
    var flat := FromPackages(AllPackages(cs));
    var h, byId := Hydration(flat, {}, []), ById(flat);
    AllIdsIndexed(AllPackages(cs));
    ForestConsumes(h, byId, cs);
    var r := LinkAll(h, byId, ForestEdges(cs));
    LinkConcat(h, byId, ForestEdges(cs), DescribesRels(cs));
    DescribesAreDropped(r, byId, cs);
    LinkConcat(h, byId, ForestEdges(cs) + DescribesRels(cs), WrittenRels(rs));
    RelationshipsSurvive(r, byId, rs);
    assert {} + NestedIds(cs) == NestedIds(cs);
    BareNotConsumed(flat, r.comps, NestedIds(cs));
    OnlyRootsSurvive(cs, NestedIds(cs));
  }

  lemma AllIdsIndexed(packages: seq<Package>)
    ensures IdsOf(packages) <= ById(FromPackages(packages)).Keys
  {
    hide PackageToComponent;
    var flat := FromPackages(packages);
    forall p | p in packages ensures p.id in ById(flat) {
      var k :| 0 <= k < |packages| && packages[k] == p;
      assert flat[k].bomRef == p.id;
    }
  }

  lemma {:induction false} AllSurviveIff(cs: seq<Component>, nested: set<string>)
    ensures |Survivors(cs, nested)| <= |cs|
    ensures |Survivors(cs, nested)| == |cs| <==> forall c :: c in cs ==> PkgId(c) !in nested
  {
    hide PkgId, Leaf;
    if cs != [] {
      var front, last := cs[..|cs| - 1], cs[|cs| - 1];
      assert cs == front + [last];
      AllSurviveIff(front, nested);
    }
  }

  lemma {:induction false} BareLength(cs: seq<Component>)
    ensures |Bare(cs)| == |cs|
  {
    if cs != [] {
      BareLength(cs[..|cs| - 1]);
    }
  }

  /** No top-level component is lost exactly if no top-level id is also a nested one. */
  lemma NoTopLevelLossIff(sbom: Sbom)
    requires forall r :: r in sbom.relationships ==> r.typ != Contains
    ensures var back := FromSpdxDocument(ToSpdxDocument(sbom)).components;
      && |back| <= |sbom.components|
      && (|back| == |sbom.components| <==> forall c :: c in sbom.components ==> PkgId(c) !in NestedIds(sbom.components))
  {
    hide PkgId, FromSpdxDocument, ToSpdxDocument, Bare, Survivors, NestedIds;
    TopLevelSurvivors(sbom);
    AllSurviveIff(sbom.components, NestedIds(sbom.components));
    BareLength(FromSpdxDocument(ToSpdxDocument(sbom)).components);
  }

  // ----- A collision that does no harm -----

  lemma LinkTwo(h: Hydration, byId: map<string, nat>, a: Rel, b: Rel)
    requires Resolves(byId, |h.comps|)
    ensures LinkAll(h, byId, [a, b]) == Link(Link(h, byId, a), byId, b)
  {
    hide Link;
    LinkOne(h, byId, a);
    LinkOne(Link(h, byId, a), byId, b);
    assert [a] + [b] == [a, b];
    LinkConcat(h, byId, [a], [b]);
  }

  /** Child and grandchild share an id and all fields: the edge within the pair links the later one to itself. */
  lemma PairEdges(c: Component, k: Component, m: Component)
    requires c.subs == [k] && k.subs == [m] && m == k.(subs := [])
    ensures AllPackages([c]) == [ComponentToPackage(c), ComponentToPackage(m), ComponentToPackage(m)]
    ensures ForestEdges([c]) == [Rel(PkgId(m), PkgId(m), CONTAINS), Rel(PkgId(c), PkgId(m), CONTAINS)]
    ensures AllRebuilt([c]) == [Leaf(c).(subs := [Leaf(m).(subs := [Leaf(m)])])]
  {
    SameWithoutChildren(k, m);
    OneTree(c);
    OneTree(k);
    OneTree(m);
    OneLeaf(m);
    OneChild(PkgId(c), k);
    OneChild(PkgId(k), m);
    LeafRebuilt(m);
    OneRebuilt(c);
    OneRebuilt(k);
    OneRebuilt(m);
    hide ComponentToPackage, AllPackages, ForestEdges, ContainsRels, EdgesUnder, PkgId, Leaf, AllRebuilt, Rebuilt;
    assert AllPackages([c]) == [ComponentToPackage(c)] + ([ComponentToPackage(m)] + ([ComponentToPackage(m)] + []));
    var self, edge := [Rel(PkgId(m), PkgId(m), CONTAINS)], [Rel(PkgId(c), PkgId(m), CONTAINS)];
    assert ForestEdges([c]) == ([] + self) + edge;
  }

  lemma SameWithoutChildren(k: Component, m: Component)
    requires m == k.(subs := [])
    ensures ComponentToPackage(k) == ComponentToPackage(m) && PkgId(k) == PkgId(m) && Leaf(k) == Leaf(m)
  {
  }

  lemma LeafRebuilt(m: Component)
    requires m.subs == []
    ensures Rebuilt(m) == Leaf(m)
  {
    hide PackageToComponent, ComponentToPackage;
    assert AllRebuilt([]) == [];
  }

  lemma OneRebuilt(c: Component)
    ensures AllRebuilt([c]) == [Rebuilt(c)] && Rebuilt(c) == Leaf(c).(subs := AllRebuilt(c.subs))
  {
    hide Leaf;
    assert [c][..0] == [] && AllRebuilt([]) == [];
  }

  /** Distinct ids are not needed for a forest to come back: this one does, with an id that two nested components share. */
  lemma HarmlessCollision(c: Component, k: Component, m: Component)
    requires c.subs == [k] && k.subs == [m] && m == k.(subs := []) && PkgId(c) != PkgId(k)
    ensures FromSpdxDocument(ToSpdxDocument(Sbom([c], []))).components == AllRebuilt([c])
    ensures PkgId(k) == PkgId(m)
  {
    hide *;
    PairEdges(c, k, m);
    SameWithoutChildren(k, m);
    LeafId(c);
    LeafId(m);
    PairDocument(c, PkgId(m), ComponentToPackage(m));
    assert [] + [Leaf(m)] == [Leaf(m)];
  }

  lemma LeafId(c: Component)
    ensures Leaf(c).bomRef == PkgId(c) && Leaf(c).subs == [] && Leaf(c) == PackageToComponent(ComponentToPackage(c))
  {
    RootOf(c);
  }

  lemma PairDocument(c: Component, id: string, package: Package)
    requires ForestEdges([c]) == [Rel(id, id, CONTAINS), Rel(PkgId(c), id, CONTAINS)] && PkgId(c) != id
    requires AllPackages([c]) == [ComponentToPackage(c), package, package] && PackageToComponent(package).bomRef == id
    ensures var leaf := PackageToComponent(package);
      FromSpdxDocument(ToSpdxDocument(Sbom([c], []))).components == [Leaf(c).(subs := [leaf.(subs := [leaf])])]
  {
    hide ComponentToPackage, PackageToComponent, AllPackages, ForestEdges, DescribesRels, WrittenRels, PkgId, LinkAll, Link, NotConsumed, ById;
    LeafId(c);
    var packages := [ComponentToPackage(c), package, package];
    var flat := FromPackages(packages);
    var h, byId := Hydration(flat, {}, []), ById(flat);
    var self, edge := Rel(id, id, CONTAINS), Rel(PkgId(c), id, CONTAINS);
    PairIndex(flat, PkgId(c), id);
    LinkTwo(h, byId, self, edge);
    PairLinks(flat[0], flat[1], PkgId(c), id);
    assert flat == [flat[0], flat[1], flat[1]];
    var r := LinkAll(h, byId, [self, edge]);
    LinkConcat(h, byId, [self, edge], DescribesRels([c]));
    DescribesAreDropped(r, byId, [c]);
    NoRelationships();
    assert [self, edge] + DescribesRels([c]) + [] == [self, edge] + DescribesRels([c]);
    PairSurvivor(r.comps, r.consumed, id);
  }

  lemma PairLinks(x: Component, y: Component, a: string, b: string)
    requires x.subs == [] && y.subs == [] && a != b
    ensures var h, byId := Hydration([x, y, y], {}, []), map[a := 0, b := 2];
      var below := y.(subs := [y]);
      Link(Link(h, byId, Rel(b, b, CONTAINS)), byId, Rel(a, b, CONTAINS)) == Hydration([x.(subs := [below]), y, below], {b}, [])
  {
    var h, byId := Hydration([x, y, y], {}, []), map[a := 0, b := 2];
    var below := y.(subs := [y]);
    assert y.subs + [y] == [y] && [x, y, y][2 := below] == [x, y, below] && {} + {b} == {b};
    var m := Link(h, byId, Rel(b, b, CONTAINS));
    assert m == Hydration([x, y, below], {b}, []);
    assert x.subs + [below] == [below] && {b} + {b} == {b};
    assert [x, y, below][0 := x.(subs := [below])] == [x.(subs := [below]), y, below];
  }

  lemma PairIndex(flat: seq<Component>, a: string, b: string)
    requires |flat| == 3 && flat[0].bomRef == a && flat[1].bomRef == flat[2].bomRef == b && a != b
    ensures ById(flat) == map[a := 0, b := 2]
  {
    var one, two := flat[..1], flat[..2];
    assert two[..1] == one && one[..0] == [] && flat[..0] == [];
    assert ById(one) == map[a := 0] && ById(two) == map[a := 0, b := 1];
  }

  lemma PairSurvivor(cs: seq<Component>, consumed: set<string>, id: string)
    requires |cs| == 3 && cs[0].bomRef != id && cs[1].bomRef == cs[2].bomRef == id && consumed == {id}
    ensures NotConsumed(cs, consumed) == [cs[0]]
  {
    KeepRoot(cs, consumed);
  }
}
