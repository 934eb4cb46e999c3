/**
  Components as CycloneDX components and back (internal/sbom/cyclonedx/mapper.go): typed
  fields and all CPEs but the first travel as properties.
*/
module CycloneDx {
  import opened Wrappers
  import opened Strings
  import opened Spdx

  datatype Property = Property(name: string, value: string)

  datatype CdxComponent = CdxComponent(
    bomRef: string, name: string, version: string, purl: string, cpe: string,
    properties: seq<Property>, components: seq<CdxComponent>)

  const CPE_PREFIX := "astinus:cpe:"

  predicate IsCpeKey(k: string) {
    CPE_PREFIX <= k
  }

  function CpeKey(i: nat): string {
    CPE_PREFIX + Itoa(i)
  }

  // ----- Writing -----

  /** CPEs beyond the first, under numbered keys. */
  function CpeProps(cpes: seq<string>): map<string, string> {
    if |cpes| <= 1 then map[]
    else CpeProps(cpes[..|cpes| - 1])[CpeKey(|cpes| - 1) := cpes[|cpes| - 1]]
  }

  function WrittenProps(c: Component): map<string, string> {
    c.properties + (AstinusProps(c) + CpeProps(c.cpes))
  }

  function ListFrom(keys: seq<string>, props: map<string, string>): seq<Property>
    requires forall k :: k in keys ==> k in props
  {
    if keys == [] then []
    else ListFrom(keys[..|keys| - 1], props) + [Property(keys[|keys| - 1], props[keys[|keys| - 1]])]
  }

  /** In key order. */
  function PropertyList(props: map<string, string>): seq<Property> {
    ListFrom(SortedKeys(props.Keys), props)
  }

  function ToCdx(c: Component): CdxComponent
    decreases c, 1
  {
    CdxComponent(c.bomRef, c.name, c.version, c.purl, if c.cpes == [] then "" else c.cpes[0],
                 PropertyList(WrittenProps(c)), AllToCdx(c.subs))
  }

  function AllToCdx(cs: seq<Component>): (ds: seq<CdxComponent>)
    ensures |ds| == |cs| && forall i :: 0 <= i < |ds| ==> ds[i] == ToCdx(cs[i])
    decreases cs, 0
  {
    seq(|cs|, i requires 0 <= i < |cs| => ToCdx(cs[i]))
  }

  // ----- Reading -----

  function PropsFrom(list: seq<Property>): map<string, string> {
    if list == [] then map[]
    else PropsFrom(list[..|list| - 1])[list[|list| - 1].name := list[|list| - 1].value]
  }

  /** The CPEs found on a walk over the properties, in the walk's order. */
  function CpesFrom(props: map<string, string>, order: seq<string>): seq<string>
    requires forall k :: k in order ==> k in props
  {
    if order == [] then []
    else
      var k := order[|order| - 1];
      CpesFrom(props, order[..|order| - 1]) + if IsCpeKey(k) then [props[k]] else []
  }

  function WithoutCpes(props: map<string, string>): map<string, string> {
    map k | k in props && !IsCpeKey(k) :: props[k]
  }

  function Flat(d: CdxComponent): Component {
    Component(d.bomRef, d.name, d.version, d.purl, if d.cpe == "" then [] else [d.cpe],
              PropsFrom(d.properties), "", None, [])
  }

  /** The typed fields taken out of the properties; the walk order is the runtime's choice. */
  ghost predicate Hydrates(flat: Component, out: Component) {
    var h := HydrateAstinusFields(flat);
    && out == h.(cpes := out.cpes, properties := WithoutCpes(h.properties))
    && exists order :: Enumerates(order, h.properties.Keys) && out.cpes == flat.cpes + CpesFrom(h.properties, order)
  }

  method HydrateCpes(cpes0: seq<string>, props0: map<string, string>)
    returns (cpes: seq<string>, props: map<string, string>, ghost order: seq<string>)
    ensures Enumerates(order, props0.Keys) && cpes == cpes0 + CpesFrom(props0, order)
    ensures props == WithoutCpes(props0)
  {
    cpes, props, order := cpes0, props0, [];
    var todo := props0.Keys;
    while todo != {}
      invariant todo <= props0.Keys && Enumerates(order, props0.Keys - todo)
      invariant cpes == cpes0 + CpesFrom(props0, order)
      invariant props == map k | k in props0 && (k in todo || !IsCpeKey(k)) :: props0[k]
      decreases |todo|
    {
      var k :| k in todo;
      ghost var next := order + [k];
      assert next[..|order|] == order;
      if IsCpeKey(k) {
        cpes := cpes + [props[k]];
        props := props - {k};
      }
      todo := todo - {k};
      order := next;
    }
  }

  method Hydrate(flat: Component) returns (out: Component)
    ensures Hydrates(flat, out)
  {
    hide WithoutCpes, CpesFrom, HydrateAstinusFields;
    var h := HydrateAstinusFields(flat);
    SameCpes(flat);
    var cpes, props, order := HydrateCpes(h.cpes, h.properties);
    out := h.(cpes := cpes, properties := props);
  }

  lemma SameCpes(flat: Component)
    ensures HydrateAstinusFields(flat).cpes == flat.cpes && HydrateAstinusFields(flat).subs == flat.subs
  {
  }

  /** c is what reading d may give. */
  ghost predicate ReadsAs(d: CdxComponent, c: Component)
    decreases d
  {
    && Hydrates(Flat(d), c.(subs := []))
    && |c.subs| == |d.components|
    && forall i :: 0 <= i < |d.components| ==> ReadsAs(d.components[i], c.subs[i])
  }

  method ComponentFromCdx(d: CdxComponent) returns (c: Component)
    ensures ReadsAs(d, c)
    decreases d
  {
    hide Hydrates, Flat;
    var flat := Flat(d);
    var bare := Hydrate(flat);
    var subs: seq<Component> := [];
    for i := 0 to |d.components|
      invariant |subs| == i && forall j :: 0 <= j < i ==> ReadsAs(d.components[j], subs[j])
    {
      var sub := ComponentFromCdx(d.components[i]);
      subs := subs + [sub];
    }
    c := bare.(subs := subs);
    NoSubs(flat, bare, d);
    assert c.(subs := []) == bare;
  }

  lemma NoSubs(flat: Component, out: Component, d: CdxComponent)
    requires flat == Flat(d) && Hydrates(flat, out)
    ensures out.subs == []
  {
    hide WithoutCpes, CpesFrom;
  }

  // ----- The property list -----

  lemma {:induction false} ListReadsBack(keys: seq<string>, props: map<string, string>)
    requires forall k :: k in keys ==> k in props
    ensures PropsFrom(ListFrom(keys, props)) == map k | k in keys :: props[k]
  {
    if keys != [] {
      var init, k := keys[..|keys| - 1], keys[|keys| - 1];
      assert keys == init + [k];
      ListReadsBack(init, props);
      var list := ListFrom(init, props);
      assert (list + [Property(k, props[k])])[..|list|] == list;
    }
  }

  lemma PropertiesReadBack(props: map<string, string>)
    ensures PropsFrom(PropertyList(props)) == props
  {
    ListReadsBack(SortedKeys(props.Keys), props);
  }

  // ----- The numbered CPE properties -----

  lemma CpeKeysDiffer(i: nat, j: nat)
    requires i != j
    ensures CpeKey(i) != CpeKey(j)
  {
    ItoaRoundTrip(i);
    ItoaRoundTrip(j);
    hide Itoa, Atoi;
    assert CpeKey(i)[|CPE_PREFIX|..] == Itoa(i) && CpeKey(j)[|CPE_PREFIX|..] == Itoa(j);
  }

  lemma {:induction false} CpePropsAre(cpes: seq<string>)
    ensures forall k :: k in CpeProps(cpes) <==> exists i :: 1 <= i < |cpes| && k == CpeKey(i)
    ensures forall i :: 1 <= i < |cpes| ==> CpeProps(cpes)[CpeKey(i)] == cpes[i]
  {
    hide CpeKey;
    if |cpes| > 1 {
      var n := |cpes| - 1;
      CpePropsAre(cpes[..n]);
      forall i | 1 <= i < n ensures CpeKey(i) != CpeKey(n) {
        CpeKeysDiffer(i, n);
      }
    }
  }

  lemma ReservedAreNoCpeKeys()
    ensures forall k :: k in RESERVED ==> !IsCpeKey(k)
    ensures forall i: nat :: IsCpeKey(CpeKey(i))
  {
    assert ORIGIN[8] == 'o' && LAYER_DIGEST[8] == 'l' && LAYER_INDEX[8] == 'l' && LAYER_LINE[8] == 'l' && LAYER_ADDED_BY[8] == 'l';
    assert CPE_PREFIX[8] == 'c';
  }

  lemma {:induction false} CpesFromAppend(props: map<string, string>, a: seq<string>, b: seq<string>)
    requires forall k :: k in a + b ==> k in props
    ensures (forall k :: k in a ==> k in props) && (forall k :: k in b ==> k in props)
    ensures CpesFrom(props, a + b) == CpesFrom(props, a) + CpesFrom(props, b)
    decreases |b|
  {
    forall k | k in a || k in b ensures k in props {
      assert k in a + b;
    }
    if b == [] {
      assert a + b == a;
    } else {
      var n := |b| - 1;
      assert (a + b)[..|a + b| - 1] == a + b[..n];
      CpesFromAppend(props, a, b[..n]);
    }
  }

  /** A key's place in the walk does not matter for which CPEs are found. */
  lemma TakeOut(props: map<string, string>, order: seq<string>, j: nat)
    requires j < |order| && IsCpeKey(order[j]) && forall k :: k in order ==> k in props
    ensures forall k :: k in order[..j] + order[j + 1..] ==> k in props
    ensures multiset(CpesFrom(props, order)) ==
      multiset(CpesFrom(props, order[..j] + order[j + 1..])) + multiset{props[order[j]]}
  {
    hide IsCpeKey, CpesFrom;
    var a, k, b := order[..j], order[j], order[j + 1..];
    assert order == a + ([k] + b);
    assert forall x :: x in a + b ==> x in order;
    CpesFromAppend(props, a, [k] + b);
    CpesFromAppend(props, [k], b);
    CpesFromAppend(props, a, b);
    OneKey(props, k);
    MovedOut(CpesFrom(props, a), props[k], CpesFrom(props, b));
  }

  lemma MovedOut(a: seq<string>, x: string, b: seq<string>)
    ensures multiset(a + ([x] + b)) == multiset(a + b) + multiset{x}
  {
  }

  lemma OneKey(props: map<string, string>, k: string)
    requires k in props && IsCpeKey(k)
    ensures CpesFrom(props, [k]) == [props[k]]
  {
    assert [k][..0] == [];
  }

  lemma {:induction false} NoCpesFound(props: map<string, string>, order: seq<string>)
    requires forall k :: k in order ==> k in props && !IsCpeKey(k)
    ensures CpesFrom(props, order) == []
  {
    if order != [] {
      NoCpesFound(props, order[..|order| - 1]);
    }
  }

  /** Whatever the walk's order, it finds the numbered CPEs, each once. */
  lemma {:induction false} WalkFindsCpes(props: map<string, string>, order: seq<string>, cpes: seq<string>)
    requires cpes != [] && NoneTwice(order) && forall k :: k in order ==> k in props
    requires forall k :: k in order && IsCpeKey(k) <==> exists i :: 1 <= i < |cpes| && k == CpeKey(i)
    requires forall i :: 1 <= i < |cpes| ==> CpeKey(i) in props && props[CpeKey(i)] == cpes[i]
    ensures multiset(CpesFrom(props, order)) == multiset(cpes[1..])
    decreases |cpes|
  {
    hide IsCpeKey, CpeKey, CpesFrom, NoneTwice;
    if |cpes| == 1 {
      NoCpesFound(props, order);
      assert cpes[1..] == [];
    } else {
      var n := |cpes| - 1;
      assert CpeKey(n) in order;
      var j :| 0 <= j < |order| && order[j] == CpeKey(n);
      TakeOut(props, order, j);
      KeysLeft(order, j);
      forall i | 1 <= i < n ensures CpeKey(i) != CpeKey(n) {
        CpeKeysDiffer(i, n);
      }
      WalkFindsCpes(props, order[..j] + order[j + 1..], cpes[..n]);
      assert cpes[1..] == cpes[..n][1..] + [cpes[n]];
    }
  }

  lemma KeysLeft(order: seq<string>, j: nat)
    requires j < |order| && NoneTwice(order)
    ensures var rest := order[..j] + order[j + 1..];
      NoneTwice(rest) && forall k :: k in rest <==> k in order && k != order[j]
  {
    var rest := order[..j] + order[j + 1..];
    forall k | k in order && k != order[j] ensures k in rest {
      var i :| 0 <= i < |order| && order[i] == k;
      assert i < j ==> rest[i] == k;
      assert i > j ==> rest[i - 1] == k;
    }
  }

  // ----- Round trips -----

  /** No property takes a name that the mapper uses itself, and a first CPE is not blank. */
  ghost predicate Clean(c: Component) {
    && (forall k :: k in c.properties ==> k !in RESERVED && !IsCpeKey(k))
    && (c.cpes != [] ==> c.cpes[0] != "")
  }

  /** Equal but for the order of the CPEs after the first. */
  ghost predicate SameFields(c: Component, r: Component) {
    && r.(cpes := c.cpes, subs := c.subs) == c
    && multiset(r.cpes) == multiset(c.cpes)
    && (c.cpes != [] ==> r.cpes[0] == c.cpes[0])
  }

  lemma CpesComeOff(a: map<string, string>, b: map<string, string>)
    requires forall k :: k in a ==> !IsCpeKey(k)
    requires forall k :: k in b ==> IsCpeKey(k)
    ensures WithoutCpes(a + b) == a
  {
    hide IsCpeKey;
  }

  lemma CpePropKeys(cpes: seq<string>)
    ensures forall k :: k in CpeProps(cpes) ==> IsCpeKey(k) && k !in RESERVED
  {
    hide IsCpeKey, CpeKey, RESERVED;
    CpePropsAre(cpes);
    ReservedAreNoCpeKeys();
  }

  /** c with its numbered CPEs among its properties. */
  function WithCpeProps(c: Component): Component {
    c.(properties := c.properties + CpeProps(c.cpes))
  }

  lemma ProjectionApart(c: Component)
    requires forall k :: k in c.properties ==> k !in RESERVED && !IsCpeKey(k)
    ensures var base := WithCpeProps(c);
      && (forall k :: k in base.properties ==> k !in RESERVED)
      && WrittenProps(c) == AllProps(base)
      && WithoutCpes(base.properties) == c.properties
  {
    hide RESERVED, IsCpeKey, CpeProps, AstinusProps, WithoutCpes;
    CpePropKeys(c.cpes);
    ProjectedFields(c);
    SameProjection(c, WithCpeProps(c));
    CpesComeOff(c.properties, CpeProps(c.cpes));
  }

  lemma SameProjection(c: Component, base: Component)
    requires c.origin == base.origin && c.layerInfo == base.layerInfo
    ensures AstinusProps(c) == AstinusProps(base)
  {
  }

  /** The walk over a clean component's properties finds its CPEs but the first. */
  lemma CleanWalk(c: Component, props: map<string, string>, order: seq<string>)
    requires forall k :: k in c.properties ==> !IsCpeKey(k)
    requires props == c.properties + CpeProps(c.cpes) && Enumerates(order, props.Keys)
    ensures multiset(CpesFrom(props, order)) == if c.cpes == [] then multiset{} else multiset(c.cpes[1..])
  {
    hide IsCpeKey, CpesFrom, CpeProps;
    CpePropsAre(c.cpes);
    ReservedAreNoCpeKeys();
    if c.cpes == [] {
      NoCpesFound(props, order);
    } else {
      WalkFindsCpes(props, order, c.cpes);
    }
  }

  lemma HydratedBase(c: Component)
    requires forall k :: k in c.properties ==> k !in RESERVED && !IsCpeKey(k)
    ensures var flat := Flat(ToCdx(c));
      && flat.cpes == FirstCpe(c.cpes)
      && HydrateAstinusFields(flat) == WithCpeProps(c).(cpes := flat.cpes, subs := [])
  {
    hide RESERVED, IsCpeKey, CpeProps, AstinusProps, HydrateAstinusFields, PropertyList, AllProps, WithoutCpes, WrittenProps;
    var flat := Flat(ToCdx(c));
    PropertiesReadBack(WrittenProps(c));
    ProjectionApart(c);
    var base := WithCpeProps(c).(cpes := flat.cpes, subs := []);
    SameProps(WithCpeProps(c), base);
    HydrationUndoesProjection(base, WrittenProps(c));
    assert flat == base.(properties := WrittenProps(c), origin := "", layerInfo := None);
  }

  function FirstCpe(cpes: seq<string>): seq<string> {
    if cpes == [] || cpes[0] == "" then [] else [cpes[0]]
  }

  /** One CPE in front, where there is one to keep there, and the later ones behind it in any order. */
  ghost predicate FirstThenRest(cpes: seq<string>, back: seq<string>) {
    && FirstCpe(cpes) <= back
    && multiset(back[|FirstCpe(cpes)|..]) == if cpes == [] then multiset{} else multiset(cpes[1..])
  }

  /** What hydration makes of a component that was written without name clashes. */
  lemma HydratedFields(c: Component, out: Component)
    requires Hydrates(Flat(ToCdx(c)), out) && forall k :: k in c.properties ==> k !in RESERVED && !IsCpeKey(k)
    ensures out == c.(cpes := out.cpes, subs := []) && FirstThenRest(c.cpes, out.cpes)
  {
    hide *;
    HydratedBase(c);
    ProjectionApart(c);
    var flat, base := Flat(ToCdx(c)), WithCpeProps(c);
    var order := WalkOf(flat, base.(cpes := flat.cpes, subs := []), out);
    WalkGives(c, flat.cpes, base.properties, order, out.cpes);
    SameApartFromCpes(c, base, flat.cpes, out);
  }

  lemma SameApartFromCpes(c: Component, base: Component, cpes: seq<string>, out: Component)
    requires base == WithCpeProps(c) && out == base.(cpes := out.cpes, subs := [], properties := c.properties)
    ensures out == c.(cpes := out.cpes, subs := [])
  {
  }

  lemma WalkGives(c: Component, first: seq<string>, props: map<string, string>, order: seq<string>, back: seq<string>)
    requires forall k :: k in c.properties ==> !IsCpeKey(k)
    requires props == WithCpeProps(c).properties && Enumerates(order, props.Keys)
    requires first == FirstCpe(c.cpes) && back == first + CpesFrom(props, order)
    ensures FirstThenRest(c.cpes, back)
  {
    CleanWalk(c, props, order);
    hide IsCpeKey, CpeProps, CpesFrom, Enumerates, FirstCpe;
    Dropped(first, CpesFrom(props, order), back);
  }

  lemma Dropped(a: seq<string>, b: seq<string>, ab: seq<string>)
    requires ab == a + b
    ensures a <= ab && ab[|a|..] == b
  {
  }

  lemma WalkOf(flat: Component, base: Component, out: Component) returns (order: seq<string>)
    requires Hydrates(flat, out) && HydrateAstinusFields(flat) == base
    ensures Enumerates(order, base.properties.Keys) && forall k :: k in order ==> k in base.properties
    ensures out == base.(cpes := out.cpes, properties := WithoutCpes(base.properties))
    ensures out.cpes == flat.cpes + CpesFrom(base.properties, order)
  {
    hide CpesFrom, WithoutCpes, HydrateAstinusFields;
    order :| Enumerates(order, base.properties.Keys) && out.cpes == flat.cpes + CpesFrom(base.properties, order);
  }

  lemma ReadPropsAreClean(flat: Component, out: Component)
    requires Hydrates(flat, out)
    ensures forall k :: k in out.properties ==> k !in RESERVED && !IsCpeKey(k)
  {
    hide RESERVED, IsCpeKey;
  }

  /** A component's own fields survive, exactly if it is clean. */
  lemma FieldsReadBackIff(c: Component, out: Component)
    requires Hydrates(Flat(ToCdx(c)), out)
    ensures SameFields(c, out) <==> Clean(c)
  {
    hide RESERVED, IsCpeKey, Hydrates, ToCdx, Flat;
    ReadPropsAreClean(Flat(ToCdx(c)), out);
    if forall k :: k in c.properties ==> k !in RESERVED && !IsCpeKey(k) {
      HydratedFields(c, out);
      CpesSurviveIff(c.cpes, out.cpes);
    }
  }

  lemma CpesSurviveIff(cpes: seq<string>, back: seq<string>)
    requires FirstThenRest(cpes, back)
    ensures (multiset(back) == multiset(cpes) && (cpes != [] ==> |back| > 0 && back[0] == cpes[0])) <==>
      (cpes != [] ==> cpes[0] != "")
  {
    var first := FirstCpe(cpes);
    assert back == first + back[|first|..];
    if cpes != [] {
      assert cpes == [cpes[0]] + cpes[1..];
      assert |multiset(cpes)| == |multiset(cpes[1..])| + 1;
    }
  }

  ghost predicate CleanTree(c: Component)
    decreases c
  {
    Clean(c) && forall i :: 0 <= i < |c.subs| ==> CleanTree(c.subs[i])
  }

  ghost predicate SameTree(c: Component, r: Component)
    decreases c
  {
    && SameFields(c, r) && |r.subs| == |c.subs|
    && forall i :: 0 <= i < |c.subs| ==> SameTree(c.subs[i], r.subs[i])
  }

  /** A component tree of any depth survives, exactly if every component in it is clean. */
  lemma {:induction false} TreeReadsBackIff(c: Component, r: Component)
    requires ReadsAs(ToCdx(c), r)
    ensures SameTree(c, r) <==> CleanTree(c)
    decreases c
  {
    hide Hydrates, Clean, SameFields, Flat;
    var bare := r.(subs := []);
    FieldsReadBackIff(c, bare);
    SubsDoNotMatter(c, r);
    forall i | 0 <= i < |c.subs| ensures SameTree(c.subs[i], r.subs[i]) <==> CleanTree(c.subs[i]) {
      TreeReadsBackIff(c.subs[i], r.subs[i]);
    }
  }

  lemma SubsDoNotMatter(c: Component, r: Component)
    ensures SameFields(c, r.(subs := [])) == SameFields(c, r)
  {
  }
}
