/** What a CycloneDX component and its dependencies say, entry by entry (internal/sbom/cyclonedx/mapper.go). */
module CycloneDxFields {
  import opened Strings
  import opened Positions
  import opened Spdx
  import opened SpdxFields
  import opened CycloneDx
  import opened CycloneDxDeps

  // ----- Properties -----

  /** Every CPE but the first, under its number. */
  ghost predicate CpeProperty(c: Component, k: string, v: string) {
    exists i :: 1 <= i < |c.cpes| && k == "astinus:cpe:" + Itoa(i) && v == c.cpes[i]
  }

  /** A CPE hides a typed field of the same name, and both hide a property. */
  ghost predicate CdxProperty(c: Component, k: string, v: string) {
    || CpeProperty(c, k, v)
    || (FieldProperty(c, k, v) && forall w :: !CpeProperty(c, k, w))
    || (k in c.properties && v == c.properties[k] && forall w :: !CpeProperty(c, k, w) && !FieldProperty(c, k, w))
  }

  lemma CpePropertyIff(c: Component, k: string, v: string)
    ensures CpeProperty(c, k, v) <==> k in CpeProps(c.cpes) && CpeProps(c.cpes)[k] == v
  {
    CpePropsAre(c.cpes);
    hide CpeProps, Itoa;
    if k in CpeProps(c.cpes) {
      var i :| 1 <= i < |c.cpes| && k == CpeKey(i);
      assert CpeProps(c.cpes)[CpeKey(i)] == c.cpes[i];
    }
    if CpeProperty(c, k, v) {
      var i :| 1 <= i < |c.cpes| && k == "astinus:cpe:" + Itoa(i) && v == c.cpes[i];
      assert k == CpeKey(i);
    }
  }

  lemma CdxPropertyIff(c: Component, k: string, v: string)
    ensures CdxProperty(c, k, v) <==> k in WrittenProps(c) && WrittenProps(c)[k] == v
  {
    hide CpeProperty, FieldProperty, CpeProps, AstinusProps;
    forall w
      ensures CpeProperty(c, k, w) <==> k in CpeProps(c.cpes) && CpeProps(c.cpes)[k] == w
      ensures FieldProperty(c, k, w) <==> k in AstinusProps(c) && AstinusProps(c)[k] == w
    {
      CpePropertyIff(c, k, w);
      FieldPropertyIff(c, k, w);
    }
    if k in CpeProps(c.cpes) {
      assert CpeProperty(c, k, CpeProps(c.cpes)[k]);
    }
    if k in AstinusProps(c) {
      assert FieldProperty(c, k, AstinusProps(c)[k]);
    }
  }

  lemma {:induction false} ListIs(keys: seq<string>, props: map<string, string>)
    requires forall k :: k in keys ==> k in props
    ensures |ListFrom(keys, props)| == |keys|
    ensures forall i :: 0 <= i < |keys| ==> ListFrom(keys, props)[i] == Property(keys[i], props[keys[i]])
  {
    if keys != [] {
      ListIs(keys[..|keys| - 1], props);
    }
  }

  /** The list holds exactly the properties, each once, sorted by name. */
  ghost predicate ListsProperties(c: Component, list: seq<Property>) {
    && (forall i, j :: 0 <= i < j < |list| ==> LexLeq(list[i].name, list[j].name) && list[i].name != list[j].name)
    && forall k, v :: Property(k, v) in list <==> CdxProperty(c, k, v)
  }

  /** What is written for one component: the first CPE in its own field, all else that has no field as properties. */
  lemma CdxIs(c: Component)
    ensures var d := ToCdx(c);
      && d.bomRef == c.bomRef && d.name == c.name && d.version == c.version && d.purl == c.purl
      && d.cpe == (if c.cpes == [] then "" else c.cpes[0])
      && |d.components| == |c.subs| && (forall i :: 0 <= i < |c.subs| ==> d.components[i] == ToCdx(c.subs[i]))
      && ListsProperties(c, d.properties)
  {
    hide ListsProperties, WrittenProps, SortedKeys;
    PropertiesListed(c);
  }

  lemma PropertiesListed(c: Component)
    ensures ListsProperties(c, PropertyList(WrittenProps(c)))
  {
    hide WrittenProps, CdxProperty, LexLeq, ListFrom;
    var props := WrittenProps(c);
    var keys := SortedKeys(props.Keys);
    ListIs(keys, props);
    hide SortedKeys;
    var list := ListFrom(keys, props);
    forall k, v ensures Property(k, v) in list <==> CdxProperty(c, k, v) {
      CdxPropertyIff(c, k, v);
      if k in props && props[k] == v {
        var i :| 0 <= i < |keys| && keys[i] == k;
        assert list[i] == Property(k, v);
      }
    }
  }

  // ----- Dependencies -----

  /** The source of the a-th dependency is met before that of any later one. */
  ghost predicate MetFirst(rs: seq<Relationship>, s: string, later: string) {
    exists i :: 0 <= i < |rs| && rs[i].source == s && forall j :: 0 <= j <= i ==> rs[j].source != later
  }

  lemma MetFirstSnoc(rs: seq<Relationship>, r: Relationship, s: string, later: string)
    requires MetFirst(rs, s, later)
    ensures MetFirst(rs + [r], s, later)
  {
    var i :| 0 <= i < |rs| && rs[i].source == s && forall j :: 0 <= j <= i ==> rs[j].source != later;
    var all := rs + [r];
    assert all[i] == rs[i] && forall j :: 0 <= j <= i ==> all[j] == rs[j];
  }

  /** The sources, each once, in order of first appearance. */
  lemma {:induction false} SourcesAre(rs: seq<Relationship>)
    ensures forall s :: s in Sources(rs) <==> exists r :: r in rs && r.source == s
    ensures forall a, b :: 0 <= a < b < |Sources(rs)| ==> MetFirst(rs, Sources(rs)[a], Sources(rs)[b])
  {
    hide MetFirst;
    if rs != [] {
      var front, last := rs[..|rs| - 1], rs[|rs| - 1];
      assert rs == front + [last];
      SourcesAre(front);
      forall a, b | 0 <= a < b < |Sources(rs)| ensures MetFirst(rs, Sources(rs)[a], Sources(rs)[b]) {
        if b < |Sources(front)| {
          MetFirstSnoc(front, last, Sources(front)[a], Sources(front)[b]);
        } else {
          assert Sources(front)[a] in Sources(front) && last.source !in Sources(front);
          NewSourceIsLater(front, last, Sources(front)[a]);
        }
      }
    }
  }

  lemma NewSourceIsLater(rs: seq<Relationship>, r: Relationship, s: string)
    requires (exists x :: x in rs && x.source == s) && forall x :: x in rs ==> x.source != r.source
    ensures MetFirst(rs + [r], s, r.source)
  {
    var x :| x in rs && x.source == s;
    var i :| 0 <= i < |rs| && rs[i] == x;
    var all := rs + [r];
    assert forall j :: 0 <= j < |rs| ==> all[j] == rs[j] && rs[j] in rs;
  }

  ghost function EdgesAt(rs: seq<Relationship>, s: string, t: RelType): set<nat> {
    set i: nat | i < |rs| && rs[i].source == s && rs[i].typ == t
  }

  ghost predicate AreTargets(rs: seq<Relationship>, s: string, t: RelType, at: seq<nat>, targets: seq<string>) {
    && PicksExactly(at, EdgesAt(rs, s, t))
    && |targets| == |at| && forall k :: 0 <= k < |at| ==> at[k] < |rs| && targets[k] == rs[at[k]].target
  }

  /** The targets of a source and a type: those of its edges of that type, in their order, repeats included. */
  lemma {:induction false} TargetsAre(rs: seq<Relationship>, s: string, t: RelType)
    ensures exists at: seq<nat> :: AreTargets(rs, s, t, at, Targets(rs, s, t))
  {
    hide AreTargets;
    var at: seq<nat> := [];
    if rs == [] {
      NoTargetsAt(s, t);
      assert AreTargets(rs, s, t, at, Targets(rs, s, t));
    } else {
      var front, last := rs[..|rs| - 1], rs[|rs| - 1];
      TargetsAre(front, s, t);
      at :| AreTargets(front, s, t, at, Targets(front, s, t));
      assert rs == front + [last];
      NextTarget(front, last, s, t, at, Targets(front, s, t));
      assert AreTargets(rs, s, t, if last.source == s && last.typ == t then at + [|front|] else at, Targets(rs, s, t));
    }
  }

  lemma NoTargetsAt(s: string, t: RelType)
    ensures AreTargets([], s, t, [], [])
  {
  }

  lemma NextTarget(rs: seq<Relationship>, r: Relationship, s: string, t: RelType, at: seq<nat>, targets: seq<string>)
    requires AreTargets(rs, s, t, at, targets)
    ensures if r.source == s && r.typ == t then AreTargets(rs + [r], s, t, at + [|rs|], targets + [r.target])
      else AreTargets(rs + [r], s, t, at, targets)
  {
    hide PicksExactly;
    var was := EdgesAt(rs, s, t);
    assert EdgesAt(rs + [r], s, t) == was + if r.source == s && r.typ == t then {|rs|} else {};
    assert was + {} == was;
    PicksNext(at, was, |rs|);
  }
}
