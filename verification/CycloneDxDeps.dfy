/** Relationships as CycloneDX dependencies and back (internal/sbom/cyclonedx/mapper.go). */
module CycloneDxDeps {
  import opened Strings
  import opened Spdx

  /** An absent list of the wire format reads like an empty one. */
  datatype Dependency = Dependency(ref: string, dependencies: seq<string>, provided: seq<string>)

  // ----- Grouping -----

  /** The sources, each once, in order of first appearance. */
  function Sources(rs: seq<Relationship>): seq<string> {
    if rs == [] then []
    else
      var init, s := Sources(rs[..|rs| - 1]), rs[|rs| - 1].source;
      if s in init then init else init + [s]
  }

  /** The targets of one source and type, in order and with repeats. */
  function Targets(rs: seq<Relationship>, source: string, typ: RelType): seq<string> {
    if rs == [] then []
    else
      var init, r := Targets(rs[..|rs| - 1], source, typ), rs[|rs| - 1];
      if r.source == source && r.typ == typ then init + [r.target] else init
  }

  function DependencyOf(rs: seq<Relationship>, source: string): Dependency {
    Dependency(source, Targets(rs, source, DependsOn), Targets(rs, source, Provides))
  }

  function Grouped(rs: seq<Relationship>): (deps: seq<Dependency>)
    ensures |deps| == |Sources(rs)|
    ensures forall i :: 0 <= i < |deps| ==> deps[i] == DependencyOf(rs, Sources(rs)[i])
  {
    var sources := Sources(rs);
    seq(|sources|, i requires 0 <= i < |sources| => DependencyOf(rs, sources[i]))
  }

  lemma GroupSnoc(rs: seq<Relationship>, r: Relationship)
    ensures Sources(rs + [r]) == if r.source in Sources(rs) then Sources(rs) else Sources(rs) + [r.source]
    ensures forall s, t :: Targets(rs + [r], s, t) == Targets(rs, s, t) + if r.source == s && r.typ == t then [r.target] else []
  {
    assert (rs + [r])[..|rs|] == rs;
  }

  lemma {:induction false} NoTargetsElsewhere(rs: seq<Relationship>, s: string, t: RelType)
    requires s !in Sources(rs)
    ensures Targets(rs, s, t) == []
  {
    if rs != [] {
      NoTargetsElsewhere(rs[..|rs| - 1], s, t);
    }
  }

  lemma NoSources()
    ensures Sources([]) == []
  {
  }

  function Recorded(dep: Dependency, r: Relationship): Dependency {
    match r.typ
    case DependsOn => dep.(dependencies := dep.dependencies + [r.target])
    case Provides => dep.(provided := dep.provided + [r.target])
    case Contains => dep
    case UnknownRel => dep
  }

  lemma RecordStep(rs: seq<Relationship>, r: Relationship)
    ensures Sources(rs + [r]) == if r.source in Sources(rs) then Sources(rs) else Sources(rs) + [r.source]
    ensures DependencyOf(rs + [r], r.source) == Recorded(DependencyOf(rs, r.source), r)
    ensures forall s :: s != r.source ==> DependencyOf(rs + [r], s) == DependencyOf(rs, s)
    ensures r.source !in Sources(rs) ==> DependencyOf(rs, r.source) == Dependency(r.source, [], [])
  {
    GroupSnoc(rs, r);
    hide Targets, Sources;
    if r.source !in Sources(rs) {
      NoTargetsElsewhere(rs, r.source, DependsOn);
      NoTargetsElsewhere(rs, r.source, Provides);
    }
  }

  method RelationshipsToCdx(rs: seq<Relationship>) returns (deps: seq<Dependency>)
    ensures deps == Grouped(rs)
  {
    hide DependencyOf, Sources, Recorded;
    assert Sources(rs[..0]) == [] by { NoSources(); }
    var bySource: map<string, Dependency> := map[];
    var order: seq<string> := [];
    for i := 0 to |rs|
      invariant order == Sources(rs[..i])
      invariant forall s :: s in bySource <==> s in order
      invariant forall s :: s in bySource ==> bySource[s] == DependencyOf(rs[..i], s)
    {
      var r := rs[i];
      assert rs[..i + 1] == rs[..i] + [r];
      RecordStep(rs[..i], r);
      var dep := Dependency(r.source, [], []);
      if r.source in bySource {
        dep := bySource[r.source];
      } else {
        order := order + [r.source];
      }
      bySource := bySource[r.source := Recorded(dep, r)];
    }
    assert rs[..|rs|] == rs;
    deps := [];
    for i := 0 to |order|
      invariant deps == Grouped(rs)[..i]
    {
      assert order[i] in order;
      deps := deps + [bySource[order[i]]];
    }
  }

  // ----- Expanding -----

  function Edges(source: string, targets: seq<string>, typ: RelType): seq<Relationship> {
    if targets == [] then []
    else Edges(source, targets[..|targets| - 1], typ) + [Relationship(source, targets[|targets| - 1], typ)]
  }

  function Expand(d: Dependency): seq<Relationship> {
    Edges(d.ref, d.dependencies, DependsOn) + Edges(d.ref, d.provided, Provides)
  }

  function Expanded(deps: seq<Dependency>): seq<Relationship> {
    if deps == [] then [] else Expanded(deps[..|deps| - 1]) + Expand(deps[|deps| - 1])
  }

  method AppendEdges(rs: seq<Relationship>, source: string, targets: seq<string>, typ: RelType) returns (out: seq<Relationship>)
    ensures out == rs + Edges(source, targets, typ)
  {
    out := rs;
    for j := 0 to |targets|
      invariant out == rs + Edges(source, targets[..j], typ)
    {
      assert targets[..j + 1][..j] == targets[..j];
      out := out + [Relationship(source, targets[j], typ)];
    }
    assert targets[..|targets|] == targets;
  }

  method RelationshipsFromCdx(deps: seq<Dependency>) returns (out: seq<Relationship>)
    ensures out == Expanded(deps)
  {
    hide Edges;
    out := [];
    for i := 0 to |deps|
      invariant out == Expanded(deps[..i])
    {
      var d := deps[i];
      assert deps[..i + 1][..i] == deps[..i];
      ghost var before := out;
      out := AppendEdges(out, d.ref, d.dependencies, DependsOn);
      out := AppendEdges(out, d.ref, d.provided, Provides);
      assert out == before + Expand(d);
    }
    assert deps[..|deps|] == deps;
  }

  // ----- There and back -----

  /** What is read back from what was written. */
  function ThereAndBack(rs: seq<Relationship>): seq<Relationship> {
    Expanded(Grouped(rs))
  }

  lemma {:induction false} TargetsAppend(a: seq<Relationship>, b: seq<Relationship>, s: string, t: RelType)
    ensures Targets(a + b, s, t) == Targets(a, s, t) + Targets(b, s, t)
    decreases |b|
  {
    if b == [] {
      assert a + b == a;
    } else {
      var n := |b| - 1;
      assert (a + b)[..|a + b| - 1] == a + b[..n];
      TargetsAppend(a, b[..n], s, t);
    }
  }

  lemma EdgesSnoc(source: string, targets: seq<string>, typ: RelType)
    requires targets != []
    ensures var n := |targets| - 1;
      Edges(source, targets, typ) == Edges(source, targets[..n], typ) + [Relationship(source, targets[n], typ)]
  {
  }

  lemma TargetsSnoc(rs: seq<Relationship>, r: Relationship, s: string, t: RelType)
    ensures Targets(rs + [r], s, t) == Targets(rs, s, t) + if r.source == s && r.typ == t then [r.target] else []
  {
    assert (rs + [r])[..|rs|] == rs;
  }

  lemma NoEdgeTargets(source: string, typ: RelType, s: string, t: RelType)
    ensures Targets(Edges(source, [], typ), s, t) == []
  {
  }

  lemma {:induction false} EdgeTargets(source: string, targets: seq<string>, typ: RelType, s: string, t: RelType)
    ensures Targets(Edges(source, targets, typ), s, t) == if s == source && t == typ then targets else []
  {
    hide *;
    if targets == [] {
      NoEdgeTargets(source, typ, s, t);
    } else {
      var n := |targets| - 1;
      var front := targets[..n];
      EdgeTargets(source, front, typ, s, t);
      EdgesSnoc(source, targets, typ);
      TargetsSnoc(Edges(source, front, typ), Relationship(source, targets[n], typ), s, t);
      assert front + [targets[n]] == targets;
    }
  }

  lemma ExpandTargets(d: Dependency, s: string, t: RelType)
    ensures Targets(Expand(d), s, t) ==
      if s != d.ref then [] else if t == DependsOn then d.dependencies else if t == Provides then d.provided else []
  {
    hide Edges, Targets;
    TargetsAppend(Edges(d.ref, d.dependencies, DependsOn), Edges(d.ref, d.provided, Provides), s, t);
    EdgeTargets(d.ref, d.dependencies, DependsOn, s, t);
    EdgeTargets(d.ref, d.provided, Provides, s, t);
  }

  predicate Kept(t: RelType) {
    t == DependsOn || t == Provides
  }

  /** One dependency for each of the given sources. */
  function ExpandedFor(rs: seq<Relationship>, sources: seq<string>): seq<Relationship> {
    if sources == [] then []
    else ExpandedFor(rs, sources[..|sources| - 1]) + Expand(DependencyOf(rs, sources[|sources| - 1]))
  }

  lemma {:induction false} SourcesDiffer(rs: seq<Relationship>)
    ensures NoneTwice(Sources(rs))
  {
    if rs != [] {
      SourcesDiffer(rs[..|rs| - 1]);
    }
  }

  lemma {:induction false} ExpandedForTargets(rs: seq<Relationship>, sources: seq<string>, s: string, t: RelType)
    requires NoneTwice(sources)
    ensures Targets(ExpandedFor(rs, sources), s, t) == if s in sources && Kept(t) then Targets(rs, s, t) else []
  {
    hide Targets, Expand;
    if sources == [] {
      assert Targets([], s, t) == [] by { NoTargets(s, t); }
    } else {
      var init, last := sources[..|sources| - 1], sources[|sources| - 1];
      assert sources == init + [last];
      ExpandedForTargets(rs, init, s, t);
      TargetsAppend(ExpandedFor(rs, init), Expand(DependencyOf(rs, last)), s, t);
      ExpandTargets(DependencyOf(rs, last), s, t);
    }
  }

  lemma NoTargets(s: string, t: RelType)
    ensures Targets([], s, t) == []
  {
  }

  lemma {:induction false} GroupedExpands(rs: seq<Relationship>, n: nat)
    requires n <= |Sources(rs)|
    ensures Expanded(Grouped(rs)[..n]) == ExpandedFor(rs, Sources(rs)[..n])
  {
    hide Expand;
    if n > 0 {
      GroupedExpands(rs, n - 1);
      assert Grouped(rs)[..n][..n - 1] == Grouped(rs)[..n - 1];
      assert Sources(rs)[..n][..n - 1] == Sources(rs)[..n - 1];
    }
  }

  lemma ThereAndBackIs(rs: seq<Relationship>)
    ensures ThereAndBack(rs) == ExpandedFor(rs, Sources(rs))
  {
    GroupedExpands(rs, |Sources(rs)|);
    assert Grouped(rs)[..|Sources(rs)|] == Grouped(rs) && Sources(rs)[..|Sources(rs)|] == Sources(rs);
  }

  /** Per source and type the exact target sequence comes back; containment and unknown edges do not. */
  lemma TargetsSurvive(rs: seq<Relationship>, s: string, t: RelType)
    ensures Targets(ThereAndBack(rs), s, t) == if Kept(t) then Targets(rs, s, t) else []
  {
    ThereAndBackIs(rs);
    SourcesDiffer(rs);
    ExpandedForTargets(rs, Sources(rs), s, t);
    if s !in Sources(rs) {
      NoTargetsElsewhere(rs, s, t);
    }
  }

  // ----- A fixed point -----

  predicate HasTargets(rs: seq<Relationship>, s: string) {
    Targets(rs, s, DependsOn) != [] || Targets(rs, s, Provides) != []
  }

  function WithTargets(rs: seq<Relationship>, sources: seq<string>): seq<string> {
    if sources == [] then []
    else
      var init, last := WithTargets(rs, sources[..|sources| - 1]), sources[|sources| - 1];
      if HasTargets(rs, last) then init + [last] else init
  }

  lemma {:induction false} EdgeSources(a: seq<Relationship>, source: string, targets: seq<string>, typ: RelType)
    ensures Sources(a + Edges(source, targets, typ)) ==
      if targets == [] || source in Sources(a) then Sources(a) else Sources(a) + [source]
  {
    if targets == [] {
      assert a + [] == a;
    } else {
      var n := |targets| - 1;
      var e := Relationship(source, targets[n], typ);
      EdgeSources(a, source, targets[..n], typ);
      assert a + Edges(source, targets, typ) == (a + Edges(source, targets[..n], typ)) + [e];
      GroupSnoc(a + Edges(source, targets[..n], typ), e);
    }
  }

  lemma ExpandSources(a: seq<Relationship>, d: Dependency)
    ensures Sources(a + Expand(d)) ==
      if (d.dependencies == [] && d.provided == []) || d.ref in Sources(a) then Sources(a) else Sources(a) + [d.ref]
  {
    hide Edges, Sources;
    var x, y := Edges(d.ref, d.dependencies, DependsOn), Edges(d.ref, d.provided, Provides);
    assert a + Expand(d) == (a + x) + y;
    EdgeSources(a, d.ref, d.dependencies, DependsOn);
    EdgeSources(a + x, d.ref, d.provided, Provides);
  }

  lemma {:induction false} ExpandedForSources(rs: seq<Relationship>, sources: seq<string>)
    requires NoneTwice(sources)
    ensures Sources(ExpandedFor(rs, sources)) == WithTargets(rs, sources)
    ensures forall s :: s in WithTargets(rs, sources) ==> s in sources
  {
    hide Expand, Targets;
    if sources != [] {
      var init, last := sources[..|sources| - 1], sources[|sources| - 1];
      assert sources == init + [last];
      ExpandedForSources(rs, init);
      ExpandSources(ExpandedFor(rs, init), DependencyOf(rs, last));
    }
  }

  lemma EmptyExpands(rs: seq<Relationship>, s: string)
    requires !HasTargets(rs, s)
    ensures Expand(DependencyOf(rs, s)) == []
  {
  }

  lemma {:induction false} OnlyTargetsMatter(rs: seq<Relationship>, other: seq<Relationship>, sources: seq<string>)
    requires forall s, t :: Kept(t) ==> Targets(other, s, t) == Targets(rs, s, t)
    ensures ExpandedFor(other, WithTargets(rs, sources)) == ExpandedFor(rs, sources)
  {
    hide Expand, Targets;
    if sources != [] {
      var init, last := sources[..|sources| - 1], sources[|sources| - 1];
      OnlyTargetsMatter(rs, other, init);
      assert DependencyOf(other, last) == DependencyOf(rs, last);
      if HasTargets(rs, last) {
        var more := WithTargets(rs, sources);
        assert more[..|more| - 1] == WithTargets(rs, init);
      } else {
        EmptyExpands(rs, last);
      }
    }
  }

  /** After one trip the list is a fixed point. */
  lemma SecondTripChangesNothing(rs: seq<Relationship>)
    ensures ThereAndBack(ThereAndBack(rs)) == ThereAndBack(rs)
  {
    hide Sources, Targets, ThereAndBack, ExpandedFor, Kept;
    var once := ThereAndBack(rs);
    ThereAndBackIs(rs);
    ThereAndBackIs(once);
    SourcesDiffer(rs);
    ExpandedForSources(rs, Sources(rs));
    forall s, t | Kept(t) ensures Targets(once, s, t) == Targets(rs, s, t) {
      TargetsSurvive(rs, s, t);
    }
    OnlyTargetsMatter(rs, once, Sources(rs));
  }
}
