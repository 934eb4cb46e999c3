/**
  Lifting nested components to the top level (internal/enrich/extractor/enricher.go).
  The digest of a component that has neither a PURL nor a name is a parameter.
*/
module Lift {
  datatype Component = Component(
    bomRef: string, typ: string, name: string, version: string, purl: string,
    properties: map<string, string>, subs: seq<Component>)

  datatype Edge = DependsOn(source: string, target: string)

  const LIBRARY := "library"
  const EMBEDDED_IN := "astinus:extractor:embedded-in"

  // ----- Names -----

  function DedupKey(c: Component): string {
    if c.purl != "" then c.purl
    else if c.name == "" then ""
    else c.name + "@" + c.version
  }

  function SynthBomRef(c: Component, digest: Component -> string): (ref: string)
    ensures ref != ""
  {
    if c.purl != "" then c.purl
    else if c.name != "" then c.name + "@" + (if c.version == "" then "unknown" else c.version)
    else "extracted-" + digest(c)
  }

  function WithRef(c: Component, digest: Component -> string): (r: Component)
    ensures r.bomRef != "" && DedupKey(r) == DedupKey(c) && r.subs == c.subs
  {
    if c.bomRef == "" then c.(bomRef := SynthBomRef(c, digest)) else c
  }

  function Promoted(sub: Component, parentRef: string, digest: Component -> string): (c: Component)
    ensures c.bomRef != "" && DedupKey(c) == DedupKey(sub) && c.subs == []
  {
    var typed := if sub.typ == "" then sub.(typ := LIBRARY) else sub;
    var named := WithRef(typed, digest);
    named.(properties := named.properties[EMBEDDED_IN := parentRef], subs := [])
  }

  /** For each key the reference of the first component that has it. */
  function Index(comps: seq<Component>): map<string, string> {
    if comps == [] then map[]
    else
      var init, last := Index(comps[..|comps| - 1]), comps[|comps| - 1];
      if DedupKey(last) == "" || DedupKey(last) in init then init else init[DedupKey(last) := last.bomRef]
  }

  lemma IndexSnoc(comps: seq<Component>, c: Component)
    ensures Index(comps + [c]) ==
      if DedupKey(c) == "" || DedupKey(c) in Index(comps) then Index(comps) else Index(comps)[DedupKey(c) := c.bomRef]
  {
    assert (comps + [c])[..|comps|] == comps;
  }

  // ----- What lifting does -----

  datatype Progress = Progress(comps: seq<Component>, edges: seq<Edge>, index: map<string, string>, seen: set<string>)

  function LiftSub(p: Progress, parentRef: string, sub: Component, digest: Component -> string): Progress {
    var k := DedupKey(sub);
    if k == "" then p
    else
      var c := Promoted(sub, parentRef, digest);
      var q := if k in p.index then p else p.(comps := p.comps + [c], index := p.index[k := c.bomRef]);
      var ref := q.index[k];
      if ref in q.seen then q
      else q.(seen := q.seen + {ref}, edges := q.edges + [DependsOn(parentRef, ref)])
  }

  function LiftSubs(p: Progress, parentRef: string, subs: seq<Component>, digest: Component -> string): (q: Progress)
    ensures |p.comps| <= |q.comps|
  {
    if subs == [] then p
    else LiftSub(LiftSubs(p, parentRef, subs[..|subs| - 1], digest), parentRef, subs[|subs| - 1], digest)
  }

  lemma LiftSubsSnoc(p: Progress, parentRef: string, subs: seq<Component>, sub: Component, digest: Component -> string)
    ensures LiftSubs(p, parentRef, subs + [sub], digest) == LiftSub(LiftSubs(p, parentRef, subs, digest), parentRef, sub, digest)
  {
    assert (subs + [sub])[..|subs|] == subs;
  }

  function LiftParent(p: Progress, i: nat, digest: Component -> string): (q: Progress)
    requires i < |p.comps|
    ensures |p.comps| <= |q.comps|
  {
    var parent := p.comps[i];
    LiftSubs(p.(comps := p.comps[i := parent.(subs := [])], seen := {}), parent.bomRef, parent.subs, digest)
  }

  /** The first n of the original components have been walked. */
  function LiftFirst(p: Progress, n: nat, digest: Component -> string): (q: Progress)
    requires n <= |p.comps|
    ensures |p.comps| <= |q.comps|
  {
    if n == 0 then p else LiftParent(LiftFirst(p, n - 1, digest), n - 1, digest)
  }

  function Referenced(comps: seq<Component>, digest: Component -> string): (r: seq<Component>)
    ensures |r| == |comps| && forall i :: 0 <= i < |r| ==> r[i] == WithRef(comps[i], digest)
  {
    seq(|comps|, i requires 0 <= i < |comps| => WithRef(comps[i], digest))
  }

  function Start(comps: seq<Component>, edges: seq<Edge>, digest: Component -> string): (p: Progress)
    ensures |p.comps| == |comps|
  {
    var named := Referenced(comps, digest);
    Progress(named, edges, Index(named), {})
  }

  function Lifted(comps: seq<Component>, edges: seq<Edge>, digest: Component -> string): Progress {
    LiftFirst(Start(comps, edges, digest), |comps|, digest)
  }

  // ----- The bill of materials -----

  class Sbom {
    var components: seq<Component>
    var relationships: seq<Edge>

    constructor (components: seq<Component>, relationships: seq<Edge>)
      ensures this.components == components && this.relationships == relationships
    {
      this.components := components;
      this.relationships := relationships;
    }

    method IndexExisting(digest: Component -> string) returns (index: map<string, string>)
      modifies this`components
      ensures components == Referenced(old(components), digest) && index == Index(components)
    {
      hide DedupKey, WithRef;
      index := map[];
      ghost var before := components;
      var n := |components|;
      for i := 0 to n
        invariant |components| == |before| && components[i..] == before[i..]
        invariant components[..i] == Referenced(before, digest)[..i] && index == Index(components[..i])
      {
        assert components[i] == components[i..][0] && before[i] == before[i..][0];
        var c := WithRef(components[i], digest);
        components := components[i := c];
        assert components[..i + 1] == components[..i] + [c];
        IndexSnoc(components[..i], c);
        var k := DedupKey(c);
        if k != "" && k !in index {
          index := index[k := c.bomRef];
        }
      }
      assert components == Referenced(before, digest);
      assert components[..|before|] == components;
    }

    method LiftSubComponents(digest: Component -> string) returns (added: nat, edges: nat)
      modifies this
      ensures var lifted := Lifted(old(components), old(relationships), digest);
        components == lifted.comps && relationships == lifted.edges
      ensures added == |components| - |old(components)| && edges == |relationships| - |old(relationships)|
    {
      hide DedupKey, Index, Promoted, WithRef;
      var index := IndexExisting(digest);
      ghost var start := Start(old(components), old(relationships), digest);
      added, edges := 0, 0;
      var n := |components|;
      ghost var seen: set<string> := {};
      for i := 0 to n
        invariant |components| == n + added && |relationships| == |old(relationships)| + edges
        invariant Progress(components, relationships, index, seen) == LiftFirst(start, i, digest)
      {
        ghost var p := Progress(components, relationships, index, seen);
        var parent := components[i];
        components := components[i := parent.(subs := [])];
        var moreAdded, moreEdges;
        ghost var parentSeen;
        index, moreAdded, moreEdges, parentSeen := LiftChildren(parent, index, digest);
        added, edges := added + moreAdded, edges + moreEdges;
        seen := parentSeen;
        assert Progress(components, relationships, index, seen) == LiftParent(p, i, digest);
      }
    }

    method LiftChildren(parent: Component, index0: map<string, string>, digest: Component -> string)
      returns (index: map<string, string>, added: nat, edges: nat, ghost seenRefs: set<string>)
      modifies this
      ensures LiftSubs(Progress(old(components), old(relationships), index0, {}), parent.bomRef, parent.subs, digest)
        == Progress(components, relationships, index, seenRefs)
      ensures |components| == |old(components)| + added && |relationships| == |old(relationships)| + edges
    {
      hide DedupKey, Promoted;
      index, added, edges := index0, 0, 0;
      var seen: set<string> := {};
      ghost var p := Progress(components, relationships, index, seen);
      for j := 0 to |parent.subs|
        invariant Progress(components, relationships, index, seen) == LiftSubs(p, parent.bomRef, parent.subs[..j], digest)
        invariant |components| == |old(components)| + added && |relationships| == |old(relationships)| + edges
      {
        var sub := parent.subs[j];
        assert parent.subs[..j + 1] == parent.subs[..j] + [sub];
        LiftSubsSnoc(p, parent.bomRef, parent.subs[..j], sub, digest);
        var k := DedupKey(sub);
        if k == "" {
          continue;
        }
        if k !in index {
          var c := Promoted(sub, parent.bomRef, digest);
          components := components + [c];
          index := index[k := c.bomRef];
          added := added + 1;
        }
        var ref := index[k];
        if ref in seen {
          continue;
        }
        seen := seen + {ref};
        relationships := relationships + [DependsOn(parent.bomRef, ref)];
        edges := edges + 1;
      }
      assert parent.subs[..|parent.subs|] == parent.subs;
      seenRefs := seen;
    }
  }
}
