/** What lifting makes of a document, in terms of its fields alone (internal/enrich/extractor/enricher.go). */
module LiftDocument {
  import opened Lift
  import opened LiftLaws

  /** The PURL, or else name and version around an at sign; a component with neither PURL nor name has no key. */
  ghost predicate HasKey(c: Component, k: string) {
    || (c.purl != "" && k == c.purl)
    || (c.purl == "" && c.name != "" && k == c.name + "@" + c.version)
  }

  ghost predicate SameKey(c: Component, d: Component) {
    exists k :: HasKey(c, k) && HasKey(d, k)
  }

  ghost predicate Keyed(c: Component) {
    c.purl != "" || c.name != ""
  }

  /** The reference that a component without one gets. */
  ghost predicate NamedBy(c: Component, ref: string, digest: Component -> string) {
    && (c.purl != "" ==> ref == c.purl)
    && (c.purl == "" && c.name != "" && c.version != "" ==> ref == c.name + "@" + c.version)
    && (c.purl == "" && c.name != "" && c.version == "" ==> ref == c.name + "@unknown")
    && (c.purl == "" && c.name == "" ==> ref == "extracted-" + digest(c))
  }

  lemma KeyIff(c: Component, d: Component)
    ensures DedupKey(c) == DedupKey(d) != "" <==> SameKey(c, d)
    ensures DedupKey(c) == "" <==> !Keyed(c)
    ensures Keyed(c) ==> HasKey(c, DedupKey(c))
  {
    assert Keyed(c) ==> HasKey(c, DedupKey(c));
    assert Keyed(d) ==> HasKey(d, DedupKey(d));
  }

  lemma RefIs(c: Component, digest: Component -> string)
    ensures NamedBy(c, SynthBomRef(c, digest), digest)
  {
    assert c.name + "@" + "unknown" == c.name + "@unknown";
  }

  /** Keyed components get one reference exactly if their keys agree once "unknown" stands in for a missing version. */
  lemma SharedReferenceIff(c: Component, d: Component, digest: Component -> string)
    requires Keyed(c) && Keyed(d)
    ensures SynthBomRef(c, digest) == SynthBomRef(d, digest) <==>
      exists k, l :: HasKey(c, k) && HasKey(d, l) && k + Missing(c) == l + Missing(d)
  {
    KeyIff(c, d);
    KeyIff(d, c);
    KeyThenMissing(c, digest);
    KeyThenMissing(d, digest);
    hide SynthBomRef, DedupKey;
  }

  function Missing(c: Component): string {
    if c.purl == "" && c.version == "" then "unknown" else ""
  }

  lemma KeyThenMissing(c: Component, digest: Component -> string)
    requires Keyed(c)
    ensures SynthBomRef(c, digest) == DedupKey(c) + Missing(c)
    ensures forall k :: HasKey(c, k) ==> k == DedupKey(c)
  {
  }

  // ----- The components -----

  /** An original component keeps everything but its children; it gets a reference if it had none. */
  ghost predicate Kept(c: Component, d: Component, digest: Component -> string) {
    && d.typ == c.typ && d.name == c.name && d.version == c.version && d.purl == c.purl && d.properties == c.properties
    && d.subs == []
    && if c.bomRef != "" then d.bomRef == c.bomRef else NamedBy(c, d.bomRef, digest)
  }

  /** A lifted child is a library unless it says otherwise, and names the parent's reference in a property. */
  ghost predicate LiftedFrom(s: Component, parentRef: string, d: Component, digest: Component -> string) {
    && d.typ == (if s.typ == "" then "library" else s.typ)
    && d.name == s.name && d.version == s.version && d.purl == s.purl && d.subs == []
    && d.properties == s.properties["astinus:extractor:embedded-in" := parentRef]
    && if s.bomRef != "" then d.bomRef == s.bomRef else NamedBy(s.(typ := d.typ), d.bomRef, digest)
  }

  ghost predicate LiftsChild(cs: seq<Component>, final: seq<Component>, a: nat, digest: Component -> string)
    requires |cs| <= a < |final|
  {
    exists i: nat, s :: i < |cs| && s in cs[i].subs && LiftedFrom(s, final[i].bomRef, final[a], digest)
  }

  lemma WithRefIs(c: Component, digest: Component -> string)
    ensures Kept(c, WithRef(c, digest).(subs := []), digest)
  {
    RefIs(c, digest);
    hide SynthBomRef, NamedBy;
  }

  lemma PromotedIs(s: Component, parentRef: string, digest: Component -> string)
    ensures LiftedFrom(s, parentRef, Promoted(s, parentRef, digest), digest)
  {
    RefIs(s, digest);
    RefIs(s.(typ := "library"), digest);
    hide SynthBomRef, NamedBy;
  }

  lemma OneLifted(cs: seq<Component>, edges: seq<Edge>, digest: Component -> string, a: nat)
    requires |cs| <= a < |Lifted(cs, edges, digest).comps|
    ensures var final := Lifted(cs, edges, digest).comps; Keyed(final[a]) && LiftsChild(cs, final, a, digest)
  {
    hide LiftFirst, Start, WithRef, Promoted, DedupKey, Keyed, LiftedFrom, KeysOf;
    var final := Lifted(cs, edges, digest).comps;
    LiftFlattens(cs, edges, digest);
    AddedArePromoted(cs, edges, digest, |cs|, a);
    var i: nat, s :| i < |cs| && s in cs[i].subs && final[a] == Promoted(s, WithRef(cs[i], digest).bomRef, digest);
    assert final[i].bomRef == WithRef(cs[i], digest).bomRef;
    PromotedIs(s, final[i].bomRef, digest);
    assert LiftedFrom(s, final[i].bomRef, final[a], digest);
    AddedKeysAreFresh(cs, edges, digest, a, 0);
    KeyIff(final[a], final[a]);
  }

  /** The first component that has the key of s. */
  ghost predicate FirstLike(final: seq<Component>, f: nat, s: Component) {
    f < |final| && SameKey(s, final[f]) && forall g :: 0 <= g < f ==> !SameKey(s, final[g])
  }

  lemma {:induction false} IndexFirst(cs: seq<Component>, s: Component)
    requires DedupKey(s) in Index(cs) && DedupKey(s) != ""
    ensures exists f: nat :: FirstLike(cs, f, s) && Index(cs)[DedupKey(s)] == cs[f].bomRef
  {
    hide DedupKey, SameKey;
    var init, last := cs[..|cs| - 1], cs[|cs| - 1];
    if DedupKey(s) in Index(init) {
      IndexFirst(init, s);
      var f: nat :| FirstLike(init, f, s) && Index(init)[DedupKey(s)] == init[f].bomRef;
      assert FirstLike(cs, f, s) && cs[f] == init[f];
    } else {
      KeyIff(s, last);
      IndexIs(init);
      forall g | 0 <= g < |init| ensures !SameKey(s, cs[g]) {
        KeyIff(s, cs[g]);
        assert init[g] in init;
      }
      assert FirstLike(cs, |init|, s);
    }
  }

  lemma ChildIndexed(cs: seq<Component>, edges: seq<Edge>, digest: Component -> string, i: nat, s: Component)
    requires i < |cs| && s in cs[i].subs && Keyed(s)
    ensures var final := Lifted(cs, edges, digest).comps;
      && DedupKey(s) in Index(final)
      && exists f: nat :: FirstLike(final, f, s) && Index(final)[DedupKey(s)] == final[f].bomRef
  {
    hide Lifted, LiftFirst, Start, WithRef, DedupKey, Index, RefsFor, OneEdgeEach, SameKey, Keyed;
    ParentEdges(cs, edges, digest, i);
    KeyIff(s, s);
    assert DedupKey(s) in KeysOf(cs[i].subs);
    IndexFirst(Lifted(cs, edges, digest).comps, s);
  }

  /** Original components keep their place; behind them stand children of them, each of a key that nothing before it has. */
  lemma LiftedComponents(cs: seq<Component>, edges: seq<Edge>, digest: Component -> string)
    ensures var final := Lifted(cs, edges, digest).comps;
      && |cs| <= |final|
      && (forall i :: 0 <= i < |cs| ==> Kept(cs[i], final[i], digest))
      && (forall a :: |cs| <= a < |final| ==> Keyed(final[a]) && LiftsChild(cs, final, a, digest))
      && (forall a, b :: |cs| <= a < |final| && 0 <= b < a ==> !SameKey(final[a], final[b]))
      && (forall i, s :: 0 <= i < |cs| && s in cs[i].subs && Keyed(s) ==> exists f :: 0 <= f < |final| && SameKey(s, final[f]))
  {
    hide Lifted, LiftFirst, Start, WithRef, Promoted, DedupKey, Keyed, SameKey, Kept, LiftedFrom, KeysOf;
    var final := Lifted(cs, edges, digest).comps;
    LiftFlattens(cs, edges, digest);
    forall i | 0 <= i < |cs| ensures Kept(cs[i], final[i], digest) {
      WithRefIs(cs[i], digest);
    }
    forall a | |cs| <= a < |final| ensures Keyed(final[a]) && LiftsChild(cs, final, a, digest) {
      OneLifted(cs, edges, digest, a);
    }
    forall a, b | |cs| <= a < |final| && 0 <= b < a ensures !SameKey(final[a], final[b]) {
      AddedKeysAreFresh(cs, edges, digest, a, b);
      KeyIff(final[a], final[b]);
    }
    forall i, s | 0 <= i < |cs| && s in cs[i].subs && Keyed(s) ensures exists f :: 0 <= f < |final| && SameKey(s, final[f]) {
      ChildIndexed(cs, edges, digest, i, s);
    }
  }

  // ----- The edges -----

  /** Parent i has a keyed child, for which the target is the first component of its key. */
  ghost predicate Embeds(cs: seq<Component>, final: seq<Component>, i: nat, target: string) {
    i < |cs| && exists s, f: nat :: s in cs[i].subs && Keyed(s) && FirstLike(final, f, s) && target == final[f].bomRef
  }

  lemma OneFirst(final: seq<Component>, s: Component, f: nat, g: nat)
    requires FirstLike(final, f, s) && FirstLike(final, g, s)
    ensures f == g
  {
    hide SameKey;
  }

  lemma ParentTargets(cs: seq<Component>, edges: seq<Edge>, digest: Component -> string, i: nat, target: string)
    requires i < |cs|
    ensures var final := Lifted(cs, edges, digest).comps;
      && KeysOf(cs[i].subs) <= Index(final).Keys
      && (target in RefsFor(Index(final), cs[i].subs) <==> Embeds(cs, final, i, target))
  {
    hide Lifted, LiftFirst, Start, WithRef, DedupKey, Index, OneEdgeEach, SameKey, Keyed;
    var final := Lifted(cs, edges, digest).comps;
    ParentEdges(cs, edges, digest, i);
    forall s | s in cs[i].subs
      ensures Keyed(s) <==> DedupKey(s) != ""
      ensures Keyed(s) ==> forall f: nat :: FirstLike(final, f, s) ==> Index(final)[DedupKey(s)] == final[f].bomRef
      ensures Keyed(s) ==> exists f: nat :: FirstLike(final, f, s)
    {
      KeyIff(s, s);
      if Keyed(s) {
        ChildIndexed(cs, edges, digest, i, s);
        var f: nat :| FirstLike(final, f, s) && Index(final)[DedupKey(s)] == final[f].bomRef;
        forall g: nat | FirstLike(final, g, s) ensures g == f {
          OneFirst(final, s, f, g);
        }
      }
    }
  }

  lemma {:induction false} EdgesOfFirst(cs: seq<Component>, edges: seq<Edge>, digest: Component -> string, n: nat, e: Edge)
    requires n <= |cs|
    ensures var p, final := LiftFirst(Start(cs, edges, digest), n, digest), Lifted(cs, edges, digest).comps;
      && |cs| <= |final| && edges <= p.edges
      && (e in p.edges[|edges|..] <==> exists i: nat :: i < n && e.source == final[i].bomRef && Embeds(cs, final, i, e.target))
  {
    hide Lifted, LiftParent, WithRef, DedupKey, Index, Embeds, RefsFor, KeysOf;
    LiftFlattens(cs, edges, digest);
    if n > 0 {
      EdgesOfFirst(cs, edges, digest, n - 1, e);
      ParentEdges(cs, edges, digest, n - 1);
      ParentTargets(cs, edges, digest, n - 1, e.target);
      var a, b := LiftFirst(Start(cs, edges, digest), n - 1, digest), LiftFirst(Start(cs, edges, digest), n, digest);
      var block := b.edges[|a.edges|..];
      assert b.edges[|edges|..] == a.edges[|edges|..] + block;
      InBlock(block, Lifted(cs, edges, digest).comps[n - 1].bomRef, RefsFor(Index(Lifted(cs, edges, digest).comps), cs[n - 1].subs), e);
    }
  }

  lemma InBlock(block: seq<Edge>, source: string, targets: set<string>, e: Edge)
    requires OneEdgeEach(block, source, targets)
    ensures e in block <==> e.source == source && e.target in targets
  {
    if e.source == source && e.target in targets {
      assert e.target in (set x | x in block :: x.target);
      var x :| x in block && x.target == e.target;
      assert x == e;
    }
  }

  /** The old edges stay in front; an edge is added exactly from a parent to the first component of the key of a child. */
  lemma LiftedEdges(cs: seq<Component>, edges: seq<Edge>, digest: Component -> string, e: Edge)
    ensures var lifted := Lifted(cs, edges, digest);
      && |cs| <= |lifted.comps| && edges <= lifted.edges
      && (e in lifted.edges[|edges|..] <==>
          exists i: nat :: i < |cs| && e.source == lifted.comps[i].bomRef && Embeds(cs, lifted.comps, i, e.target))
  {
    hide LiftFirst, Start, Embeds;
    EdgesOfFirst(cs, edges, digest, |cs|, e);
  }
}
