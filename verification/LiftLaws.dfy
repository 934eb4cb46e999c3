/** What lifting guarantees for every component list (internal/enrich/extractor/enricher.go). */
module LiftLaws {
  import opened Lift

  function KeysOf(cs: seq<Component>): set<string> {
    set c | c in cs && DedupKey(c) != "" :: DedupKey(c)
  }

  function Refs(cs: seq<Component>): set<string> {
    set c | c in cs :: c.bomRef
  }

  lemma KeysSnoc(cs: seq<Component>, c: Component)
    ensures KeysOf(cs + [c]) == KeysOf(cs) + if DedupKey(c) == "" then {} else {DedupKey(c)}
  {
    hide DedupKey;
  }

  lemma {:induction false} IndexIs(cs: seq<Component>)
    ensures Index(cs).Keys == KeysOf(cs)
    ensures forall k :: k in Index(cs) ==> Index(cs)[k] in Refs(cs)
  {
    hide DedupKey, KeysOf;
    if cs == [] {
      assert KeysOf([]) == {} by { NoKeys(); }
    } else {
      var init, last := cs[..|cs| - 1], cs[|cs| - 1];
      assert cs == init + [last];
      IndexIs(init);
      KeysSnoc(init, last);
    }
  }

  lemma NoKeys()
    ensures KeysOf([]) == {}
  {
  }

  lemma {:induction false} IndexIgnoresSubs(cs: seq<Component>, i: nat, c: Component)
    requires i < |cs| && DedupKey(c) == DedupKey(cs[i]) && c.bomRef == cs[i].bomRef
    ensures Index(cs[i := c]) == Index(cs)
  {
    hide DedupKey;
    var n := |cs| - 1;
    if i < n {
      assert cs[i := c][..n] == cs[..n][i := c];
      IndexIgnoresSubs(cs[..n], i, c);
    } else {
      assert cs[i := c][..n] == cs[..n];
    }
  }

  lemma KeysIgnoreSubs(cs: seq<Component>, i: nat, c: Component)
    requires i < |cs| && DedupKey(c) == DedupKey(cs[i])
    ensures KeysOf(cs[i := c]) == KeysOf(cs)
  {
    hide DedupKey;
    var ds := cs[i := c];
    forall x | x in cs && DedupKey(x) != "" ensures DedupKey(x) in KeysOf(ds) {
      var j :| 0 <= j < |cs| && cs[j] == x;
      assert ds[j] in ds;
    }
    forall x | x in ds && DedupKey(x) != "" ensures DedupKey(x) in KeysOf(cs) {
      var j :| 0 <= j < |ds| && ds[j] == x;
      assert cs[j] in cs;
    }
  }

  // ----- One parent -----

  /** The references of the components that stand for the keyed ones of a list. */
  function RefsFor(index: map<string, string>, subs: seq<Component>): set<string>
    requires KeysOf(subs) <= index.Keys
  {
    set s | s in subs && DedupKey(s) != "" :: index[DedupKey(s)]
  }

  /** Appended components are flat, and have keys that no component before them has. */
  ghost predicate FreshFrom(cs: seq<Component>, n: nat) {
    forall a :: n <= a < |cs| ==>
      cs[a].subs == [] && DedupKey(cs[a]) != "" && DedupKey(cs[a]) !in KeysOf(cs[..a])
  }

  ghost predicate PromotedFrom(cs: seq<Component>, n: nat, subs: seq<Component>, parentRef: string, digest: Component -> string) {
    forall a :: n <= a < |cs| ==> exists s :: s in subs && cs[a] == Promoted(s, parentRef, digest)
  }

  lemma SubGrows(m: Progress, parentRef: string, sub: Component, digest: Component -> string)
    requires m.index == Index(m.comps)
    ensures var q := LiftSub(m, parentRef, sub, digest);
      && q.index == Index(q.comps) && m.comps <= q.comps
      && KeysOf(q.comps) == KeysOf(m.comps) + (if DedupKey(sub) == "" then {} else {DedupKey(sub)})
      && (forall k :: k in m.index ==> k in q.index && q.index[k] == m.index[k])
  {
    hide DedupKey, KeysOf, Promoted, Index;
    var c := Promoted(sub, parentRef, digest);
    IndexSnoc(m.comps, c);
    KeysSnoc(m.comps, c);
    IndexIs(m.comps);
  }

  /** Lifting a list of children only adds components, and covers the key of every child. */
  lemma {:induction false} SubsGrow(p: Progress, parentRef: string, subs: seq<Component>, digest: Component -> string)
    requires p.index == Index(p.comps)
    ensures var q := LiftSubs(p, parentRef, subs, digest);
      && q.index == Index(q.comps) && p.comps <= q.comps
      && KeysOf(q.comps) == KeysOf(p.comps) + KeysOf(subs)
      && (forall k :: k in p.index ==> k in q.index && q.index[k] == p.index[k])
  {
    hide DedupKey, KeysOf, LiftSub, Index;
    if subs == [] {
      NoKeys();
    } else {
      var init, sub := subs[..|subs| - 1], subs[|subs| - 1];
      assert subs == init + [sub];
      SubsGrow(p, parentRef, init, digest);
      KeysSnoc(init, sub);
      SubGrows(LiftSubs(p, parentRef, init, digest), parentRef, sub, digest);
    }
  }

  lemma FreshSnoc(cs: seq<Component>, n: nat, c: Component)
    requires FreshFrom(cs, n) && c.subs == [] && DedupKey(c) != "" && DedupKey(c) !in KeysOf(cs)
    ensures FreshFrom(cs + [c], n)
  {
    hide DedupKey, KeysOf;
    var ds := cs + [c];
    assert ds[..|cs|] == cs;
    forall a | n <= a < |cs| ensures ds[..a] == cs[..a] {
    }
  }

  lemma PromotedSnoc(cs: seq<Component>, n: nat, subs: seq<Component>, s: Component, parentRef: string, digest: Component -> string)
    requires PromotedFrom(cs, n, subs, parentRef, digest)
    ensures PromotedFrom(cs, n, subs + [s], parentRef, digest)
    ensures PromotedFrom(cs + [Promoted(s, parentRef, digest)], n, subs + [s], parentRef, digest)
  {
    hide Promoted;
    assert s in subs + [s];
    var ds := cs + [Promoted(s, parentRef, digest)];
    forall a | n <= a < |ds| ensures exists x :: x in subs + [s] && ds[a] == Promoted(x, parentRef, digest) {
      if a < |cs| {
        assert ds[a] == cs[a];
      }
    }
  }

  lemma {:induction false} SubsAreFresh(p: Progress, parentRef: string, subs: seq<Component>, digest: Component -> string)
    requires p.index == Index(p.comps)
    ensures var q := LiftSubs(p, parentRef, subs, digest);
      FreshFrom(q.comps, |p.comps|) && PromotedFrom(q.comps, |p.comps|, subs, parentRef, digest)
  {
    hide DedupKey, Promoted, FreshFrom, PromotedFrom, KeysOf, Index;
    if subs == [] {
      NothingFresh(p.comps, parentRef, digest);
    } else {
      var init, sub := subs[..|subs| - 1], subs[|subs| - 1];
      assert subs == init + [sub];
      SubsAreFresh(p, parentRef, init, digest);
      SubsGrow(p, parentRef, init, digest);
      var m := LiftSubs(p, parentRef, init, digest);
      PromotedSnoc(m.comps, |p.comps|, init, sub, parentRef, digest);
      IndexIs(m.comps);
      if DedupKey(sub) != "" && DedupKey(sub) !in m.index {
        FreshSnoc(m.comps, |p.comps|, Promoted(sub, parentRef, digest));
      }
    }
  }

  lemma NothingFresh(cs: seq<Component>, parentRef: string, digest: Component -> string)
    ensures FreshFrom(cs, |cs|) && PromotedFrom(cs, |cs|, [], parentRef, digest)
  {
  }

  ghost predicate OneEdgeEach(edges: seq<Edge>, source: string, targets: set<string>) {
    && (forall e :: e in edges ==> e.source == source)
    && (forall a, b :: 0 <= a < b < |edges| ==> edges[a].target != edges[b].target)
    && (set e | e in edges :: e.target) == targets
  }

  lemma EdgesSnoc(edges: seq<Edge>, source: string, targets: set<string>, target: string)
    requires OneEdgeEach(edges, source, targets) && target !in targets
    ensures OneEdgeEach(edges + [DependsOn(source, target)], source, targets + {target})
  {
    var more := edges + [DependsOn(source, target)];
    forall a, b | 0 <= a < b < |more| ensures more[a].target != more[b].target {
      assert more[a] == edges[a] && edges[a] in edges;
    }
    assert (set e | e in more :: e.target) == targets + {target};
  }

  lemma RefsForSnoc(index: map<string, string>, larger: map<string, string>, subs: seq<Component>, s: Component)
    requires KeysOf(subs) <= index.Keys && KeysOf(subs + [s]) <= larger.Keys
    requires forall k :: k in index ==> k in larger && larger[k] == index[k]
    ensures RefsFor(larger, subs + [s]) == RefsFor(index, subs) + if DedupKey(s) == "" then {} else {larger[DedupKey(s)]}
  {
    hide DedupKey;
    KeysSnoc(subs, s);
  }

  lemma {:induction false} SubsEdges(p: Progress, parentRef: string, subs: seq<Component>, digest: Component -> string)
    requires p.index == Index(p.comps) && p.seen == {}
    ensures var q := LiftSubs(p, parentRef, subs, digest);
      && p.edges <= q.edges && KeysOf(subs) <= q.index.Keys
      && q.seen == RefsFor(q.index, subs)
      && OneEdgeEach(q.edges[|p.edges|..], parentRef, q.seen)
  {
    hide DedupKey, Promoted, RefsFor, OneEdgeEach, KeysOf;
    var q := LiftSubs(p, parentRef, subs, digest);
    SubsGrow(p, parentRef, subs, digest);
    IndexIs(q.comps);
    if subs == [] {
      assert RefsFor(q.index, []) == {} && OneEdgeEach([], parentRef, {}) by { NoEdges(q.index, parentRef); }
      assert q.edges[|p.edges|..] == [];
    } else {
      var init, sub := subs[..|subs| - 1], subs[|subs| - 1];
      assert subs == init + [sub];
      SubsEdges(p, parentRef, init, digest);
      SubsGrow(p, parentRef, init, digest);
      SubEdge(p.edges, LiftSubs(p, parentRef, init, digest), parentRef, init, sub, digest);
    }
  }

  lemma SubEdge(edges: seq<Edge>, m: Progress, parentRef: string, init: seq<Component>, sub: Component, digest: Component -> string)
    requires edges <= m.edges && m.index == Index(m.comps) && KeysOf(init) <= m.index.Keys
    requires m.seen == RefsFor(m.index, init) && OneEdgeEach(m.edges[|edges|..], parentRef, m.seen)
    ensures var q := LiftSub(m, parentRef, sub, digest);
      && edges <= q.edges && KeysOf(init + [sub]) <= q.index.Keys
      && q.seen == RefsFor(q.index, init + [sub])
      && OneEdgeEach(q.edges[|edges|..], parentRef, q.seen)
  {
    hide DedupKey, Promoted, RefsFor, OneEdgeEach, KeysOf, LiftSub, Index;
    var q := LiftSub(m, parentRef, sub, digest);
    OneMoreSub(m, parentRef, sub, digest);
    KeysSnoc(init, sub);
    RefsForSnoc(m.index, q.index, init, sub);
    if |q.edges| > |m.edges| {
      var target := q.index[DedupKey(sub)];
      EdgesSnoc(m.edges[|edges|..], parentRef, m.seen, target);
      assert q.edges[|edges|..] == m.edges[|edges|..] + [DependsOn(parentRef, target)];
    } else {
      assert q.edges == m.edges && q.seen == m.seen;
    }
  }

  lemma NoEdges(index: map<string, string>, source: string)
    ensures KeysOf([]) <= index.Keys && RefsFor(index, []) == {} && OneEdgeEach([], source, {})
  {
  }

  lemma OneMoreSub(m: Progress, parentRef: string, sub: Component, digest: Component -> string)
    ensures var q := LiftSub(m, parentRef, sub, digest);
      && (forall k :: k in m.index ==> k in q.index && q.index[k] == m.index[k])
      && if DedupKey(sub) == "" then q == m
         else
           && DedupKey(sub) in q.index
           && q.seen == m.seen + {q.index[DedupKey(sub)]}
           && q.edges == if q.index[DedupKey(sub)] in m.seen then m.edges
                         else m.edges + [DependsOn(parentRef, q.index[DedupKey(sub)])]
  {
    hide DedupKey, Promoted;
  }

  // ----- All parents -----

  function SubKeys(cs: seq<Component>): set<string> {
    if cs == [] then {} else SubKeys(cs[..|cs| - 1]) + KeysOf(cs[|cs| - 1].subs)
  }

  /** The walk has reached component n of the original ones. */
  ghost predicate Reached(cs: seq<Component>, n: nat, p: Progress, digest: Component -> string) {
    && n <= |cs| <= |p.comps| && p.index == Index(p.comps)
    && (forall i :: 0 <= i < n ==> p.comps[i] == WithRef(cs[i], digest).(subs := []))
    && (forall i :: n <= i < |cs| ==> p.comps[i] == WithRef(cs[i], digest))
    && KeysOf(p.comps) == KeysOf(cs) + SubKeys(cs[..n])
    && FreshFrom(p.comps, |cs|)
  }

  lemma {:induction false} ReferencedKeys(cs: seq<Component>, digest: Component -> string)
    ensures KeysOf(Referenced(cs, digest)) == KeysOf(cs)
  {
    hide DedupKey, WithRef;
    var named := Referenced(cs, digest);
    forall c | c in cs && DedupKey(c) != "" ensures DedupKey(c) in KeysOf(named) {
      var i :| 0 <= i < |cs| && cs[i] == c;
      assert named[i] in named;
    }
    forall c | c in named && DedupKey(c) != "" ensures DedupKey(c) in KeysOf(cs) {
      var i :| 0 <= i < |named| && named[i] == c;
      assert cs[i] in cs;
    }
  }

  lemma FreshUpdate(cs: seq<Component>, n: nat, i: nat, c: Component)
    requires i < n <= |cs| && FreshFrom(cs, n) && DedupKey(c) == DedupKey(cs[i])
    ensures FreshFrom(cs[i := c], n)
  {
    hide DedupKey, KeysOf;
    var ds := cs[i := c];
    forall a | n <= a < |ds| ensures KeysOf(ds[..a]) == KeysOf(cs[..a]) {
      assert ds[..a] == cs[..a][i := c];
      KeysIgnoreSubs(cs[..a], i, c);
    }
  }

  lemma ReachNext(cs: seq<Component>, n: nat, p: Progress, digest: Component -> string)
    requires Reached(cs, n, p, digest) && n < |cs|
    ensures Reached(cs, n + 1, LiftParent(p, n, digest), digest)
  {
    hide DedupKey, Promoted, KeysOf, Index, FreshFrom, PromotedFrom, LiftSubs;
    var parent := p.comps[n];
    var cleared := p.comps[n := parent.(subs := [])];
    SubsIgnored(parent);
    IndexIgnoresSubs(p.comps, n, parent.(subs := []));
    KeysIgnoreSubs(p.comps, n, parent.(subs := []));
    FreshUpdate(p.comps, |cs|, n, parent.(subs := []));
    var r := p.(comps := cleared, seen := {});
    SubsGrow(r, parent.bomRef, parent.subs, digest);
    SubsAreFresh(r, parent.bomRef, parent.subs, digest);
    var q := LiftParent(p, n, digest);
    FreshJoin(cleared, |cs|, q.comps);
    assert cs[..n + 1][..n] == cs[..n];
    assert forall i :: 0 <= i < |cleared| ==> q.comps[i] == cleared[i];
  }

  lemma FreshJoin(cs: seq<Component>, n: nat, ds: seq<Component>)
    requires cs <= ds && FreshFrom(cs, n) && FreshFrom(ds, |cs|)
    ensures FreshFrom(ds, n)
  {
  }

  lemma SubsIgnored(c: Component)
    ensures DedupKey(c.(subs := [])) == DedupKey(c)
  {
  }

  lemma ReachStart(cs: seq<Component>, edges: seq<Edge>, digest: Component -> string)
    ensures Reached(cs, 0, Start(cs, edges, digest), digest)
  {
    hide Index, DedupKey, WithRef, KeysOf, FreshFrom;
    ReferencedKeys(cs, digest);
    NothingFresh(Referenced(cs, digest), "", digest);
    assert SubKeys(cs[..0]) == {};
  }

  lemma {:induction false} ReachAll(cs: seq<Component>, edges: seq<Edge>, n: nat, digest: Component -> string)
    requires n <= |cs|
    ensures Reached(cs, n, LiftFirst(Start(cs, edges, digest), n, digest), digest)
  {
    hide Reached, LiftParent, Start;
    if n == 0 {
      ReachStart(cs, edges, digest);
    } else {
      ReachAll(cs, edges, n - 1, digest);
      ReachNext(cs, n - 1, LiftFirst(Start(cs, edges, digest), n - 1, digest), digest);
    }
  }

  // ----- The result -----

  /** Nothing is nested any more; the original components are untouched but for their reference and children. */
  lemma LiftFlattens(cs: seq<Component>, edges: seq<Edge>, digest: Component -> string)
    ensures var final := Lifted(cs, edges, digest).comps;
      && |cs| <= |final|
      && (forall i :: 0 <= i < |cs| ==> final[i] == WithRef(cs[i], digest).(subs := []))
      && (forall c :: c in final ==> c.subs == [])
  {
    hide DedupKey, KeysOf, Index, WithRef;
    ReachAll(cs, edges, |cs|, digest);
  }

  /** Every added component has a key that no component before it has. */
  lemma AddedKeysAreFresh(cs: seq<Component>, edges: seq<Edge>, digest: Component -> string, a: nat, b: nat)
    requires b < a < |Lifted(cs, edges, digest).comps| && |cs| <= a
    ensures var final := Lifted(cs, edges, digest).comps;
      DedupKey(final[a]) != "" && DedupKey(final[a]) != DedupKey(final[b])
  {
    hide DedupKey, Index, WithRef;
    ReachAll(cs, edges, |cs|, digest);
    var final := Lifted(cs, edges, digest).comps;
    assert FreshFrom(final, |cs|);
    assert final[..a][b] == final[b] && final[b] in final[..a];
  }

  /** The keys at the top are exactly those that were at the top or directly below it. */
  lemma LiftedKeys(cs: seq<Component>, edges: seq<Edge>, digest: Component -> string)
    ensures KeysOf(Lifted(cs, edges, digest).comps) == KeysOf(cs) + SubKeys(cs)
  {
    hide DedupKey, Index, WithRef, KeysOf;
    ReachAll(cs, edges, |cs|, digest);
    assert cs[..|cs|] == cs;
  }

  /** The edges that parent i adds: one for each distinct component that stands for one of its keyed children. */
  lemma ParentEdges(cs: seq<Component>, edges: seq<Edge>, digest: Component -> string, i: nat)
    requires i < |cs|
    ensures var a, b := LiftFirst(Start(cs, edges, digest), i, digest), LiftFirst(Start(cs, edges, digest), i + 1, digest);
      var index := Index(Lifted(cs, edges, digest).comps);
      && a.edges <= b.edges && KeysOf(cs[i].subs) <= index.Keys
      && OneEdgeEach(b.edges[|a.edges|..], WithRef(cs[i], digest).bomRef, RefsFor(index, cs[i].subs))
  {
    hide DedupKey, KeysOf, Index, FreshFrom, OneEdgeEach, RefsFor, LiftSubs, WithRef, Start;
    var start := Start(cs, edges, digest);
    var a, b := LiftFirst(start, i, digest), LiftFirst(start, i + 1, digest);
    ReachAll(cs, edges, i, digest);
    var parent := a.comps[i];
    SubsIgnored(parent);
    IndexIgnoresSubs(a.comps, i, parent.(subs := []));
    var r := a.(comps := a.comps[i := parent.(subs := [])], seen := {});
    SubsEdges(r, parent.bomRef, parent.subs, digest);
    IndexOnlyGrows(cs, edges, digest, i + 1, |cs|);
    ReachAll(cs, edges, |cs|, digest);
    SameRefs(b.index, Lifted(cs, edges, digest).index, cs[i].subs);
  }

  lemma SameRefs(index: map<string, string>, larger: map<string, string>, subs: seq<Component>)
    requires KeysOf(subs) <= index.Keys && forall k :: k in index ==> k in larger && larger[k] == index[k]
    ensures KeysOf(subs) <= larger.Keys && RefsFor(larger, subs) == RefsFor(index, subs)
  {
    hide DedupKey;
  }

  lemma {:induction false} IndexOnlyGrows(cs: seq<Component>, edges: seq<Edge>, digest: Component -> string, i: nat, n: nat)
    requires i <= n <= |cs|
    ensures var a, b := LiftFirst(Start(cs, edges, digest), i, digest), LiftFirst(Start(cs, edges, digest), n, digest);
      && (forall k :: k in a.index ==> k in b.index && b.index[k] == a.index[k])
      && |a.comps| <= |b.comps| && Refs(a.comps) <= Refs(b.comps)
  {
    hide LiftParent, Start, Refs, Index;
    if i < n {
      IndexOnlyGrows(cs, edges, digest, i, n - 1);
      IndexIsExact(cs, edges, digest, n - 1);
      ParentGrows(LiftFirst(Start(cs, edges, digest), n - 1, digest), n - 1, digest);
    }
  }

  lemma IndexIsExact(cs: seq<Component>, edges: seq<Edge>, digest: Component -> string, n: nat)
    requires n <= |cs|
    ensures var p := LiftFirst(Start(cs, edges, digest), n, digest);
      |cs| <= |p.comps| && p.index == Index(p.comps)
  {
    hide LiftFirst, Start, Index, FreshFrom, KeysOf;
    ReachAll(cs, edges, n, digest);
  }

  lemma ParentGrows(p: Progress, i: nat, digest: Component -> string)
    requires i < |p.comps| && p.index == Index(p.comps)
    ensures var q := LiftParent(p, i, digest);
      (forall k :: k in p.index ==> k in q.index && q.index[k] == p.index[k]) && Refs(p.comps) <= Refs(q.comps)
  {
    hide DedupKey, Index, KeysOf, LiftSubs;
    var parent := p.comps[i];
    var cleared := p.comps[i := parent.(subs := [])];
    SubsIgnored(parent);
    IndexIgnoresSubs(p.comps, i, parent.(subs := []));
    SubsGrow(p.(comps := cleared, seen := {}), parent.bomRef, parent.subs, digest);
    var q := LiftParent(p, i, digest);
    forall c | c in p.comps ensures c.bomRef in Refs(q.comps) {
      var j :| 0 <= j < |p.comps| && p.comps[j] == c;
      assert q.comps[j] == cleared[j] && q.comps[j].bomRef == c.bomRef;
    }
  }

  /** No added edge dangles: both ends are references of top-level components. */
  lemma {:induction false} NoDanglingEdges(cs: seq<Component>, edges: seq<Edge>, digest: Component -> string, n: nat)
    requires n <= |cs|
    ensures var p := LiftFirst(Start(cs, edges, digest), n, digest);
      && edges <= p.edges
      && forall e :: e in p.edges[|edges|..] ==> e.source in Refs(p.comps) && e.target in Refs(p.comps)
  {
    hide DedupKey, KeysOf, Index, FreshFrom, OneEdgeEach, RefsFor, Refs, LiftParent;
    if n > 0 {
      NoDanglingEdges(cs, edges, digest, n - 1);
      var start := Start(cs, edges, digest);
      var a, b := LiftFirst(start, n - 1, digest), LiftFirst(start, n, digest);
      ReachAll(cs, edges, n - 1, digest);
      IndexOnlyGrows(cs, edges, digest, n - 1, n);
      ParentEnds(a, n - 1, digest);
      assert b.edges[|edges|..] == a.edges[|edges|..] + b.edges[|a.edges|..];
    }
  }

  lemma ParentEnds(p: Progress, i: nat, digest: Component -> string)
    requires i < |p.comps| && p.index == Index(p.comps)
    ensures var q := LiftParent(p, i, digest);
      && p.edges <= q.edges
      && forall e :: e in q.edges[|p.edges|..] ==> e.source in Refs(q.comps) && e.target in Refs(q.comps)
  {
    hide DedupKey, KeysOf, Index, Refs, LiftSubs, RefsFor;
    var parent := p.comps[i];
    var cleared := p.comps[i := parent.(subs := [])];
    SubsIgnored(parent);
    IndexIgnoresSubs(p.comps, i, parent.(subs := []));
    var r := p.(comps := cleared, seen := {});
    SubsGrow(r, parent.bomRef, parent.subs, digest);
    SubsEdges(r, parent.bomRef, parent.subs, digest);
    var q := LiftParent(p, i, digest);
    IndexIs(q.comps);
    InRefs(q.comps, i);
    RefsForInRefs(q.comps, parent.subs);
    var block := q.edges[|p.edges|..];
    forall e | e in block ensures e.source in Refs(q.comps) && e.target in Refs(q.comps) {
      assert e.target in (set x | x in block :: x.target);
    }
  }

  lemma RefsForInRefs(cs: seq<Component>, subs: seq<Component>)
    requires KeysOf(subs) <= Index(cs).Keys
    ensures RefsFor(Index(cs), subs) <= Refs(cs)
  {
    IndexIs(cs);
    hide DedupKey, Index, Refs;
  }

  lemma InRefs(cs: seq<Component>, i: nat)
    requires i < |cs|
    ensures cs[i].bomRef in Refs(cs)
  {
  }

  // ----- A second call -----

  lemma {:induction false} FlatStays(p: Progress, n: nat, digest: Component -> string)
    requires n <= |p.comps| && forall i :: 0 <= i < n ==> p.comps[i].subs == []
    ensures LiftFirst(p, n, digest).comps == p.comps && LiftFirst(p, n, digest).edges == p.edges
  {
    hide LiftParent;
    if n > 0 {
      FlatStays(p, n - 1, digest);
      FlatParent(LiftFirst(p, n - 1, digest), n - 1, digest);
    }
  }

  lemma FlatParent(p: Progress, i: nat, digest: Component -> string)
    requires i < |p.comps| && p.comps[i].subs == []
    ensures LiftParent(p, i, digest).comps == p.comps && LiftParent(p, i, digest).edges == p.edges
  {
    assert p.comps[i].(subs := []) == p.comps[i];
    assert p.comps[i := p.comps[i]] == p.comps;
  }

  /** Lifting again adds no component and no edge. */
  lemma SecondLiftAddsNothing(cs: seq<Component>, edges: seq<Edge>, digest: Component -> string)
    ensures var once := Lifted(cs, edges, digest);
      var twice := Lifted(once.comps, once.edges, digest);
      twice.comps == once.comps && twice.edges == once.edges
  {
    hide DedupKey, Index, KeysOf;
    var once := Lifted(cs, edges, digest);
    LiftFlattens(cs, edges, digest);
    AllReferenced(cs, edges, digest);
    assert Referenced(once.comps, digest) == once.comps;
    FlatStays(Start(once.comps, once.edges, digest), |once.comps|, digest);
  }

  lemma {:induction false} RefsStayFilled(p: Progress, parentRef: string, subs: seq<Component>, digest: Component -> string)
    requires forall c :: c in p.comps ==> c.bomRef != ""
    ensures forall c :: c in LiftSubs(p, parentRef, subs, digest).comps ==> c.bomRef != ""
  {
    hide DedupKey, WithRef;
    if subs != [] {
      RefsStayFilled(p, parentRef, subs[..|subs| - 1], digest);
    }
  }

  lemma {:induction false} AllReferencedAt(p: Progress, n: nat, digest: Component -> string)
    requires n <= |p.comps| && forall c :: c in p.comps ==> c.bomRef != ""
    ensures forall c :: c in LiftFirst(p, n, digest).comps ==> c.bomRef != ""
  {
    hide LiftSubs;
    if n > 0 {
      AllReferencedAt(p, n - 1, digest);
      var m := LiftFirst(p, n - 1, digest);
      var parent := m.comps[n - 1];
      RefsStayFilled(m.(comps := m.comps[n - 1 := parent.(subs := [])], seen := {}), parent.bomRef, parent.subs, digest);
    }
  }

  lemma AllReferenced(cs: seq<Component>, edges: seq<Edge>, digest: Component -> string)
    ensures forall c :: c in Lifted(cs, edges, digest).comps ==> c.bomRef != ""
  {
    hide LiftFirst, Index;
    AllReferencedAt(Start(cs, edges, digest), |cs|, digest);
  }

  // ----- Where the added components come from -----

  ghost predicate PromotesChild(cs: seq<Component>, n: nat, c: Component, digest: Component -> string)
    requires n <= |cs|
  {
    exists i: nat, s :: i < n && s in cs[i].subs && c == Promoted(s, WithRef(cs[i], digest).bomRef, digest)
  }

  /** Every added component is a direct child of an original one, named after it; grandchildren are not looked at. */
  lemma {:induction false} AddedArePromoted(cs: seq<Component>, edges: seq<Edge>, digest: Component -> string, n: nat, a: nat)
    requires n <= |cs|
    requires |cs| <= a < |LiftFirst(Start(cs, edges, digest), n, digest).comps|
    ensures PromotesChild(cs, n, LiftFirst(Start(cs, edges, digest), n, digest).comps[a], digest)
  {
    hide DedupKey, Promoted, Index, KeysOf, FreshFrom, Start, LiftSubs, WithRef;
    var start := Start(cs, edges, digest);
    if n > 0 {
      var p := LiftFirst(start, n - 1, digest);
      ReachAll(cs, edges, n - 1, digest);
      var parent := p.comps[n - 1];
      var cleared := p.comps[n - 1 := parent.(subs := [])];
      SubsIgnored(parent);
      IndexIgnoresSubs(p.comps, n - 1, parent.(subs := []));
      var r := p.(comps := cleared, seen := {});
      SubsGrow(r, parent.bomRef, parent.subs, digest);
      SubsAreFresh(r, parent.bomRef, parent.subs, digest);
      var q := LiftParent(p, n - 1, digest);
      if a < |p.comps| {
        assert q.comps[a] == cleared[a] == p.comps[a];
        AddedArePromoted(cs, edges, digest, n - 1, a);
        var i: nat, s :| i < n - 1 && s in cs[i].subs && p.comps[a] == Promoted(s, WithRef(cs[i], digest).bomRef, digest);
        assert s in cs[i].subs;
      } else {
        var s :| s in parent.subs && q.comps[a] == Promoted(s, parent.bomRef, digest);
        assert s in cs[n - 1].subs;
      }
    }
  }
}
