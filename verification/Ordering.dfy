/**
  Enricher scheduling: Kahn's algorithm over declared dependencies, with
  dependencies on absent enrichers dropped (internal/enrich/ordering.go).
*/
module Ordering {
  datatype Enricher = Enricher(name: string, deps: seq<string>)

  datatype Outcome =
    | Sorted(order: seq<Enricher>)
    | Duplicate(name: string)
    | Cyclic(names: seq<string>)

  ghost function Names(es: seq<Enricher>): set<string> {
    set e | e in es :: e.name
  }

  ghost predicate DistinctNames(es: seq<Enricher>) {
    forall i, j :: 0 <= i < j < |es| ==> es[i].name != es[j].name
  }

  /** Every dependency that is present stands earlier. */
  ghost predicate DepsFirst(es: seq<Enricher>, order: seq<Enricher>) {
    forall i, d :: 0 <= i < |order| && d in order[i].deps && d in Names(es) ==>
      exists j :: 0 <= j < i && order[j].name == d
  }

  // ----- First in, first out -----

  ghost predicate Precedes(es: seq<Enricher>, a: string, b: string) {
    exists i, j :: 0 <= i < j < |es| && es[i].name == a && es[j].name == b
  }

  /** The first place of a name; the length of the list where it is missing. */
  function Position(order: seq<Enricher>, name: string): (p: nat)
    ensures p <= |order|
    ensures p < |order| <==> exists i :: 0 <= i < |order| && order[i].name == name
    ensures p < |order| ==> order[p].name == name
  {
    if order == [] then 0
    else
      var p := Position(order[..|order| - 1], name);
      if p < |order| - 1 || order[|order| - 1].name == name then p else |order|
  }

  /** How many enrichers must have run until the last present dependency has. */
  ghost function ReadyAfter(es: seq<Enricher>, order: seq<Enricher>, deps: seq<string>): nat {
    if deps == [] then 0
    else
      var n, d := ReadyAfter(es, order, deps[..|deps| - 1]), deps[|deps| - 1];
      if d in Names(es) && n < Position(order, d) + 1 then Position(order, d) + 1 else n
  }

  /** Whoever is ready earlier runs earlier; those who become ready together run in input order. */
  ghost predicate Fifo(es: seq<Enricher>, order: seq<Enricher>) {
    forall i, j :: 0 <= i < j < |order| ==>
      var a, b := ReadyAfter(es, order, order[i].deps), ReadyAfter(es, order, order[j].deps);
      a < b || (a == b && Precedes(es, order[i].name, order[j].name))
  }

  lemma {:induction false} ReadyStays(es: seq<Enricher>, order: seq<Enricher>, more: seq<Enricher>, deps: seq<string>)
    requires forall d :: d in deps && d in Names(es) ==> Position(order, d) < |order|
    ensures ReadyAfter(es, order + more, deps) == ReadyAfter(es, order, deps) <= |order|
  {
    hide Names, Position;
    if deps != [] {
      var init, d := deps[..|deps| - 1], deps[|deps| - 1];
      assert deps == init + [d];
      ReadyStays(es, order, more, init);
      if d in Names(es) {
        PositionInPrefix(order, more, d);
      }
    }
  }

  lemma {:induction false} PositionInPrefix(order: seq<Enricher>, more: seq<Enricher>, name: string)
    requires Position(order, name) < |order|
    ensures Position(order + more, name) == Position(order, name)
    decreases |more|
  {
    if more == [] {
      assert order + more == order;
    } else {
      var init, e := more[..|more| - 1], more[|more| - 1];
      PositionInPrefix(order, init, name);
      assert order + more == (order + init) + [e];
    }
  }

  lemma {:induction false} ReadyAt(es: seq<Enricher>, order: seq<Enricher>, deps: seq<string>, h: nat)
    requires forall d :: d in deps && d in Names(es) ==> Position(order, d) <= h
    ensures ReadyAfter(es, order, deps) <= h + 1
    ensures forall d :: d in deps && d in Names(es) ==> ReadyAfter(es, order, deps) >= Position(order, d) + 1
  {
    hide Names, Position;
    if deps != [] {
      var init, d := deps[..|deps| - 1], deps[|deps| - 1];
      assert deps == init + [d];
      ReadyAt(es, order, init, h);
    }
  }

  ghost predicate InInputOrder(es: seq<Enricher>, names: seq<string>) {
    forall a, b :: 0 <= a < b < |names| ==> names[a] == names[b] || Precedes(es, names[a], names[b])
  }

  ghost predicate AllInOrder(es: seq<Enricher>, dependents: map<string, seq<string>>) {
    forall d :: InInputOrder(es, Get(dependents, d))
  }

  /** listed[..h] have run; all that are listed wait for none but those. */
  ghost predicate Runnable(es: seq<Enricher>, listed: seq<Enricher>, h: nat) {
    h <= |listed| && forall i, d :: 0 <= i < |listed| && d in listed[i].deps && d in Names(es) ==> Position(listed, d) < h
  }

  /** What the h-th enricher releases goes behind everything listed so far. */
  lemma FifoExtends(es: seq<Enricher>, listed: seq<Enricher>, added: seq<Enricher>, h: nat)
    requires Fifo(es, listed) && Runnable(es, listed, h) && h < |listed| && DistinctNames(listed + added)
    requires forall a :: 0 <= a < |added| ==> listed[h].name in added[a].deps && listed[h].name in Names(es)
    requires forall a, d :: 0 <= a < |added| && d in added[a].deps && d in Names(es) ==> Position(listed, d) <= h
    requires forall a, b :: 0 <= a < b < |added| ==> Precedes(es, added[a].name, added[b].name)
    ensures Fifo(es, listed + added) && Runnable(es, listed + added, h + 1)
  {
    hide Names, Position, ReadyAfter, Precedes;
    var all := listed + added;
    forall i, d | 0 <= i < |all| && d in all[i].deps && d in Names(es)
      ensures Position(listed, d) <= h && Position(all, d) == Position(listed, d)
    {
      PositionInPrefix(listed, added, d);
    }
    forall i | 0 <= i < |listed|
      ensures ReadyAfter(es, all, all[i].deps) == ReadyAfter(es, listed, listed[i].deps) <= h
    {
      ReadyStays(es, listed, added, listed[i].deps);
      NotLater(es, listed, listed[i].deps, h);
    }
    forall i | |listed| <= i < |all| ensures ReadyAfter(es, all, all[i].deps) == h + 1 {
      assert all[i] == added[i - |listed|];
      ReadyAt(es, all, all[i].deps, h);
      HeadPosition(listed, added, h);
    }
  }

  lemma NotLater(es: seq<Enricher>, order: seq<Enricher>, deps: seq<string>, h: nat)
    requires forall d :: d in deps && d in Names(es) ==> Position(order, d) < h
    ensures ReadyAfter(es, order, deps) <= h
  {
    if h == 0 {
      NoPresentDeps(es, order, deps);
    } else {
      ReadyAt(es, order, deps, h - 1);
    }
  }

  lemma {:induction false} NoPresentDeps(es: seq<Enricher>, order: seq<Enricher>, deps: seq<string>)
    requires forall d :: d in deps ==> d !in Names(es)
    ensures ReadyAfter(es, order, deps) == 0
  {
    hide Names;
    if deps != [] {
      var init, d := deps[..|deps| - 1], deps[|deps| - 1];
      assert deps == init + [d];
      NoPresentDeps(es, order, init);
    }
  }

  lemma HeadPosition(listed: seq<Enricher>, added: seq<Enricher>, h: nat)
    requires h < |listed| && DistinctNames(listed + added)
    ensures Position(listed + added, listed[h].name) == h
  {
    var all := listed + added;
    assert all[h].name == listed[h].name;
  }

  // ----- Cycles -----

  ghost predicate DependsOn(es: seq<Enricher>, a: string, b: string) {
    b in Names(es) && exists e :: e in es && e.name == a && b in e.deps
  }

  ghost predicate DependencyPath(es: seq<Enricher>, p: seq<string>) {
    forall i :: 0 <= i < |p| - 1 ==> DependsOn(es, p[i], p[i + 1])
  }

  /** A dependency path that ends on a name it already passed. */
  ghost predicate Lasso(es: seq<Enricher>, p: seq<string>) {
    && |p| >= 2 && DependencyPath(es, p)
    && exists i :: 0 <= i < |p| - 1 && p[i] == p[|p| - 1]
  }

  /** On a dependency cycle, or downstream of one. */
  ghost predicate ReachesCycle(es: seq<Enricher>, name: string) {
    exists p :: Lasso(es, p) && p[0] == name
  }

  ghost predicate SelfSupporting(es: seq<Enricher>, s: set<string>) {
    s <= Names(es) && forall a :: a in s ==> exists b :: b in s && DependsOn(es, a, b)
  }

  lemma {:induction false} WalkInside(es: seq<Enricher>, s: set<string>, from: string, steps: nat) returns (p: seq<string>)
    requires SelfSupporting(es, s) && from in s
    ensures |p| == steps + 1 && p[0] == from && DependencyPath(es, p)
    ensures forall x :: x in p ==> x in s
    decreases steps
  {
    hide DependsOn, Names, DependencyPath;
    if steps == 0 {
      p := [from];
      OneName(es, from);
    } else {
      var next :| next in s && DependsOn(es, from, next);
      var rest := WalkInside(es, s, next, steps - 1);
      p := [from] + rest;
      PathGrows(es, from, rest);
    }
  }

  lemma OneName(es: seq<Enricher>, from: string)
    ensures DependencyPath(es, [from])
  {
  }

  lemma PathGrows(es: seq<Enricher>, from: string, rest: seq<string>)
    requires rest != [] && DependencyPath(es, rest) && DependsOn(es, from, rest[0])
    ensures DependencyPath(es, [from] + rest)
  {
    hide DependsOn;
    var p := [from] + rest;
    forall i | 0 <= i < |p| - 1 ensures DependsOn(es, p[i], p[i + 1]) {
      assert i > 0 ==> p[i] == rest[i - 1] && p[i + 1] == rest[i];
    }
  }

  lemma {:induction false} DistinctFits<T>(p: seq<T>, s: set<T>)
    requires forall x :: x in p ==> x in s
    requires forall i, j :: 0 <= i < j < |p| ==> p[i] != p[j]
    ensures |p| <= |s|
  {
    if p != [] {
      DistinctFits(p[1..], s - {p[0]});
    }
  }

  lemma SelfSupportingReachesCycle(es: seq<Enricher>, s: set<string>, name: string)
    requires SelfSupporting(es, s) && name in s
    ensures ReachesCycle(es, name)
  {
    hide DependsOn, SelfSupporting;
    var p := WalkInside(es, s, name, |s|);
    if forall i, j :: 0 <= i < j < |p| ==> p[i] != p[j] {
      DistinctFits(p, s);
    }
    var i, j :| 0 <= i < j < |p| && p[i] == p[j];
    var q := p[..j + 1];
    assert q[i] == q[|q| - 1] && DependencyPath(es, q);
  }

  lemma CycleSupportsItself(es: seq<Enricher>, name: string)
    requires ReachesCycle(es, name)
    ensures name in Names(es) && exists next :: DependsOn(es, name, next) && ReachesCycle(es, next)
  {
    var p :| Lasso(es, p) && p[0] == name;
    assert DependsOn(es, p[0], p[1]);
    var q := LassoBehind(es, p);
    DependentIsPresent(es, p);
  }

  lemma DependentIsPresent(es: seq<Enricher>, p: seq<string>)
    requires Lasso(es, p)
    ensures p[0] in Names(es)
  {
    assert DependsOn(es, p[0], p[1]);
  }

  /** What is left of a lasso behind its first name is one, too; a lasso closed at that name is closed at the next. */
  lemma LassoBehind(es: seq<Enricher>, p: seq<string>) returns (q: seq<string>)
    requires Lasso(es, p)
    ensures Lasso(es, q) && q[0] == p[1]
  {
    hide DependsOn;
    var i :| 0 <= i < |p| - 1 && p[i] == p[|p| - 1];
    q := if i == 0 then p[1..] + [p[1]] else p[1..];
    forall k | 0 <= k < |q| - 1 ensures DependsOn(es, q[k], q[k + 1]) {
      if k < |p| - 2 {
        assert DependsOn(es, p[k + 1], p[k + 2]);
      } else {
        assert DependsOn(es, p[0], p[1]);
      }
    }
    if i == 0 {
      assert q[0] == q[|q| - 1];
    } else {
      assert q[i - 1] == q[|q| - 1];
    }
  }

  /** The names on or downstream of a cycle form the largest set in which every member depends on a member. */
  lemma ReachesCycleIsLargest(es: seq<Enricher>, s: set<string>)
    requires forall name :: name in s <==> ReachesCycle(es, name)
    ensures SelfSupporting(es, s)
    ensures forall t: set<string> :: SelfSupporting(es, t) ==> t <= s
  {
    forall a | a in s ensures a in Names(es) && exists b :: b in s && DependsOn(es, a, b) {
      CycleSupportsItself(es, a);
    }
    forall t: set<string>, name | SelfSupporting(es, t) && name in t ensures name in s {
      SelfSupportingReachesCycle(es, t, name);
    }
  }

  // ----- Counting what an enricher still waits for -----

  function Pending(deps: seq<string>, waiting: set<string>): nat {
    if deps == [] then 0
    else Pending(deps[..|deps| - 1], waiting) + if deps[|deps| - 1] in waiting then 1 else 0
  }

  lemma {:induction false} PendingZero(deps: seq<string>, waiting: set<string>)
    ensures Pending(deps, waiting) == 0 <==> forall d :: d in deps ==> d !in waiting
  {
    if deps != [] {
      PendingZero(deps[..|deps| - 1], waiting);
      assert deps == deps[..|deps| - 1] + [deps[|deps| - 1]];
    }
  }

  /** Emitting h takes one off for every time h is listed, repeated dependencies included. */
  lemma {:induction false} PendingWithout(deps: seq<string>, waiting: set<string>, h: string)
    requires h in waiting
    ensures Pending(deps, waiting) == Pending(deps, waiting - {h}) + multiset(deps)[h]
  {
    if deps != [] {
      PendingWithout(deps[..|deps| - 1], waiting, h);
      assert deps == deps[..|deps| - 1] + [deps[|deps| - 1]];
    }
  }

  // ----- The algorithm -----

  method IndexByName(es: seq<Enricher>) returns (names: set<string>, duplicate: string, ok: bool)
    ensures ok <==> DistinctNames(es)
    ensures ok ==> names == Names(es)
    ensures !ok ==> exists i, j :: 0 <= i < j < |es| && es[i].name == es[j].name == duplicate && DistinctNames(es[..j])
  {
    names, duplicate := {}, "";
    var i := 0;
    while i < |es|
      invariant 0 <= i <= |es|
      invariant names == Names(es[..i]) && DistinctNames(es[..i])
    {
      if es[i].name in names {
        ghost var k :| 0 <= k < i && es[k].name == es[i].name;
        return names, es[i].name, false;
      }
      names := names + {es[i].name};
      assert es[..i + 1] == es[..i] + [es[i]];
      i := i + 1;
    }
    assert es[..i] == es;
    return names, duplicate, true;
  }

  function Get(m: map<string, seq<string>>, key: string): seq<string> {
    if key in m then m[key] else []
  }

  /** The in-degrees when counted[m] is what has been read of the m-th dependency list. */
  ghost predicate DegreesFor(es: seq<Enricher>, counted: seq<seq<string>>, names: set<string>, inDegree: map<string, int>)
    requires |counted| == |es|
  {
    && inDegree.Keys == names
    && forall m :: 0 <= m < |es| ==> es[m].name in names && inDegree[es[m].name] == Pending(counted[m], names)
  }

  /** A dependent is listed once for every time it mentions the dependency. */
  ghost predicate DependentsFor(es: seq<Enricher>, counted: seq<seq<string>>, names: set<string>, dependents: map<string, seq<string>>)
    requires |counted| == |es|
  {
    && (forall m, d :: 0 <= m < |es| && d in names ==> multiset(Get(dependents, d))[es[m].name] == multiset(counted[m])[d])
    && (forall d, n :: n in Get(dependents, d) ==> n in names)
  }

  ghost function AllDeps(es: seq<Enricher>): (r: seq<seq<string>>)
    ensures |r| == |es| && forall m :: 0 <= m < |es| ==> r[m] == es[m].deps
  {
    seq(|es|, m requires 0 <= m < |es| => es[m].deps)
  }

  lemma PendingSnoc(deps: seq<string>, d: string, waiting: set<string>)
    ensures Pending(deps + [d], waiting) == Pending(deps, waiting) + if d in waiting then 1 else 0
    ensures forall x :: multiset(deps + [d])[x] == multiset(deps)[x] + if x == d then 1 else 0
  {
    assert (deps + [d])[..|deps|] == deps;
  }

  lemma CountDegree(es: seq<Enricher>, counted: seq<seq<string>>, i: nat, dep: string, names: set<string>, inDegree: map<string, int>)
    requires |counted| == |es| && i < |es| && DistinctNames(es)
    requires DegreesFor(es, counted, names, inDegree)
    ensures es[i].name in inDegree
    ensures DegreesFor(es, counted[i := counted[i] + [dep]], names,
      if dep in names then inDegree[es[i].name := inDegree[es[i].name] + 1] else inDegree)
  {
    hide Pending;
    PendingSnoc(counted[i], dep, names);
  }

  lemma CountDependent(es: seq<Enricher>, counted: seq<seq<string>>, i: nat, dep: string, names: set<string>, dependents: map<string, seq<string>>)
    requires |counted| == |es| && i < |es| && DistinctNames(es) && es[i].name in names
    requires DependentsFor(es, counted, names, dependents)
    ensures DependentsFor(es, counted[i := counted[i] + [dep]], names,
      if dep in names then dependents[dep := Get(dependents, dep) + [es[i].name]] else dependents)
  {
    var name, listed := es[i].name, Get(dependents, dep);
    var counted' := counted[i := counted[i] + [dep]];
    var dependents' := if dep in names then dependents[dep := listed + [name]] else dependents;
    forall m, d | 0 <= m < |es| && d in names
      ensures multiset(Get(dependents', d))[es[m].name] == multiset(counted'[m])[d]
    {
      CountMention(es, counted, i, dep, names, dependents, m, d);
    }
    forall d, n | n in Get(dependents', d) ensures n in names {
      assert n in Get(dependents, d) || n == name;
    }
  }

  lemma CountMention(
    es: seq<Enricher>, counted: seq<seq<string>>, i: nat, dep: string, names: set<string>,
    dependents: map<string, seq<string>>, m: nat, d: string)
    requires |counted| == |es| && i < |es| && DistinctNames(es) && m < |es| && d in names
    requires multiset(Get(dependents, d))[es[m].name] == multiset(counted[m])[d]
    ensures var dependents' := if dep in names then dependents[dep := Get(dependents, dep) + [es[i].name]] else dependents;
      multiset(Get(dependents', d))[es[m].name] == multiset(counted[i := counted[i] + [dep]][m])[d]
  {
    hide Pending, Get;
    var listed := Get(dependents, dep);
    GetUpdated(dependents, dep, listed + [es[i].name]);
    SnocCount(listed, es[i].name, es[m].name);
    SnocCount(counted[i], dep, d);
    assert m != i ==> es[m].name != es[i].name;
  }

  /** Lists are walked in input order, so the newest dependent goes last. */
  lemma AppendsInOrder(es: seq<Enricher>, counted: seq<seq<string>>, i: nat, dep: string, names: set<string>, dependents: map<string, seq<string>>)
    requires |counted| == |es| && i < |es| && DependentsFor(es, counted, names, dependents) && names == Names(es)
    requires forall m :: i < m < |es| ==> counted[m] == []
    requires AllInOrder(es, dependents)
    ensures dep in names ==> AllInOrder(es, dependents[dep := Get(dependents, dep) + [es[i].name]])
  {
    if dep in names {
      var listed := Get(dependents, dep);
      GetUpdated(dependents, dep, listed + [es[i].name]);
      forall a | 0 <= a < |listed| ensures listed[a] == es[i].name || Precedes(es, listed[a], es[i].name) {
        ListedIsCounted(es, counted, dep, names, dependents, listed[a], i);
      }
      hide Precedes, Get;
      assert InInputOrder(es, listed);
      assert InInputOrder(es, listed + [es[i].name]);
      var next := dependents[dep := listed + [es[i].name]];
      forall d ensures InInputOrder(es, Get(next, d)) {
        assert InInputOrder(es, Get(dependents, d));
      }
    }
  }

  lemma ListedIsCounted(es: seq<Enricher>, counted: seq<seq<string>>, dep: string, names: set<string>, dependents: map<string, seq<string>>, name: string, i: nat)
    requires |counted| == |es| && i < |es| && DependentsFor(es, counted, names, dependents) && names == Names(es)
    requires forall m :: i < m < |es| ==> counted[m] == []
    requires dep in names && name in Get(dependents, dep)
    ensures name == es[i].name || Precedes(es, name, es[i].name)
  {
    assert name in Names(es);
    var m :| 0 <= m < |es| && es[m].name == name;
    assert multiset(counted[m])[dep] > 0;
    assert m <= i;
  }

  lemma NothingListed(es: seq<Enricher>)
    ensures AllInOrder(es, map[])
  {
  }

  lemma GetUpdated(m: map<string, seq<string>>, key: string, value: seq<string>)
    ensures forall d :: Get(m[key := value], d) == if d == key then value else Get(m, d)
  {
    forall d ensures Get(m[key := value], d) == if d == key then value else Get(m, d) {
      assert d in m[key := value] <==> d == key || d in m;
    }
  }

  lemma SnocCount(s: seq<string>, last: string, x: string)
    ensures multiset(s + [last])[x] == multiset(s)[x] + if x == last then 1 else 0
  {
  }

  /** The dependency lists as far as they have been read: i whole lists, and k entries of the next. */
  ghost function ReadSoFar(es: seq<Enricher>, i: nat, k: nat): (r: seq<seq<string>>)
    requires i < |es| ==> k <= |es[i].deps|
    ensures |r| == |es|
    ensures forall m :: 0 <= m < |es| ==> r[m] == if m < i then es[m].deps else if m == i then es[m].deps[..k] else []
  {
    seq(|es|, m requires 0 <= m < |es| => if m < i then es[m].deps else if m == i then es[m].deps[..k] else [])
  }

  lemma ReadBounds(es: seq<Enricher>, i: nat)
    ensures ReadSoFar(es, |es|, 0) == AllDeps(es)
    ensures i < |es| ==> ReadSoFar(es, i, |es[i].deps|) == ReadSoFar(es, i + 1, 0)
  {
    if i < |es| {
      assert es[i].deps[..|es[i].deps|] == es[i].deps;
    }
  }

  /** The graph of the dependency lists read so far. */
  ghost predicate Built(es: seq<Enricher>, counted: seq<seq<string>>, inDegree: map<string, int>, dependents: map<string, seq<string>>)
    requires |counted| == |es|
  {
    && DegreesFor(es, counted, Names(es), inDegree)
    && DependentsFor(es, counted, Names(es), dependents)
    && AllInOrder(es, dependents)
  }

  lemma ReadOne(es: seq<Enricher>, i: nat, k: nat, inDegree: map<string, int>, dependents: map<string, seq<string>>)
    requires DistinctNames(es) && i < |es| && k < |es[i].deps|
    requires Built(es, ReadSoFar(es, i, k), inDegree, dependents)
    ensures es[i].name in inDegree
    ensures var name, dep := es[i].name, es[i].deps[k];
      if dep in Names(es)
      then Built(es, ReadSoFar(es, i, k + 1), inDegree[name := inDegree[name] + 1], dependents[dep := Get(dependents, dep) + [name]])
      else Built(es, ReadSoFar(es, i, k + 1), inDegree, dependents)
  {
    var counted, dep := ReadSoFar(es, i, k), es[i].deps[k];
    assert es[i] in es && es[i].name in Names(es);
    hide DegreesFor, DependentsFor, Get, AllInOrder, Names, DistinctNames;
    assert es[i].deps[..k + 1] == es[i].deps[..k] + [dep];
    assert ReadSoFar(es, i, k + 1) == counted[i := counted[i] + [dep]];
    CountDegree(es, counted, i, dep, Names(es), inDegree);
    CountDependent(es, counted, i, dep, Names(es), dependents);
    AppendsInOrder(es, counted, i, dep, Names(es), dependents);
  }

  method BuildGraph(es: seq<Enricher>, names: set<string>)
    returns (inDegree: map<string, int>, dependents: map<string, seq<string>>)
    requires DistinctNames(es) && names == Names(es)
    ensures Built(es, AllDeps(es), inDegree, dependents)
  {
    hide Built, Get, ReadSoFar;
    inDegree := map n | n in names :: 0;
    dependents := map[];
    NothingRead(es, inDegree);
    for i := 0 to |es|
      invariant Built(es, ReadSoFar(es, i, 0), inDegree, dependents)
    {
      for k := 0 to |es[i].deps|
        invariant Built(es, ReadSoFar(es, i, k), inDegree, dependents)
      {
        var dep := es[i].deps[k];
        ReadOne(es, i, k, inDegree, dependents);
        if dep in names {
          inDegree := inDegree[es[i].name := inDegree[es[i].name] + 1];
          dependents := dependents[dep := Get(dependents, dep) + [es[i].name]];
        }
      }
      ReadBounds(es, i);
    }
    ReadBounds(es, |es|);
  }

  lemma NothingRead(es: seq<Enricher>, inDegree: map<string, int>)
    requires inDegree.Keys == Names(es) && forall n :: n in Names(es) ==> inDegree[n] == 0
    ensures Built(es, ReadSoFar(es, 0, 0), inDegree, map[])
  {
    hide DegreesFor, DependentsFor, AllInOrder, Names;
    NothingCounted(es, Names(es), inDegree, ReadSoFar(es, 0, 0));
    NothingListed(es);
  }

  lemma NothingCounted(es: seq<Enricher>, names: set<string>, inDegree: map<string, int>, counted: seq<seq<string>>)
    requires names == Names(es) && |counted| == |es| && forall m :: 0 <= m < |es| ==> counted[m] == []
    requires inDegree.Keys == names && forall n :: n in names ==> inDegree[n] == 0
    ensures DegreesFor(es, counted, names, inDegree) && DependentsFor(es, counted, names, map[])
  {
    assert forall m :: 0 <= m < |es| ==> es[m] in es;
  }

  method FindByName(es: seq<Enricher>, name: string) returns (e: Enricher)
    requires name in Names(es)
    ensures e in es && e.name == name
  {
    var i := 0;
    while es[i].name != name
      invariant 0 <= i < |es|
      invariant forall k :: 0 <= k < i ==> es[k].name != name
      decreases |es| - i
    {
      i := i + 1;
    }
    return es[i];
  }

  /** Emitted or queued is exactly what waits for nothing any more; each name comes once. */
  ghost predicate Tracks(es: seq<Enricher>, listed: seq<Enricher>, degrees: map<string, int>) {
    && degrees.Keys == Names(es)
    && DistinctNames(listed)
    && (forall e :: e in listed ==> e in es && degrees[e.name] == 0)
    && (forall e :: e in es && degrees[e.name] == 0 ==> e in listed)
  }

  /** Between two retirements every degree counts the dependencies still waiting. */
  ghost predicate Balanced(es: seq<Enricher>, out: seq<Enricher>, queue: seq<Enricher>, degrees: map<string, int>) {
    && Tracks(es, out + queue, degrees)
    && (forall e :: e in es ==> degrees[e.name] == Pending(e.deps, Names(es) - Names(out)))
    && DepsFirst(es, out)
  }

  lemma EarlierPrecedes(es: seq<Enricher>, i: nat, e: Enricher)
    requires i < |es| && e in es[..i]
    ensures Precedes(es, e.name, es[i].name)
  {
  }

  method Seed(es: seq<Enricher>, degrees: map<string, int>) returns (queue: seq<Enricher>)
    requires DistinctNames(es) && degrees.Keys == Names(es)
    ensures Tracks(es, queue, degrees)
    ensures forall a, b :: 0 <= a < b < |queue| ==> Precedes(es, queue[a].name, queue[b].name)
  {
    hide Precedes;
    queue := [];
    var i := 0;
    while i < |es|
      invariant 0 <= i <= |es|
      invariant DistinctNames(queue)
      invariant forall e :: e in queue ==> e in es[..i] && degrees[e.name] == 0
      invariant forall e :: e in es[..i] && degrees[e.name] == 0 ==> e in queue
      invariant forall a, b :: 0 <= a < b < |queue| ==> Precedes(es, queue[a].name, queue[b].name)
    {
      forall e | e in es[..i] ensures Precedes(es, e.name, es[i].name) {
        EarlierPrecedes(es, i, e);
      }
      if degrees[es[i].name] == 0 {
        queue := queue + [es[i]];
      }
      assert es[..i + 1] == es[..i] + [es[i]];
      i := i + 1;
    }
    assert es[..i] == es;
  }

  ghost predicate ReleasedInOrder(es: seq<Enricher>, released: seq<string>, added: seq<Enricher>) {
    && (forall a :: 0 <= a < |added| ==> added[a].name in released)
    && (forall a, b :: 0 <= a < b < |added| ==> Precedes(es, added[a].name, added[b].name))
  }

  lemma NoneReleased(es: seq<Enricher>, released: seq<string>)
    ensures ReleasedInOrder(es, released[..0], [])
  {
  }

  lemma NoNameTwice(es: seq<Enricher>, out: seq<Enricher>, before: seq<Enricher>, from: nat, e: Enricher, after: seq<Enricher>, degrees: map<string, int>)
    requires from <= |before| && (after == before || after == before + [e]) && Tracks(es, out + after, degrees)
    ensures after == before + [e] ==> forall a :: from <= a < |before| ==> before[a].name != e.name
  {
    if after == before + [e] {
      forall a | from <= a < |before| ensures before[a].name != e.name {
        var all := out + after;
        assert all[|out| + a] == before[a] && all[|all| - 1] == e;
      }
    }
  }

  lemma ReleasedStep(es: seq<Enricher>, released: seq<string>, j: nat, before: seq<Enricher>, e: Enricher, after: seq<Enricher>)
    requires j < |released| && released[j] == e.name && InInputOrder(es, released)
    requires ReleasedInOrder(es, released[..j], before)
    requires after == before || (after == before + [e] && forall a :: 0 <= a < |before| ==> before[a].name != e.name)
    ensures ReleasedInOrder(es, released[..j + 1], after)
  {
    hide Precedes;
    assert released[..j + 1] == released[..j] + [e.name];
    forall a | 0 <= a < |before| ensures before[a].name == e.name || Precedes(es, before[a].name, e.name) {
      var k :| 0 <= k < j && released[..j][k] == before[a].name;
      assert released[k] == before[a].name;
    }
  }

  lemma QueueStep(
    es: seq<Enricher>, out: seq<Enricher>, released: seq<string>, j: nat,
    before: seq<Enricher>, from: nat, e: Enricher, after: seq<Enricher>, degrees: map<string, int>)
    requires j < |released| && released[j] == e.name && InInputOrder(es, released)
    requires from <= |before| && (after == before || after == before + [e]) && Tracks(es, out + after, degrees)
    requires ReleasedInOrder(es, released[..j], before[from..])
    ensures ReleasedInOrder(es, released[..j + 1], after[from..])
  {
    hide Tracks, InInputOrder, ReleasedInOrder;
    NoNameTwice(es, out, before, from, e, after, degrees);
    if after == before + [e] {
      assert after[from..] == before[from..] + [e];
    }
    ReleasedStep(es, released, j, before[from..], e, after[from..]);
  }

  /** Takes one off for every mention of a retired enricher; what reaches zero joins the queue. */
  method Release(es: seq<Enricher>, ghost out: seq<Enricher>, queue0: seq<Enricher>, degrees0: map<string, int>, released: seq<string>)
    returns (queue: seq<Enricher>, degrees: map<string, int>)
    requires DistinctNames(es) && degrees0.Keys == Names(es) && Tracks(es, out + queue0, degrees0)
    requires forall n :: n in released ==> n in Names(es)
    requires forall n :: n in Names(es) ==> multiset(released)[n] <= degrees0[n]
    requires InInputOrder(es, released)
    ensures degrees.Keys == Names(es) && Tracks(es, out + queue, degrees)
    ensures forall n :: n in Names(es) ==> degrees[n] == degrees0[n] - multiset(released)[n]
    ensures queue0 <= queue && ReleasedInOrder(es, released, queue[|queue0|..])
  {
    hide DistinctNames, Tracks, ReleasedInOrder, InInputOrder, Names;
    NoneReleased(es, released);
    assert queue0[|queue0|..] == [];
    queue, degrees := queue0, degrees0;
    var j := 0;
    while j < |released|
      invariant 0 <= j <= |released|
      invariant degrees.Keys == Names(es) && Tracks(es, out + queue, degrees)
      invariant forall n :: n in Names(es) ==> degrees[n] == degrees0[n] - multiset(released[..j])[n]
      invariant queue0 <= queue && ReleasedInOrder(es, released[..j], queue[|queue0|..])
    {
      var name := released[j];
      PrefixCounts(released, j);
      var e := FindByName(es, name);
      ghost var before, queueBefore := out + queue, queue;
      ghost var degreesBefore := degrees;
      degrees := degrees[name := degrees[name] - 1];
      assert degrees[name := degrees[name] + 1] == degreesBefore;
      if degrees[name] == 0 {
        queue := queue + [e];
        assert out + queue == before + [e];
      }
      TracksStep(es, before, e, out + queue, degrees);
      QueueStep(es, out, released, j, queueBefore, |queue0|, e, queue, degrees);
      j := j + 1;
    }
    assert released[..j] == released;
  }

  lemma PrefixCounts(s: seq<string>, j: nat)
    requires j < |s|
    ensures forall x :: multiset(s[..j + 1])[x] == multiset(s[..j])[x] + if x == s[j] then 1 else 0
    ensures forall x :: multiset(s[..j + 1])[x] <= multiset(s)[x]
  {
    assert s[..j + 1] == s[..j] + [s[j]];
    assert s == s[..j + 1] + s[j + 1..];
  }

  lemma TracksStep(es: seq<Enricher>, before: seq<Enricher>, e: Enricher, after: seq<Enricher>, degrees: map<string, int>)
    requires DistinctNames(es) && e in es && e.name in degrees && degrees[e.name] >= 0
    requires Tracks(es, before, degrees[e.name := degrees[e.name] + 1])
    requires after == if degrees[e.name] == 0 then before + [e] else before
    ensures Tracks(es, after, degrees)
  {
    assert degrees.Keys == Names(es);
    forall other | other in es && other.name == e.name ensures other == e {
    }
  }

  method Kahn(es: seq<Enricher>, degrees0: map<string, int>, dependents: map<string, seq<string>>)
    returns (out: seq<Enricher>, ghost degrees: map<string, int>)
    requires DistinctNames(es)
    requires Built(es, AllDeps(es), degrees0, dependents)
    ensures Balanced(es, out, [], degrees) && Fifo(es, out)
  {
    hide DistinctNames, Names, Tracks, Pending, DepsFirst, Get, DegreesFor, DependentsFor, Fifo, Runnable, InInputOrder, Precedes, ReleasedInOrder, Balanced, HeadRetires;
    var inDegree := degrees0;
    out := [];
    NoneEmitted(es, degrees0);
    var queue := Seed(es, inDegree);
    assert out + queue == queue;
    BalancedAtStart(es, queue, inDegree);
    SeedsAreFifo(es, queue, inDegree);
    while queue != []
      invariant Balanced(es, out, queue, inDegree)
      invariant Fifo(es, out + queue) && Runnable(es, out + queue, |out|)
      decreases |Names(es) - Names(out)|
    {
      var head := queue[0];
      BalancedTracks(es, out, queue, inDegree);
      RetireHead(es, out, queue, inDegree, dependents);
      ghost var before, outBefore, queueBefore := inDegree, out, queue;
      HeadIsWaiting(es, out, queue, inDegree);
      queue := queue[1..];
      out := out + [head];
      queue, inDegree := Release(es, out, queue, inDegree, Get(dependents, head.name));
      Rebalance(es, out, head, before, inDegree, Get(dependents, head.name));
      BalancedAgain(es, out, head, queue, before, inDegree, Get(dependents, head.name));
      FifoStep(es, outBefore, queueBefore, queue, inDegree, dependents);
    }
    degrees := inDegree;
    assert out + [] == out + queue == out;
  }

  lemma SeedsAreFifo(es: seq<Enricher>, queue: seq<Enricher>, degrees: map<string, int>)
    requires Balanced(es, [], queue, degrees)
    requires forall a, b :: 0 <= a < b < |queue| ==> Precedes(es, queue[a].name, queue[b].name)
    ensures Fifo(es, [] + queue) && Runnable(es, [] + queue, 0)
  {
    hide DistinctNames, Pending, Precedes, ReadyAfter, DepsFirst;
    assert [] + queue == queue && Names([]) == {};
    forall i | 0 <= i < |queue|
      ensures forall d :: d in queue[i].deps ==> d !in Names(es)
      ensures ReadyAfter(es, queue, queue[i].deps) == 0
    {
      assert queue[i] in queue;
      PendingZero(queue[i].deps, Names(es) - Names([]));
      NoPresentDeps(es, queue, queue[i].deps);
    }
  }

  lemma FifoStep(es: seq<Enricher>, out: seq<Enricher>, queue: seq<Enricher>, after: seq<Enricher>, degrees: map<string, int>, dependents: map<string, seq<string>>)
    requires queue != [] && queue[1..] <= after && queue[0].name in Names(es)
    requires Fifo(es, out + queue) && Runnable(es, out + queue, |out|)
    requires Balanced(es, out + [queue[0]], after, degrees)
    requires DependentsFor(es, AllDeps(es), Names(es), dependents)
    requires ReleasedInOrder(es, Get(dependents, queue[0].name), after[|queue| - 1..])
    ensures Fifo(es, out + [queue[0]] + after) && Runnable(es, out + [queue[0]] + after, |out| + 1)
  {
    hide Pending, Precedes, Fifo, Runnable, DepsFirst, Names, DependentsFor, Get, Position, Tracks, DistinctNames;
    var head, listed, added := queue[0], out + queue, after[|queue| - 1..];
    var all := out + [head] + after;
    assert after == queue[1..] + added && all == listed + added;
    forall a | 0 <= a < |added|
      ensures head.name in added[a].deps
      ensures forall d :: d in added[a].deps && d in Names(es) ==> Position(listed, d) <= |out|
    {
      assert added[a] in after;
      AddedIsReady(es, out, head, queue, after, degrees, dependents, added[a]);
    }
    NamesDiffer(es, all, degrees);
    FifoExtends(es, listed, added, |out|);
  }

  lemma NamesDiffer(es: seq<Enricher>, listed: seq<Enricher>, degrees: map<string, int>)
    requires Tracks(es, listed, degrees)
    ensures DistinctNames(listed)
  {
  }

  lemma AddedIsReady(
    es: seq<Enricher>, out: seq<Enricher>, head: Enricher, queue: seq<Enricher>, after: seq<Enricher>,
    degrees: map<string, int>, dependents: map<string, seq<string>>, e: Enricher)
    requires queue != [] && queue[0] == head && head.name in Names(es)
    requires Balanced(es, out + [head], after, degrees) && e in after && e.name in Get(dependents, head.name)
    requires DependentsFor(es, AllDeps(es), Names(es), dependents)
    ensures head.name in e.deps
    ensures forall d :: d in e.deps && d in Names(es) ==> Position(out + queue, d) <= |out|
  {
    hide Pending, DepsFirst, Names, DependentsFor, Get, Position, DistinctNames;
    assert e in out + [head] + after;
    MentionsHead(es, e, head.name, dependents);
    WaitsNoLonger(es, out, head, queue, e);
  }

  lemma WaitsNoLonger(es: seq<Enricher>, out: seq<Enricher>, head: Enricher, queue: seq<Enricher>, e: Enricher)
    requires queue != [] && queue[0] == head && Pending(e.deps, Names(es) - Names(out + [head])) == 0
    ensures forall d :: d in e.deps && d in Names(es) ==> Position(out + queue, d) <= |out|
  {
    hide Pending, Names, Position;
    PendingZero(e.deps, Names(es) - Names(out + [head]));
    forall d | d in e.deps && d in Names(es) ensures Position(out + queue, d) <= |out| {
      EmittedPosition(out, head, queue, d);
    }
  }

  lemma MentionsHead(es: seq<Enricher>, e: Enricher, head: string, dependents: map<string, seq<string>>)
    requires DependentsFor(es, AllDeps(es), Names(es), dependents) && head in Names(es)
    requires e in es && e.name in Get(dependents, head)
    ensures head in e.deps
  {
    hide Get, Names;
    var m :| 0 <= m < |es| && es[m] == e;
    assert multiset(Get(dependents, head))[e.name] == multiset(AllDeps(es)[m])[head];
    assert multiset(e.deps)[head] > 0;
  }

  lemma EmittedPosition(out: seq<Enricher>, head: Enricher, queue: seq<Enricher>, d: string)
    requires queue != [] && queue[0] == head && d in Names(out + [head])
    ensures Position(out + queue, d) <= |out|
  {
    var ran := out + [head];
    var i :| 0 <= i < |ran| && ran[i].name == d;
    PositionInPrefix(ran, queue[1..], d);
    assert ran + queue[1..] == out + queue;
  }

  lemma BalancedAtStart(es: seq<Enricher>, queue: seq<Enricher>, degrees: map<string, int>)
    requires DegreesFor(es, AllDeps(es), Names(es), degrees) && Tracks(es, queue, degrees)
    ensures Balanced(es, [], queue, degrees)
  {
    NoneEmitted(es, degrees);
    hide Tracks, Pending, DegreesFor;
    assert [] + queue == queue;
  }

  lemma BalancedTracks(es: seq<Enricher>, out: seq<Enricher>, queue: seq<Enricher>, degrees: map<string, int>)
    requires Balanced(es, out, queue, degrees)
    ensures Tracks(es, out + queue, degrees)
  {
  }

  lemma BalancedAgain(
    es: seq<Enricher>, out: seq<Enricher>, head: Enricher, queue: seq<Enricher>,
    before: map<string, int>, after: map<string, int>, released: seq<string>)
    requires out != [] && out[|out| - 1] == head && Tracks(es, out + queue, after)
    requires HeadRetires(es, out[..|out| - 1], head, before, released)
    requires after.Keys == Names(es) && forall n :: n in Names(es) ==> after[n] == before[n] - multiset(released)[n]
    ensures Balanced(es, out, queue, after)
  {
    Rebalance(es, out, head, before, after, released);
    hide Tracks, Pending, HeadRetires, DepsFirst;
  }

  lemma NoneEmitted(es: seq<Enricher>, degrees: map<string, int>)
    requires DegreesFor(es, AllDeps(es), Names(es), degrees)
    ensures degrees.Keys == Names(es) && DepsFirst(es, [])
    ensures forall e :: e in es ==> degrees[e.name] == Pending(e.deps, Names(es) - Names([]))
  {
    assert Names(es) - Names([]) == Names(es);
  }

  ghost predicate HeadRetires(es: seq<Enricher>, out: seq<Enricher>, head: Enricher, degrees: map<string, int>, released: seq<string>) {
    && degrees.Keys == Names(es)
    && head.name in Names(es) - Names(out)
    && Names(es) - Names(out + [head]) == Names(es) - Names(out) - {head.name}
    && DepsFirst(es, out + [head])
    && (forall e :: e in es ==>
         Pending(e.deps, Names(es) - Names(out + [head])) == degrees[e.name] - multiset(released)[e.name])
  }

  /** The head waits for nothing, so its present dependencies are emitted; its dependents lose what they counted for it. */
  lemma RetireHead(es: seq<Enricher>, out: seq<Enricher>, queue: seq<Enricher>, degrees: map<string, int>, dependents: map<string, seq<string>>)
    requires DistinctNames(es) && queue != [] && Balanced(es, out, queue, degrees)
    requires DependentsFor(es, AllDeps(es), Names(es), dependents)
    ensures HeadRetires(es, out, queue[0], degrees, Get(dependents, queue[0].name))
    ensures Tracks(es, out + [queue[0]] + queue[1..], degrees)
    ensures forall n :: n in Get(dependents, queue[0].name) ==> n in Names(es)
    ensures forall n :: n in Names(es) ==> multiset(Get(dependents, queue[0].name))[n] <= degrees[n]
  {
    hide Pending, Get, DepsFirst, Tracks;
    var head := queue[0];
    assert out + queue == out + [head] + queue[1..];
    HeadIsWaiting(es, out, queue, degrees);
    assert Names(out + [head]) == Names(out) + {head.name};
    assert Names(es) - Names(out + [head]) == Names(es) - Names(out) - {head.name};
    HeadComesAfterDeps(es, out, head);
    DependentsCount(es, Names(es) - Names(out), head.name, degrees, dependents);
  }

  lemma DependentsCount(es: seq<Enricher>, waiting: set<string>, h: string, degrees: map<string, int>, dependents: map<string, seq<string>>)
    requires h in waiting && waiting <= Names(es) && degrees.Keys == Names(es)
    requires DependentsFor(es, AllDeps(es), Names(es), dependents)
    requires forall e :: e in es ==> degrees[e.name] == Pending(e.deps, waiting)
    ensures forall e :: e in es ==>
      Pending(e.deps, waiting - {h}) == degrees[e.name] - multiset(Get(dependents, h))[e.name]
    ensures forall n :: n in Names(es) ==> multiset(Get(dependents, h))[n] <= degrees[n]
  {
    hide Pending, Get;
    forall e | e in es
      ensures Pending(e.deps, waiting - {h}) == degrees[e.name] - multiset(Get(dependents, h))[e.name]
    {
      PendingWithout(e.deps, waiting, h);
      var m :| 0 <= m < |es| && es[m] == e;
      assert AllDeps(es)[m] == e.deps;
    }
    forall n | n in Names(es) ensures multiset(Get(dependents, h))[n] <= degrees[n] {
      var e :| e in es && e.name == n;
    }
  }

  lemma HeadIsWaiting(es: seq<Enricher>, out: seq<Enricher>, queue: seq<Enricher>, degrees: map<string, int>)
    requires queue != [] && Tracks(es, out + queue, degrees)
    ensures degrees.Keys == Names(es)
    ensures queue[0] in es && queue[0].name in Names(es) - Names(out) && degrees[queue[0].name] == 0
  {
    assert (out + queue)[|out|] == queue[0];
    forall k | 0 <= k < |out| ensures out[k].name != queue[0].name {
      assert (out + queue)[k] == out[k];
    }
  }

  lemma HeadComesAfterDeps(es: seq<Enricher>, out: seq<Enricher>, head: Enricher)
    requires DepsFirst(es, out)
    requires Pending(head.deps, Names(es) - Names(out)) == 0
    ensures DepsFirst(es, out + [head])
  {
    PendingZero(head.deps, Names(es) - Names(out));
    var order := out + [head];
    forall i, d | 0 <= i < |order| && d in order[i].deps && d in Names(es)
      ensures exists j :: 0 <= j < i && order[j].name == d
    {
      if i < |out| {
        assert order[i] == out[i];
        var j :| 0 <= j < i && out[j].name == d;
        assert order[j].name == d;
      } else {
        assert d in Names(out);
        var j :| 0 <= j < |out| && out[j].name == d;
        assert order[j].name == d;
      }
    }
  }

  lemma Rebalance(es: seq<Enricher>, out: seq<Enricher>, head: Enricher, before: map<string, int>, after: map<string, int>, released: seq<string>)
    requires out != [] && out[|out| - 1] == head
    requires HeadRetires(es, out[..|out| - 1], head, before, released)
    requires after.Keys == Names(es) && forall n :: n in Names(es) ==> after[n] == before[n] - multiset(released)[n]
    ensures forall e :: e in es ==> after[e.name] == Pending(e.deps, Names(es) - Names(out))
    ensures DepsFirst(es, out)
    ensures |Names(es) - Names(out)| < |Names(es) - Names(out[..|out| - 1])|
  {
    assert out[..|out| - 1] + [head] == out;
    assert Names(es) - Names(out) == Names(es) - Names(out[..|out| - 1]) - {head.name};
  }

  // ----- The outcome -----

  function StuckNames(es: seq<Enricher>, emitted: set<string>): (names: seq<string>)
    ensures forall n :: n in names <==> n !in emitted && exists e :: e in es && e.name == n
  {
    if es == [] then []
    else
      var before := StuckNames(es[..|es| - 1], emitted);
      assert es == es[..|es| - 1] + [es[|es| - 1]];
      if es[|es| - 1].name in emitted then before else before + [es[|es| - 1].name]
  }

  method CycleError(es: seq<Enricher>, out: seq<Enricher>) returns (names: seq<string>)
    ensures names == StuckNames(es, Names(out))
  {
    var emitted := set e | e in out :: e.name;
    names := [];
    var i := 0;
    while i < |es|
      invariant 0 <= i <= |es|
      invariant names == StuckNames(es[..i], emitted)
    {
      assert es[..i + 1][..i] == es[..i];
      if es[i].name !in emitted {
        names := names + [es[i].name];
      }
      i := i + 1;
    }
    assert es[..i] == es;
  }

  /** Whatever is left waiting waits for something left waiting. */
  lemma StuckSupportsItself(es: seq<Enricher>, out: seq<Enricher>, degrees: map<string, int>)
    requires DistinctNames(es) && Balanced(es, out, [], degrees)
    ensures SelfSupporting(es, Names(es) - Names(out))
  {
    var waiting := Names(es) - Names(out);
    assert out + [] == out;
    forall a | a in waiting ensures exists b :: b in waiting && DependsOn(es, a, b) {
      var e :| e in es && e.name == a;
      PendingZero(e.deps, waiting);
      var d :| d in e.deps && d in waiting;
      assert DependsOn(es, a, d);
    }
  }

  lemma DependencyIsEarlier(es: seq<Enricher>, out: seq<Enricher>, i: nat, b: string) returns (j: nat)
    requires DistinctNames(es) && DepsFirst(es, out) && i < |out| && out[i] in es
    requires DependsOn(es, out[i].name, b)
    ensures j < i && out[j].name == b
  {
    var e :| e in es && e.name == out[i].name && b in e.deps;
    j :| 0 <= j < i && out[j].name == b;
  }

  /** Nothing emitted is part of a self-supporting set. */
  lemma {:induction false} EmittedSupportsNothing(es: seq<Enricher>, out: seq<Enricher>, s: set<string>, i: nat)
    requires DistinctNames(es) && DepsFirst(es, out) && i < |out|
    requires forall e :: e in out ==> e in es
    requires SelfSupporting(es, s)
    ensures out[i].name !in s
    decreases i
  {
    hide DistinctNames, DepsFirst, DependsOn, Names;
    if out[i].name in s {
      var b :| b in s && DependsOn(es, out[i].name, b);
      var j := DependencyIsEarlier(es, out, i, b);
      EmittedSupportsNothing(es, out, s, j);
    }
  }

  lemma ReachingIsNotEmitted(es: seq<Enricher>, out: seq<Enricher>, name: string)
    requires DistinctNames(es) && DepsFirst(es, out) && forall e :: e in out ==> e in es
    requires ReachesCycle(es, name)
    ensures name in Names(es) - Names(out)
  {
    hide DistinctNames, DepsFirst, ReachesCycle, SelfSupporting;
    CycleSupportsItself(es, name);
    var s := set n | n in Names(es) && ReachesCycle(es, n);
    forall n ensures n in s <==> ReachesCycle(es, n) {
      if ReachesCycle(es, n) { CycleSupportsItself(es, n); }
    }
    ReachesCycleIsLargest(es, s);
    forall i | 0 <= i < |out| ensures out[i].name != name {
      EmittedSupportsNothing(es, out, s, i);
    }
  }

  /** What Kahn leaves behind is exactly what lies on or downstream of a cycle. */
  lemma StuckReachesCycle(es: seq<Enricher>, out: seq<Enricher>, degrees: map<string, int>, name: string)
    requires DistinctNames(es) && Balanced(es, out, [], degrees)
    ensures name in Names(es) - Names(out) <==> ReachesCycle(es, name)
  {
    hide DistinctNames, DepsFirst, ReachesCycle, SelfSupporting, Pending, Names;
    StuckSupportsItself(es, out, degrees);
    if name in Names(es) - Names(out) {
      SelfSupportingReachesCycle(es, Names(es) - Names(out), name);
    }
    if ReachesCycle(es, name) {
      assert out + [] == out;
      ReachingIsNotEmitted(es, out, name);
    }
  }

  lemma {:induction false} DistinctCount(es: seq<Enricher>)
    requires DistinctNames(es)
    ensures |Names(es)| == |es|
  {
    if es != [] {
      var front, last := es[..|es| - 1], es[|es| - 1];
      DistinctCount(front);
      assert es == front + [last];
      assert Names(es) == Names(front) + {last.name};
    }
  }

  lemma {:induction false} SameElements(a: seq<Enricher>, b: seq<Enricher>)
    requires DistinctNames(a) && DistinctNames(b)
    requires forall e :: e in a <==> e in b
    ensures multiset(a) == multiset(b)
  {
    forall e ensures multiset(a)[e] == multiset(b)[e] {
      OnceEach(a, e);
      OnceEach(b, e);
    }
  }

  lemma {:induction false} OnceEach(a: seq<Enricher>, e: Enricher)
    requires DistinctNames(a)
    ensures multiset(a)[e] == if e in a then 1 else 0
  {
    if a != [] {
      OnceEach(a[..|a| - 1], e);
      assert a == a[..|a| - 1] + [a[|a| - 1]];
    }
  }

  /** Kahn emitted everything exactly when no name reaches a cycle; then the output is a permutation. */
  lemma EmittedAllIffAcyclic(es: seq<Enricher>, out: seq<Enricher>, degrees: map<string, int>)
    requires DistinctNames(es) && Balanced(es, out, [], degrees)
    ensures |out| == |es| <==> forall n :: !ReachesCycle(es, n)
    ensures |out| == |es| ==> multiset(out) == multiset(es)
  {
    hide ReachesCycle;
    assert out + [] == out;
    DistinctCount(es);
    DistinctCount(out);
    assert Names(out) <= Names(es);
    forall n ensures n in Names(es) - Names(out) <==> ReachesCycle(es, n) {
      StuckReachesCycle(es, out, degrees, n);
    }
    if forall n :: !ReachesCycle(es, n) {
      forall n | n in Names(es) ensures n in Names(out) {
        StuckReachesCycle(es, out, degrees, n);
      }
      assert Names(es) == Names(out);
    }
    if |out| == |es| {
      Subsets(Names(out), Names(es));
      forall e | e in es ensures e in out {
        var o :| o in out && o.name == e.name;
      }
      SameElements(out, es);
    }
  }

  lemma Subsets<T>(small: set<T>, big: set<T>)
    requires small <= big && |small| == |big|
    ensures small == big
  {
    assert |big - small| == 0;
  }

  // ----- The order is determined -----

  ghost predicate SortedOrder(es: seq<Enricher>, order: seq<Enricher>) {
    multiset(order) == multiset(es) && DepsFirst(es, order) && Fifo(es, order)
  }

  /** The rank of an enricher only depends on what stands before it. */
  lemma RankStays(es: seq<Enricher>, p: seq<Enricher>, q: seq<Enricher>, n: nat)
    requires n < |q| && n < |p| && p[..n] == q[..n] && DepsFirst(es, q)
    ensures ReadyAfter(es, p, q[n].deps) == ReadyAfter(es, q, q[n].deps)
  {
    hide Names, ReadyAfter;
    var before, deps := q[..n], q[n].deps;
    forall d | d in deps && d in Names(es) ensures Position(before, d) < |before| {
      var j :| 0 <= j < n && q[j].name == d;
      assert before[j].name == d;
    }
    ReadyStays(es, before, q[n..], deps);
    ReadyStays(es, before, p[n..], deps);
    assert q == before + q[n..] && p == before + p[n..];
  }

  lemma PrecedesOneWay(es: seq<Enricher>, a: string, b: string)
    requires DistinctNames(es) && Precedes(es, a, b)
    ensures !Precedes(es, b, a)
  {
  }

  lemma FoundLater(order: seq<Enricher>, n: nat, e: Enricher)
    requires n < |order| && e in order && e !in order[..n] && order[n] != e
    ensures exists k :: n < k < |order| && order[k] == e
  {
    var rest := order[n..];
    assert order == order[..n] + rest;
    var k :| 0 <= k < |rest| && rest[k] == e;
    assert order[n + k] == e;
  }

  lemma NotBefore(es: seq<Enricher>, order: seq<Enricher>, n: nat)
    requires DistinctNames(es) && multiset(order) == multiset(es) && n < |order|
    ensures order[n] !in order[..n]
  {
    if order[n] in order[..n] {
      var k :| 0 <= k < n && order[k] == order[n];
      assert order == order[..n] + [order[n]] + order[n + 1..];
      assert multiset(order[..n])[order[n]] >= 1;
      assert multiset(order)[order[n]] >= 2;
      OnceEach(es, order[n]);
    }
  }

  /** Dependencies first and first in, first out leave one order only, so the outcome is a function of the input. */
  lemma OrderIsDetermined(es: seq<Enricher>, p: seq<Enricher>, q: seq<Enricher>, n: nat)
    requires DistinctNames(es) && SortedOrder(es, p) && SortedOrder(es, q) && n <= |es|
    ensures |p| == |q| == |es| && p[..n] == q[..n]
  {
    hide DistinctNames, DepsFirst, ReadyAfter, Precedes;
    assert |multiset(p)| == |p| && |multiset(q)| == |q| && |multiset(es)| == |es|;
    if n > 0 {
      OrderIsDetermined(es, p, q, n - 1);
      var a, b := p[n - 1], q[n - 1];
      if a != b {
        NotBefore(es, p, n - 1);
        NotBefore(es, q, n - 1);
        assert a in multiset(q) && b in multiset(p);
        FoundLater(q, n - 1, a);
        FoundLater(p, n - 1, b);
        RankStays(es, p, q, n - 1);
        RankStays(es, q, p, n - 1);
        if Precedes(es, a.name, b.name) {
          PrecedesOneWay(es, a.name, b.name);
        }
      }
    }
  }

  /**
    Distinct names with no cycle among the present dependencies: a permutation of the input
    with every present dependency before its dependents. A repeated name is an error. Otherwise
    the error names, in input order, exactly the enrichers on or downstream of a cycle.
  */
  method TopoSort(es: seq<Enricher>) returns (outcome: Outcome)
    ensures outcome.Duplicate? <==> !DistinctNames(es)
    ensures outcome.Duplicate? ==>
      exists i, j :: 0 <= i < j < |es| && es[i].name == es[j].name == outcome.name && DistinctNames(es[..j])
    ensures outcome.Sorted? <==> DistinctNames(es) && forall n :: !ReachesCycle(es, n)
    ensures outcome.Sorted? ==> SortedOrder(es, outcome.order)
    ensures outcome.Cyclic? ==>
      exists emitted: set<string> :: outcome.names == StuckNames(es, emitted) &&
        forall n :: n in outcome.names <==> ReachesCycle(es, n)
  {
    if |es| == 0 {
      forall n ensures !ReachesCycle(es, n) {
        if ReachesCycle(es, n) { CycleSupportsItself(es, n); }
      }
      return Sorted([]);
    }
    var names, duplicate, ok := IndexByName(es);
    if !ok {
      return Duplicate(duplicate);
    }
    var inDegree, dependents := BuildGraph(es, names);
    ghost var degrees;
    var out;
    out, degrees := Kahn(es, inDegree, dependents);
    EmittedAllIffAcyclic(es, out, degrees);
    if |out| != |es| {
      var stuck := CycleError(es, out);
      forall n ensures n in stuck <==> ReachesCycle(es, n) {
        StuckReachesCycle(es, out, degrees, n);
      }
      return Cyclic(stuck);
    }
    return Sorted(out);
  }
}
