/**
  Levels of the enricher graph, and when the schedule keeps input order within each of
  them (internal/enrich/ordering.go).
*/
module OrderLevels {
  import opened Ordering

  // ----- Levels -----

  /** A chain of n dependencies, present ones, hangs below the name. */
  ghost predicate HasChain(es: seq<Enricher>, name: string, n: nat)
    decreases n
  {
    name in Names(es) && (n == 0 || exists d :: DependsOn(es, name, d) && HasChain(es, d, n - 1))
  }

  /** The longest chain below the name has n dependencies. */
  ghost predicate AtLevel(es: seq<Enricher>, name: string, n: nat) {
    HasChain(es, name, n) && !HasChain(es, name, n + 1)
  }

  ghost function Rank(es: seq<Enricher>, order: seq<Enricher>, j: nat): nat
    requires j < |order|
  {
    ReadyAfter(es, order, order[j].deps)
  }

  /** One more than the level of the dependency that runs last. */
  ghost function LevelAt(es: seq<Enricher>, order: seq<Enricher>, j: nat): nat
    requires j < |order| && DepsFirst(es, order)
    decreases j
  {
    RankIsEarlier(es, order, j);
    if Rank(es, order, j) == 0 then 0 else 1 + LevelAt(es, order, Rank(es, order, j) - 1)
  }

  lemma RankIsEarlier(es: seq<Enricher>, order: seq<Enricher>, j: nat)
    requires j < |order| && DepsFirst(es, order)
    ensures Rank(es, order, j) <= j
    ensures forall d :: d in order[j].deps && d in Names(es) ==> Position(order, d) < Rank(es, order, j)
  {
    hide Names, Position;
    forall d | d in order[j].deps && d in Names(es) ensures Position(order, d) < j {
      var k :| 0 <= k < j && order[k].name == d;
      FirstPlace(order, k);
    }
    NotLater(es, order, order[j].deps, j);
    ReadyAt(es, order, order[j].deps, j);
  }

  lemma {:induction false} FirstPlace(order: seq<Enricher>, k: nat)
    requires k < |order|
    ensures Position(order, order[k].name) <= k
  {
    if k < |order| - 1 {
      FirstPlace(order[..|order| - 1], k);
    }
  }

  lemma {:induction false} LastDep(es: seq<Enricher>, order: seq<Enricher>, deps: seq<string>)
    requires ReadyAfter(es, order, deps) > 0
    ensures exists d :: d in deps && d in Names(es) && Position(order, d) + 1 == ReadyAfter(es, order, deps)
  {
    hide Names, Position;
    var init, d := deps[..|deps| - 1], deps[|deps| - 1];
    assert d in deps;
    if ReadyAfter(es, order, init) == ReadyAfter(es, order, deps) {
      LastDep(es, order, init);
    }
  }

  /** The dependency that runs last stands right where the rank says. */
  lemma RankNames(es: seq<Enricher>, order: seq<Enricher>, j: nat) returns (d: string)
    requires j < |order| && DepsFirst(es, order) && Rank(es, order, j) > 0
    ensures Rank(es, order, j) <= j && d == order[Rank(es, order, j) - 1].name
    ensures d in order[j].deps && d in Names(es)
  {
    hide Names, Position, DepsFirst, ReadyAfter;
    RankIsEarlier(es, order, j);
    LastDep(es, order, order[j].deps);
    d :| d in order[j].deps && d in Names(es) && Position(order, d) + 1 == Rank(es, order, j);
  }

  lemma LevelStep(es: seq<Enricher>, order: seq<Enricher>, j: nat)
    requires j < |order| && DepsFirst(es, order)
    ensures Rank(es, order, j) <= j
    ensures LevelAt(es, order, j) == if Rank(es, order, j) == 0 then 0 else 1 + LevelAt(es, order, Rank(es, order, j) - 1)
  {
    RankIsEarlier(es, order, j);
  }

  lemma RanksRise(es: seq<Enricher>, order: seq<Enricher>, i: nat, j: nat)
    requires i <= j < |order| && Fifo(es, order)
    ensures Rank(es, order, i) <= Rank(es, order, j)
  {
    hide ReadyAfter, Precedes;
  }

  /** Levels never go down along the output. */
  lemma {:induction false} LevelsRise(es: seq<Enricher>, order: seq<Enricher>, i: nat, j: nat)
    requires i <= j < |order| && DepsFirst(es, order) && Fifo(es, order)
    ensures LevelAt(es, order, i) <= LevelAt(es, order, j)
    decreases j
  {
    hide DepsFirst, Fifo, Rank, LevelAt;
    LevelStep(es, order, i);
    LevelStep(es, order, j);
    RanksRise(es, order, i, j);
    if Rank(es, order, i) > 0 {
      LevelsRise(es, order, Rank(es, order, i) - 1, Rank(es, order, j) - 1);
    }
  }

  ghost predicate Sound(es: seq<Enricher>, order: seq<Enricher>) {
    DistinctNames(es) && SortedOrder(es, order)
  }

  lemma SoundFacts(es: seq<Enricher>, order: seq<Enricher>)
    requires Sound(es, order)
    ensures forall e :: e in order <==> e in es
    ensures forall j :: 0 <= j < |order| ==> order[j].name in Names(es)
  {
    forall e ensures e in order <==> e in es {
      assert e in order <==> e in multiset(order);
      assert e in es <==> e in multiset(es);
    }
  }

  lemma OrderDistinct(es: seq<Enricher>, order: seq<Enricher>)
    requires Sound(es, order)
    ensures DistinctNames(order)
  {
    hide DepsFirst, Fifo;
    SoundFacts(es, order);
    forall i, j | 0 <= i < j < |order| ensures order[i].name != order[j].name {
      NotBefore(es, order, j);
      assert order[..j][i] == order[i];
      assert order[i] in es && order[j] in es;
    }
  }

  /** At position j, the present dependencies are the names that the enricher lists. */
  lemma DependsAt(es: seq<Enricher>, order: seq<Enricher>, j: nat, d: string)
    requires Sound(es, order) && j < |order|
    ensures DependsOn(es, order[j].name, d) <==> d in order[j].deps && d in Names(es)
  {
    hide DepsFirst, Fifo;
    SoundFacts(es, order);
    if DependsOn(es, order[j].name, d) {
      var e :| e in es && e.name == order[j].name && d in e.deps;
      assert e == order[j];
    } else {
      assert order[j] in es;
    }
  }

  /** The position's level is the length of its longest chain. */
  lemma {:induction false} LevelIsLongestChain(es: seq<Enricher>, order: seq<Enricher>, j: nat, n: nat)
    requires Sound(es, order) && j < |order|
    ensures HasChain(es, order[j].name, n) <==> n <= LevelAt(es, order, j)
    decreases n
  {
    hide DepsFirst, Fifo, DistinctNames, DependsOn, Names, LevelAt;
    SoundFacts(es, order);
    if n > 0 {
      if HasChain(es, order[j].name, n) {
        var d :| DependsOn(es, order[j].name, d) && HasChain(es, d, n - 1);
        DependsAt(es, order, j, d);
        ChainBelow(es, order, j, d);
        LevelIsLongestChain(es, order, Position(order, d), n - 1);
      }
      if n <= LevelAt(es, order, j) {
        LevelStep(es, order, j);
        var d := RankNames(es, order, j);
        DependsAt(es, order, j, d);
        LevelIsLongestChain(es, order, Rank(es, order, j) - 1, n - 1);
        assert DependsOn(es, order[j].name, d) && HasChain(es, d, n - 1);
      }
    }
  }

  lemma ChainBelow(es: seq<Enricher>, order: seq<Enricher>, j: nat, d: string)
    requires Sound(es, order) && j < |order| && d in order[j].deps && d in Names(es)
    ensures Position(order, d) < j && order[Position(order, d)].name == d
    ensures LevelAt(es, order, Position(order, d)) + 1 <= LevelAt(es, order, j)
  {
    hide DistinctNames, Names, LevelAt, Rank, Fifo, DepsFirst, Position;
    RankIsEarlier(es, order, j);
    LevelStep(es, order, j);
    LevelsRise(es, order, Position(order, d), Rank(es, order, j) - 1);
  }

  lemma AtLevelIs(es: seq<Enricher>, order: seq<Enricher>, j: nat, n: nat)
    requires Sound(es, order) && j < |order|
    ensures AtLevel(es, order[j].name, n) <==> n == LevelAt(es, order, j)
  {
    hide LevelAt, HasChain;
    LevelIsLongestChain(es, order, j, n);
    LevelIsLongestChain(es, order, j, n + 1);
  }

  /** The output runs level by level. */
  lemma GroupedByLevel(es: seq<Enricher>, order: seq<Enricher>, i: nat, j: nat, m: nat, n: nat)
    requires DistinctNames(es) && SortedOrder(es, order) && i < j < |order|
    requires AtLevel(es, order[i].name, m) && AtLevel(es, order[j].name, n)
    ensures m <= n
  {
    hide AtLevel, LevelAt;
    AtLevelIs(es, order, i, m);
    AtLevelIs(es, order, j, n);
    LevelsRise(es, order, i, j);
  }

  // ----- Input order within a level -----

  /** What the comment promises. */
  ghost predicate LevelsInInputOrder(es: seq<Enricher>, order: seq<Enricher>) {
    forall i, j, n :: 0 <= i < j < |order| && AtLevel(es, order[i].name, n) && AtLevel(es, order[j].name, n) ==>
      Precedes(es, order[i].name, order[j].name)
  }

  /** d is a dependency of a on the level below, and b has one there that is no earlier in the input. */
  ghost predicate Matched(es: seq<Enricher>, d: string, b: string, n: nat) {
    exists e :: DependsOn(es, b, e) && AtLevel(es, e, n) && Position(es, d) <= Position(es, e)
  }

  /** a stands before b in the input, on the same level, and d is a dependency of a on the level below. */
  ghost predicate Compared(es: seq<Enricher>, a: string, b: string, d: string, n: nat) {
    Precedes(es, a, b) && AtLevel(es, a, n + 1) && AtLevel(es, b, n + 1) && DependsOn(es, a, d) && AtLevel(es, d, n)
  }

  /** Of two enrichers on one level, the earlier one's last dependency on the level below is no later than the other's. */
  ghost predicate DepsInInputOrder(es: seq<Enricher>) {
    forall a, b, d, n: nat :: Compared(es, a, b, d, n) ==> Matched(es, d, b, n)
  }

  lemma PrecedesIs(es: seq<Enricher>, a: string, b: string)
    requires DistinctNames(es) && a in Names(es) && b in Names(es)
    ensures Precedes(es, a, b) <==> Position(es, a) < Position(es, b)
  {
    InputPlace(es, a);
    InputPlace(es, b);
    hide Position;
  }

  lemma InputPlace(es: seq<Enricher>, a: string)
    requires DistinctNames(es) && a in Names(es)
    ensures Position(es, a) < |es| && es[Position(es, a)].name == a
    ensures forall i :: 0 <= i < |es| && es[i].name == a ==> i == Position(es, a)
  {
    var e :| e in es && e.name == a;
    hide Position;
  }

  lemma Placed(es: seq<Enricher>, order: seq<Enricher>, a: string)
    requires Sound(es, order) && a in Names(es)
    ensures Position(order, a) < |order| && order[Position(order, a)].name == a
  {
    SoundFacts(es, order);
    var e :| e in es && e.name == a;
    assert e in order;
    hide Position;
  }

  /** The position's last dependency: on the level below, and no dependency of it runs later. */
  lemma LastDepBelow(es: seq<Enricher>, order: seq<Enricher>, j: nat, n: nat) returns (q: nat)
    requires Sound(es, order) && j < |order| && AtLevel(es, order[j].name, n + 1)
    ensures q < j && q + 1 == Rank(es, order, j)
    ensures DependsOn(es, order[j].name, order[q].name) && AtLevel(es, order[q].name, n)
    ensures forall d :: DependsOn(es, order[j].name, d) ==> Position(order, d) <= q
  {
    hide AtLevel, LevelAt, Rank, Position, Names, DependsOn, DepsFirst, Fifo, DistinctNames;
    AtLevelIs(es, order, j, n + 1);
    LevelStep(es, order, j);
    RankIsEarlier(es, order, j);
    var d := RankNames(es, order, j);
    q := Rank(es, order, j) - 1;
    DependsAt(es, order, j, d);
    AtLevelIs(es, order, q, n);
    forall x | DependsOn(es, order[j].name, x) ensures Position(order, x) <= q {
      DependsAt(es, order, j, x);
    }
  }

  /** On one level, the output has two enrichers in input order or their last dependencies the other way round. */
  lemma FifoOnLevel(es: seq<Enricher>, order: seq<Enricher>, i: nat, j: nat)
    requires Sound(es, order) && i < j < |order|
    ensures Precedes(es, order[i].name, order[j].name) || Rank(es, order, i) < Rank(es, order, j)
  {
    hide ReadyAfter, Precedes, DepsFirst;
  }

  lemma {:induction false} LevelInInputOrder(es: seq<Enricher>, order: seq<Enricher>, i: nat, j: nat, n: nat)
    requires Sound(es, order) && DepsInInputOrder(es) && i < j < |order|
    requires AtLevel(es, order[i].name, n) && AtLevel(es, order[j].name, n)
    ensures Precedes(es, order[i].name, order[j].name)
    decreases n
  {
    hide AtLevel, LevelAt, Rank, Position, Names, DependsOn, Precedes, Sound;
    FifoOnLevel(es, order, i, j);
    var x, y := order[i].name, order[j].name;
    if !Precedes(es, x, y) {
      NamesPresent(es, order, i, j);
      if n == 0 {
        GroundLevel(es, order, j);
      } else {
        var p := LastDepBelow(es, order, i, n - 1);
        var q := LastDepBelow(es, order, j, n - 1);
        var d := order[q].name;
        assert Compared(es, y, x, d, n - 1) && Matched(es, d, x, n - 1);
        var e :| DependsOn(es, x, e) && AtLevel(es, e, n - 1) && Position(es, d) <= Position(es, e);
        DependencyIsPresent(es, x, e);
        DependencyIsPresent(es, y, d);
        Placed(es, order, e);
        LevelInInputOrder(es, order, Position(order, e), q, n - 1);
        DistinctOf(es, order);
        PrecedesIs(es, e, d);
      }
    }
  }

  lemma DistinctOf(es: seq<Enricher>, order: seq<Enricher>)
    requires Sound(es, order)
    ensures DistinctNames(es)
  {
  }

  lemma DependencyIsPresent(es: seq<Enricher>, a: string, d: string)
    requires DependsOn(es, a, d)
    ensures d in Names(es)
  {
  }

  /** Two positions hold different names, both in the input, one before the other there. */
  lemma NamesPresent(es: seq<Enricher>, order: seq<Enricher>, i: nat, j: nat)
    requires Sound(es, order) && i < j < |order|
    ensures Precedes(es, order[i].name, order[j].name) || Precedes(es, order[j].name, order[i].name)
  {
    SoundFacts(es, order);
    OrderDistinct(es, order);
    hide Position;
    InputPlace(es, order[i].name);
    InputPlace(es, order[j].name);
  }

  lemma GroundLevel(es: seq<Enricher>, order: seq<Enricher>, j: nat)
    requires Sound(es, order) && j < |order| && AtLevel(es, order[j].name, 0)
    ensures Rank(es, order, j) == 0
  {
    hide AtLevel, LevelAt, Rank;
    AtLevelIs(es, order, j, 0);
    LevelStep(es, order, j);
  }

  /** Where levels are in input order, input order on a level is output order. */
  lemma OutputOrder(es: seq<Enricher>, order: seq<Enricher>, a: string, b: string, n: nat)
    requires Sound(es, order) && LevelsInInputOrder(es, order)
    requires Precedes(es, a, b) && AtLevel(es, a, n) && AtLevel(es, b, n)
    ensures a in Names(es) && b in Names(es) && Position(order, a) < Position(order, b) < |order|
  {
    hide *;
    BothPresent(es, a, b);
    DistinctOf(es, order);
    Placed(es, order, a);
    Placed(es, order, b);
    PrecedesOneWay(es, a, b);
    SelfPrecedes(es, a);
    if Position(order, b) < Position(order, a) {
      ByLevel(es, order, Position(order, b), Position(order, a), n);
    }
  }

  lemma MatchedInOutput(es: seq<Enricher>, order: seq<Enricher>, a: string, b: string, d: string, n: nat)
    requires Sound(es, order) && LevelsInInputOrder(es, order)
    requires Compared(es, a, b, d, n)
    ensures Matched(es, d, b, n)
  {
    hide AtLevel, Rank, Position, Names, DependsOn, Precedes, Sound, LevelsInInputOrder, Fifo, DistinctNames;
    OutputOrder(es, order, a, b, n + 1);
    DependencyIsPresent(es, a, d);
    Placed(es, order, a);
    Placed(es, order, b);
    Placed(es, order, d);
    var i, j, p := Position(order, a), Position(order, b), Position(order, d);
    var last := LastDepBelow(es, order, i, n);
    var q := LastDepBelow(es, order, j, n);
    FifoOf(es, order);
    RanksRise(es, order, i, j);
    var e := order[q].name;
    if p < q {
      ByLevel(es, order, p, q, n);
      DependencyIsPresent(es, b, e);
      DistinctOf(es, order);
      PrecedesIs(es, d, e);
    }
  }

  lemma FifoOf(es: seq<Enricher>, order: seq<Enricher>)
    requires Sound(es, order)
    ensures Fifo(es, order)
  {
  }

  lemma ByLevel(es: seq<Enricher>, order: seq<Enricher>, p: nat, q: nat, n: nat)
    requires LevelsInInputOrder(es, order) && p < q < |order|
    requires AtLevel(es, order[p].name, n) && AtLevel(es, order[q].name, n)
    ensures Precedes(es, order[p].name, order[q].name)
  {
    hide AtLevel, Precedes;
  }

  lemma SelfPrecedes(es: seq<Enricher>, a: string)
    requires DistinctNames(es)
    ensures !Precedes(es, a, a)
  {
  }

  lemma BothPresent(es: seq<Enricher>, a: string, b: string)
    requires Precedes(es, a, b)
    ensures a in Names(es) && b in Names(es)
  {
  }

  /** The comment's order holds exactly when, level by level, dependencies and dependents stand in the same input order. */
  lemma InputOrderIff(es: seq<Enricher>, order: seq<Enricher>)
    requires DistinctNames(es) && SortedOrder(es, order)
    ensures LevelsInInputOrder(es, order) <==> DepsInInputOrder(es)
  {
    hide AtLevel, DependsOn, Precedes, Matched, SortedOrder, DistinctNames;
    assert Sound(es, order);
    if DepsInInputOrder(es) {
      forall i, j, n | 0 <= i < j < |order| && AtLevel(es, order[i].name, n) && AtLevel(es, order[j].name, n)
        ensures Precedes(es, order[i].name, order[j].name)
      {
        LevelInInputOrder(es, order, i, j, n);
      }
    }
    if LevelsInInputOrder(es, order) {
      forall a, b, d, n: nat | Compared(es, a, b, d, n)
        ensures Matched(es, d, b, n)
      {
        MatchedInOutput(es, order, a, b, d, n);
      }
    }
  }

  const CROSSED := [Enricher("a", ["y"]), Enricher("b", ["x"]), Enricher("x", []), Enricher("y", [])]
  const UNCROSSED := [Enricher("x", []), Enricher("y", []), Enricher("b", ["x"]), Enricher("a", ["y"])]

  lemma CrossedRanks()
    ensures ReadyAfter(CROSSED, UNCROSSED, []) == 0
    ensures ReadyAfter(CROSSED, UNCROSSED, ["x"]) == 1 && ReadyAfter(CROSSED, UNCROSSED, ["y"]) == 2
  {
    assert CROSSED[2].name == "x" && CROSSED[2] in CROSSED && CROSSED[3].name == "y" && CROSSED[3] in CROSSED;
    assert UNCROSSED[0].name == "x" && UNCROSSED[1].name == "y";
    hide ReadyAfter;
    assert Position(UNCROSSED, "x") == 0 && Position(UNCROSSED, "y") == 1 by { hide Position; }
    NoPresentDeps(CROSSED, UNCROSSED, []);
  }

  lemma CrossedDeps()
    ensures DepsFirst(CROSSED, UNCROSSED)
  {
    assert UNCROSSED[0].name == "x" && UNCROSSED[1].name == "y";
  }

  lemma CrossedIsSorted()
    ensures Sound(CROSSED, UNCROSSED)
  {
    CrossedFifo();
    CrossedDeps();
    hide DepsFirst, Fifo;
    assert UNCROSSED == [CROSSED[2], CROSSED[3], CROSSED[1], CROSSED[0]];
  }

  lemma CrossedFifo()
    ensures Fifo(CROSSED, UNCROSSED)
  {
    CrossedRanks();
    assert CROSSED[2].name == "x" && CROSSED[3].name == "y";
    assert Precedes(CROSSED, "x", "y");
    hide ReadyAfter, Precedes;
    assert UNCROSSED[0].deps == UNCROSSED[1].deps == [] && UNCROSSED[2].deps == ["x"] && UNCROSSED[3].deps == ["y"];
  }

  /** The output for this input has two enrichers of level 1 against their input order. */
  lemma LevelsAreNotInInputOrder()
    ensures DistinctNames(CROSSED) && SortedOrder(CROSSED, UNCROSSED)
    ensures AtLevel(CROSSED, "a", 1) && AtLevel(CROSSED, "b", 1)
    ensures !LevelsInInputOrder(CROSSED, UNCROSSED)
  {
    hide AtLevel, SortedOrder, DepsFirst, LevelAt;
    CrossedIsSorted();
    CrossedLevels();
    var es, order := CROSSED, UNCROSSED;
    assert order[3].name == "a" && order[2].name == "b";
    AtLevelIs(es, order, 2, 1);
    AtLevelIs(es, order, 3, 1);
    assert Precedes(es, "a", "b") by { assert es[0].name == "a" && es[1].name == "b"; }
    hide Precedes, DistinctNames;
    PrecedesOneWay(es, "a", "b");
  }

  lemma CrossedLevels()
    ensures DepsFirst(CROSSED, UNCROSSED)
    ensures LevelAt(CROSSED, UNCROSSED, 2) == 1 && LevelAt(CROSSED, UNCROSSED, 3) == 1
  {
    CrossedRanks();
    CrossedDeps();
    var es, order := CROSSED, UNCROSSED;
    assert order[3].deps == ["y"] && order[2].deps == ["x"] && order[0].deps == [] && order[1].deps == [];
    hide ReadyAfter, DepsFirst;
    assert Rank(es, order, 2) == 1 && Rank(es, order, 3) == 2 && Rank(es, order, 0) == 0 && Rank(es, order, 1) == 0;
    hide Rank, CROSSED, UNCROSSED;
    assert LevelAt(es, order, 0) == 0 && LevelAt(es, order, 1) == 0;
  }

  // ----- The cycle report -----

  lemma PrecedesInLonger(es: seq<Enricher>, n: nat, a: string, b: string)
    requires n <= |es| && Precedes(es[..n], a, b)
    ensures Precedes(es, a, b)
  {
    var i, j :| 0 <= i < j < n && es[..n][i].name == a && es[..n][j].name == b;
    assert es[i].name == a && es[j].name == b;
  }

  /** The report names enrichers in input order, each once. */
  lemma {:induction false} StuckInInputOrder(es: seq<Enricher>, emitted: set<string>, i: nat, j: nat)
    requires DistinctNames(es) && i < j < |StuckNames(es, emitted)|
    ensures Precedes(es, StuckNames(es, emitted)[i], StuckNames(es, emitted)[j])
    ensures StuckNames(es, emitted)[i] != StuckNames(es, emitted)[j]
  {
    hide Precedes;
    var n := |es| - 1;
    var before := StuckNames(es[..n], emitted);
    if j < |before| {
      StuckInInputOrder(es[..n], emitted, i, j);
      PrecedesInLonger(es, n, before[i], before[j]);
    } else {
      assert before[i] in before;
      var e :| e in es[..n] && e.name == before[i];
      EarlierPrecedes(es, n, e);
    }
  }

  /** A dependency path leads from the name back to it. */
  ghost predicate OnCycle(es: seq<Enricher>, name: string) {
    exists p :: |p| >= 2 && DependencyPath(es, p) && p[0] == name && p[|p| - 1] == name
  }

  const LOOPED := [Enricher("a", ["a"]), Enricher("b", ["a"])]

  /** What is merely downstream of a cycle is named as well. */
  lemma DownstreamIsNamed()
    ensures DistinctNames(LOOPED) && ReachesCycle(LOOPED, "b") && !OnCycle(LOOPED, "b")
  {
    var a, b := LOOPED[0], LOOPED[1];
    assert a in LOOPED && b in LOOPED && a.name == "a" && b.name == "b";
    assert DependsOn(LOOPED, "a", "a") && DependsOn(LOOPED, "b", "a");
    var p := ["b", "a", "a"];
    assert p[1] == p[|p| - 1] && Lasso(LOOPED, p) && p[0] == "b";
    forall p | |p| >= 2 && DependencyPath(LOOPED, p) ensures p[|p| - 1] != "b" {
      assert DependsOn(LOOPED, p[|p| - 2], p[|p| - 1]);
    }
  }
}
