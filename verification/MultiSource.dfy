/**
  The resolver that walks a chain of CPE sources (internal/enrich/cpe/sources/multi.go).
  A source is a function of the PURL; None stands for an error.
*/
module MultiSource {
  import opened Wrappers
  import opened Strings
  import opened Candidates
  import opened Purls
  import CpeEnrich
  import opened Positions
  import Sorting

  datatype Mode = Offline | Online | Hybrid

  datatype Source = Source(network: bool, priority: int, match_: Purl -> Option<seq<Candidate>>)

  // ----- Registration -----

  /** The sources that the mode lets in, in the order given. */
  function Admitted(sources: seq<Source>, mode: Mode): (r: seq<Source>)
    ensures mode == Offline ==> forall s :: s in r ==> !s.network
  {
    if sources == [] then []
    else
      var before, last := Admitted(sources[..|sources| - 1], mode), sources[|sources| - 1];
      if mode == Offline && last.network then before else before + [last]
  }

  ghost function OfflineAt(sources: seq<Source>): set<nat> {
    set i: nat | i < |sources| && !sources[i].network
  }

  ghost predicate AreTheOffline(sources: seq<Source>, at: seq<nat>, r: seq<Source>) {
    && PicksExactly(at, OfflineAt(sources))
    && |r| == |at| && forall k :: 0 <= k < |at| ==> at[k] < |sources| && r[k] == sources[at[k]]
  }

  /** Offline mode lets in exactly the sources that need no network, in their order; the other modes let in all. */
  lemma {:induction false} AdmittedAre(sources: seq<Source>, mode: Mode)
    ensures mode != Offline ==> Admitted(sources, mode) == sources
    ensures mode == Offline ==> exists at: seq<nat> :: AreTheOffline(sources, at, Admitted(sources, mode))
  {
    hide AreTheOffline;
    if sources == [] {
      NoneOffline();
      var none: seq<nat> := [];
      assert AreTheOffline(sources, none, Admitted(sources, mode));
    } else {
      var front, last := sources[..|sources| - 1], sources[|sources| - 1];
      AdmittedAre(front, mode);
      assert sources == front + [last];
      if mode == Offline {
        var at: seq<nat> :| AreTheOffline(front, at, Admitted(front, mode));
        OfflineNext(front, last, at, Admitted(front, mode));
        assert AreTheOffline(sources, if last.network then at else at + [|front|], Admitted(sources, mode));
      }
    }
  }

  lemma NoneOffline()
    ensures AreTheOffline([], [], [])
  {
  }

  lemma OfflineNext(front: seq<Source>, last: Source, at: seq<nat>, r: seq<Source>)
    requires AreTheOffline(front, at, r)
    ensures AreTheOffline(front + [last], if last.network then at else at + [|front|], if last.network then r else r + [last])
  {
    hide PicksExactly;
    var all := front + [last];
    assert OfflineAt(all) == OfflineAt(front) + if last.network then {} else {|front|};
    assert OfflineAt(front) + {} == OfflineAt(front);
    PicksNext(at, OfflineAt(front), |front|);
  }

  function Priority(s: Source): real {
    s.priority as real
  }

  /** Offline mode drops network sources; the others are ordered by priority, stably. */
  function Registered(sources: seq<Source>, mode: Mode): (r: seq<Source>)
    ensures mode == Offline ==> forall s :: s in r ==> !s.network
  {
    Sorting.SortMembers(Admitted(sources, mode), Priority);
    Sorting.StableSort(Admitted(sources, mode), Priority)
  }

  /** Highest priority first, equal priorities in the order given, and exactly the admitted sources. */
  lemma RegisteredIsSorted(sources: seq<Source>, mode: Mode, priority: real)
    ensures Sorting.Descending(Registered(sources, mode), Priority)
    ensures Sorting.OfRank(Registered(sources, mode), Priority, priority) ==
      Sorting.OfRank(Admitted(sources, mode), Priority, priority)
    ensures multiset(Registered(sources, mode)) == multiset(Admitted(sources, mode))
  {
    Sorting.StableSortSorts(Admitted(sources, mode), Priority, priority);
  }

  // ----- Resolving -----

  predicate HasHighConfidence(cands: seq<Candidate>) {
    exists c :: c in cands && c.confidence >= DEFAULT_THRESHOLD.primaryMin
  }

  /** called lists the positions of the sources asked. */
  datatype Walked = Walked(all: seq<Candidate>, offlineHigh: bool, called: seq<nat>)

  function Walk(sources: seq<Source>, mode: Mode, p: Purl): Walked {
    if sources == [] then Walked([], false, [])
    else
      var n := |sources| - 1;
      var before, src := Walk(sources[..n], mode, p), sources[n];
      if mode == Hybrid && before.offlineHigh && src.network then before
      else
        match src.match_(p)
        case None => before.(called := before.called + [n])
        case Some(cands) =>
          Walked(before.all + cands,
                 before.offlineHigh || (!src.network && HasHighConfidence(cands)),
                 before.called + [n])
  }

  function CacheKey(p: Purl): string {
    Join([p.typ, p.namespace, p.name, p.version], '|')
  }

  class Resolver {
    const sources: seq<Source>
    const mode: Mode
    var cache: map<string, seq<Candidate>>

    constructor (sources: seq<Source>, mode: Mode)
      ensures this.sources == Registered(sources, mode) && this.mode == mode && cache == map[]
    {
      this.sources := Registered(sources, mode);
      this.mode := mode;
      cache := map[];
    }

    method Resolve(p: Purl) returns (answer: seq<Candidate>, ghost called: seq<nat>)
      modifies this
      ensures (cache, answer) == Cached(sources, mode, old(cache), p)
      ensures called == if CacheKey(p) in old(cache) then [] else Walk(sources, mode, p).called
    {
      var key := CacheKey(p);
      if key in cache {
        return cache[key], [];
      }
      var all: seq<Candidate> := [];
      var offlineHigh := false;
      called := [];
      var i := 0;
      while i < |sources|
        invariant 0 <= i <= |sources|
        invariant Walked(all, offlineHigh, called) == Walk(sources[..i], mode, p)
      {
        assert sources[..i + 1][..i] == sources[..i];
        if !(mode == Hybrid && offlineHigh && sources[i].network) {
          called := called + [i];
          var result := sources[i].match_(p);
          if result.Some? {
            all := all + result.value;
            if !sources[i].network && HasHighConfidence(result.value) {
              offlineHigh := true;
            }
          }
        }
        i := i + 1;
      }
      assert sources[..i] == sources;
      cache := cache[key := all];
      return all, called;
    }
  }

  function Cached(sources: seq<Source>, mode: Mode, cache: map<string, seq<Candidate>>, p: Purl): (map<string, seq<Candidate>>, seq<Candidate>) {
    if CacheKey(p) in cache then (cache, cache[CacheKey(p)])
    else
      var all := Walk(sources, mode, p).all;
      (cache[CacheKey(p) := all], all)
  }

  // ----- Which sources are asked -----

  /** A source that needs no network has answered with a candidate of 0.70 or more. */
  ghost predicate GoodOffline(s: Source, p: Purl) {
    !s.network && s.match_(p).Some? && exists c :: c in s.match_(p).value && c.confidence >= 0.70
  }

  /** Only hybrid mode leaves sources out: those on the network, behind a good offline answer. */
  ghost predicate Asked(sources: seq<Source>, mode: Mode, p: Purl, i: nat) {
    && i < |sources|
    && (mode == Hybrid && sources[i].network ==> forall j :: 0 <= j < i ==> !GoodOffline(sources[j], p))
  }

  ghost function AskedAt(sources: seq<Source>, mode: Mode, p: Purl): set<nat> {
    set i: nat | i < |sources| && Asked(sources, mode, p, i)
  }

  function AnswersAt(sources: seq<Source>, p: Purl, at: seq<nat>): seq<Candidate>
    requires forall k :: 0 <= k < |at| ==> at[k] < |sources|
  {
    if at == [] then []
    else
      var answer := sources[at[|at| - 1]].match_(p);
      AnswersAt(sources, p, at[..|at| - 1]) + if answer.Some? then answer.value else []
  }

  lemma {:induction false} AnswersAtFront(sources: seq<Source>, src: Source, p: Purl, at: seq<nat>)
    requires forall k :: 0 <= k < |at| ==> at[k] < |sources|
    ensures AnswersAt(sources + [src], p, at) == AnswersAt(sources, p, at)
  {
    if at != [] {
      AnswersAtFront(sources, src, p, at[..|at| - 1]);
    }
  }

  lemma AnswersAtSnoc(sources: seq<Source>, p: Purl, at: seq<nat>, i: nat)
    requires i < |sources| && forall k :: 0 <= k < |at| ==> at[k] < |sources|
    ensures AnswersAt(sources, p, at + [i]) ==
      AnswersAt(sources, p, at) + if sources[i].match_(p).Some? then sources[i].match_(p).value else []
  {
    assert (at + [i])[..|at|] == at;
  }

  ghost predicate WalkedAs(sources: seq<Source>, mode: Mode, p: Purl, w: Walked) {
    && PicksExactly(w.called, AskedAt(sources, mode, p))
    && (forall k :: 0 <= k < |w.called| ==> w.called[k] < |sources|)
    && w.all == AnswersAt(sources, p, w.called)
    && (w.offlineHigh <==> exists j :: 0 <= j < |sources| && GoodOffline(sources[j], p))
  }

  /** The sources asked, in order, and the answer: theirs, one behind the other, failures aside. */
  lemma {:induction false} WalkIs(sources: seq<Source>, mode: Mode, p: Purl)
    ensures WalkedAs(sources, mode, p, Walk(sources, mode, p))
  {
    if sources != [] {
      var n := |sources| - 1;
      WalkIs(sources[..n], mode, p);
      WalkStep(sources[..n], sources[n], mode, p);
      assert sources == sources[..n] + [sources[n]];
    }
  }

  lemma AskedFront(sources: seq<Source>, src: Source, mode: Mode, p: Purl)
    ensures forall i: nat :: i < |sources| ==> (Asked(sources + [src], mode, p, i) <==> Asked(sources, mode, p, i))
    ensures Asked(sources + [src], mode, p, |sources|) <==>
      (mode == Hybrid && src.network ==> !exists j :: 0 <= j < |sources| && GoodOffline(sources[j], p))
  {
    hide GoodOffline;
    var all := sources + [src];
    assert forall j :: 0 <= j < |sources| ==> all[j] == sources[j];
  }

  lemma WalkSnoc(sources: seq<Source>, src: Source, mode: Mode, p: Purl)
    ensures var before, after := Walk(sources, mode, p), Walk(sources + [src], mode, p);
      if mode == Hybrid && before.offlineHigh && src.network then after == before
      else
        && after.called == before.called + [|sources|]
        && after.all == before.all + (if src.match_(p).Some? then src.match_(p).value else [])
        && (after.offlineHigh <==> before.offlineHigh || GoodOffline(src, p))
  {
    var all := sources + [src];
    assert all[..|sources|] == sources && all[|sources|] == src;
    var before := Walk(sources, mode, p);
    assert before.all + [] == before.all;
  }

  lemma AskedNext(sources: seq<Source>, src: Source, mode: Mode, p: Purl, called: seq<nat>)
    requires PicksExactly(called, AskedAt(sources, mode, p))
    ensures PicksExactly(
      if Asked(sources + [src], mode, p, |sources|) then called + [|sources|] else called,
      AskedAt(sources + [src], mode, p))
  {
    AskedFront(sources, src, mode, p);
    hide Asked, PicksExactly;
    var all := sources + [src];
    var was := AskedAt(sources, mode, p);
    assert AskedAt(all, mode, p) == was + if Asked(all, mode, p, |sources|) then {|sources|} else {};
    assert was + {} == was;
    PicksNext(called, was, |sources|);
  }

  lemma GoodNext(sources: seq<Source>, src: Source, p: Purl)
    ensures (exists j :: 0 <= j < |sources + [src]| && GoodOffline((sources + [src])[j], p)) <==>
      (exists j :: 0 <= j < |sources| && GoodOffline(sources[j], p)) || GoodOffline(src, p)
  {
    hide GoodOffline;
    var all := sources + [src];
    assert all[|sources|] == src;
    if j :| 0 <= j < |sources| && GoodOffline(sources[j], p) {
      assert GoodOffline(all[j], p);
    }
  }

  lemma WalkStep(sources: seq<Source>, src: Source, mode: Mode, p: Purl)
    requires WalkedAs(sources, mode, p, Walk(sources, mode, p))
    ensures WalkedAs(sources + [src], mode, p, Walk(sources + [src], mode, p))
  {
    hide Walk, GoodOffline, Asked, PicksExactly;
    var before, after, all := Walk(sources, mode, p), Walk(sources + [src], mode, p), sources + [src];
    WalkSnoc(sources, src, mode, p);
    AskedFront(sources, src, mode, p);
    AskedNext(sources, src, mode, p, before.called);
    GoodNext(sources, src, p);
    AnswersAtFront(sources, src, p, before.called);
    AnswersAtSnoc(all, p, before.called, |sources|);
    assert all[|sources|] == src;
    NetworkIsNeverGood(src, p);
  }

  lemma NetworkIsNeverGood(src: Source, p: Purl)
    ensures GoodOffline(src, p) ==> !src.network
  {
  }

  // ----- Modes -----

  /** Offline mode never asks a network source. */
  lemma OfflineStaysOffline(sources: seq<Source>, p: Purl)
    ensures var registered := Registered(sources, Offline);
      forall i :: i in Walk(registered, Offline, p).called ==> i < |registered| && !registered[i].network
  {
    CalledArePositions(Registered(sources, Offline), Offline, p);
  }

  lemma {:induction false} CalledArePositions(sources: seq<Source>, mode: Mode, p: Purl)
    ensures forall i :: i in Walk(sources, mode, p).called ==> i < |sources|
  {
    if sources != [] {
      CalledArePositions(sources[..|sources| - 1], mode, p);
    }
  }

  ghost predicate Subsequence<T>(a: seq<T>, b: seq<T>) {
    if a == [] then true
    else if b == [] then false
    else
      || (a[|a| - 1] == b[|b| - 1] && Subsequence(a[..|a| - 1], b[..|b| - 1]))
      || Subsequence(a, b[..|b| - 1])
  }

  lemma {:induction false} SubsequenceGrows<T>(a: seq<T>, b: seq<T>, c: seq<T>)
    requires Subsequence(a, b)
    ensures Subsequence(a, b + c) && Subsequence(a + c, b + c)
  {
    if c == [] {
      assert a + c == a && b + c == b;
    } else {
      SubsequenceGrows(a, b, c[..|c| - 1]);
      assert (b + c)[..|b + c| - 1] == b + c[..|c| - 1];
      assert (a + c)[..|a + c| - 1] == a + c[..|c| - 1];
    }
  }

  lemma {:induction false} SubsequenceMembers<T>(a: seq<T>, b: seq<T>)
    requires Subsequence(a, b)
    ensures forall x :: x in a ==> x in b
  {
    if a != [] {
      assert a == a[..|a| - 1] + [a[|a| - 1]];
      if a[|a| - 1] == b[|b| - 1] && Subsequence(a[..|a| - 1], b[..|b| - 1]) {
        SubsequenceMembers(a[..|a| - 1], b[..|b| - 1]);
      } else {
        SubsequenceMembers(a, b[..|b| - 1]);
      }
    }
  }

  /** Hybrid mode leaves sources out only after an offline source was good enough. */
  lemma {:induction false} HybridVersusOnline(sources: seq<Source>, p: Purl)
    ensures var hybrid, online := Walk(sources, Hybrid, p), Walk(sources, Online, p);
      && Subsequence(hybrid.all, online.all)
      && (hybrid.offlineHigh ==> HasHighConfidence(hybrid.all))
      && (!hybrid.offlineHigh ==> hybrid.all == online.all)
  {
    if sources != [] {
      var n := |sources| - 1;
      HybridVersusOnline(sources[..n], p);
      var hybrid, online := Walk(sources[..n], Hybrid, p), Walk(sources[..n], Online, p);
      var result := sources[n].match_(p);
      if result.Some? {
        SubsequenceGrows(hybrid.all, online.all, result.value);
      }
    }
  }

  /**
    With the default threshold, hybrid mode gives a component a primary CPE exactly when
    online mode does, from a subsequence of the candidates, whatever CPEs it had before.
  */
  lemma HybridFindsPrimaryIffOnlineDoes(sources: seq<Source>, p: Purl, existing: seq<Candidate>)
    ensures var hybrid, online := Walk(sources, Hybrid, p).all, Walk(sources, Online, p).all;
      && Subsequence(hybrid, online)
      && (Primary(Dedupe(existing + hybrid), DEFAULT_THRESHOLD).Some? <==>
          Primary(Dedupe(existing + online), DEFAULT_THRESHOLD).Some?)
  {
    hide Walk, Primary, Dedupe, Subsequence;
    var hybrid, online := Walk(sources, Hybrid, p).all, Walk(sources, Online, p).all;
    HybridVersusOnline(sources, p);
    SubsequenceMembers(hybrid, online);
    CpeEnrich.PrimaryIff(existing + hybrid, DEFAULT_THRESHOLD);
    CpeEnrich.PrimaryIff(existing + online, DEFAULT_THRESHOLD);
    if Walk(sources, Hybrid, p).offlineHigh {
      var c :| c in hybrid && c.confidence >= DEFAULT_THRESHOLD.primaryMin;
      assert c in existing + hybrid && c in existing + online;
    }
  }

  // ----- The cache -----

  function CacheAfter(sources: seq<Source>, mode: Mode, purls: seq<Purl>): map<string, seq<Candidate>> {
    if purls == [] then map[]
    else Cached(sources, mode, CacheAfter(sources, mode, purls[..|purls| - 1]), purls[|purls| - 1]).0
  }

  /** The cached answer to the i-th of a sequence of requests. */
  function Answer(sources: seq<Source>, mode: Mode, purls: seq<Purl>, i: nat): seq<Candidate>
    requires i < |purls|
  {
    Cached(sources, mode, CacheAfter(sources, mode, purls[..i]), purls[i]).1
  }

  /** The position of the first request with a key. */
  ghost predicate FirstWith(purls: seq<Purl>, key: string, j: nat) {
    j < |purls| && CacheKey(purls[j]) == key && forall k :: 0 <= k < j ==> CacheKey(purls[k]) != key
  }

  lemma {:induction false} CacheHoldsFirst(sources: seq<Source>, mode: Mode, purls: seq<Purl>, key: string)
    ensures var cache := CacheAfter(sources, mode, purls);
      && (key in cache <==> exists k :: 0 <= k < |purls| && CacheKey(purls[k]) == key)
      && (key in cache ==> exists j: nat :: FirstWith(purls, key, j) && cache[key] == Walk(sources, mode, purls[j]).all)
  {
    hide CacheKey, Walk;
    if purls != [] {
      var front, last := purls[..|purls| - 1], purls[|purls| - 1];
      CacheHoldsFirst(sources, mode, front, key);
      var before, cache := CacheAfter(sources, mode, front), CacheAfter(sources, mode, purls);
      if key in before {
        var j: nat :| FirstWith(front, key, j) && before[key] == Walk(sources, mode, front[j]).all;
        assert FirstWith(purls, key, j);
        assert cache[key] == before[key];
      } else if CacheKey(last) == key {
        assert FirstWith(purls, key, |front|);
      }
    }
  }

  /** The cache changes no answer of a sequence of requests exactly when requests with the same key have the same uncached answer. */
  lemma CacheIsTransparentIff(sources: seq<Source>, mode: Mode, purls: seq<Purl>)
    ensures (forall i: nat :: i < |purls| ==> Answer(sources, mode, purls, i) == Walk(sources, mode, purls[i]).all) <==>
      (forall i: nat, j: nat :: i < |purls| && j < |purls| && CacheKey(purls[i]) == CacheKey(purls[j]) ==>
        Walk(sources, mode, purls[i]).all == Walk(sources, mode, purls[j]).all)
  {
    hide CacheKey, Walk, Answer;
    if forall i: nat :: i < |purls| ==> Answer(sources, mode, purls, i) == Walk(sources, mode, purls[i]).all {
      forall i: nat, j: nat | i < |purls| && j < |purls| && CacheKey(purls[i]) == CacheKey(purls[j])
        ensures Walk(sources, mode, purls[i]).all == Walk(sources, mode, purls[j]).all
      {
        var a := AnsweredByFirst(sources, mode, purls, i);
        var b := AnsweredByFirst(sources, mode, purls, j);
        assert a == b;
      }
    }
    if forall i: nat, j: nat :: i < |purls| && j < |purls| && CacheKey(purls[i]) == CacheKey(purls[j]) ==>
         Walk(sources, mode, purls[i]).all == Walk(sources, mode, purls[j]).all {
      forall i: nat | i < |purls| ensures Answer(sources, mode, purls, i) == Walk(sources, mode, purls[i]).all {
        var a := AnsweredByFirst(sources, mode, purls, i);
      }
    }
  }

  /** Request i gets the answer worked out for request j, the first with its key. */
  ghost predicate AnsweredBy(sources: seq<Source>, mode: Mode, purls: seq<Purl>, i: nat, j: nat)
    requires i < |purls|
  {
    FirstWith(purls, CacheKey(purls[i]), j) && Answer(sources, mode, purls, i) == Walk(sources, mode, purls[j]).all
  }

  lemma AnsweredByFirst(sources: seq<Source>, mode: Mode, purls: seq<Purl>, i: nat) returns (j: nat)
    requires i < |purls|
    ensures AnsweredBy(sources, mode, purls, i, j)
  {
    hide CacheKey, Walk, CacheAfter;
    var key, front := CacheKey(purls[i]), purls[..i];
    CacheHoldsFirst(sources, mode, front, key);
    if key in CacheAfter(sources, mode, front) {
      var k: nat :| FirstWith(front, key, k) && CacheAfter(sources, mode, front)[key] == Walk(sources, mode, front[k]).all;
      j := k;
    } else {
      j := i;
      forall k | 0 <= k < i ensures CacheKey(purls[k]) != key {
        assert front[k] == purls[k];
      }
    }
  }

  /** Without '|' in the four parts, the key tells PURLs apart up to query and subpath. */
  lemma KeyIsInjective(p: Purl, q: Purl)
    requires Avoids(p.typ, {'|'}) && Avoids(p.namespace, {'|'}) && Avoids(p.name, {'|'}) && Avoids(p.version, {'|'})
    requires Avoids(q.typ, {'|'}) && Avoids(q.namespace, {'|'}) && Avoids(q.name, {'|'}) && Avoids(q.version, {'|'})
    ensures CacheKey(p) == CacheKey(q) <==>
      p.typ == q.typ && p.namespace == q.namespace && p.name == q.name && p.version == q.version
  {
    var a, b := [p.typ, p.namespace, p.name, p.version], [q.typ, q.namespace, q.name, q.version];
    SplitJoin(a, '|');
    SplitJoin(b, '|');
    if CacheKey(p) == CacheKey(q) {
      assert a == b;
      assert a[0] == b[0] && a[1] == b[1] && a[2] == b[2] && a[3] == b[3];
    }
  }

  // ----- When the cache can be trusted -----

  predicate SameParts(p: Purl, q: Purl) {
    p.typ == q.typ && p.namespace == q.namespace && p.name == q.name && p.version == q.version
  }

  /** The source looks at type, namespace, name and version only. */
  ghost predicate FourPartsOnly(s: Source) {
    forall p, q :: SameParts(p, q) ==> s.match_(p) == s.match_(q)
  }

  lemma {:induction false} WalkFourParts(sources: seq<Source>, mode: Mode, p: Purl, q: Purl)
    requires (forall s :: s in sources ==> FourPartsOnly(s)) && SameParts(p, q)
    ensures Walk(sources, mode, p) == Walk(sources, mode, q)
  {
    hide SameParts;
    if sources != [] {
      WalkFourParts(sources[..|sources| - 1], mode, p, q);
      assert sources[|sources| - 1] in sources;
    }
  }

  ghost predicate Transparent(sources: seq<Source>, mode: Mode, purls: seq<Purl>) {
    forall i: nat :: i < |purls| ==> Answer(sources, mode, purls, i) == Walk(sources, mode, purls[i]).all
  }

  /** Requests that share a key are for the same package. */
  ghost predicate KeysTellApart(purls: seq<Purl>) {
    forall i: nat, j: nat :: i < |purls| && j < |purls| && CacheKey(purls[i]) == CacheKey(purls[j]) ==>
      SameParts(purls[i], purls[j])
  }

  /** A source that knows one package. */
  function OnlyFor(known: Purl, c: Candidate): Source {
    Source(false, 0, p => if SameParts(p, known) then Some([c]) else Some([]))
  }

  lemma OnlyForWalks(known: Purl, c: Candidate, mode: Mode, p: Purl)
    ensures FourPartsOnly(OnlyFor(known, c))
    ensures Walk([OnlyFor(known, c)], mode, p).all == if SameParts(p, known) then [c] else []
  {
    assert [OnlyFor(known, c)][..0] == [];
  }

  /**
    The cache changes no answer, whatever sources that look at the four parts are registered,
    exactly when requests that share a key are for the same package.
  */
  lemma CacheIsSafeIff(mode: Mode, purls: seq<Purl>)
    ensures (forall sources: seq<Source> :: (forall s :: s in sources ==> FourPartsOnly(s)) ==> Transparent(sources, mode, purls)) <==>
      KeysTellApart(purls)
  {
    hide CacheKey, Walk, Answer, SameParts, FourPartsOnly;
    if KeysTellApart(purls) {
      forall sources: seq<Source> | forall s :: s in sources ==> FourPartsOnly(s) ensures Transparent(sources, mode, purls) {
        ApartIsTransparent(sources, mode, purls);
      }
    } else {
      var i: nat, j: nat :| i < |purls| && j < |purls| && CacheKey(purls[i]) == CacheKey(purls[j]) && !SameParts(purls[i], purls[j]);
      var c := Candidate("", 0.0, "", "", "");
      var sources := [OnlyFor(purls[j], c)];
      OnlyForWalks(purls[j], c, mode, purls[i]);
      OnlyForWalks(purls[j], c, mode, purls[j]);
      SamePartsIsReflexive(purls[j]);
      CacheIsTransparentIff(sources, mode, purls);
      assert !Transparent(sources, mode, purls);
    }
  }

  lemma SamePartsIsReflexive(p: Purl)
    ensures SameParts(p, p)
  {
  }

  lemma ApartIsTransparent(sources: seq<Source>, mode: Mode, purls: seq<Purl>)
    requires KeysTellApart(purls) && forall s :: s in sources ==> FourPartsOnly(s)
    ensures Transparent(sources, mode, purls)
  {
    hide CacheKey, Walk, Answer, SameParts, FourPartsOnly;
    forall i: nat, j: nat | i < |purls| && j < |purls| && CacheKey(purls[i]) == CacheKey(purls[j])
      ensures Walk(sources, mode, purls[i]).all == Walk(sources, mode, purls[j]).all
    {
      WalkFourParts(sources, mode, purls[i], purls[j]);
    }
    CacheIsTransparentIff(sources, mode, purls);
  }

  ghost predicate BarFree(p: Purl) {
    Avoids(p.typ, {'|'}) && Avoids(p.namespace, {'|'}) && Avoids(p.name, {'|'}) && Avoids(p.version, {'|'})
  }

  /** Requests without a '|' get the answers that the sources would give uncached. */
  lemma BarFreeIsTransparent(sources: seq<Source>, mode: Mode, purls: seq<Purl>)
    requires forall p :: p in purls ==> BarFree(p)
    requires forall s :: s in sources ==> FourPartsOnly(s)
    ensures Transparent(sources, mode, purls)
  {
    hide CacheKey, Walk, Answer, FourPartsOnly;
    forall i: nat, j: nat | i < |purls| && j < |purls| && CacheKey(purls[i]) == CacheKey(purls[j])
      ensures SameParts(purls[i], purls[j])
    {
      assert BarFree(purls[i]) && BarFree(purls[j]);
      KeyIsInjective(purls[i], purls[j]);
    }
    ApartIsTransparent(sources, mode, purls);
  }

  const BARRED := Purl("t", "a|b", "c", "", "", "")
  const OTHER := Purl("t", "a", "b|c", "", "", "")

  lemma KeysCanCollide()
    ensures CacheKey(BARRED) == CacheKey(OTHER) && !SameParts(BARRED, OTHER)
  {
    assert Join(["a|b", "c", ""], '|') == "a|b|c|" == Join(["a", "b|c", ""], '|') by {
      assert ["a|b", "c", ""][1..] == ["c", ""] && ["c", ""][1..] == [""];
      assert ["a", "b|c", ""][1..] == ["b|c", ""] && ["b|c", ""][1..] == [""];
    }
    assert ["t", "a|b", "c", ""][1..] == ["a|b", "c", ""];
    assert ["t", "a", "b|c", ""][1..] == ["a", "b|c", ""];
    assert |BARRED.name| != |OTHER.name|;
  }

  /** With a '|' in a name, the second package is answered with the first one's candidates. */
  lemma CacheCanAnswerWrongly(mode: Mode, c: Candidate)
    ensures var sources, purls := [OnlyFor(BARRED, c)], [BARRED, OTHER];
      Answer(sources, mode, purls, 1) == [c] && Walk(sources, mode, OTHER).all == []
  {
    KeysCanCollide();
    OnlyForWalks(BARRED, c, mode, BARRED);
    OnlyForWalks(BARRED, c, mode, OTHER);
    SamePartsIsReflexive(BARRED);
    hide CacheKey, Walk, SameParts, BARRED, OTHER;
    var sources, purls := [OnlyFor(BARRED, c)], [BARRED, OTHER];
    assert purls[..1] == [BARRED] && [BARRED][..0] == [];
    SamePartsFlips(BARRED, OTHER);
    assert CacheAfter(sources, mode, []) == map[];
    assert CacheAfter(sources, mode, purls[..1]) == map[CacheKey(BARRED) := [c]];
  }

  lemma SamePartsFlips(p: Purl, q: Purl)
    ensures SameParts(p, q) == SameParts(q, p)
  {
  }
}
