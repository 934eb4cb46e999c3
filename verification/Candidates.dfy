/**
  CPE candidates: collapsing duplicates, splitting by confidence
  (internal/enrich/cpe/confidence.go). Confidences are reals.
*/
module Candidates {
  import Sorting
  import opened Wrappers
  import opened Strings

  datatype Candidate = Candidate(
    cpe: string, confidence: real, source: string, evidence: string, rejectedReason: string)

  datatype Threshold = Threshold(primaryMin: real, alternativeMin: real)

  const DEFAULT_THRESHOLD := Threshold(0.70, 0.50)

  // ----- Duplicates -----

  /** The CPE strings in order of first occurrence. */
  function Distinct(cands: seq<Candidate>): (cpes: seq<string>)
    ensures forall x :: x in cpes <==> exists c :: c in cands && c.cpe == x
    ensures forall i, j :: 0 <= i < j < |cpes| ==> cpes[i] != cpes[j]
  {
    if cands == [] then []
    else
      var before, last := Distinct(cands[..|cands| - 1]), cands[|cands| - 1];
      assert cands == cands[..|cands| - 1] + [last];
      if last.cpe in before then before else before + [last.cpe]
  }

  /** The first candidate of highest confidence among those for one CPE. */
  function Best(cands: seq<Candidate>, cpe: string): (best: Option<Candidate>)
    ensures best.None? <==> forall c :: c in cands ==> c.cpe != cpe
    ensures best.Some? ==> best.value in cands && best.value.cpe == cpe
    ensures best.Some? ==> forall c :: c in cands && c.cpe == cpe ==> c.confidence <= best.value.confidence
  {
    if cands == [] then None
    else
      var before, last := Best(cands[..|cands| - 1], cpe), cands[|cands| - 1];
      assert cands == cands[..|cands| - 1] + [last];
      if last.cpe != cpe then before
      else if before.None? || last.confidence > before.value.confidence then Some(last)
      else before
  }

  function SourcesOf(cands: seq<Candidate>, cpe: string): set<string> {
    set c | c in cands && c.cpe == cpe :: c.source
  }

  function MergeSources(sources: set<string>): string {
    Join(SortedKeys(sources), '+')
  }

  function Collapsed(cands: seq<Candidate>, cpe: string): (c: Candidate)
    requires cpe in Distinct(cands)
    ensures c.cpe == cpe
  {
    var best, sources := Best(cands, cpe).value, SourcesOf(cands, cpe);
    if |sources| > 1 then best.(source := MergeSources(sources)) else best
  }

  function Dedupe(cands: seq<Candidate>): (r: seq<Candidate>)
    ensures |r| == |Distinct(cands)|
    ensures forall k :: 0 <= k < |r| ==> r[k].cpe == Distinct(cands)[k]
  {
    seq(|Distinct(cands)|, k requires 0 <= k < |Distinct(cands)| => Collapsed(cands, Distinct(cands)[k]))
  }

  /** The collecting loop: one slot per CPE, overwritten by a strictly better copy. */
  method DedupeCandidates(cands: seq<Candidate>) returns (r: seq<Candidate>)
    ensures r == Dedupe(cands)
  {
    hide Distinct, Best, SourcesOf, Collapsed, Slots, Positions, SourceSets;
    var out: seq<Candidate> := [];
    var index: map<string, nat> := map[];
    var sources: map<string, set<string>> := map[];
    NoSlots();
    var i := 0;
    while i < |cands|
      invariant 0 <= i <= |cands|
      invariant Slots(cands[..i], out) && Positions(cands[..i], index) && SourceSets(cands[..i], sources)
    {
      var c := cands[i];
      SlotsStep(cands[..i], c, out, index);
      SourceSetsStep(cands[..i], c, index, sources);
      assert cands[..i + 1] == cands[..i] + [c];
      if c.cpe !in index {
        index := index[c.cpe := |out|];
        sources := sources[c.cpe := {c.source}];
        out := out + [c];
      } else {
        sources := sources[c.cpe := sources[c.cpe] + {c.source}];
        if c.confidence > out[index[c.cpe]].confidence {
          out := out[index[c.cpe] := c];
        }
      }
      i := i + 1;
    }
    assert cands[..i] == cands;
    SlotsAreCollapsed(cands, out, sources);
    r := [];
    i := 0;
    while i < |out|
      invariant 0 <= i <= |out| == |Dedupe(cands)|
      invariant r == Dedupe(cands)[..i]
    {
      var merged := sources[out[i].cpe];
      r := r + [if |merged| > 1 then out[i].(source := MergeSources(merged)) else out[i]];
      i := i + 1;
    }
  }

  ghost predicate Slots(cands: seq<Candidate>, out: seq<Candidate>) {
    && |out| == |Distinct(cands)|
    && forall k :: 0 <= k < |out| ==> Best(cands, Distinct(cands)[k]) == Some(out[k])
  }

  ghost predicate Positions(cands: seq<Candidate>, index: map<string, nat>) {
    && (forall x :: x in index <==> x in Distinct(cands))
    && (forall x :: x in index ==> index[x] < |Distinct(cands)| && Distinct(cands)[index[x]] == x)
  }

  ghost predicate SourceSets(cands: seq<Candidate>, sources: map<string, set<string>>) {
    && (forall x :: x in sources <==> x in Distinct(cands))
    && (forall x :: x in sources ==> sources[x] == SourcesOf(cands, x))
  }

  lemma NoSlots()
    ensures Slots([], []) && Positions([], map[]) && SourceSets([], map[])
  {
  }

  lemma SlotsAreCollapsed(cands: seq<Candidate>, out: seq<Candidate>, sources: map<string, set<string>>)
    requires Slots(cands, out) && SourceSets(cands, sources)
    ensures |out| == |Dedupe(cands)|
    ensures forall k :: 0 <= k < |out| ==>
      out[k].cpe in sources &&
      Dedupe(cands)[k] ==
        if |sources[out[k].cpe]| > 1 then out[k].(source := MergeSources(sources[out[k].cpe])) else out[k]
  {
    hide Distinct, Best, SourcesOf;
    forall k | 0 <= k < |out| ensures out[k].cpe == Distinct(cands)[k] {
      assert Best(cands, Distinct(cands)[k]) == Some(out[k]);
    }
  }

  lemma DistinctSnoc(cands: seq<Candidate>, c: Candidate)
    ensures Distinct(cands + [c]) == if c.cpe in Distinct(cands) then Distinct(cands) else Distinct(cands) + [c.cpe]
  {
    assert (cands + [c])[..|cands|] == cands;
  }

  lemma BestSnoc(cands: seq<Candidate>, c: Candidate, x: string)
    ensures Best(cands + [c], x) ==
      if c.cpe != x then Best(cands, x)
      else if Best(cands, x).None? || c.confidence > Best(cands, x).value.confidence then Some(c)
      else Best(cands, x)
  {
    assert (cands + [c])[..|cands|] == cands;
  }

  lemma SourcesSnoc(cands: seq<Candidate>, c: Candidate, x: string)
    ensures SourcesOf(cands + [c], x) == SourcesOf(cands, x) + if c.cpe == x then {c.source} else {}
  {
  }

  lemma NewSlot(cands: seq<Candidate>, c: Candidate, out: seq<Candidate>)
    requires Slots(cands, out) && c.cpe !in Distinct(cands)
    ensures Slots(cands + [c], out + [c])
  {
    hide Distinct, Best;
    DistinctSnoc(cands, c);
    BestSnoc(cands, c, c.cpe);
    forall k | 0 <= k < |out| ensures Best(cands + [c], Distinct(cands)[k]) == Some(out[k]) {
      BestSnoc(cands, c, Distinct(cands)[k]);
    }
  }

  lemma OldSlot(cands: seq<Candidate>, c: Candidate, out: seq<Candidate>, at: nat)
    requires Slots(cands, out) && at < |out| && Distinct(cands)[at] == c.cpe
    ensures Slots(cands + [c], if c.confidence > out[at].confidence then out[at := c] else out)
  {
    hide Distinct, Best;
    DistinctSnoc(cands, c);
    forall k | 0 <= k < |out|
      ensures Best(cands + [c], Distinct(cands)[k]) ==
        Some(if k == at && c.confidence > out[at].confidence then c else out[k])
    {
      BestSnoc(cands, c, Distinct(cands)[k]);
    }
  }

  lemma SlotCount(cands: seq<Candidate>, out: seq<Candidate>)
    requires Slots(cands, out)
    ensures |out| == |Distinct(cands)|
  {
  }

  lemma SlotsStep(cands: seq<Candidate>, c: Candidate, out: seq<Candidate>, index: map<string, nat>)
    requires Slots(cands, out) && Positions(cands, index)
    ensures c.cpe !in index ==> Slots(cands + [c], out + [c]) && Positions(cands + [c], index[c.cpe := |out|])
    ensures c.cpe in index ==>
      && index[c.cpe] < |out| && Positions(cands + [c], index)
      && Slots(cands + [c], if c.confidence > out[index[c.cpe]].confidence then out[index[c.cpe] := c] else out)
  {
    hide Distinct, Best, Slots;
    DistinctSnoc(cands, c);
    assert |out| == |Distinct(cands)| by { SlotCount(cands, out); }
    if c.cpe !in index {
      NewSlot(cands, c, out);
    } else {
      OldSlot(cands, c, out, index[c.cpe]);
    }
  }

  lemma SourceSetsStep(cands: seq<Candidate>, c: Candidate, index: map<string, nat>, sources: map<string, set<string>>)
    requires Positions(cands, index) && SourceSets(cands, sources)
    ensures c.cpe in index <==> c.cpe in sources
    ensures SourceSets(cands + [c],
      sources[c.cpe := if c.cpe in sources then sources[c.cpe] + {c.source} else {c.source}])
  {
    hide Distinct, SourcesOf;
    DistinctSnoc(cands, c);
    forall x { SourcesSnoc(cands, c, x); }
    if c.cpe !in sources {
      NoSourcesYet(cands, c.cpe);
    }
  }

  lemma NoSourcesYet(cands: seq<Candidate>, cpe: string)
    requires cpe !in Distinct(cands)
    ensures SourcesOf(cands, cpe) == {}
  {
    hide Distinct;
  }

  // ----- Stable sort by confidence, highest first -----

  function Confidence(c: Candidate): real {
    c.confidence
  }

  function ByConfidence(cands: seq<Candidate>): seq<Candidate> {
    Sorting.StableSort(cands, Confidence)
  }

  /** A permutation, highest confidence first, and equal confidences keep their input order. */
  lemma StableSortSorts(cands: seq<Candidate>, level: real)
    ensures multiset(ByConfidence(cands)) == multiset(cands)
    ensures Sorting.Descending(ByConfidence(cands), Confidence)
    ensures Sorting.OfRank(ByConfidence(cands), Confidence, level) == Sorting.OfRank(cands, Confidence, level)
  {
    Sorting.StableSortSorts(cands, Confidence, level);
  }

  /** The first candidate of highest confidence. */
  function FirstMax(cands: seq<Candidate>): (m: Option<Candidate>)
    ensures m.None? <==> cands == []
    ensures m.Some? ==> m.value in cands && forall c :: c in cands ==> c.confidence <= m.value.confidence
  {
    if cands == [] then None
    else
      var before, last := FirstMax(cands[..|cands| - 1]), cands[|cands| - 1];
      assert cands == cands[..|cands| - 1] + [last];
      if before.None? || last.confidence > before.value.confidence then Some(last) else before
  }

  lemma {:induction false} SortedHead(cands: seq<Candidate>)
    requires cands != []
    ensures ByConfidence(cands) != [] && FirstMax(cands) == Some(ByConfidence(cands)[0])
  {
    var front, last := cands[..|cands| - 1], cands[|cands| - 1];
    Sorting.SortSnoc(front, last, Confidence);
    assert cands == front + [last];
    if front != [] {
      SortedHead(front);
      StableSortSorts(front, 0.0);
      Sorting.InsertHead(ByConfidence(front), last, Confidence);
    }
  }

  // ----- Classification -----

  datatype Slate = Slate(primary: Option<Candidate>, alternatives: seq<Candidate>, rejected: seq<Candidate>)

  const BELOW := "confidence below threshold"

  function WithReason(c: Candidate): Candidate {
    if c.rejectedReason == "" then c.(rejectedReason := BELOW) else c
  }

  function Reasoned(cands: seq<Candidate>): seq<Candidate> {
    if cands == [] then [] else Reasoned(cands[..|cands| - 1]) + [WithReason(cands[|cands| - 1])]
  }

  /** The candidates at or above a floor, or those below it, in order. */
  function Filter(cands: seq<Candidate>, floor: real, above: bool): (r: seq<Candidate>)
    ensures forall c :: c in r <==> c in cands && (c.confidence >= floor <==> above)
  {
    if cands == [] then []
    else
      var last := cands[|cands| - 1];
      assert cands == cands[..|cands| - 1] + [last];
      Filter(cands[..|cands| - 1], floor, above) + if (last.confidence >= floor) == above then [last] else []
  }

  function Primary(cands: seq<Candidate>, t: Threshold): Option<Candidate> {
    var m := FirstMax(cands);
    if m.Some? && m.value.confidence >= t.primaryMin then m else None
  }

  /** What is left to classify once the primary, if any, is taken off the front. */
  function Remaining(cands: seq<Candidate>, t: Threshold): seq<Candidate> {
    var sorted := ByConfidence(cands);
    if sorted != [] && Primary(cands, t).Some? then sorted[1..] else sorted
  }

  function Place(slate: Slate, c: Candidate, t: Threshold): Slate {
    if slate.primary.None? && c.confidence >= t.primaryMin then slate.(primary := Some(c))
    else if c.confidence >= t.alternativeMin then slate.(alternatives := slate.alternatives + [c])
    else slate.(rejected := slate.rejected + [WithReason(c)])
  }

  /** One pass over a sorted slate: the first to clear the primary floor, the others split by the alternative floor. */
  function Sift(sorted: seq<Candidate>, t: Threshold): Slate {
    if sorted == [] then Slate(None, [], []) else Place(Sift(sorted[..|sorted| - 1], t), sorted[|sorted| - 1], t)
  }

  method Classify(cands: seq<Candidate>, t: Threshold) returns (slate: Slate)
    ensures slate == Slate(
      Primary(cands, t),
      Filter(Remaining(cands, t), t.alternativeMin, true),
      Reasoned(Filter(Remaining(cands, t), t.alternativeMin, false)))
  {
    var sorted := ByConfidence(cands);
    var primary: Option<Candidate> := None;
    var alternatives, rejected: seq<Candidate> := [], [];
    var i := 0;
    while i < |sorted|
      invariant 0 <= i <= |sorted|
      invariant Slate(primary, alternatives, rejected) == Sift(sorted[..i], t)
    {
      var c := sorted[i];
      assert sorted[..i + 1][..i] == sorted[..i];
      if primary.None? && c.confidence >= t.primaryMin {
        primary := Some(c);
      } else if c.confidence >= t.alternativeMin {
        alternatives := alternatives + [c];
      } else {
        rejected := rejected + [WithReason(c)];
      }
      i := i + 1;
    }
    assert sorted[..i] == sorted;
    SiftSorted(cands, t);
    slate := Slate(primary, alternatives, rejected);
  }

  /** Alternatives and rejected entries of a list that holds no primary. */
  function Rest(primary: Option<Candidate>, cands: seq<Candidate>, t: Threshold): Slate {
    Slate(primary, Filter(cands, t.alternativeMin, true), Reasoned(Filter(cands, t.alternativeMin, false)))
  }

  lemma RestSnoc(primary: Option<Candidate>, cands: seq<Candidate>, c: Candidate, t: Threshold)
    requires primary.Some? || c.confidence < t.primaryMin
    ensures Rest(primary, cands + [c], t) == Place(Rest(primary, cands, t), c, t)
  {
    hide Filter, Reasoned;
    FilterSnoc(cands, c, t.alternativeMin);
    ReasonedSnoc(Filter(cands, t.alternativeMin, false), c);
  }

  lemma {:induction false} SiftWithoutPrimary(sorted: seq<Candidate>, t: Threshold)
    requires forall c :: c in sorted ==> c.confidence < t.primaryMin
    ensures Sift(sorted, t) == Rest(None, sorted, t)
  {
    hide Place, Filter, Reasoned;
    if sorted == [] {
      EmptySort();
    } else {
      var front, c := sorted[..|sorted| - 1], sorted[|sorted| - 1];
      SiftWithoutPrimary(front, t);
      RestSnoc(None, front, c, t);
      assert sorted == front + [c];
    }
  }

  lemma {:induction false} SiftWithPrimary(sorted: seq<Candidate>, t: Threshold)
    requires sorted != [] && sorted[0].confidence >= t.primaryMin
    ensures Sift(sorted, t) == Rest(Some(sorted[0]), sorted[1..], t)
  {
    hide Filter, Reasoned;
    var front, c := sorted[..|sorted| - 1], sorted[|sorted| - 1];
    if front == [] {
      EmptySort();
      assert sorted[1..] == [];
    } else {
      SiftWithPrimary(front, t);
      RestSnoc(Some(sorted[0]), front[1..], c, t);
      assert sorted[1..] == front[1..] + [c];
    }
  }

  lemma SiftSorted(cands: seq<Candidate>, t: Threshold)
    ensures Sift(ByConfidence(cands), t) == Slate(
      Primary(cands, t),
      Filter(Remaining(cands, t), t.alternativeMin, true),
      Reasoned(Filter(Remaining(cands, t), t.alternativeMin, false)))
  {
    hide ByConfidence, FirstMax, Filter, Reasoned, Sift;
    StableSortSorts(cands, 0.0);
    EmptySort();
    var sorted := ByConfidence(cands);
    if cands != [] {
      SortedHead(cands);
    }
    if cands != [] && sorted[0].confidence >= t.primaryMin {
      SiftWithPrimary(sorted, t);
    } else {
      assert forall c :: c in sorted ==> c.confidence < t.primaryMin;
      SiftWithoutPrimary(sorted, t);
    }
  }

  lemma FilterSnoc(cands: seq<Candidate>, c: Candidate, floor: real)
    ensures Filter(cands + [c], floor, true) ==
      if c.confidence >= floor then Filter(cands, floor, true) + [c] else Filter(cands, floor, true)
    ensures Filter(cands + [c], floor, false) ==
      if c.confidence >= floor then Filter(cands, floor, false) else Filter(cands, floor, false) + [c]
  {
    assert (cands + [c])[..|cands|] == cands;
    assert Filter(cands, floor, true) + [] == Filter(cands, floor, true);
    assert Filter(cands, floor, false) + [] == Filter(cands, floor, false);
  }

  lemma ReasonedSnoc(cands: seq<Candidate>, c: Candidate)
    ensures Reasoned(cands + [c]) == Reasoned(cands) + [WithReason(c)]
  {
    assert (cands + [c])[..|cands|] == cands;
  }

  lemma EmptySort()
    ensures ByConfidence([]) == [] && FirstMax([]) == None && Reasoned([]) == []
    ensures forall floor, above :: Filter([], floor, above) == []
  {
  }

  lemma {:induction false} FilterSplits(cands: seq<Candidate>, floor: real)
    ensures multiset(Filter(cands, floor, true)) + multiset(Filter(cands, floor, false)) == multiset(cands)
  {
    hide Filter;
    if cands != [] {
      var front, last := cands[..|cands| - 1], cands[|cands| - 1];
      FilterSplits(front, floor);
      FilterSnoc(front, last, floor);
      assert cands == front + [last];
    } else {
      EmptySort();
    }
  }

  /**
    Classification splits its input: the first candidate of highest confidence becomes primary
    exactly when it clears the primary floor, the others are alternatives or rejected by the
    alternative floor, and nothing is lost or duplicated.
  */
  lemma ClassifyPartitions(cands: seq<Candidate>, t: Threshold)
    ensures var primary := Primary(cands, t);
      var above := Filter(Remaining(cands, t), t.alternativeMin, true);
      var below := Filter(Remaining(cands, t), t.alternativeMin, false);
      && multiset(cands) ==
         (if primary.Some? then multiset{primary.value} else multiset{}) + multiset(above) + multiset(below)
      && (primary.Some? <==> exists c :: c in cands && c.confidence >= t.primaryMin)
      && (primary.Some? ==> forall c :: c in cands ==> c.confidence <= primary.value.confidence)
  {
    hide ByConfidence, FirstMax, Filter, Sorting.Descending, Sorting.OfRank;
    FilterSplits(Remaining(cands, t), t.alternativeMin);
    if cands == [] {
      EmptySort();
    } else {
      SortedHead(cands);
      StableSortSorts(cands, 0.0);
      var sorted := ByConfidence(cands);
      assert sorted == [sorted[0]] + sorted[1..];
    }
  }

  // ----- What a collapsed candidate says -----

  /** The first of the candidates of highest confidence for a CPE. */
  ghost predicate FirstBest(cands: seq<Candidate>, cpe: string, k: nat) {
    && k < |cands| && cands[k].cpe == cpe
    && (forall j :: 0 <= j < |cands| && cands[j].cpe == cpe ==> cands[j].confidence <= cands[k].confidence)
    && (forall j :: 0 <= j < k && cands[j].cpe == cpe ==> cands[j].confidence < cands[k].confidence)
  }

  lemma {:induction false} BestAt(cands: seq<Candidate>, cpe: string) returns (k: nat)
    requires Best(cands, cpe).Some?
    ensures FirstBest(cands, cpe, k) && Best(cands, cpe).value == cands[k]
  {
    var front, last := cands[..|cands| - 1], cands[|cands| - 1];
    assert cands == front + [last];
    if Best(front, cpe).None? || (last.cpe == cpe && last.confidence > Best(front, cpe).value.confidence) {
      k := |front|;
      forall j | 0 <= j < |front| && cands[j].cpe == cpe ensures cands[j].confidence < last.confidence {
        assert front[j] in front;
      }
    } else {
      k := BestAt(front, cpe);
    }
  }

  /** The names behind a merged source: each producer of the CPE once, in alphabetical order. */
  ghost predicate ProducersOf(cands: seq<Candidate>, cpe: string, names: seq<string>) {
    && (forall i, j :: 0 <= i < j < |names| ==> LexLeq(names[i], names[j]) && names[i] != names[j])
    && forall x :: x in names <==> exists c :: c in cands && c.cpe == cpe && c.source == x
  }

  lemma CollapsedFrom(cands: seq<Candidate>, cpe: string, best: Candidate)
    requires cpe in Distinct(cands) && Best(cands, cpe) == Some(best)
    requires best.source in SourcesOf(cands, cpe)
    ensures Collapsed(cands, cpe) == best.(source := Join(SortedKeys(SourcesOf(cands, cpe)), '+'))
  {
    hide Distinct, Best;
    var sources := SourcesOf(cands, cpe);
    hide SourcesOf;
    if |sources| <= 1 {
      OneSource(sources, best.source);
      hide SortedKeys;
      assert Join([best.source], '+') == best.source;
    }
  }

  lemma ProducersAre(cands: seq<Candidate>, cpe: string)
    ensures ProducersOf(cands, cpe, SortedKeys(SourcesOf(cands, cpe)))
  {
    hide LexLeq;
    var sources := SourcesOf(cands, cpe);
    var names := SortedKeys(sources);
    hide SortedKeys;
  }

  /** A collapsed candidate is the first of the best ones, under the names of all who produced it. */
  lemma CollapsedIs(cands: seq<Candidate>, cpe: string)
    requires cpe in Distinct(cands)
    ensures exists k: nat, names ::
      FirstBest(cands, cpe, k) && ProducersOf(cands, cpe, names) && Collapsed(cands, cpe) == cands[k].(source := Join(names, '+'))
  {
    hide Collapsed, Distinct, Best, SourcesOf, ProducersOf, SortedKeys, Join;
    var k := BestAt(cands, cpe);
    Names(cands, k, cpe);
    ProducersAre(cands, cpe);
    CollapsedFrom(cands, cpe, cands[k]);
  }

  lemma Names(cands: seq<Candidate>, k: nat, cpe: string)
    requires FirstBest(cands, cpe, k)
    ensures cands[k].source in SourcesOf(cands, cpe)
  {
    assert cands[k] in cands;
  }

  lemma OneSource(sources: set<string>, x: string)
    requires x in sources && |sources| <= 1
    ensures SortedKeys(sources) == [x]
  {
    assert |sources - {x}| == 0;
    assert sources == {x};
    var sorted := SortedKeys(sources);
    assert sorted != [] && sorted[0] in sorted;
    forall i | 0 <= i < |sorted| ensures sorted[i] == x {
      assert sorted[i] in sorted;
    }
  }

  // ----- The order of the slate -----

  lemma {:induction false} FilterDescends(cands: seq<Candidate>, floor: real, above: bool)
    requires Sorting.Descending(cands, Confidence)
    ensures Sorting.Descending(Filter(cands, floor, above), Confidence)
  {
    if cands != [] {
      var front, last := cands[..|cands| - 1], cands[|cands| - 1];
      FilterDescends(front, floor, above);
      forall i | 0 <= i < |Filter(front, floor, above)| ensures Filter(front, floor, above)[i].confidence >= last.confidence {
        assert Filter(front, floor, above)[i] in front;
      }
    }
  }

  lemma {:induction false} FilterIsStable(cands: seq<Candidate>, floor: real, above: bool, level: real)
    ensures Sorting.OfRank(Filter(cands, floor, above), Confidence, level) ==
      if (level >= floor) == above then Sorting.OfRank(cands, Confidence, level) else []
  {
    hide Filter, Sorting.OfRank;
    if cands == [] {
      EmptySort();
      NoneOfRank(level);
    } else {
      var front, last := cands[..|cands| - 1], cands[|cands| - 1];
      assert cands == front + [last];
      FilterIsStable(front, floor, above, level);
      FilterSnoc(front, last, floor);
      Sorting.OfRankSnoc(front, last, Confidence, level);
      Sorting.OfRankSnoc(Filter(front, floor, above), last, Confidence, level);
      assert Sorting.OfRank(front, Confidence, level) + [] == Sorting.OfRank(front, Confidence, level);
    }
  }

  lemma FilterKeepsOrder(cands: seq<Candidate>, floor: real, above: bool, level: real)
    requires Sorting.Descending(cands, Confidence)
    ensures Sorting.Descending(Filter(cands, floor, above), Confidence)
    ensures Sorting.OfRank(Filter(cands, floor, above), Confidence, level) ==
      if (level >= floor) == above then Sorting.OfRank(cands, Confidence, level) else []
  {
    FilterDescends(cands, floor, above);
    FilterIsStable(cands, floor, above, level);
  }

  lemma NoneOfRank(level: real)
    ensures Sorting.OfRank([], Confidence, level) == []
  {
  }

  /** Alternatives and rejected candidates are listed highest confidence first, equal ones in input order. */
  lemma SlateIsOrdered(cands: seq<Candidate>, t: Threshold, level: real)
    ensures var primary, rest := Primary(cands, t), Remaining(cands, t);
      var above, below := Filter(rest, t.alternativeMin, true), Filter(rest, t.alternativeMin, false);
      && Sorting.Descending(above, Confidence) && Sorting.Descending(below, Confidence)
      && (if primary.Some? && primary.value.confidence == level then [primary.value] else []) +
         Sorting.OfRank(above, Confidence, level) + Sorting.OfRank(below, Confidence, level) ==
         Sorting.OfRank(cands, Confidence, level)
  {
    hide ByConfidence, FirstMax, Filter, Sorting.OfRank;
    StableSortSorts(cands, level);
    var sorted, rest := ByConfidence(cands), Remaining(cands, t);
    FilterKeepsOrder(rest, t.alternativeMin, true, level);
    FilterKeepsOrder(rest, t.alternativeMin, false, level);
    if cands == [] {
      EmptySort();
    } else {
      SortedHead(cands);
      HeadOfRank(sorted, level);
    }
  }

  lemma {:induction false} HeadOfRank(cands: seq<Candidate>, level: real)
    requires cands != []
    ensures Sorting.OfRank(cands, Confidence, level) ==
      (if cands[0].confidence == level then [cands[0]] else []) + Sorting.OfRank(cands[1..], Confidence, level)
  {
    hide Sorting.OfRank;
    var front, last := cands[..|cands| - 1], cands[|cands| - 1];
    assert cands == front + [last];
    Sorting.OfRankSnoc(front, last, Confidence, level);
    if front == [] {
      NoneOfRank(level);
      assert cands[1..] == [];
    } else {
      HeadOfRank(front, level);
      assert cands[1..] == front[1..] + [last];
      Sorting.OfRankSnoc(front[1..], last, Confidence, level);
    }
  }

  /** Every rejected candidate has a reason; one that it came with stays. */
  lemma {:induction false} ReasonsAre(cands: seq<Candidate>)
    ensures |Reasoned(cands)| == |cands|
    ensures forall k :: 0 <= k < |cands| ==>
      && Reasoned(cands)[k] == cands[k].(rejectedReason := Reasoned(cands)[k].rejectedReason)
      && Reasoned(cands)[k].rejectedReason != ""
      && (cands[k].rejectedReason != "" ==> Reasoned(cands)[k] == cands[k])
  {
    if cands != [] {
      ReasonsAre(cands[..|cands| - 1]);
    }
  }

  /** With the default thresholds 0.70 makes a primary and 0.50 an alternative. */
  lemma DefaultFloors(cands: seq<Candidate>)
    ensures var rest := Remaining(cands, DEFAULT_THRESHOLD);
      && (Primary(cands, DEFAULT_THRESHOLD).Some? <==> exists c :: c in cands && c.confidence >= 0.70)
      && (forall c :: c in Filter(rest, DEFAULT_THRESHOLD.alternativeMin, true) <==> c in rest && c.confidence >= 0.50)
      && (forall c :: c in Filter(rest, DEFAULT_THRESHOLD.alternativeMin, false) <==> c in rest && c.confidence < 0.50)
  {
    hide Filter, Remaining, ByConfidence;
    ClassifyPartitions(cands, DEFAULT_THRESHOLD);
  }
}
