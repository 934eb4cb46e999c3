/**
  CPE enrichment of one component (internal/enrich/cpe/enricher.go): slate from the
  existing CPEs and the resolver's answer, classification, write-back.
*/
module CpeEnrich {
  import opened Wrappers
  import opened Candidates
  import CpeNames

  const CONFIDENCE_MEDIUM := 0.70
  const CONFIDENCE_REJECT := 0.05

  /** What the component's PURL field amounts to. */
  datatype PurlState = Absent | Malformed | Parsed

  function FromExisting(cpe: string): Candidate {
    if CpeNames.IsValidCpe(cpe) then Candidate(cpe, CONFIDENCE_MEDIUM, "input", "input SBOM", "")
    else Candidate(cpe, CONFIDENCE_REJECT, "input", "input SBOM", "input CPE failed CPE 2.3 syntax validation")
  }

  function CandidatesFromExisting(cpes: seq<string>): (r: seq<Candidate>)
    ensures |r| == |cpes| && forall k :: 0 <= k < |r| ==> r[k] == FromExisting(cpes[k])
  {
    seq(|cpes|, k requires 0 <= k < |cpes| => FromExisting(cpes[k]))
  }

  /** The primary alone when there is one; the CPEs the component came with otherwise. */
  function Written(cpes: seq<string>, cands: seq<Candidate>, t: Threshold): seq<string> {
    var primary := Primary(Dedupe(cands), t);
    if primary.Some? then [primary.value.cpe] else cpes
  }

  function Slate(cpes: seq<string>, purl: PurlState, answer: seq<Candidate>): seq<Candidate> {
    CandidatesFromExisting(cpes) + if purl == Parsed then answer else []
  }

  function Enriched(cpes: seq<string>, purl: PurlState, answer: seq<Candidate>, t: Threshold): seq<string> {
    if purl == Malformed || Slate(cpes, purl, answer) == [] then cpes
    else Written(cpes, Slate(cpes, purl, answer), t)
  }

  class Component {
    const purl: PurlState
    var cpes: seq<string>

    constructor (purl: PurlState, cpes: seq<string>)
      ensures this.purl == purl && this.cpes == cpes
    {
      this.purl := purl;
      this.cpes := cpes;
    }

    /** added tells whether the component got a CPE that it did not have. */
    method WriteResults(cands: seq<Candidate>, t: Threshold) returns (added: bool)
      modifies this
      ensures cpes == Written(old(cpes), cands, t)
      ensures added <==> exists x :: x in cpes && x !in old(cpes)
    {
      var deduped := DedupeCandidates(cands);
      var slate := Classify(deduped, t);
      added := false;
      if slate.primary.Some? {
        added := slate.primary.value.cpe !in cpes;
        cpes := [slate.primary.value.cpe];
      }
    }

    method EnrichOne(answer: seq<Candidate>, t: Threshold)
      modifies this
      ensures cpes == Enriched(old(cpes), purl, answer, t)
      ensures purl == Malformed ==> cpes == old(cpes)
      ensures purl == Absent ==> WrittenBack(old(cpes), [], t, cpes)
      ensures purl == Parsed ==> WrittenBack(old(cpes), answer, t, cpes)
    {
      EnrichedIs(cpes, purl, answer, t);
      hide WrittenBack;
      var cands := CandidatesFromExisting(cpes);
      if purl == Absent {
        if |cpes| == 0 {
          return;
        }
        assert cands + [] == cands;
        var added := WriteResults(cands, t);
        return;
      }
      if purl == Malformed {
        return;
      }
      cands := cands + answer;
      if |cands| == 0 {
        return;
      }
      var added := WriteResults(cands, t);
    }
  }

  // ----- Which CPE is written -----

  /** The existing CPEs and then those of the answer. */
  function CpeAt(cpes: seq<string>, answer: seq<Candidate>, p: nat): string
    requires p < |cpes| + |answer|
  {
    if p < |cpes| then cpes[p] else answer[p - |cpes|].cpe
  }

  function ConfidenceAt(cpes: seq<string>, answer: seq<Candidate>, p: nat): real
    requires p < |cpes| + |answer|
  {
    if p < |cpes| then (if CpeNames.IsValidCpe(cpes[p]) then 0.70 else 0.05) else answer[p - |cpes|].confidence
  }

  ghost predicate Highest(cpes: seq<string>, answer: seq<Candidate>, p: nat) {
    && p < |cpes| + |answer|
    && forall q: nat :: q < |cpes| + |answer| ==> ConfidenceAt(cpes, answer, q) <= ConfidenceAt(cpes, answer, p)
  }

  /** Some candidate for the CPE has the highest confidence of all. */
  ghost predicate TopCpe(cpes: seq<string>, answer: seq<Candidate>, cpe: string) {
    exists p: nat :: Highest(cpes, answer, p) && CpeAt(cpes, answer, p) == cpe
  }

  /** The first position with a top CPE, at whatever confidence of its own. */
  ghost predicate Winner(cpes: seq<string>, answer: seq<Candidate>, p: nat) {
    && p < |cpes| + |answer| && TopCpe(cpes, answer, CpeAt(cpes, answer, p))
    && forall q: nat :: q < p ==> !TopCpe(cpes, answer, CpeAt(cpes, answer, q))
  }

  ghost predicate Clears(cpes: seq<string>, answer: seq<Candidate>, t: Threshold) {
    exists p: nat :: p < |cpes| + |answer| && ConfidenceAt(cpes, answer, p) >= t.primaryMin
  }

  /** The winner alone if anything clears the primary floor; nothing changes otherwise. */
  ghost predicate WrittenBack(before: seq<string>, answer: seq<Candidate>, t: Threshold, after: seq<string>) {
    if Clears(before, answer, t)
    then exists p: nat :: Winner(before, answer, p) && after == [CpeAt(before, answer, p)]
    else after == before
  }

  lemma {:induction false} DistinctAt(cands: seq<Candidate>, k: nat) returns (p: nat)
    requires k < |Distinct(cands)|
    ensures p < |cands| && cands[p].cpe == Distinct(cands)[k]
    ensures forall q :: 0 <= q < p ==> cands[q].cpe in Distinct(cands)[..k]
  {
    var front, last := cands[..|cands| - 1], cands[|cands| - 1];
    if k < |Distinct(front)| {
      p := DistinctAt(front, k);
      assert Distinct(cands)[..k] == Distinct(front)[..k];
    } else {
      p := |front|;
      assert Distinct(cands)[..k] == Distinct(front);
      forall q | 0 <= q < p ensures cands[q].cpe in Distinct(front) {
        assert front[q] in front;
      }
    }
  }

  lemma {:induction false} FirstMaxAt(cands: seq<Candidate>) returns (k: nat)
    requires cands != []
    ensures k < |cands| && FirstMax(cands) == Some(cands[k])
    ensures forall l :: 0 <= l < k ==> cands[l].confidence < cands[k].confidence
  {
    var front, last := cands[..|cands| - 1], cands[|cands| - 1];
    if front == [] {
      k := 0;
    } else {
      k := FirstMaxAt(front);
      if last.confidence > front[k].confidence {
        forall l | 0 <= l < |front| ensures front[l].confidence < last.confidence {
          assert front[l] in front;
        }
        k := |front|;
      }
    }
  }

  /** The slate's primary is for the CPE, among those of highest confidence, that is mentioned first. */
  lemma PrimaryIsFirstMentioned(cands: seq<Candidate>, t: Threshold) returns (p: nat, top: nat)
    requires Primary(Dedupe(cands), t).Some?
    ensures p < |cands| && top < |cands| && cands[p].cpe == cands[top].cpe == Primary(Dedupe(cands), t).value.cpe
    ensures forall c :: c in cands ==> c.confidence <= cands[top].confidence
    ensures forall q, c :: 0 <= q < p && c in cands && c.cpe == cands[q].cpe ==> c.confidence < cands[top].confidence
  {
    hide Distinct, Collapsed, FirstMax;
    var ds := Dedupe(cands);
    var k := FirstMaxAt(ds);
    p := DistinctAt(cands, k);
    DedupeKeepsBest(cands, ds[k]);
    var best :| best in cands && best.cpe == ds[k].cpe && best.confidence == ds[k].confidence;
    top :| 0 <= top < |cands| && cands[top] == best;
    forall c | c in cands ensures c.confidence <= best.confidence {
      var d := DedupeCovers(cands, c);
    }
    forall q, c | 0 <= q < p && c in cands && c.cpe == cands[q].cpe ensures c.confidence < best.confidence {
      var l :| 0 <= l < k && Distinct(cands)[l] == cands[q].cpe;
      assert ds[l] in ds;
      DedupeKeepsBest(cands, ds[l]);
    }
  }

  lemma SlateAt(cpes: seq<string>, answer: seq<Candidate>, p: nat)
    requires p < |cpes| + |answer|
    ensures var c := (CandidatesFromExisting(cpes) + answer)[p];
      c.cpe == CpeAt(cpes, answer, p) && c.confidence == ConfidenceAt(cpes, answer, p)
  {
  }

  lemma WrittenIsWinner(cpes: seq<string>, answer: seq<Candidate>, t: Threshold)
    ensures WrittenBack(cpes, answer, t, Written(cpes, CandidatesFromExisting(cpes) + answer, t))
  {
    hide Dedupe, Primary, CpeAt, ConfidenceAt, CandidatesFromExisting;
    var cands := CandidatesFromExisting(cpes) + answer;
    assert |cands| == |cpes| + |answer|;
    forall q: nat | q < |cands|
      ensures cands[q].cpe == CpeAt(cpes, answer, q) && cands[q].confidence == ConfidenceAt(cpes, answer, q)
    {
      SlateAt(cpes, answer, q);
    }
    PrimaryIff(cands, t);
    if Clears(cpes, answer, t) {
      var r: nat :| r < |cands| && ConfidenceAt(cpes, answer, r) >= t.primaryMin;
      assert cands[r] in cands;
      var p, top := PrimaryIsFirstMentioned(cands, t);
      assert Highest(cpes, answer, top) by {
        forall q: nat | q < |cands| ensures cands[q].confidence <= cands[top].confidence {
          assert cands[q] in cands;
        }
      }
      forall q: nat | q < p ensures !TopCpe(cpes, answer, CpeAt(cpes, answer, q)) {
        forall h: nat | Highest(cpes, answer, h) ensures CpeAt(cpes, answer, h) != CpeAt(cpes, answer, q) {
          assert cands[h] in cands && ConfidenceAt(cpes, answer, top) <= ConfidenceAt(cpes, answer, h);
        }
      }
      assert Winner(cpes, answer, p);
    } else {
      forall c | c in cands ensures c.confidence < t.primaryMin {
        var r :| 0 <= r < |cands| && cands[r] == c;
        assert ConfidenceAt(cpes, answer, r) < t.primaryMin;
      }
    }
  }

  lemma EnrichedIs(cpes: seq<string>, purl: PurlState, answer: seq<Candidate>, t: Threshold)
    ensures purl == Malformed ==> Enriched(cpes, purl, answer, t) == cpes
    ensures purl == Absent ==> WrittenBack(cpes, [], t, Enriched(cpes, purl, answer, t))
    ensures purl == Parsed ==> WrittenBack(cpes, answer, t, Enriched(cpes, purl, answer, t))
  {
    hide Written, CandidatesFromExisting;
    WrittenIsWinner(cpes, answer, t);
    WrittenIsWinner(cpes, [], t);
    assert |Slate(cpes, purl, answer)| == |cpes| + if purl == Parsed then |answer| else 0;
  }

  // ----- The first of the best candidates -----

  ghost predicate FirstHighest(cpes: seq<string>, answer: seq<Candidate>, q: nat) {
    Highest(cpes, answer, q) && forall p: nat :: p < q ==> !Highest(cpes, answer, p)
  }

  /** The first candidate of highest confidence is written exactly if no other top CPE is mentioned before its own. */
  lemma FirstHighestIff(before: seq<string>, answer: seq<Candidate>, t: Threshold, after: seq<string>, q: nat)
    requires WrittenBack(before, answer, t, after) && Clears(before, answer, t) && FirstHighest(before, answer, q)
    ensures after == [CpeAt(before, answer, q)] <==>
      forall p: nat :: p < q && TopCpe(before, answer, CpeAt(before, answer, p)) ==>
        exists k: nat :: k <= p && CpeAt(before, answer, k) == CpeAt(before, answer, q)
  {
    hide CpeAt, ConfidenceAt, TopCpe;
    var p: nat :| Winner(before, answer, p) && after == [CpeAt(before, answer, p)];
    assert TopCpe(before, answer, CpeAt(before, answer, q)) by {
      IsTop(before, answer, q);
    }
    assert p <= q;
  }

  lemma IsTop(cpes: seq<string>, answer: seq<Candidate>, q: nat)
    requires Highest(cpes, answer, q)
    ensures TopCpe(cpes, answer, CpeAt(cpes, answer, q))
  {
  }

  /** A candidate that is not the first of the best wins, because a weaker copy of it comes in front. */
  lemma WeakCopyWins(after: seq<string>)
    requires var answer := [
        Candidate("a", 0.5, "x", "", ""), Candidate("b", 0.9, "x", "", ""), Candidate("a", 0.9, "y", "", "")];
      WrittenBack([], answer, DEFAULT_THRESHOLD, after)
    ensures var answer := [
        Candidate("a", 0.5, "x", "", ""), Candidate("b", 0.9, "x", "", ""), Candidate("a", 0.9, "y", "", "")];
      FirstHighest([], answer, 1) && CpeAt([], answer, 1) == "b" && after == ["a"]
  {
    var answer := [
      Candidate("a", 0.5, "x", "", ""), Candidate("b", 0.9, "x", "", ""), Candidate("a", 0.9, "y", "", "")];
    assert forall p: nat :: p < 3 ==> ConfidenceAt([], answer, p) == if p == 0 then 0.5 else 0.9;
    assert Highest([], answer, 2);
    assert CpeAt([], answer, 2) == "a" == CpeAt([], answer, 0);
    assert ConfidenceAt([], answer, 1) >= DEFAULT_THRESHOLD.primaryMin;
    var p: nat :| Winner([], answer, p) && after == [CpeAt([], answer, p)];
    assert p == 0;
  }

  // ----- Running the enricher again -----

  lemma {:induction false} FirstMaxIsHead(cands: seq<Candidate>)
    requires cands != [] && forall c :: c in cands ==> c.confidence <= cands[0].confidence
    ensures FirstMax(cands) == Some(cands[0])
  {
    if |cands| > 1 {
      FirstMaxIsHead(cands[..|cands| - 1]);
    }
  }

  lemma {:induction false} DistinctHead(cands: seq<Candidate>)
    requires cands != []
    ensures Distinct(cands) != [] && Distinct(cands)[0] == cands[0].cpe
  {
    if |cands| > 1 {
      DistinctHead(cands[..|cands| - 1]);
    }
  }

  /** Deduplication keeps, for every CPE, its highest confidence. */
  lemma DedupeKeepsBest(cands: seq<Candidate>, c: Candidate)
    requires c in Dedupe(cands)
    ensures exists d :: d in cands && d.cpe == c.cpe && d.confidence == c.confidence
    ensures forall d :: d in cands && d.cpe == c.cpe ==> d.confidence <= c.confidence
  {
    hide Distinct, Best, MergeSources;
    var k :| 0 <= k < |Dedupe(cands)| && Dedupe(cands)[k] == c;
    var best := Best(cands, Distinct(cands)[k]);
    assert Distinct(cands)[k] in Distinct(cands);
    assert best.Some? && best.value.confidence == c.confidence;
  }

  lemma DedupeCovers(cands: seq<Candidate>, d: Candidate) returns (c: Candidate)
    requires d in cands
    ensures c in Dedupe(cands) && c.cpe == d.cpe && c.confidence >= d.confidence
  {
    hide Distinct, Best, Collapsed;
    assert d.cpe in Distinct(cands);
    var k :| 0 <= k < |Distinct(cands)| && Distinct(cands)[k] == d.cpe;
    c := Dedupe(cands)[k];
    DedupeKeepsBest(cands, c);
  }

  /** The second run starts from the first primary alone, which stays first and highest. */
  lemma PrimaryStays(cpes: seq<string>, answer: seq<Candidate>, t: Threshold)
    requires Primary(Dedupe(CandidatesFromExisting(cpes) + answer), t).Some?
    ensures var p := Primary(Dedupe(CandidatesFromExisting(cpes) + answer), t).value;
      var again := Primary(Dedupe(CandidatesFromExisting([p.cpe]) + answer), t);
      again.Some? && again.value.cpe == p.cpe
  {
    hide Distinct, Dedupe, FirstMax, CandidatesFromExisting;
    var first := CandidatesFromExisting(cpes) + answer;
    var p := Primary(Dedupe(first), t).value;
    var second := CandidatesFromExisting([p.cpe]) + answer;
    assert second[0] == FromExisting(p.cpe);
    HeadOfDedupe(second);
    var head := Dedupe(second)[0];
    DedupeKeepsBest(first, p);
    var source :| source in first && source.cpe == p.cpe && source.confidence == p.confidence;
    OldOrAnswer(cpes, answer, source);
    DedupeKeepsBest(second, head);
    assert source in second && source.confidence <= head.confidence;
    forall c | c in Dedupe(second) ensures c.confidence <= head.confidence {
      DedupeKeepsBest(second, c);
      var d :| d in second && d.cpe == c.cpe && d.confidence == c.confidence;
      if d in answer {
        var e := DedupeCovers(first, d);
        assert e.confidence <= p.confidence;
      } else {
        OldOrAnswer([p.cpe], answer, d);
      }
    }
    FirstMaxIsHead(Dedupe(second));
  }

  lemma HeadOfDedupe(cands: seq<Candidate>)
    requires cands != []
    ensures Dedupe(cands) != [] && Dedupe(cands)[0].cpe == cands[0].cpe && Dedupe(cands)[0] in Dedupe(cands)
  {
    DistinctHead(cands);
  }

  lemma OldOrAnswer(cpes: seq<string>, answer: seq<Candidate>, c: Candidate)
    requires c in CandidatesFromExisting(cpes) + answer
    ensures c in answer || (c.cpe in cpes && c == FromExisting(c.cpe))
  {
  }

  /** Enriching twice with the same answer leaves the CPE list of the first run, for every answer and every threshold. */
  lemma RerunKeepsCpes(cpes: seq<string>, purl: PurlState, answer: seq<Candidate>, t: Threshold)
    ensures var once := Enriched(cpes, purl, answer, t);
      Enriched(once, purl, answer, t) == once
  {
    hide Dedupe, Primary;
    var effective := if purl == Parsed then answer else [];
    var once := Enriched(cpes, purl, answer, t);
    if once != cpes {
      PrimaryStays(cpes, effective, t);
      assert CandidatesFromExisting(once) != [];
    }
  }

  /** A slate has a primary exactly when some candidate clears the primary floor, duplicates or not. */
  lemma PrimaryIff(cands: seq<Candidate>, t: Threshold)
    ensures Primary(Dedupe(cands), t).Some? <==> exists c :: c in cands && c.confidence >= t.primaryMin
  {
    hide Dedupe, FirstMax;
    if Primary(Dedupe(cands), t).Some? {
      DedupeKeepsBest(cands, Primary(Dedupe(cands), t).value);
    }
    if c :| c in cands && c.confidence >= t.primaryMin {
      var d := DedupeCovers(cands, c);
      assert FirstMax(Dedupe(cands)).Some? && FirstMax(Dedupe(cands)).value.confidence >= d.confidence;
    }
  }
}
