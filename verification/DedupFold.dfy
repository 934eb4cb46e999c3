/** Folding a bucket of equal keys into one component (internal/enrich/dedup/dedup.go). */
module DedupFold {
  import opened Wrappers
  import opened Strings
  import opened Dedup
  import opened DedupMerge

  /** The first component, with the others merged into it one after the other. */
  ghost predicate FoldsTo(members: seq<Component>, out: Component)
    requires members != []
    decreases |members|
  {
    if |members| == 1 then out == members[0]
    else
      var init, last := members[..|members| - 1], members[|members| - 1];
      exists m :: FoldsTo(init, m) && Merged(m, last, out)
  }

  lemma UnfoldLast(members: seq<Component>, out: Component) returns (m: Component)
    requires |members| > 1 && FoldsTo(members, out)
    ensures FoldsTo(members[..|members| - 1], m) && Merged(m, members[|members| - 1], out)
  {
    hide Merged;
    m :| FoldsTo(members[..|members| - 1], m) && Merged(m, members[|members| - 1], out);
  }

  lemma FoldSnoc(members: seq<Component>, s: Component, m: Component, out: Component)
    requires members != [] && FoldsTo(members, m) && Merged(m, s, out)
    ensures FoldsTo(members + [s], out)
  {
    hide Merged;
    assert (members + [s])[..|members|] == members;
  }

  // ----- Content -----

  function AllFacts(cs: seq<Component>): set<Fact> {
    if cs == [] then {} else AllFacts(cs[..|cs| - 1]) + Facts(cs[|cs| - 1])
  }

  lemma {:induction false} InAllFacts(cs: seq<Component>, f: Fact)
    ensures f in AllFacts(cs) <==> exists c :: c in cs && f in Facts(c)
  {
    hide Facts;
    if cs != [] {
      InAllFacts(cs[..|cs| - 1], f);
    }
  }

  /** A bucket's component carries exactly the facts of the bucket's members. */
  lemma {:induction false} FoldConservesFacts(members: seq<Component>, out: Component)
    requires members != [] && FoldsTo(members, out)
    ensures Facts(out) == AllFacts(members)
    decreases |members|
  {
    hide Facts, Merged;
    if |members| == 1 {
      assert AllFacts(members[..0]) == {};
    } else {
      var m := UnfoldLast(members, out);
      FoldConservesFacts(members[..|members| - 1], m);
      MergeConservesFacts(m, members[|members| - 1], out);
    }
  }

  // ----- Property values -----

  /** The value of the first member that has the property. */
  function FirstValue(members: seq<Component>, k: string): Option<string> {
    if members == [] then None
    else
      var init := FirstValue(members[..|members| - 1], k);
      var last := members[|members| - 1].properties;
      if init.Some? then init else if k in last then Some(last[k]) else None
  }

  function Lookup(m: map<string, string>, k: string): Option<string> {
    if k in m then Some(m[k]) else None
  }

  lemma MergeValue(p: Component, s: Component, out: Component, k: string)
    requires Merged(p, s, out) && !InNamespace(k)
    ensures Lookup(out.properties, k) == if k in p.properties then Some(p.properties[k]) else Lookup(s.properties, k)
  {
    hide MergedEvidence, Distinct, NAMESPACE, MERGED_COUNT, ALSO_IN_LAYER, InNamespace;
    var order :| Enumerates(order, s.properties.Keys) && out == MergedPair(p, s, order);
    PrimaryPropertyWins(p.properties, s.properties, order, k);
    BreadcrumbNames(k);
  }

  /** Outside the enricher's namespace the first member's value wins, whatever order the maps were walked in. */
  lemma {:induction false} FoldKeepsFirstValue(members: seq<Component>, out: Component, k: string)
    requires members != [] && FoldsTo(members, out) && !InNamespace(k)
    ensures Lookup(out.properties, k) == FirstValue(members, k)
    decreases |members|
  {
    hide Merged, InNamespace;
    if |members| == 1 {
      assert FirstValue(members[..0], k) == None;
    } else {
      var m := UnfoldLast(members, out);
      FoldKeepsFirstValue(members[..|members| - 1], m, k);
      MergeValue(m, members[|members| - 1], out, k);
    }
  }

  // ----- The count of merged members -----

  lemma {:induction false} DigitsAreDigits(n: nat)
    ensures DigitRun(Digits(n)) == Digits(n) && '0' <= Digits(n)[0] <= '9'
    ensures forall i :: 0 <= i < |Digits(n)| ==> '0' <= Digits(n)[i] <= '9'
  {
    if n >= 10 {
      DigitsAreDigits(n / 10);
    }
    AllDigits(Digits(n));
  }

  lemma {:induction false} AllDigits(s: string)
    requires forall i :: 0 <= i < |s| ==> '0' <= s[i] <= '9'
    ensures DigitRun(s) == s
  {
    if s != [] {
      AllDigits(s[1..]);
      assert s == [s[0]] + s[1..];
    }
  }

  lemma {:induction false} RunEnds(digits: string, tail: string)
    requires (forall c :: c in digits ==> '0' <= c <= '9') && (tail != "" ==> !('0' <= tail[0] <= '9'))
    ensures DigitRun(digits + tail) == digits
  {
    if digits == "" {
      assert digits + tail == tail;
    } else {
      assert digits[0] in digits && (digits + tail)[1..] == digits[1..] + tail;
      assert forall c :: c in digits[1..] ==> c in digits;
      RunEnds(digits[1..], tail);
    }
  }

  lemma {:induction false} BlanksDrop(pad: string, s: string)
    requires (forall c :: c in pad ==> IsSpace(c)) && (s != "" ==> !IsSpace(s[0]))
    ensures TrimLeft(pad + s) == s
  {
    if pad == "" {
      assert pad + s == s;
    } else {
      assert pad[0] in pad && (pad + s)[1..] == pad[1..] + s;
      assert forall c :: c in pad[1..] ==> c in pad;
      BlanksDrop(pad[1..], s);
    }
  }

  lemma ScanSigned(s: string, sign: string, rest: string, run: string)
    requires TrimLeft(s) == sign + rest && sign in {"", "+", "-"} && DigitRun(rest) == run
    requires sign == "" ==> rest == "" || rest[0] !in {'+', '-'}
    ensures ScanCount(s) == match DigitsValue(run) case None => 0 case Some(v) => if sign == "-" then 0 - v else v
  {
    hide TrimLeft, DigitRun, DigitsValue;
    assert sign == "" ==> sign + rest == rest;
    assert sign != "" ==> (sign + rest)[0] == sign[0] && (sign + rest)[1..] == rest;
  }

  /** Where the sign and the digits begin and end. */
  ghost predicate CountText(sign: string, digits: string, tail: string) {
    && sign in {"", "+", "-"} && (forall c :: c in digits ==> '0' <= c <= '9')
    && (tail != "" ==> !('0' <= tail[0] <= '9'))
    && (tail != "" && sign == "" && digits == "" ==> !IsSpace(tail[0]) && tail[0] !in {'+', '-'})
  }

  lemma CountTextStarts(sign: string, digits: string, tail: string)
    requires CountText(sign, digits, tail)
    ensures var s := sign + (digits + tail); s != "" ==> !IsSpace(s[0])
    ensures sign == "" ==> digits + tail == "" || (digits + tail)[0] !in {'+', '-'}
  {
    if digits != "" {
      assert (digits + tail)[0] == digits[0] && digits[0] in digits;
    }
  }

  function ValueOrZero(digits: string): int {
    match DigitsValue(digits)
    case None => 0
    case Some(v) => v
  }

  lemma DigitsCount(digits: string)
    requires forall c :: c in digits ==> '0' <= c <= '9'
    ensures ValueOrZero(digits) == PlaceValue(digits)
  {
    DigitsValueIs(digits);
  }

  lemma BehindBlanks(pad: string, sign: string, digits: string, tail: string)
    requires (forall c :: c in pad ==> IsSpace(c)) && CountText(sign, digits, tail)
    ensures TrimLeft(pad + sign + digits + tail) == sign + (digits + tail)
  {
    CountTextStarts(sign, digits, tail);
    hide CountText;
    assert pad + sign + digits + tail == pad + (sign + (digits + tail));
    BlanksDrop(pad, sign + (digits + tail));
  }

  /** Blanks, a sign, digits and whatever stands behind them: the digits count, with their sign; without digits it is zero. */
  lemma ScanCountIs(pad: string, sign: string, digits: string, tail: string)
    requires (forall c :: c in pad ==> IsSpace(c)) && CountText(sign, digits, tail)
    ensures ScanCount(pad + sign + digits + tail) == if sign == "-" then 0 - PlaceValue(digits) else PlaceValue(digits)
  {
    hide IsSpace, TrimLeft, DigitRun, DigitsValue, ScanCount, PlaceValue;
    CountTextStarts(sign, digits, tail);
    RunEnds(digits, tail);
    DigitsCount(digits);
    BehindBlanks(pad, sign, digits, tail);
    ScanSigned(pad + sign + digits + tail, sign, digits + tail, digits);
  }

  lemma CountReadsBack(n: nat)
    ensures ScanCount(Itoa(n)) == n
  {
    DigitsAreDigits(n);
    DigitsRoundTrip(n);
  }

  function CountKey(): string {
    NAMESPACE + MERGED_COUNT
  }

  lemma MergeCounts(p: Component, s: Component, out: Component)
    requires Merged(p, s, out) && CountKey() !in s.properties
    ensures Lookup(out.properties, CountKey()) == Some(Itoa(CountIn(p.properties) + 1))
  {
    hide MergedEvidence, Distinct, NAMESPACE, MERGED_COUNT, ALSO_IN_LAYER, InNamespace, ScanCount, Itoa, AddProperties;
    var order :| Enumerates(order, s.properties.Keys) && out == MergedPair(p, s, order);
    PrimaryPropertyWins(p.properties, s.properties, order, CountKey());
    BreadcrumbNames("");
  }

  /** Folding n members that carry no count yet stamps n - 1. */
  lemma {:induction false} FoldCounts(members: seq<Component>, out: Component)
    requires |members| > 1 && FoldsTo(members, out)
    requires forall m :: m in members ==> CountKey() !in m.properties
    ensures Lookup(out.properties, CountKey()) == Some(Itoa(|members| - 1))
    decreases |members|
  {
    hide Merged, CountKey, Itoa, ScanCount;
    assert CountKey() == NAMESPACE + MERGED_COUNT by { CountKeyIs(); }
    var m := UnfoldLast(members, out);
    MergeCounts(m, members[|members| - 1], out);
    if |members| > 2 {
      FoldCounts(members[..|members| - 1], m);
      CountReadsBack(|members| - 2);
    }
  }

  lemma CountKeyIs()
    ensures CountKey() == NAMESPACE + MERGED_COUNT
  {
  }

  // ----- The identity key -----

  lemma SameKeyNoPurlNoCpe(p: Component, s: Component)
    requires DedupKey(p) == DedupKey(s) != "" && !Unshadowed(p)
    ensures s.purl == "" && FirstNonBlank(s.cpes) == ""
  {
    SameKeySameKind(p, s);
  }

  /** A bucket of two or more keeps its key exactly if its primary does not rest on a shadowed SHA-256. */
  lemma {:induction false} FoldKeepsKeyIff(members: seq<Component>, out: Component)
    requires |members| > 1 && FoldsTo(members, out) && DedupKey(members[0]) != ""
    requires forall m :: m in members ==> DedupKey(m) == DedupKey(members[0])
    ensures DedupKey(out) == DedupKey(members[0]) <==> Unshadowed(members[0])
    ensures Unshadowed(members[0]) ==> Unshadowed(out)
    ensures !Unshadowed(members[0]) ==>
      && KeyLost(out, FindSha(members[0].hashes))
      && DedupKey(members[0]) == "sha256:" + Lower(FindSha(members[0].hashes))
    decreases |members|
  {
    hide Merged, DedupKey, Unshadowed, FindSha, Lower, KeyLost;
    var first, last := members[0], members[|members| - 1];
    var m := UnfoldLast(members, out);
    MergedIsUnshadowed(m, last, out);
    if |members| == 2 {
      assert m == first;
      MergeKeepsKeyIff(first, last, out);
      if !Unshadowed(first) {
        KeyOfShadowed(first, last, out);
      }
    } else {
      FoldKeepsKeyIff(members[..|members| - 1], m);
      if Unshadowed(first) {
        MergeKeepsKeyIff(m, last, out);
      } else {
        SameKeyNoPurlNoCpe(first, last);
        KeyStaysLost(m, last, out, FindSha(first.hashes));
        KeyLostMeans(out, FindSha(first.hashes));
      }
    }
  }
}
