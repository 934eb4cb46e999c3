/** The string operations of Go that the mappers and parsers lean on, over sequences of characters. */
module Strings {
  import opened Wrappers

  // ----- Lexicographic order and sorted key lists -----

  predicate LexLeq(a: string, b: string) {
    if a == [] then true
    else if b == [] then false
    else a[0] < b[0] || (a[0] == b[0] && LexLeq(a[1..], b[1..]))
  }

  lemma {:induction false} LexTotal(a: string, b: string)
    ensures LexLeq(a, b) || LexLeq(b, a)
    ensures LexLeq(a, b) && LexLeq(b, a) ==> a == b
  {
    if a != [] && b != [] {
      LexTotal(a[1..], b[1..]);
      assert a == [a[0]] + a[1..] && b == [b[0]] + b[1..];
    }
  }

  lemma {:induction false} LexTransitive(a: string, b: string, c: string)
    requires LexLeq(a, b) && LexLeq(b, c)
    ensures LexLeq(a, c)
  {
    if a != [] && a[0] == b[0] == c[0] {
      LexTransitive(a[1..], b[1..], c[1..]);
    }
  }

  lemma {:induction false} Least(keys: set<string>) returns (least: string)
    requires keys != {}
    ensures least in keys && forall x :: x in keys ==> LexLeq(least, x)
    decreases keys
  {
    hide LexLeq;
    least :| least in keys;
    LexTotal(least, least);
    if keys != {least} {
      var some := least;
      var k := Least(keys - {some});
      LexTotal(some, k);
      if LexLeq(some, k) {
        forall x | x in keys - {some} ensures LexLeq(some, x) {
          LexTransitive(some, k, x);
        }
      } else {
        least := k;
      }
    }
  }

  lemma LeastIsUnique(keys: set<string>)
    requires keys != {}
    ensures exists k :: k in keys && forall x :: x in keys ==> LexLeq(k, x)
    ensures forall a, b :: LexLeq(a, b) && LexLeq(b, a) ==> a == b
  {
    var least := Least(keys);
    forall a, b | LexLeq(a, b) && LexLeq(b, a) ensures a == b {
      LexTotal(a, b);
    }
  }

  /** The keys of a map, collected and sorted. */
  function SortedKeys(keys: set<string>): (sorted: seq<string>)
    ensures forall k :: k in sorted <==> k in keys
    ensures forall i, j :: 0 <= i < j < |sorted| ==> LexLeq(sorted[i], sorted[j]) && sorted[i] != sorted[j]
  {
    if keys == {} then []
    else
      LeastIsUnique(keys);
      var k :| k in keys && forall x :: x in keys ==> LexLeq(k, x);
      [k] + SortedKeys(keys - {k})
  }

  // ----- Walks over the keys of a map -----

  ghost predicate NoneTwice(order: seq<string>) {
    forall i, j :: 0 <= i < j < |order| ==> order[i] != order[j]
  }

  /** An order in which a walk over a map may meet its keys. */
  ghost predicate Enumerates(order: seq<string>, keys: set<string>) {
    NoneTwice(order) && forall k :: k in order <==> k in keys
  }

  // ----- Decimal numbers -----

  function Digits(n: nat): (s: string)
    ensures s != [] && s[0] != '-' && s[0] != '+'
  {
    if n < 10 then [('0' as int + n) as char] else Digits(n / 10) + [('0' as int + n % 10) as char]
  }

  function Itoa(n: int): string {
    if n < 0 then "-" + Digits(-n) else Digits(n)
  }

  function DigitsValue(s: string): Option<nat> {
    if s == [] then None
    else
      var last := s[|s| - 1];
      if !('0' <= last <= '9') then None
      else if |s| == 1 then Some((last - '0') as nat)
      else
        match DigitsValue(s[..|s| - 1])
        case None => None
        case Some(v) => Some(10 * v + (last - '0') as nat)
  }

  /** An optional sign and at least one digit. */
  function Atoi(s: string): Option<int> {
    if s == [] then None
    else if s[0] == '-' then
      (match DigitsValue(s[1..])
       case None => None
       case Some(v) => Some(0 - v as int))
    else if s[0] == '+' then
      (match DigitsValue(s[1..])
       case None => None
       case Some(v) => Some(v))
    else
      match DigitsValue(s)
      case None => None
      case Some(v) => Some(v)
  }

  lemma {:induction false} DigitsRoundTrip(n: nat)
    ensures DigitsValue(Digits(n)) == Some(n)
  {
    if n >= 10 {
      DigitsRoundTrip(n / 10);
      assert Digits(n)[..|Digits(n)| - 1] == Digits(n / 10);
    }
  }

  function Power(n: nat): nat {
    if n == 0 then 1 else 10 * Power(n - 1)
  }

  ghost predicate IsDecimal(s: string) {
    s != [] && forall c :: c in s ==> '0' <= c <= '9'
  }

  /** The place-value reading of a text of decimal digits. */
  function PlaceValue(s: string): int {
    if s == [] then 0 else (s[0] as int - 48) * Power(|s| - 1) + PlaceValue(s[1..])
  }

  lemma {:induction false} PlaceValueSnoc(s: string, c: char)
    ensures PlaceValue(s + [c]) == 10 * PlaceValue(s) + (c as int - 48)
  {
    if s == [] {
      assert [c][1..] == [];
      assert s + [c] == [c];
    } else {
      PlaceValueSnoc(s[1..], c);
      assert (s + [c])[1..] == s[1..] + [c];
      assert Power(|s|) == 10 * Power(|s| - 1);
    }
  }

  lemma DecimalSnoc(s: string, c: char)
    ensures IsDecimal(s + [c]) <==> '0' <= c <= '9' && (s == [] || IsDecimal(s))
  {
    if IsDecimal(s + [c]) {
      assert c in s + [c] && forall d :: d in s ==> d in s + [c];
    }
  }

  /** A number is read exactly from a text of digits, as its place value. */
  lemma {:induction false} DigitsValueIs(s: string)
    ensures DigitsValue(s).Some? <==> IsDecimal(s)
    ensures IsDecimal(s) ==> DigitsValue(s).value == PlaceValue(s)
  {
    if s != [] {
      var front, last := s[..|s| - 1], s[|s| - 1];
      assert s == front + [last];
      DecimalSnoc(front, last);
      DigitsValueIs(front);
      PlaceValueSnoc(front, last);
    }
  }

  /** A number is written with its decimal digits, without leading zeros. */
  lemma {:induction false} DigitsAre(n: nat)
    ensures IsDecimal(Digits(n)) && PlaceValue(Digits(n)) == n
    ensures Digits(n)[0] == '0' ==> n == 0 && Digits(n) == "0"
  {
    DigitsRoundTrip(n);
    DigitsValueIs(Digits(n));
    if n >= 10 {
      DigitsAre(n / 10);
    }
  }

  lemma ItoaRoundTrip(n: int)
    ensures Atoi(Itoa(n)) == Some(n)
  {
    DigitsRoundTrip(if n < 0 then -n else n);
    if n < 0 {
      assert Itoa(n)[1..] == Digits(-n);
    }
  }

  // ----- Letter case -----

  function LowerChar(c: char): char {
    if 'A' <= c <= 'Z' then (c as int - 'A' as int + 'a' as int) as char else c
  }

  function Lower(s: string): (r: string)
    ensures |r| == |s|
    ensures forall i :: 0 <= i < |s| ==> r[i] == LowerChar(s[i])
  {
    seq(|s|, i requires 0 <= i < |s| => LowerChar(s[i]))
  }

  // ----- Trimming and searching -----

  predicate IsSpace(c: char) {
    c in {' ', '\t', '\n', '\r', 0x0B as char, 0x0C as char}
  }

  function TrimLeft(s: string): string {
    if s != [] && IsSpace(s[0]) then TrimLeft(s[1..]) else s
  }

  function TrimRight(s: string): string {
    if s != [] && IsSpace(s[|s| - 1]) then TrimRight(s[..|s| - 1]) else s
  }

  function TrimSpace(s: string): string {
    TrimRight(TrimLeft(s))
  }

  ghost predicate Trimmed(s: string) {
    s != [] ==> !IsSpace(s[0]) && !IsSpace(s[|s| - 1])
  }

  lemma {:induction false} TrimLeftTrims(s: string)
    ensures TrimLeft(s) != [] ==> !IsSpace(TrimLeft(s)[0])
  {
    if s != [] && IsSpace(s[0]) {
      TrimLeftTrims(s[1..]);
    }
  }

  lemma {:induction false} TrimRightTrims(s: string)
    requires s != [] ==> !IsSpace(s[0])
    ensures Trimmed(TrimRight(s)) && TrimRight(s) <= s
  {
    if s != [] && IsSpace(s[|s| - 1]) {
      TrimRightTrims(s[..|s| - 1]);
    }
  }

  /** Trimming leaves exactly the trimmed strings alone. */
  lemma TrimSpaceFixes(s: string)
    ensures Trimmed(TrimSpace(s))
    ensures TrimSpace(s) == s <==> Trimmed(s)
  {
    TrimLeftTrims(s);
    TrimRightTrims(TrimLeft(s));
  }

  function IndexOf(s: string, c: char): (i: int)
    ensures -1 <= i < |s|
    ensures i >= 0 ==> s[i] == c && c !in s[..i]
    ensures i < 0 ==> c !in s
  {
    if s == [] then -1
    else if s[0] == c then 0
    else
      var rest := IndexOf(s[1..], c);
      assert s == [s[0]] + s[1..];
      if rest < 0 then -1
      else
        assert s[..rest + 1] == [s[0]] + s[1..][..rest];
        rest + 1
  }

  lemma {:induction false} IndexOfFirst(before: string, c: char, after: string)
    requires c !in before
    ensures IndexOf(before + [c] + after, c) == |before|
  {
    if before != [] {
      IndexOfFirst(before[1..], c, after);
      assert (before + [c] + after)[1..] == before[1..] + [c] + after;
    }
  }

  // ----- Splitting and joining -----

  /** The pieces between the separators; never empty. */
  function Split(s: string, c: char): (parts: seq<string>)
    ensures parts != [] && forall p :: p in parts ==> c !in p
  {
    if s == [] then [[]]
    else
      var rest := Split(s[1..], c);
      if s[0] == c then [[]] + rest else [[s[0]] + rest[0]] + rest[1..]
  }

  function Join(parts: seq<string>, c: char): string {
    if parts == [] then []
    else if |parts| == 1 then parts[0]
    else parts[0] + [c] + Join(parts[1..], c)
  }

  lemma {:induction false} JoinSplit(s: string, c: char)
    ensures Join(Split(s, c), c) == s
  {
    if s != [] {
      var rest := Split(s[1..], c);
      JoinSplit(s[1..], c);
      var parts := Split(s, c);
      if s[0] == c {
        assert parts[1..] == rest;
      } else if |rest| > 1 {
        assert parts[1..] == rest[1..];
        assert Join(parts, c) == [s[0]] + rest[0] + [c] + Join(rest[1..], c);
      }
    }
  }

  lemma {:induction false} SplitPrefix(p: string, c: char, s: string)
    requires c !in p
    ensures Split(p + s, c) == [p + Split(s, c)[0]] + Split(s, c)[1..]
  {
    var tail := Split(s, c);
    if p == [] {
      assert p + s == s && p + tail[0] == tail[0];
    } else {
      assert (p + s)[1..] == p[1..] + s;
      SplitPrefix(p[1..], c, s);
      assert ([p[1..] + tail[0]] + tail[1..])[1..] == tail[1..];
      assert [p[0]] + (p[1..] + tail[0]) == p + tail[0];
    }
  }

  lemma {:induction false} SplitJoin(parts: seq<string>, c: char)
    requires parts != [] && forall p :: p in parts ==> c !in p
    ensures Split(Join(parts, c), c) == parts
  {
    if |parts| == 1 {
      SplitPrefix(parts[0], c, []);
      assert parts[0] + [] == parts[0];
      assert parts == [parts[0]];
    } else {
      var rest := Join(parts[1..], c);
      SplitJoin(parts[1..], c);
      assert Join(parts, c) == parts[0] + ([c] + rest);
      SplitPrefix(parts[0], c, [c] + rest);
      assert ([c] + rest)[1..] == rest;
      assert Split([c] + rest, c) == [[]] + parts[1..];
      assert parts[0] + [] == parts[0];
      assert ([[]] + parts[1..])[1..] == parts[1..];
      assert parts == [parts[0]] + parts[1..];
    }
  }
}
