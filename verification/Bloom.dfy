/**
  The Bloom filter in front of the exact hash index
  (internal/enrich/basediff/contenthash/bloom.go).
*/
module Bloom {
  const TWO_64: nat := 0x1_0000_0000_0000_0000

  // ----- Two 64-bit hashes read off the hex digits -----

  function HexDigit(c: char): (d: nat)
    ensures d <= 16
  {
    if '0' <= c <= '9' then (c - '0') as nat
    else if 'a' <= c <= 'f' then (c - 'a') as nat + 10
    else if 'A' <= c <= 'F' then (c - 'A') as nat + 10
    else 16
  }

  /** Decoding stops at the first character that is no hex digit and keeps what came before. */
  function DecodeHex(s: string): (bytes: seq<nat>)
    ensures 2 * |bytes| <= |s|
    ensures forall b :: b in bytes ==> b < 256
  {
    if |s| < 2 || HexDigit(s[0]) == 16 || HexDigit(s[1]) == 16 then []
    else [16 * HexDigit(s[0]) + HexDigit(s[1])] + DecodeHex(s[2..])
  }

  function RawBytes(s: string): (raw: seq<nat>)
    ensures |raw| == 16
    ensures forall b :: b in raw ==> b < 256
  {
    var decoded := DecodeHex(if |s| >= 32 then s[..32] else s[..|s| - |s| % 2]);
    decoded + seq(16 - |decoded|, _ => 0)
  }

  function BigEndian(bytes: seq<nat>): nat {
    if bytes == [] then 0 else 256 * BigEndian(bytes[..|bytes| - 1]) + bytes[|bytes| - 1]
  }

  function FirstHash(s: string): nat {
    BigEndian(RawBytes(s)[..8])
  }

  /** Never zero, which would collapse the probe sequence. */
  function SecondHash(s: string): nat {
    var h := BigEndian(RawBytes(s)[8..]);
    if h == 0 then 1 else h
  }

  /** The i-th probed bit; multiplication and addition wrap around at 64 bits. */
  function Probe(s: string, i: nat, nBits: nat): (index: nat)
    requires nBits > 0
    ensures index < nBits
  {
    ((FirstHash(s) + (i * SecondHash(s)) % TWO_64) % TWO_64) % nBits
  }

  // ----- What is probed -----

  lemma HexDigitIff(c: char, d: nat)
    requires d < 16
    ensures HexDigit(c) == d <==> c == "0123456789abcdef"[d] || c == "0123456789ABCDEF"[d]
  {
    assert d in {0, 1, 2, 3, 4, 5, 6, 7, 8, 9, 10, 11, 12, 13, 14, 15};
  }

  ghost predicate AllHex(s: string) {
    forall c :: c in s ==> HexDigit(c) < 16
  }

  /** The value of a text of hexadecimal digits. */
  function HexNumber(s: string): nat {
    if s == "" then 0 else 16 * HexNumber(s[..|s| - 1]) + HexDigit(s[|s| - 1])
  }

  lemma {:induction false} DecodeConcat(a: string, b: string)
    requires AllHex(a) && |a| % 2 == 0
    ensures DecodeHex(a + b) == DecodeHex(a) + DecodeHex(b)
  {
    hide HexDigit;
    if a == "" {
      assert a + b == b;
    } else {
      assert HexDigit(a[0]) < 16 && HexDigit(a[1]) < 16;
      assert (a + b)[2..] == a[2..] + b && (a + b)[0] == a[0] && (a + b)[1] == a[1];
      DecodeConcat(a[2..], b);
    }
  }

  lemma DecodedPair(a: char, b: char)
    requires HexDigit(a) < 16 && HexDigit(b) < 16
    ensures DecodeHex([a, b]) == [16 * HexDigit(a) + HexDigit(b)]
  {
    assert [a, b][2..] == [];
  }

  lemma HexNumberPair(s: string, a: char, b: char)
    ensures HexNumber(s + [a, b]) == 256 * HexNumber(s) + (16 * HexDigit(a) + HexDigit(b))
  {
    var t := s + [a, b];
    assert t[..|t| - 1] == s + [a] && (s + [a])[..|s|] == s;
  }

  lemma BigEndianSnoc(bytes: seq<nat>, b: nat)
    ensures BigEndian(bytes + [b]) == 256 * BigEndian(bytes) + b
  {
    assert (bytes + [b])[..|bytes|] == bytes;
  }

  lemma {:induction false} DecodedValue(s: string)
    requires AllHex(s) && |s| % 2 == 0
    ensures 2 * |DecodeHex(s)| == |s| && BigEndian(DecodeHex(s)) == HexNumber(s)
  {
    hide HexDigit;
    if s != "" {
      var init, a, b := s[..|s| - 2], s[|s| - 2], s[|s| - 1];
      assert s == init + [a, b];
      assert a in s && b in s && AllHex(init);
      DecodedValue(init);
      hide DecodeHex, BigEndian, HexNumber;
      DecodeConcat(init, [a, b]);
      DecodedPair(a, b);
      HexNumberPair(init, a, b);
      BigEndianSnoc(DecodeHex(init), 16 * HexDigit(a) + HexDigit(b));
    }
  }

  /** The two hashes are the first two runs of sixteen digits, and the second is never zero. */
  lemma DigestHalves(s: string)
    requires |s| >= 32 && AllHex(s[..32])
    ensures FirstHash(s) == HexNumber(s[..16])
    ensures SecondHash(s) == if HexNumber(s[16..32]) == 0 then 1 else HexNumber(s[16..32])
  {
    var a, b := s[..16], s[16..32];
    assert s[..32] == a + b;
    assert AllHex(a) && AllHex(b);
    DecodeConcat(a, b);
    DecodedValue(a);
    DecodedValue(b);
    assert RawBytes(s) == DecodeHex(a) + DecodeHex(b);
    assert RawBytes(s)[..8] == DecodeHex(a) && RawBytes(s)[8..] == DecodeHex(b);
  }

  lemma {:induction false} AddMultiple(x: nat, q: nat)
    ensures (x + TWO_64 * q) % TWO_64 == x % TWO_64
  {
    if q > 0 {
      AddMultiple(x, q - 1);
      assert x + TWO_64 * q == x + TWO_64 * (q - 1) + TWO_64;
    }
  }

  /** The digits in front of place n are hexadecimal. */
  ghost predicate HexUpTo(s: string, n: nat) {
    n <= |s| && forall k :: 0 <= k < n ==> HexDigit(s[k]) < 16
  }

  lemma {:induction false} DecodedAt(s: string, k: nat)
    ensures k < |DecodeHex(s)| <==> HexUpTo(s, 2 * k + 2)
    ensures k < |DecodeHex(s)| ==> DecodeHex(s)[k] == 16 * HexDigit(s[2 * k]) + HexDigit(s[2 * k + 1])
  {
    hide HexDigit;
    if |s| >= 2 && HexDigit(s[0]) < 16 && HexDigit(s[1]) < 16 {
      var rest := s[2..];
      assert HexUpTo(s, 2 * k + 2) <==> k == 0 || HexUpTo(rest, 2 * k) by {
        if k > 0 && HexUpTo(rest, 2 * k) {
          forall j | 0 <= j < 2 * k + 2 ensures HexDigit(s[j]) < 16 {
            assert j >= 2 ==> s[j] == rest[j - 2];
          }
        }
      }
      if k > 0 {
        DecodedAt(rest, k - 1);
      }
    }
  }

  /** Of any text the first 32 characters count: a byte for each pair up to the first bad or missing digit, zeros behind. */
  lemma RawBytesAt(s: string, k: nat)
    requires k < 16
    ensures RawBytes(s)[k] == if HexUpTo(s, 2 * k + 2) then 16 * HexDigit(s[2 * k]) + HexDigit(s[2 * k + 1]) else 0
  {
    var even := if |s| >= 32 then s[..32] else s[..|s| - |s| % 2];
    DecodedAt(even, k);
    hide HexDigit, DecodeHex;
    assert HexUpTo(even, 2 * k + 2) <==> HexUpTo(s, 2 * k + 2);
  }

  /** Double hashing: one wrap-around of the whole sum gives the same index as wrapping product and sum in turn. */
  lemma ProbeIs(s: string, i: nat, nBits: nat)
    requires nBits > 0
    ensures Probe(s, i, nBits) == (FirstHash(s) + i * SecondHash(s)) % 0x1_0000_0000_0000_0000 % nBits
  {
    hide FirstHash, SecondHash;
    var step := i * SecondHash(s);
    AddMultiple(FirstHash(s) + step % TWO_64, step / TWO_64);
  }

  ghost predicate Probed(s: string, hashes: nat, nBits: nat, index: nat)
    requires nBits > 0
  {
    exists i :: 0 <= i < hashes && Probe(s, i, nBits) == index
  }

  // ----- Bits in 64-bit words -----

  /** A 64-bit word as the set of its one bits: "w |= 1 << k" adds k, "w & (1 << k) != 0" looks for it. */
  type Word = w: set<nat> | forall k :: k in w ==> k < 64 witness {}

  predicate BitSet(words: seq<Word>, index: nat)
    requires index < 64 * |words|
  {
    index % 64 in words[index / 64]
  }

  class Filter {
    const bits: array<Word>
    const nBits: nat
    const nHashes: nat

    ghost predicate Valid() {
      nBits >= 64 && nHashes >= 1 && bits.Length == (nBits + 63) / 64
    }

    /** The capacity formula yields a bit count and a hash count; both are clamped from below. */
    constructor (bitCount: nat, hashCount: int)
      ensures Valid() && fresh(bits)
      ensures forall k :: 0 <= k < bits.Length ==> bits[k] == {}
    {
      var m := if bitCount < 64 then 64 else bitCount;
      nBits := m;
      nHashes := if hashCount < 1 then 1 else hashCount;
      bits := new Word[(m + 63) / 64](_ => {});
    }

    ghost predicate Bit(index: nat)
      reads bits
      requires Valid() && index < nBits
    {
      BitSet(bits[..], index)
    }

    /** What Test answers: every probed bit is set. */
    ghost predicate MayContain(s: string)
      reads bits
      requires Valid()
    {
      forall i :: 0 <= i < nHashes ==> Bit(Probe(s, i, nBits))
    }

    /** Exactly the probed bits get set; every index touched is inside the filter. */
    method Add(s: string)
      requires Valid()
      modifies bits
      ensures forall index :: 0 <= index < nBits ==>
        (Bit(index) <==> old(Bit(index)) || Probed(s, nHashes, nBits, index))
      ensures MayContain(s)
      ensures forall t :: old(MayContain(t)) ==> MayContain(t)
    {
      var i := 0;
      while i < nHashes
        invariant 0 <= i <= nHashes
        invariant forall index :: 0 <= index < nBits ==>
          (Bit(index) <==> old(Bit(index)) || Probed(s, i, nBits, index))
      {
        var index := Probe(s, i, nBits);
        bits[index / 64] := bits[index / 64] + {index % 64};
        forall other | 0 <= other < nBits
          ensures Bit(other) <==> old(Bit(other)) || Probed(s, i + 1, nBits, other)
        {
          assert Probed(s, i + 1, nBits, other) <==> Probed(s, i, nBits, other) || other == index;
        }
        i := i + 1;
      }
      forall k | 0 <= k < nHashes ensures Bit(Probe(s, k, nBits)) {
        assert Probed(s, nHashes, nBits, Probe(s, k, nBits));
      }
    }

    method Test(s: string) returns (maybe: bool)
      requires Valid()
      ensures maybe <==> MayContain(s)
    {
      var i := 0;
      while i < nHashes
        invariant 0 <= i <= nHashes
        invariant forall k :: 0 <= k < i ==> Bit(Probe(s, k, nBits))
      {
        var index := Probe(s, i, nBits);
        if index % 64 !in bits[index / 64] {
          assert !Bit(Probe(s, i, nBits));
          return false;
        }
        i := i + 1;
      }
      return true;
    }
  }
}
