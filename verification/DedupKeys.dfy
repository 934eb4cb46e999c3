/**
  Which components a deduplication run takes for the same one, in terms of their fields
  (internal/enrich/dedup/dedup.go).
*/
module DedupKeys {
  import opened Strings
  import opened Texts
  import opened Dedup
  import opened DedupMerge

  // ----- Identity, in terms of the fields -----

  /** The text in front of the first question mark; all of it where there is none, or where it stands first. */
  ghost predicate CutAt(purl: string, n: nat) {
    if '?' in purl && purl[0] != '?' then n < |purl| && purl[n] == '?' && '?' !in purl[..n] else n == |purl|
  }

  ghost predicate SamePurl(p: string, q: string) {
    exists m: nat, n: nat :: CutAt(p, m) && CutAt(q, n) && m <= |p| && n <= |q| && SameText(p[..m], q[..n])
  }

  ghost predicate ShaAt(hashes: seq<Hash>, i: nat) {
    i < |hashes| && SameText(hashes[i].algorithm, "sha256") && hashes[i].value != ""
  }

  ghost predicate FirstSha(hashes: seq<Hash>, i: nat) {
    ShaAt(hashes, i) && forall k: nat :: k < i ==> !ShaAt(hashes, k)
  }

  ghost predicate NoSha(hashes: seq<Hash>) {
    forall k: nat :: !ShaAt(hashes, k)
  }

  ghost predicate FirstCpe(cpes: seq<string>, i: nat) {
    i < |cpes| && !Blank(cpes[i]) && forall k :: 0 <= k < i ==> Blank(cpes[k])
  }

  ghost predicate NoCpe(cpes: seq<string>) {
    forall k :: 0 <= k < |cpes| ==> Blank(cpes[k])
  }

  function NameText(c: Component): string {
    c.typ + ":" + c.name + ":" + c.version
  }

  /** The kinds of identity, strongest first. */
  ghost predicate ByPurl(c: Component) {
    c.purl != ""
  }

  ghost predicate ByCpe(c: Component, i: nat) {
    c.purl == "" && FirstCpe(c.cpes, i)
  }

  ghost predicate BySha(c: Component, i: nat) {
    c.purl == "" && NoCpe(c.cpes) && FirstSha(c.hashes, i)
  }

  ghost predicate ByName(c: Component) {
    c.purl == "" && NoCpe(c.cpes) && NoSha(c.hashes) && c.name != "" && c.version != ""
  }

  ghost predicate Unkeyed(c: Component) {
    c.purl == "" && NoCpe(c.cpes) && NoSha(c.hashes) && (c.name == "" || c.version == "")
  }

  ghost predicate SameIdentity(a: Component, b: Component) {
    || (ByPurl(a) && ByPurl(b) && SamePurl(a.purl, b.purl))
    || (exists i: nat, j: nat :: ByCpe(a, i) && ByCpe(b, j) && SameTrimmed(a.cpes[i], b.cpes[j]))
    || (exists i: nat, j: nat :: BySha(a, i) && BySha(b, j) && SameText(a.hashes[i].value, b.hashes[j].value))
    || (ByName(a) && ByName(b) && SameText(NameText(a), NameText(b)))
  }

  // ----- The pieces of the key -----

  lemma CutLength(p: string) returns (n: nat)
    ensures n <= |p| && CutAt(p, n) && CanonicalPurl(p) == Lower(p[..n])
    ensures forall m: nat :: CutAt(p, m) ==> m == n
  {
    var query := IndexOf(p, '?');
    n := if query > 0 then query else |p|;
    assert p[..|p|] == p;
    forall m: nat | CutAt(p, m) ensures m == n {
      if '?' in p && p[0] != '?' {
        FirstIsFirst(p, '?', m, n);
      }
    }
  }

  /** Two PURLs are taken for one exactly if they agree, letter case aside, in front of the qualifiers. */
  lemma PurlIff(p: string, q: string)
    ensures CanonicalPurl(p) == CanonicalPurl(q) <==> SamePurl(p, q)
  {
    var m := CutLength(p);
    var n := CutLength(q);
    LowerIff(p[..m], q[..n]);
    hide SameText, CutAt, CanonicalPurl;
  }

  lemma CpeIff(s: string, t: string)
    ensures CanonicalCpe(s) == CanonicalCpe(t) <==> SameTrimmed(s, t)
    ensures CanonicalCpe(s) == "" <==> Blank(s)
  {
    SameTrimmedIff(s, t);
    TrimIff(s, TrimSpace(s));
  }

  lemma {:induction false} FirstCpeIs(cpes: seq<string>)
    ensures FirstNonBlank(cpes) == "" <==> NoCpe(cpes)
    ensures FirstNonBlank(cpes) != "" ==> exists i: nat :: FirstCpe(cpes, i) && FirstNonBlank(cpes) == cpes[i]
  {
    if cpes != [] {
      TrimIff(cpes[0], TrimSpace(cpes[0]));
      FirstCpeIs(cpes[1..]);
      if Blank(cpes[0]) {
        if FirstNonBlank(cpes) != "" {
          var i: nat :| FirstCpe(cpes[1..], i) && FirstNonBlank(cpes[1..]) == cpes[1..][i];
          assert forall k :: 0 < k < i + 1 ==> cpes[k] == cpes[1..][k - 1];
          assert FirstCpe(cpes, i + 1);
        } else {
          assert forall k :: 0 < k < |cpes| ==> cpes[k] == cpes[1..][k - 1];
        }
      } else {
        assert FirstCpe(cpes, 0);
      }
    }
  }

  lemma IsShaIff(h: Hash)
    ensures IsSha(h) <==> SameText(h.algorithm, "sha256") && h.value != ""
  {
    LowerIff(h.algorithm, "sha256");
  }

  lemma {:induction false} FirstShaIs(hashes: seq<Hash>)
    ensures FindSha(hashes) == "" <==> NoSha(hashes)
    ensures FindSha(hashes) != "" ==> exists i: nat :: FirstSha(hashes, i) && FindSha(hashes) == hashes[i].value
  {
    hide SameText;
    if hashes != [] {
      IsShaIff(hashes[0]);
      hide IsSha;
      FirstShaIs(hashes[1..]);
      assert forall k: nat :: ShaAt(hashes[1..], k) <==> ShaAt(hashes, k + 1);
      if IsSha(hashes[0]) {
        assert FirstSha(hashes, 0);
      } else if FindSha(hashes) != "" {
        var i: nat :| FirstSha(hashes[1..], i) && FindSha(hashes[1..]) == hashes[1..][i].value;
        forall k: nat | k < i + 1 ensures !ShaAt(hashes, k) {
          assert k > 0 ==> !ShaAt(hashes[1..], k - 1);
        }
        assert ShaAt(hashes, i + 1);
        assert FirstSha(hashes, i + 1);
      } else {
        forall k: nat ensures !ShaAt(hashes, k) {
          assert k > 0 ==> !ShaAt(hashes[1..], k - 1);
        }
      }
    }
  }

  lemma NameKey(c: Component)
    ensures "nvt:" + Lower(c.typ) + ":" + Lower(c.name) + ":" + Lower(c.version) == "nvt:" + Lower(NameText(c))
  {
    LowerConcat(c.typ, ":");
    LowerConcat(c.typ + ":", c.name);
    LowerConcat(c.typ + ":" + c.name, ":");
    LowerConcat(c.typ + ":" + c.name + ":", c.version);
    assert Lower(":") == ":";
    hide Lower;
    assert "nvt:" + Lower(c.typ) + ":" + Lower(c.name) + ":" + Lower(c.version) ==
           "nvt:" + (Lower(c.typ) + ":" + Lower(c.name) + ":" + Lower(c.version));
  }

  /** Without colons in type and name, components known by name are one exactly if all three fields agree. */
  lemma NamesApart(a: Component, b: Component)
    requires ':' !in a.typ && ':' !in a.name && ':' !in b.typ && ':' !in b.name
    ensures SameText(NameText(a), NameText(b)) <==>
      SameText(a.typ, b.typ) && SameText(a.name, b.name) && SameText(a.version, b.version)
  {
    SameFront(a.typ, a.name + ":" + a.version, b.typ, b.name + ":" + b.version);
    SameFront(a.name, a.version, b.name, b.version);
    hide SameText;
    assert NameText(a) == a.typ + ":" + (a.name + ":" + a.version);
    assert NameText(b) == b.typ + ":" + (b.name + ":" + b.version);
  }

  // ----- When two components have one key -----

  lemma FirstIsOne(c: Component)
    ensures forall i: nat, j: nat :: FirstCpe(c.cpes, i) && FirstCpe(c.cpes, j) ==> i == j
    ensures forall i: nat, j: nat :: FirstSha(c.hashes, i) && FirstSha(c.hashes, j) ==> i == j
  {
    hide Blank, ShaAt;
  }

  lemma KeyPieces(c: Component)
    ensures ByPurl(c) ==> DedupKey(c) == "purl:" + CanonicalPurl(c.purl)
    ensures forall i: nat :: ByCpe(c, i) ==> DedupKey(c) == "cpe:" + CanonicalCpe(c.cpes[i])
    ensures forall i: nat :: BySha(c, i) ==> DedupKey(c) == "sha256:" + Lower(c.hashes[i].value)
    ensures ByName(c) ==> DedupKey(c) == "nvt:" + Lower(NameText(c))
    ensures Unkeyed(c) ==> DedupKey(c) == ""
    ensures ByPurl(c) || (exists i: nat :: ByCpe(c, i)) || (exists i: nat :: BySha(c, i)) || ByName(c) || Unkeyed(c)
  {
    FirstCpeIs(c.cpes);
    FirstShaIs(c.hashes);
    FirstIsOne(c);
    NameKey(c);
    hide FirstNonBlank, FindSha, SameText, CanonicalPurl, CanonicalCpe, Lower, NameText;
    if c.purl == "" && FirstNonBlank(c.cpes) == "" {
      assert forall i: nat :: !ByCpe(c, i);
      if FindSha(c.hashes) != "" {
        var i: nat :| FirstSha(c.hashes, i) && FindSha(c.hashes) == c.hashes[i].value;
        assert BySha(c, i);
      }
    } else if c.purl == "" {
      var i: nat :| FirstCpe(c.cpes, i) && FirstNonBlank(c.cpes) == c.cpes[i];
      assert ByCpe(c, i);
    }
  }

  /** The first letter of the key tells the kinds apart; there is no key exactly without any kind of identity. */
  lemma KindLetter(c: Component)
    ensures DedupKey(c) == "" <==> Unkeyed(c)
    ensures ByPurl(c) <==> DedupKey(c) != "" && DedupKey(c)[0] == 'p'
    ensures (exists i: nat :: ByCpe(c, i)) <==> DedupKey(c) != "" && DedupKey(c)[0] == 'c'
    ensures (exists i: nat :: BySha(c, i)) <==> DedupKey(c) != "" && DedupKey(c)[0] == 's'
    ensures ByName(c) <==> DedupKey(c) != "" && DedupKey(c)[0] == 'n'
    ensures DedupKey(c) != "" ==> DedupKey(c)[0] in "pcsn"
  {
    KeyPieces(c);
    hide DedupKey, ByPurl, ByCpe, BySha, ByName, Unkeyed, NameText, Lower, CanonicalPurl, CanonicalCpe;
  }

  /** Two components get one key exactly if they have one identity, or neither has any. */
  lemma SameKeyIff(a: Component, b: Component)
    ensures DedupKey(a) == DedupKey(b) <==> SameIdentity(a, b) || (Unkeyed(a) && Unkeyed(b))
    ensures DedupKey(a) == "" <==> Unkeyed(a)
  {
    KindLetter(a);
    KindLetter(b);
    SamePurlKey(a, b);
    SameCpeKey(a, b);
    SameShaKey(a, b);
    SameNameKey(a, b);
    hide DedupKey, ByPurl, ByCpe, BySha, ByName, Unkeyed, NameText, SameText, SameTrimmed, SamePurl;
  }

  lemma SamePurlKey(a: Component, b: Component)
    ensures ByPurl(a) && ByPurl(b) ==> (DedupKey(a) == DedupKey(b) <==> SamePurl(a.purl, b.purl))
  {
    KeyPieces(a);
    KeyPieces(b);
    PurlIff(a.purl, b.purl);
    SamePrefix("purl:", CanonicalPurl(a.purl), CanonicalPurl(b.purl));
    hide *;
  }

  lemma SameCpeKey(a: Component, b: Component)
    ensures forall i: nat, j: nat :: ByCpe(a, i) && ByCpe(b, j) ==>
      (DedupKey(a) == DedupKey(b) <==> SameTrimmed(a.cpes[i], b.cpes[j]))
  {
    KeyPieces(a);
    KeyPieces(b);
    forall i: nat, j: nat | ByCpe(a, i) && ByCpe(b, j)
      ensures DedupKey(a) == DedupKey(b) <==> SameTrimmed(a.cpes[i], b.cpes[j])
    {
      CpeIff(a.cpes[i], b.cpes[j]);
      SamePrefix("cpe:", CanonicalCpe(a.cpes[i]), CanonicalCpe(b.cpes[j]));
    }
  }

  lemma SameShaKey(a: Component, b: Component)
    ensures forall i: nat, j: nat :: BySha(a, i) && BySha(b, j) ==>
      (DedupKey(a) == DedupKey(b) <==> SameText(a.hashes[i].value, b.hashes[j].value))
  {
    KeyPieces(a);
    KeyPieces(b);
    forall i: nat, j: nat | BySha(a, i) && BySha(b, j)
      ensures DedupKey(a) == DedupKey(b) <==> SameText(a.hashes[i].value, b.hashes[j].value)
    {
      LowerIff(a.hashes[i].value, b.hashes[j].value);
      SamePrefix("sha256:", Lower(a.hashes[i].value), Lower(b.hashes[j].value));
    }
  }

  lemma SameNameKey(a: Component, b: Component)
    ensures ByName(a) && ByName(b) ==> (DedupKey(a) == DedupKey(b) <==> SameText(NameText(a), NameText(b)))
  {
    KeyPieces(a);
    KeyPieces(b);
    LowerIff(NameText(a), NameText(b));
    SamePrefix("nvt:", Lower(NameText(a)), Lower(NameText(b)));
    hide *;
  }

  // ----- What a component is known by -----

  ghost predicate SameHash(g: Hash, h: Hash) {
    g.value != "" && h.value != "" && SameText(g.algorithm + ":" + g.value, h.algorithm + ":" + h.value)
  }

  /** The trimmed expression, or else trimmed identifier and name with a bar between them. */
  ghost predicate LicenseText(l: License, t: string) {
    if Blank(l.expression)
    then exists id, name :: TrimmedTo(l.spdxId, id) && TrimmedTo(l.name, name) && t == id + "|" + name
    else TrimmedTo(l.expression, t)
  }

  ghost predicate SameLicense(l: License, m: License) {
    exists t, u :: LicenseText(l, t) && LicenseText(m, u) && SameText(t, u) && t != "|"
  }

  datatype Item = APath(path: string) | AHash(hash: Hash) | ACpe(cpe: string) | ALicense(license: License)

  /** The component lists the item, up to letter case and surrounding blanks. */
  ghost predicate Has(c: Component, x: Item) {
    match x
    case APath(p) => exists l :: l in Locations(c.evidence) && l.path == p
    case AHash(h) => exists g :: g in c.hashes && SameHash(g, h)
    case ACpe(s) => !Blank(s) && exists t :: t in c.cpes && SameTrimmed(t, s)
    case ALicense(l) => exists m :: m in c.licenses && SameLicense(m, l)
  }

  /** Two hashes are one exactly if algorithm, colon and value agree up to letter case; a hash without a value is none. */
  lemma HashIff(g: Hash, h: Hash)
    ensures HashKey(g) == HashKey(h) != "" <==> SameHash(g, h)
    ensures HashKey(g) == "" <==> g.value == ""
  {
    LowerConcat(g.algorithm, ":");
    LowerConcat(g.algorithm + ":", g.value);
    LowerConcat(h.algorithm, ":");
    LowerConcat(h.algorithm + ":", h.value);
    LowerIff(g.algorithm + ":" + g.value, h.algorithm + ":" + h.value);
    assert Lower(":") == ":";
    hide Lower, SameText;
  }

  lemma LicenseKeyIs(l: License) returns (t: string)
    ensures LicenseText(l, t) && LicenseKey(l) == if t == "|" then "" else Lower(t)
    ensures LicenseKey(l) == "" <==> t == "|"
    ensures forall u :: LicenseText(l, u) ==> u == t
  {
    var expression, id, name := TrimSpace(l.expression), TrimSpace(l.spdxId), TrimSpace(l.name);
    TrimIff(l.expression, expression);
    TrimIff(l.spdxId, id);
    TrimIff(l.name, name);
    LowerConcat(id, "|");
    LowerConcat(id + "|", name);
    assert Lower("|") == "|";
    t := if expression == "" then id + "|" + name else expression;
    LowerIff(t, "|");
    assert SameText(t, "|") <==> t == "|";
    assert expression == "" <==> Lower(expression) == "";
    assert t != "";
    hide Lower, SameText, TrimSpace, Blank;
    forall u | LicenseText(l, u) ensures u == t {
      TrimmedTexts(l, u);
    }
  }

  lemma TrimmedTexts(l: License, u: string)
    requires LicenseText(l, u)
    ensures u == if Blank(l.expression) then TrimSpace(l.spdxId) + "|" + TrimSpace(l.name) else TrimSpace(l.expression)
  {
    hide Blank, TrimmedTo, TrimSpace;
    if Blank(l.expression) {
      var id, name :| TrimmedTo(l.spdxId, id) && TrimmedTo(l.name, name) && u == id + "|" + name;
      TrimIff(l.spdxId, id);
      TrimIff(l.name, name);
    } else {
      TrimIff(l.expression, u);
    }
  }

  lemma LicenseIff(l: License, m: License)
    ensures LicenseKey(l) == LicenseKey(m) != "" <==> SameLicense(l, m)
    ensures LicenseKey(l) == "" <==> LicenseText(l, "|")
  {
    var t := LicenseKeyIs(l);
    var u := LicenseKeyIs(m);
    LowerIff(t, u);
    LowerIff("|", u);
    LowerIff(t, "|");
    assert SameText("|", u) ==> u == "|";
    hide LicenseText, SameText, LicenseKey, Lower;
  }

  lemma InKeys<T(!new)>(xs: seq<T>, key: T -> string, k: string)
    ensures k in Keys(xs, key) <==> k != "" && exists x :: x in xs && key(x) == k
  {
  }

  function FactOf(x: Item): Fact {
    match x
    case APath(p) => AtPath(p)
    case AHash(h) => HasHash(HashKey(h))
    case ACpe(s) => HasCpe(CanonicalCpe(s))
    case ALicense(l) => HasLicense(LicenseKey(l))
  }

  lemma HasIff(c: Component, x: Item)
    ensures Has(c, x) <==> FactOf(x) in Facts(c)
  {
    hide HashKey, CanonicalCpe, LicenseKey, Keys, SameHash, SameTrimmed, SameLicense, Locations;
    match x
    case APath(p) =>
    case AHash(h) =>
      InKeys(c.hashes, HashKey, HashKey(h));
      forall g ensures HashKey(g) == HashKey(h) != "" <==> SameHash(g, h) { HashIff(g, h); }
    case ACpe(s) =>
      InKeys(c.cpes, CanonicalCpe, CanonicalCpe(s));
      CpeIff(s, s);
      forall t ensures CanonicalCpe(t) == CanonicalCpe(s) <==> SameTrimmed(t, s) { CpeIff(t, s); }
    case ALicense(l) =>
      InKeys(c.licenses, LicenseKey, LicenseKey(l));
      forall m ensures LicenseKey(m) == LicenseKey(l) != "" <==> SameLicense(m, l) { LicenseIff(m, l); }
  }
}
