/** What the case mapping and the trimming of Strings mean, character by character. */
module Texts {
  import opened Strings

  // ----- Letter case -----

  /** The same character, or the two cases of one letter. */
  ghost predicate SameLetter(c: char, d: char) {
    || c == d
    || ('A' <= c <= 'Z' && d as int == c as int + 32)
    || ('A' <= d <= 'Z' && c as int == d as int + 32)
  }

  ghost predicate SameText(s: string, t: string) {
    |s| == |t| && forall i :: 0 <= i < |s| ==> SameLetter(s[i], t[i])
  }

  /** Lower-casing tells two texts apart exactly if they differ in more than letter case. */
  lemma LowerIff(s: string, t: string)
    ensures Lower(s) == Lower(t) <==> SameText(s, t)
  {
    if Lower(s) == Lower(t) {
      forall i | 0 <= i < |s| ensures SameLetter(s[i], t[i]) {
        assert Lower(s)[i] == Lower(t)[i];
      }
    }
    if SameText(s, t) {
      forall i | 0 <= i < |s| ensures Lower(s)[i] == Lower(t)[i] {
        assert SameLetter(s[i], t[i]);
      }
    }
  }

  lemma LowerIs(s: string)
    ensures SameText(s, Lower(s)) && forall c :: c in Lower(s) ==> !('A' <= c <= 'Z')
  {
  }

  lemma LowerConcat(s: string, t: string)
    ensures Lower(s + t) == Lower(s) + Lower(t)
  {
  }

  // ----- Trimming -----

  ghost predicate Space(c: char) {
    c == ' ' || 9 <= c as int <= 13
  }

  ghost predicate Blank(s: string) {
    forall c :: c in s ==> Space(c)
  }

  /** t is what is left of s between the blanks at its two ends. */
  ghost predicate TrimmedTo(s: string, t: string) {
    exists i, j :: 0 <= i <= j <= |s| && Between(s, t, i, j)
  }

  ghost predicate Between(s: string, t: string, i: nat, j: nat)
    requires i <= j <= |s|
  {
    && t == s[i..j]
    && (forall k :: 0 <= k < i || j <= k < |s| ==> Space(s[k]))
    && (t != "" ==> !Space(t[0]) && !Space(t[|t| - 1]))
  }

  lemma {:induction false} LeftBlanks(s: string) returns (i: nat)
    ensures i <= |s| && TrimLeft(s) == s[i..] && forall k :: 0 <= k < i ==> Space(s[k])
  {
    if s != [] && IsSpace(s[0]) {
      var rest := LeftBlanks(s[1..]);
      i := rest + 1;
      assert s[1..][rest..] == s[i..];
      forall k | 0 <= k < i ensures Space(s[k]) {
        assert k > 0 ==> s[k] == s[1..][k - 1];
      }
    } else {
      i := 0;
    }
  }

  lemma {:induction false} RightBlanks(s: string) returns (j: nat)
    ensures j <= |s| && TrimRight(s) == s[..j] && forall k :: j <= k < |s| ==> Space(s[k])
  {
    if s != [] && IsSpace(s[|s| - 1]) {
      j := RightBlanks(s[..|s| - 1]);
      assert s[..|s| - 1][..j] == s[..j];
      forall k | j <= k < |s| ensures Space(s[k]) {
        assert k < |s| - 1 ==> s[k] == s[..|s| - 1][k];
      }
    } else {
      j := |s|;
    }
  }

  /** Trimming takes off the blanks at the two ends and nothing else. */
  lemma TrimIff(s: string, t: string)
    ensures TrimmedTo(s, t) <==> t == TrimSpace(s)
    ensures TrimSpace(s) == "" <==> Blank(s)
  {
    var i := LeftBlanks(s);
    var j := RightBlanks(s[i..]);
    TrimSpaceFixes(s);
    assert TrimSpace(s) == s[i..][..j] == s[i..i + j];
    forall k | i + j <= k < |s| ensures Space(s[k]) {
      assert s[k] == s[i..][k - i];
    }
    assert Between(s, TrimSpace(s), i, i + j);
    if TrimmedTo(s, t) {
      TrimmedOnce(s, t, TrimSpace(s));
    }
    TrimmedBlank(s, TrimSpace(s));
  }

  lemma TrimmedBlank(s: string, t: string)
    requires TrimmedTo(s, t)
    ensures t == "" <==> Blank(s)
  {
    var i, j :| 0 <= i <= j <= |s| && Between(s, t, i, j);
    if i < j {
      assert t[0] == s[i] && s[i] in s;
    } else {
      forall c | c in s ensures Space(c) {
        var k :| 0 <= k < |s| && s[k] == c;
      }
    }
  }

  lemma SameEnds(s: string, t: string, u: string, i: nat, j: nat, k: nat, l: nat)
    requires i < j <= |s| && k < l <= |s| && Between(s, t, i, j) && Between(s, u, k, l)
    ensures i == k && j == l
  {
    hide Space;
    assert t[0] == s[i] && u[0] == s[k];
    assert t[|t| - 1] == s[j - 1] && u[|u| - 1] == s[l - 1];
  }

  lemma TrimmedOnce(s: string, t: string, u: string)
    requires TrimmedTo(s, t) && TrimmedTo(s, u)
    ensures t == u
  {
    TrimmedBlank(s, t);
    TrimmedBlank(s, u);
    hide Space, Blank;
    var i, j :| 0 <= i <= j <= |s| && Between(s, t, i, j);
    var k, l :| 0 <= k <= l <= |s| && Between(s, u, k, l);
    if i < j && k < l {
      SameEnds(s, t, u, i, j, k, l);
    }
  }

  ghost predicate SameTrimmed(s: string, t: string) {
    exists u, v :: TrimmedTo(s, u) && TrimmedTo(t, v) && SameText(u, v)
  }

  lemma SameTrimmedIff(s: string, t: string)
    ensures Lower(TrimSpace(s)) == Lower(TrimSpace(t)) <==> SameTrimmed(s, t)
  {
    TrimIff(s, TrimSpace(s));
    TrimIff(t, TrimSpace(t));
    LowerIff(TrimSpace(s), TrimSpace(t));
    forall u | TrimmedTo(s, u) ensures u == TrimSpace(s) {
      TrimIff(s, u);
    }
    forall u | TrimmedTo(t, u) ensures u == TrimSpace(t) {
      TrimIff(t, u);
    }
  }

  // ----- Joined texts -----

  lemma SamePrefix(p: string, x: string, y: string)
    ensures p + x == p + y <==> x == y
  {
    assert (p + x)[|p|..] == x && (p + y)[|p|..] == y;
  }

  lemma ShorterFront(x: string, y: string, u: string, v: string)
    requires |x| < |u| && ':' !in u
    ensures !SameText(x + ":" + y, u + ":" + v)
  {
    var s, t, n := x + ":" + y, u + ":" + v, |x|;
    assert s[n] == ':' && t[n] == u[n] && u[n] in u;
    assert !SameLetter(s[n], t[n]);
  }

  lemma SameFront(x: string, y: string, u: string, v: string)
    requires ':' !in x && ':' !in u
    ensures SameText(x + ":" + y, u + ":" + v) <==> SameText(x, u) && SameText(y, v)
  {
    var s, t := x + ":" + y, u + ":" + v;
    if |x| < |u| {
      ShorterFront(x, y, u, v);
    } else if |u| < |x| {
      ShorterFront(u, v, x, y);
      SameTextFlips(s, t);
    } else if SameText(s, t) {
      forall i | 0 <= i < |x| ensures SameLetter(x[i], u[i]) {
        assert SameLetter(s[i], t[i]);
      }
      forall i | 0 <= i < |y| ensures SameLetter(y[i], v[i]) {
        assert SameLetter(s[|x| + 1 + i], t[|x| + 1 + i]);
      }
    }
  }

  lemma SameTextFlips(s: string, t: string)
    ensures SameText(s, t) == SameText(t, s)
  {
    LowerIff(s, t);
    LowerIff(t, s);
  }

  lemma FirstIsFirst(p: string, c: char, m: nat, n: nat)
    requires m < |p| && n < |p| && p[m] == p[n] == c && c !in p[..m] && c !in p[..n]
    ensures m == n
  {
    if m < n {
      InFront(p, m, n);
    } else if n < m {
      InFront(p, n, m);
    }
  }

  lemma InFront(p: string, m: nat, n: nat)
    requires m < n <= |p|
    ensures p[m] in p[..n]
  {
    assert p[..n][m] == p[m];
  }
}
