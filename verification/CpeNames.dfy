/**
  CPE 2.3 names (internal/enrich/cpe/cpe.go). The relaxed validator of the source accepts
  exactly the names with thirteen colon-separated fields, the fixed prefix and a known part.
*/
module CpeNames {
  import opened Wrappers
  import opened Strings

  /** The eleven attributes: part, vendor, product, version, update, edition, language, sw_edition, target_sw, target_hw, other. */
  type Cpe = attributes: seq<string> | |attributes| == 11 witness ["", "", "", "", "", "", "", "", "", "", ""]

  const PREFIX := ["cpe", "2.3"]

  function OrStar(s: string): string {
    if s == "" then "*" else s
  }

  function Starred(c: Cpe): Cpe {
    seq(11, i requires 0 <= i < 11 => OrStar(c[i]))
  }

  function ToString(c: Cpe): string {
    Join(PREFIX + Starred(c), ':')
  }

  predicate ValidFields(fields: seq<string>) {
    |fields| == 13 && fields[..2] == PREFIX && fields[2] in {"a", "o", "h", "*"}
  }

  predicate IsValidCpe(s: string) {
    ValidFields(Split(s, ':'))
  }

  function Parse(s: string): Option<Cpe> {
    if IsValidCpe(s) then Some(Split(s, ':')[2..]) else None
  }

  ghost predicate ColonFree(c: Cpe) {
    forall i :: 0 <= i < 11 ==> ':' !in c[i]
  }

  function Colons(s: string): nat {
    if s == [] then 0 else Colons(s[1..]) + if s[0] == ':' then 1 else 0
  }

  function TotalColons(parts: seq<string>): nat {
    if parts == [] then 0 else Colons(parts[0]) + TotalColons(parts[1..])
  }

  lemma {:induction false} SplitCount(s: string)
    ensures |Split(s, ':')| == Colons(s) + 1
  {
    if s != [] { SplitCount(s[1..]); }
  }

  lemma {:induction false} ColonsConcat(a: string, b: string)
    ensures Colons(a + b) == Colons(a) + Colons(b)
  {
    if a == [] {
      assert a + b == b;
    } else {
      assert (a + b)[1..] == a[1..] + b;
      ColonsConcat(a[1..], b);
    }
  }

  lemma {:induction false} JoinColons(parts: seq<string>)
    requires parts != []
    ensures Colons(Join(parts, ':')) == TotalColons(parts) + |parts| - 1
  {
    if |parts| > 1 {
      JoinColons(parts[1..]);
      var rest := Join(parts[1..], ':');
      ColonsConcat(parts[0] + [':'], rest);
      ColonsConcat(parts[0], [':']);
      assert [':'][1..] == [];
    }
  }

  lemma {:induction false} NoColons(parts: seq<string>)
    ensures TotalColons(parts) == 0 <==> forall p :: p in parts ==> ':' !in p
  {
    if parts != [] {
      NoColons(parts[1..]);
      NoColonIn(parts[0]);
      assert parts == [parts[0]] + parts[1..];
    }
  }

  lemma {:induction false} NoColonIn(s: string)
    ensures Colons(s) == 0 <==> ':' !in s
  {
    if s != [] {
      NoColonIn(s[1..]);
      assert s == [s[0]] + s[1..];
    }
  }

  /** A name is accepted exactly if it is the prefix and eleven colon-free attributes, the first of them a known part. */
  lemma ValidIff(s: string)
    ensures IsValidCpe(s) <==>
      exists c: Cpe :: ColonFree(c) && c[0] in {"a", "o", "h", "*"} && s == "cpe:2.3:" + Join(c, ':')
  {
    hide Split, Join;
    JoinSplit(s, ':');
    if IsValidCpe(s) {
      var fields := Split(s, ':');
      var c: Cpe := fields[2..];
      assert fields == PREFIX + c;
      forall i | 0 <= i < 11 ensures ':' !in c[i] {
        assert fields[i + 2] in fields;
      }
      PrefixJoins(c);
    }
    if c: Cpe :| ColonFree(c) && c[0] in {"a", "o", "h", "*"} && s == "cpe:2.3:" + Join(c, ':') {
      PrefixJoins(c);
      forall p | p in PREFIX + c ensures ':' !in p {
        var i :| 0 <= i < 13 && (PREFIX + c)[i] == p;
        assert ':' !in "cpe" && ':' !in "2.3";
        if i >= 2 { assert p == c[i - 2]; }
      }
      SplitJoin(PREFIX + c, ':');
    }
  }

  lemma PrefixJoins(c: Cpe)
    ensures Join(PREFIX + c, ':') == "cpe:2.3:" + Join(c, ':')
  {
    var parts := PREFIX + c;
    assert parts[1..] == ["2.3"] + c && parts[1..][1..] == c && parts[0] == "cpe" && parts[1] == "2.3";
    assert Join(parts, ':') == "cpe" + [':'] + Join(parts[1..], ':');
    assert Join(parts[1..], ':') == "2.3" + [':'] + Join(c, ':');
    hide Join;
    assert "cpe" + [':'] + ("2.3" + [':'] + Join(c, ':')) == "cpe:2.3:" + Join(c, ':');
  }

  /** Formatting then parsing works exactly for colon-free attributes with a known or empty part; empty attributes become "*". */
  lemma ParseUndoesToString(c: Cpe)
    ensures Parse(ToString(c)) == Some(Starred(c)) <==> ColonFree(c) && c[0] in {"", "a", "o", "h", "*"}
    ensures Parse(ToString(c)).Some? <==> ColonFree(c) && c[0] in {"", "a", "o", "h", "*"}
  {
    var parts := PREFIX + Starred(c);
    assert parts[2..] == Starred(c) && parts[..2] == PREFIX && parts[2] == OrStar(c[0]);
    assert ':' !in "cpe" && ':' !in "2.3" && ':' !in "*";
    SplitCount(ToString(c));
    JoinColons(parts);
    NoColons(parts);
    assert ColonFree(c) <==> (forall p :: p in parts ==> ':' !in p) by {
      if ColonFree(c) {
        StarredIsColonFree(c);
      }
      if forall p :: p in parts ==> ':' !in p {
        forall i | 0 <= i < 11 ensures ':' !in c[i] {
          assert parts[i + 2] in parts;
        }
      }
    }
    if ColonFree(c) {
      SplitJoin(parts, ':');
    }
  }

  /** What is read back, attribute by attribute. */
  lemma ReadsBack(c: Cpe, i: nat)
    requires ColonFree(c) && c[0] in {"", "a", "o", "h", "*"} && i < 11
    ensures var r := Parse(ToString(c));
      r.Some? && r.value[i] == if c[i] == "" then "*" else c[i]
  {
    ParseUndoesToString(c);
    hide Parse, ToString;
  }

  lemma StarredIsSame(c: Cpe)
    ensures Starred(c) == c <==> forall f :: f in c ==> f != ""
  {
    forall i | 0 <= i < 11 ensures Starred(c)[i] == c[i] <==> c[i] != "" {
    }
    if Starred(c) == c {
      forall f | f in c ensures f != "" {
        var i :| 0 <= i < 11 && c[i] == f;
        assert Starred(c)[i] == c[i];
      }
    } else {
      var i :| 0 <= i < 11 && Starred(c)[i] != c[i];
      assert c[i] in c;
    }
  }

  lemma StarredIsColonFree(c: Cpe)
    requires ColonFree(c)
    ensures forall p :: p in PREFIX + Starred(c) ==> ':' !in p
  {
    assert ':' !in "cpe" && ':' !in "2.3" && ':' !in "*";
    forall p | p in PREFIX + Starred(c) ensures ':' !in p {
      var i :| 0 <= i < 13 && (PREFIX + Starred(c))[i] == p;
      if i >= 2 { assert p == OrStar(c[i - 2]); }
    }
  }

  /** Parsing then formatting gives the name back exactly when none of its attributes is empty. */
  lemma ToStringUndoesParse(s: string)
    requires IsValidCpe(s)
    ensures ToString(Parse(s).value) == s <==> forall f :: f in Parse(s).value ==> f != ""
  {
    hide Split, Join, Starred;
    var fields := Split(s, ':');
    var c := Parse(s).value;
    assert fields == PREFIX + c;
    JoinSplit(s, ':');
    StarredIsSame(c);
    assert ColonFree(c) by {
      forall i | 0 <= i < 11 ensures ':' !in c[i] { assert fields[i + 2] in fields; }
    }
    StarredIsColonFree(c);
    SplitJoin(PREFIX + Starred(c), ':');
    if ToString(c) == s {
      assert (PREFIX + Starred(c))[2..] == Starred(c);
    }
  }
}
