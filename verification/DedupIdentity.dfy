/**
  What a deduplication run puts out for every component list, in terms of the fields of the
  components alone (internal/enrich/dedup/dedup.go).
*/
module DedupIdentity {
  import opened Wrappers
  import opened Dedup
  import opened DedupMerge
  import opened DedupFold
  import opened DedupRun
  import opened DedupLaws
  import opened DedupKeys
  import opened Texts

  /** Inputs share an output exactly if they are the same component. */
  ghost predicate Groups(comps: seq<Component>, reps: seq<nat>)
    requires |reps| == |comps|
  {
    forall i, j :: 0 <= i < |comps| && 0 <= j < |comps| && i != j ==> (reps[i] == reps[j] <==> SameIdentity(comps[i], comps[j]))
  }

  /** Every output stands for something, and outputs come in the order of their first inputs. */
  ghost predicate InFirstOrder(reps: seq<nat>, n: nat) {
    && (forall i :: 0 <= i < |reps| ==> reps[i] < n)
    && (forall a: nat :: a < n ==> a in reps)
    && (forall a: nat, j: nat :: j < |reps| && a <= reps[j] ==> MetBy(reps, a, j))
  }

  ghost predicate MetBy(reps: seq<nat>, a: nat, j: nat)
    requires j < |reps|
  {
    a in reps[..j + 1]
  }

  /** What decides within a group: CPEs count ten, every location one. */
  function Weight(c: Component): nat {
    (if c.cpes != [] then 10 else 0) + |Locations(c.evidence)|
  }

  /** The heaviest input of a group; the earliest of those. */
  ghost predicate Heaviest(comps: seq<Component>, reps: seq<nat>, p: nat)
    requires |reps| == |comps|
  {
    && p < |comps|
    && forall i :: 0 <= i < |comps| && reps[i] == reps[p] ==>
         Weight(comps[i]) < Weight(comps[p]) || (Weight(comps[i]) == Weight(comps[p]) && p <= i)
  }

  /** An output is named after the heaviest input of its group, and keeps that one's property values. */
  ghost predicate NamedAfter(c: Component, out: Component) {
    && out.purl == c.purl && out.typ == c.typ && out.name == c.name && out.version == c.version
    && KeepsValues(c, out)
  }

  ghost predicate HasPrimary(comps: seq<Component>, reps: seq<nat>, a: nat, out: Component)
    requires |reps| == |comps|
  {
    exists p: nat :: Heaviest(comps, reps, p) && reps[p] == a && NamedAfter(comps[p], out)
  }

  /** An output has exactly what the inputs of its group have. */
  ghost predicate HasWhatTheyHave(comps: seq<Component>, reps: seq<nat>, a: nat, out: Component)
    requires |reps| == |comps|
  {
    forall x: Item :: Has(out, x) <==> exists i :: 0 <= i < |comps| && reps[i] == a && Has(comps[i], x)
  }

  /** An input that is alone in its group comes out as it is. */
  ghost predicate Alone(comps: seq<Component>, reps: seq<nat>, i: nat)
    requires |reps| == |comps| && i < |comps|
  {
    forall j :: 0 <= j < |comps| && reps[j] == reps[i] ==> j == i
  }

  ghost predicate Represents(comps: seq<Component>, out: seq<Component>, reps: seq<nat>) {
    && |reps| == |comps|
    && InFirstOrder(reps, |out|)
    && Groups(comps, reps)
    && (forall a :: 0 <= a < |out| ==> HasPrimary(comps, reps, a, out[a]) && HasWhatTheyHave(comps, reps, a, out[a]))
    && (forall i :: 0 <= i < |comps| && Alone(comps, reps, i) ==> out[reps[i]] == comps[i])
  }

  // ----- Which output stands for an input -----

  ghost function RepOf(comps: seq<Component>, i: nat): (a: nat)
    requires i < |comps|
    ensures a < |Firsts(comps)| && Covers(comps, Firsts(comps)[a], i)
  {
    FirstsCover(comps, i);
    var a :| 0 <= a < |Firsts(comps)| && Covers(comps, Firsts(comps)[a], i);
    a
  }

  lemma RepIff(comps: seq<Component>, i: nat, a: nat)
    requires i < |comps| && a < |Firsts(comps)|
    ensures a == RepOf(comps, i) <==> Covers(comps, Firsts(comps)[a], i)
  {
    hide DedupKey, Firsts;
    var b := RepOf(comps, i);
    if a != b && Covers(comps, Firsts(comps)[a], i) {
      if a < b {
        CoveredOnce(comps, i, a, b);
      } else {
        CoveredOnce(comps, i, b, a);
      }
    }
  }

  lemma CoveredOnce(comps: seq<Component>, i: nat, a: nat, b: nat)
    requires i < |comps| && a < b < |Firsts(comps)|
    requires Covers(comps, Firsts(comps)[a], i)
    ensures !Covers(comps, Firsts(comps)[b], i)
  {
    hide DedupKey, Firsts;
    if DedupKey(comps[Firsts(comps)[b]]) != "" {
      FirstsAreFirst(comps, b, Firsts(comps)[a]);
    }
  }

  /** An unkeyed position stands for itself alone; a keyed one for all positions of its key. */
  lemma GroupIs(comps: seq<Component>, a: nat, i: nat)
    requires i < |comps| && a < |Firsts(comps)|
    ensures var f := Firsts(comps)[a];
      RepOf(comps, i) == a <==>
        if DedupKey(comps[f]) == "" then i == f else DedupKey(comps[i]) == DedupKey(comps[f])
  {
    RepIff(comps, i, a);
    var f := Firsts(comps)[a];
    if DedupKey(comps[f]) != "" && i < f {
      FirstsAreFirst(comps, a, i);
    }
    hide DedupKey, Firsts, RepOf;
  }

  ghost function Reps(comps: seq<Component>): (reps: seq<nat>)
    ensures |reps| == |comps|
    ensures forall i :: 0 <= i < |comps| ==> reps[i] == RepOf(comps, i)
  {
    seq(|comps|, i requires 0 <= i < |comps| => RepOf(comps, i))
  }

  lemma IdentityIsKeyed(a: Component, b: Component)
    requires SameIdentity(a, b)
    ensures DedupKey(a) == DedupKey(b) != ""
  {
    SameKeyIff(a, b);
    KindLetter(a);
    hide DedupKey, SamePurl, SameTrimmed;
  }

  lemma RepsGroup(comps: seq<Component>)
    ensures Groups(comps, Reps(comps))
  {
    hide DedupKey, SameIdentity, Firsts, RepOf, Unkeyed;
    forall i, j | 0 <= i < |comps| && 0 <= j < |comps| && i != j
      ensures RepOf(comps, i) == RepOf(comps, j) <==> SameIdentity(comps[i], comps[j])
    {
      var a := RepOf(comps, i);
      GroupIs(comps, a, i);
      GroupIs(comps, a, j);
      SameKeyIff(comps[i], comps[j]);
      if SameIdentity(comps[i], comps[j]) {
        IdentityIsKeyed(comps[i], comps[j]);
      }
    }
  }

  lemma RepsInOrder(comps: seq<Component>)
    ensures InFirstOrder(Reps(comps), |Firsts(comps)|)
  {
    hide DedupKey, Firsts, RepOf;
    var reps := Reps(comps);
    forall a: nat | a < |Firsts(comps)| ensures reps[Firsts(comps)[a]] == a && a in reps {
      GroupIs(comps, a, Firsts(comps)[a]);
    }
    forall a: nat, j: nat | j < |reps| && a <= reps[j] ensures MetBy(reps, a, j) {
      var b := RepOf(comps, j);
      assert Covers(comps, Firsts(comps)[b], j);
      assert Firsts(comps)[a] <= Firsts(comps)[b] <= j;
      assert reps[..j + 1][Firsts(comps)[a]] == a;
    }
  }

  // ----- What an output is made of -----

  lemma {:induction false} FoldKeepsNames(members: seq<Component>, out: Component)
    requires members != [] && FoldsTo(members, out)
    ensures var c := members[0]; out.purl == c.purl && out.typ == c.typ && out.name == c.name && out.version == c.version
    decreases |members|
  {
    hide Merged;
    if |members| > 1 {
      var m := UnfoldLast(members, out);
      FoldKeepsNames(members[..|members| - 1], m);
      MergedFields(m, members[|members| - 1], out);
    }
  }

  lemma FoldIsNamedAfterFirst(members: seq<Component>, out: Component)
    requires members != [] && FoldsTo(members, out)
    ensures NamedAfter(members[0], out)
  {
    hide FoldsTo, InNamespace;
    FoldKeepsNames(members, out);
    forall k | k in members[0].properties && !InNamespace(k)
      ensures Lookup(out.properties, k) == Some(members[0].properties[k])
    {
      FoldKeepsFirstValue(members, out, k);
      FirstMemberFirst(members, k);
    }
  }

  /** In a group the PURL never decides between two components: all have one or none has. */
  lemma WeightDecides(a: Component, b: Component)
    requires DedupKey(a) == DedupKey(b) != ""
    ensures Score(a) - Score(b) == Weight(a) - Weight(b)
  {
    SameKeySameKind(a, b);
  }

  lemma PrimaryIsHeaviest(comps: seq<Component>, a: nat, p: nat)
    requires a < |Firsts(comps)| && p < |comps|
    requires var k := DedupKey(comps[Firsts(comps)[a]]);
      k != "" && DedupKey(comps[p]) == k && IsPrimary(comps, Bucket(comps, k), p)
    ensures Heaviest(comps, Reps(comps), p) && Reps(comps)[p] == a
  {
    hide DedupKey, Firsts, Bucket, RepOf, Score, Weight;
    var k := DedupKey(comps[Firsts(comps)[a]]);
    InBucket(comps, k);
    GroupIs(comps, a, p);
    forall i | 0 <= i < |comps| && RepOf(comps, i) == a
      ensures Weight(comps[i]) < Weight(comps[p]) || (Weight(comps[i]) == Weight(comps[p]) && p <= i)
    {
      GroupIs(comps, a, i);
      assert i in Bucket(comps, k);
      WeightDecides(comps[i], comps[p]);
    }
  }

  lemma OutputHasPrimary(comps: seq<Component>, a: nat, c: Component)
    requires a < |Firsts(comps)| && StandsFor(comps, Firsts(comps)[a], c)
    ensures HasPrimary(comps, Reps(comps), a, c)
  {
    hide DedupKey, Firsts, Bucket, RepOf, IsPrimary, FoldsTo, Heaviest, NamedAfter;
    var f := Firsts(comps)[a];
    var k := DedupKey(comps[f]);
    if k == "" {
      SoleIsHeaviest(comps, a);
      NamedAfterItself(c);
    } else {
      var idxs := Bucket(comps, k);
      InBucket(comps, k);
      var p :| p in idxs && IsPrimary(comps, idxs, p) && FoldsTo(Members(comps, idxs, p), c);
      PrimaryIsHeaviest(comps, a, p);
      FoldIsNamedAfterFirst(Members(comps, idxs, p), c);
    }
  }

  lemma NamedAfterItself(c: Component)
    ensures NamedAfter(c, c)
  {
  }

  lemma SoleIsHeaviest(comps: seq<Component>, a: nat)
    requires a < |Firsts(comps)| && DedupKey(comps[Firsts(comps)[a]]) == ""
    ensures var f := Firsts(comps)[a]; Heaviest(comps, Reps(comps), f) && Reps(comps)[f] == a
  {
    hide DedupKey, Firsts, RepOf, Weight;
    GroupIs(comps, a, Firsts(comps)[a]);
    forall i | 0 <= i < |comps| && RepOf(comps, i) == a ensures i == Firsts(comps)[a] {
      GroupIs(comps, a, i);
    }
  }

  lemma FactsOfGroup(comps: seq<Component>, i: nat, c: Component, f: Fact)
    requires i < |comps| && StandsFor(comps, i, c) && DedupKey(comps[i]) != ""
    ensures f in Facts(c) <==> exists j :: 0 <= j < |comps| && DedupKey(comps[j]) == DedupKey(comps[i]) && f in Facts(comps[j])
  {
    hide AllFacts, Facts, DedupKey, Members, FoldsTo, IsPrimary, Bucket;
    var k := DedupKey(comps[i]);
    var idxs := Bucket(comps, k);
    var p :| p in idxs && IsPrimary(comps, idxs, p) && FoldsTo(Members(comps, idxs, p), c);
    var members := Members(comps, idxs, p);
    MembersAre(comps, idxs, p);
    InBucket(comps, k);
    FoldConservesFacts(members, c);
    InAllFacts(members, f);
    if j :| 0 <= j < |comps| && DedupKey(comps[j]) == k && f in Facts(comps[j]) {
      assert comps[j] in members;
    }
  }

  lemma OutputHasItems(comps: seq<Component>, a: nat, c: Component)
    requires a < |Firsts(comps)| && StandsFor(comps, Firsts(comps)[a], c)
    ensures HasWhatTheyHave(comps, Reps(comps), a, c)
  {
    hide DedupKey, Firsts, RepOf, Facts, Has, FromBucket, FactOf;
    var f := Firsts(comps)[a];
    forall x: Item ensures Has(c, x) <==> exists i :: 0 <= i < |comps| && Reps(comps)[i] == a && Has(comps[i], x) {
      HasIff(c, x);
      forall i | 0 <= i < |comps|
        ensures Has(comps[i], x) <==> FactOf(x) in Facts(comps[i])
        ensures Reps(comps)[i] == a <==> if DedupKey(comps[f]) == "" then i == f else DedupKey(comps[i]) == DedupKey(comps[f])
      {
        HasIff(comps[i], x);
        GroupIs(comps, a, i);
      }
      if DedupKey(comps[f]) != "" {
        FactsOfGroup(comps, f, c, FactOf(x));
      }
    }
  }

  lemma AloneIsUnchanged(comps: seq<Component>, i: nat, c: Component)
    requires i < |comps| && Alone(comps, Reps(comps), i)
    requires StandsFor(comps, Firsts(comps)[RepOf(comps, i)], c)
    ensures c == comps[i]
  {
    hide DedupKey, Firsts, RepOf, Bucket, IsPrimary, FoldsTo, Members;
    var a := RepOf(comps, i);
    var f := Firsts(comps)[a];
    GroupIs(comps, a, f);
    assert f == i;
    var k := DedupKey(comps[i]);
    if k != "" {
      var idxs := Bucket(comps, k);
      InBucket(comps, k);
      forall j | j in idxs ensures j == i {
        GroupIs(comps, a, j);
        assert Reps(comps)[j] == a;
      }
      var p :| p in idxs && IsPrimary(comps, idxs, p) && FoldsTo(Members(comps, idxs, p), c);
      OnlyOne(idxs, i);
      MembersAre(comps, idxs, p);
      FoldOfOne(Members(comps, idxs, p), c);
    }
  }

  /** A run puts out one component for every group of inputs that are the same component. */
  lemma RunRepresents(comps: seq<Component>, out: seq<Component>, groups: nat)
    requires Deduped(comps, out, groups)
    ensures exists reps :: Represents(comps, out, reps)
  {
    hide DedupKey, Firsts, RepOf, StandsFor, InFirstOrder, Groups, HasPrimary, HasWhatTheyHave, Alone;
    var reps := Reps(comps);
    RepsInOrder(comps);
    RepsGroup(comps);
    forall a | 0 <= a < |out| ensures HasPrimary(comps, reps, a, out[a]) && HasWhatTheyHave(comps, reps, a, out[a]) {
      OutputHasPrimary(comps, a, out[a]);
      OutputHasItems(comps, a, out[a]);
    }
    forall i | 0 <= i < |comps| && Alone(comps, reps, i) ensures out[reps[i]] == comps[i] {
      AloneIsUnchanged(comps, i, out[reps[i]]);
    }
    assert Represents(comps, out, reps);
  }

  lemma IdentityByPurl(a: Component, b: Component)
    requires a.purl != "" && b.purl != ""
    ensures SameIdentity(a, b) <==> SamePurl(a.purl, b.purl)
    ensures a == b ==> SamePurl(a.purl, b.purl)
  {
    PurlIff(a.purl, b.purl);
    hide SamePurl;
  }

  lemma IdentityHasPurl(a: Component, b: Component)
    requires SameIdentity(a, b)
    ensures a.purl != "" <==> b.purl != ""
  {
    hide SamePurl, SameTrimmed;
  }

  /** Two versions of a package never become one: inputs whose PURLs differ in front of the qualifiers have different outputs. */
  lemma DifferentPurlsStayApart(comps: seq<Component>, out: seq<Component>, reps: seq<nat>, i: nat, j: nat)
    requires Represents(comps, out, reps) && i < |comps| && j < |comps|
    requires comps[i].purl != "" && comps[j].purl != "" && !SamePurl(comps[i].purl, comps[j].purl)
    ensures reps[i] != reps[j]
    ensures out[reps[i]].purl != "" && SamePurl(out[reps[i]].purl, comps[i].purl)
  {
    IdentityByPurl(comps[i], comps[j]);
    hide SamePurl, SameIdentity, HasWhatTheyHave, Alone, KeepsValues, Weight;
    var p: nat :| Heaviest(comps, reps, p) && reps[p] == reps[i] && NamedAfter(comps[p], out[reps[i]]);
    if p != i {
      IdentityHasPurl(comps[p], comps[i]);
    }
    IdentityByPurl(comps[p], comps[i]);
  }

  // ----- How many groups were merged -----

  lemma {:induction false} SameSize(m: map<nat, string>)
    requires forall x, y :: x in m && y in m && m[x] == m[y] ==> x == y
    ensures |m.Keys| == |m.Values|
  {
    if m.Keys != {} {
      var x :| x in m;
      var rest := map y | y in m && y != x :: m[y];
      SameSize(rest);
      assert rest.Keys == m.Keys - {x};
      forall v | v in m.Values - {m[x]} ensures v in rest.Values {
        var y :| y in m && m[y] == v;
        assert y in rest && rest[y] == v;
      }
      assert rest.Values == m.Values - {m[x]};
    } else {
      assert m.Values == {};
    }
  }

  /** The outputs that stand for two inputs or more. */
  ghost function Shared(reps: seq<nat>): set<nat> {
    set i, j | 0 <= i < j < |reps| && reps[i] == reps[j] :: reps[i]
  }

  /** The positions of the groups, read off the keys. */
  ghost predicate ByKey(comps: seq<Component>, reps: seq<nat>) {
    && |reps| == |comps|
    && forall i, j :: 0 <= i < j < |comps| ==> (reps[i] == reps[j] <==> DedupKey(comps[i]) == DedupKey(comps[j]) != "")
  }

  lemma GroupsByKey(comps: seq<Component>, reps: seq<nat>)
    requires |reps| == |comps| && Groups(comps, reps)
    ensures ByKey(comps, reps)
  {
    hide DedupKey, SameIdentity, Unkeyed;
    forall i, j | 0 <= i < j < |comps| ensures reps[i] == reps[j] <==> DedupKey(comps[i]) == DedupKey(comps[j]) != "" {
      SameKeyIff(comps[i], comps[j]);
      if SameIdentity(comps[i], comps[j]) {
        IdentityIsKeyed(comps[i], comps[j]);
      }
    }
  }

  lemma RepeatedIff(comps: seq<Component>, k: string)
    ensures k in Repeated(comps, KeySet(comps)) <==>
      k != "" && exists i, j :: 0 <= i < j < |comps| && DedupKey(comps[i]) == k == DedupKey(comps[j])
  {
    hide DedupKey, Bucket, KeySet;
    InBucket(comps, k);
    var idxs := Bucket(comps, k);
    NoBlankKey(comps);
    if k in Repeated(comps, KeySet(comps)) {
      assert idxs[0] in idxs && idxs[1] in idxs;
      assert idxs[0] < idxs[1];
    }
    if i, j :| k != "" && 0 <= i < j < |comps| && DedupKey(comps[i]) == k == DedupKey(comps[j]) {
      KeyHasBucket(comps, i);
      assert i in idxs && j in idxs;
    }
  }

  ghost function KeyOfGroup(comps: seq<Component>, reps: seq<nat>, a: nat): (k: string)
    requires |reps| == |comps| && a in Shared(reps)
    ensures exists i, j :: 0 <= i < j < |comps| && reps[i] == reps[j] == a && DedupKey(comps[i]) == k
  {
    var i, j :| 0 <= i < j < |reps| && reps[i] == reps[j] == a;
    DedupKey(comps[i])
  }

  lemma KeyOfGroupIs(comps: seq<Component>, reps: seq<nat>, a: nat, i: nat)
    requires ByKey(comps, reps) && a in Shared(reps) && i < |comps|
    ensures reps[i] == a <==> DedupKey(comps[i]) == KeyOfGroup(comps, reps, a)
    ensures KeyOfGroup(comps, reps, a) in Repeated(comps, KeySet(comps))
  {
    hide DedupKey, Shared, Repeated, KeySet;
    var k := KeyOfGroup(comps, reps, a);
    var x, y :| 0 <= x < y < |comps| && reps[x] == reps[y] == a && DedupKey(comps[x]) == k;
    assert DedupKey(comps[y]) == k != "";
    RepeatedIff(comps, k);
  }

  /** The count of merged groups is the number of outputs that stand for two inputs or more. */
  lemma GroupsAreShared(comps: seq<Component>, out: seq<Component>, groups: nat, reps: seq<nat>)
    requires Deduped(comps, out, groups) && Represents(comps, out, reps)
    ensures groups == |Shared(reps)|
  {
    hide DedupKey, Firsts, StandsFor, InFirstOrder, Groups, HasPrimary, HasWhatTheyHave, Alone, KeyOfGroup, Repeated, KeySet;
    GroupsByKey(comps, reps);
    KeysOfGroups(comps, reps);
  }

  lemma KeysOfGroups(comps: seq<Component>, reps: seq<nat>)
    requires ByKey(comps, reps)
    ensures |Repeated(comps, KeySet(comps))| == |Shared(reps)|
  {
    hide DedupKey, KeyOfGroup, Repeated, KeySet;
    var m := map a | a in Shared(reps) :: KeyOfGroup(comps, reps, a);
    forall a, b | a in m && b in m && m[a] == m[b] ensures a == b {
      var i, j :| 0 <= i < j < |reps| && reps[i] == reps[j] == a;
      KeyOfGroupIs(comps, reps, a, i);
      KeyOfGroupIs(comps, reps, b, i);
    }
    SameSize(m);
    forall k | k in m.Values ensures k in Repeated(comps, KeySet(comps)) {
      var a :| a in m && m[a] == k;
      var i, j :| 0 <= i < j < |reps| && reps[i] == reps[j] == a;
      KeyOfGroupIs(comps, reps, a, i);
    }
    forall k | k in Repeated(comps, KeySet(comps)) ensures k in m.Values {
      RepeatedIff(comps, k);
      var i, j :| 0 <= i < j < |comps| && DedupKey(comps[i]) == k == DedupKey(comps[j]);
      assert reps[i] in Shared(reps);
      KeyOfGroupIs(comps, reps, reps[i], i);
      assert m[reps[i]] == k;
    }
    assert m.Values == Repeated(comps, KeySet(comps));
    assert m.Keys == Shared(reps);
  }
}
