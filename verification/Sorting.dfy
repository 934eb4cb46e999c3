/** Stable sorting by a rank, highest first: what Go's sort.SliceStable does, as insertion from the left. */
module Sorting {
  /** Behind everything of the same or a higher rank. */
  function Insert<T>(sorted: seq<T>, x: T, rank: T -> real): seq<T> {
    if sorted == [] || rank(sorted[|sorted| - 1]) >= rank(x) then sorted + [x]
    else Insert(sorted[..|sorted| - 1], x, rank) + [sorted[|sorted| - 1]]
  }

  function StableSort<T>(xs: seq<T>, rank: T -> real): seq<T> {
    if xs == [] then [] else Insert(StableSort(xs[..|xs| - 1], rank), xs[|xs| - 1], rank)
  }

  ghost predicate Descending<T>(xs: seq<T>, rank: T -> real) {
    forall i, j :: 0 <= i < j < |xs| ==> rank(xs[i]) >= rank(xs[j])
  }

  /** The elements of one rank, in order: what stability must not disturb. */
  function OfRank<T>(xs: seq<T>, rank: T -> real, level: real): seq<T> {
    if xs == [] then []
    else OfRank(xs[..|xs| - 1], rank, level) + if rank(xs[|xs| - 1]) == level then [xs[|xs| - 1]] else []
  }

  lemma OfRankSnoc<T>(xs: seq<T>, x: T, rank: T -> real, level: real)
    ensures OfRank(xs + [x], rank, level) == OfRank(xs, rank, level) + if rank(x) == level then [x] else []
  {
    assert (xs + [x])[..|xs|] == xs;
  }

  lemma SortSnoc<T>(xs: seq<T>, x: T, rank: T -> real)
    ensures StableSort(xs + [x], rank) == Insert(StableSort(xs, rank), x, rank)
  {
    assert (xs + [x])[..|xs|] == xs;
  }

  lemma {:induction false} InsertAdds<T>(sorted: seq<T>, x: T, rank: T -> real)
    ensures multiset(Insert(sorted, x, rank)) == multiset(sorted) + multiset{x}
  {
    if sorted != [] && rank(sorted[|sorted| - 1]) < rank(x) {
      InsertAdds(sorted[..|sorted| - 1], x, rank);
      assert sorted == sorted[..|sorted| - 1] + [sorted[|sorted| - 1]];
    }
  }

  lemma {:induction false} InsertKeepsOrder<T>(sorted: seq<T>, x: T, rank: T -> real)
    requires Descending(sorted, rank)
    ensures Descending(Insert(sorted, x, rank), rank)
  {
    if sorted != [] && rank(sorted[|sorted| - 1]) < rank(x) {
      var front, last := sorted[..|sorted| - 1], sorted[|sorted| - 1];
      InsertKeepsOrder(front, x, rank);
      InsertAdds(front, x, rank);
      var r := Insert(front, x, rank);
      forall i | 0 <= i < |r| ensures rank(r[i]) >= rank(last) {
        assert r[i] in multiset(r);
        assert r[i] in front || r[i] == x;
      }
    }
  }

  lemma {:induction false} InsertIsStable<T>(sorted: seq<T>, x: T, rank: T -> real, level: real)
    ensures OfRank(Insert(sorted, x, rank), rank, level) == OfRank(sorted + [x], rank, level)
  {
    hide OfRank;
    OfRankSnoc(sorted, x, rank, level);
    if sorted != [] && rank(sorted[|sorted| - 1]) < rank(x) {
      var front, last := sorted[..|sorted| - 1], sorted[|sorted| - 1];
      assert sorted == front + [last];
      InsertIsStable(front, x, rank, level);
      OfRankSnoc(front, x, rank, level);
      OfRankSnoc(front, last, rank, level);
      OfRankSnoc(Insert(front, x, rank), last, rank, level);
    }
  }

  /** A permutation, highest rank first, and equal ranks keep their order. */
  lemma {:induction false} StableSortSorts<T>(xs: seq<T>, rank: T -> real, level: real)
    ensures multiset(StableSort(xs, rank)) == multiset(xs)
    ensures Descending(StableSort(xs, rank), rank)
    ensures OfRank(StableSort(xs, rank), rank, level) == OfRank(xs, rank, level)
  {
    hide Insert, Descending, OfRank;
    if xs == [] {
      assert Descending<T>([], rank) by { NothingToSort(rank); }
    } else {
      var front, last := xs[..|xs| - 1], xs[|xs| - 1];
      var sorted := StableSort(front, rank);
      assert xs == front + [last];
      StableSortSorts(front, rank, level);
      InsertAdds(sorted, last, rank);
      InsertKeepsOrder(sorted, last, rank);
      InsertIsStable(sorted, last, rank, level);
      OfRankSnoc(sorted, last, rank, level);
      OfRankSnoc(front, last, rank, level);
    }
  }

  lemma NothingToSort<T>(rank: T -> real)
    ensures Descending<T>([], rank)
  {
  }

  lemma SortMembers<T>(xs: seq<T>, rank: T -> real)
    ensures forall x :: x in StableSort(xs, rank) <==> x in xs
  {
    StableSortSorts(xs, rank, 0.0);
    forall x ensures x in StableSort(xs, rank) <==> x in xs {
      assert x in multiset(StableSort(xs, rank)) <==> x in multiset(xs);
    }
  }

  lemma {:induction false} InsertHead<T>(sorted: seq<T>, x: T, rank: T -> real)
    requires sorted != [] && Descending(sorted, rank)
    ensures Insert(sorted, x, rank) != []
    ensures Insert(sorted, x, rank)[0] == if rank(x) > rank(sorted[0]) then x else sorted[0]
  {
    var n := |sorted| - 1;
    if rank(sorted[n]) < rank(x) && n > 0 {
      InsertHead(sorted[..n], x, rank);
    }
  }
}
