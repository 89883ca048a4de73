/** Sorting by insertion, in any order that compares all elements; equal ones stay as they stood. */
module Sorting {

  function InsertBy<T>(before: (T, T) -> bool, x: T, xs: seq<T>): seq<T> {
    if xs == [] || before(xs[|xs| - 1], x) then xs + [x]
    else InsertBy(before, x, xs[..|xs| - 1]) + [xs[|xs| - 1]]
  }

  function SortBy<T>(before: (T, T) -> bool, xs: seq<T>): seq<T> {
    if xs == [] then [] else InsertBy(before, xs[|xs| - 1], SortBy(before, xs[..|xs| - 1]))
  }

  ghost predicate OrderedBy<T>(before: (T, T) -> bool, xs: seq<T>) {
    forall i, j :: 0 <= i < j < |xs| ==> before(xs[i], xs[j])
  }

  ghost predicate Linear<T(!new)>(before: (T, T) -> bool) {
    && (forall x, y :: before(x, y) || before(y, x))
    && (forall x, y, z :: before(x, y) && before(y, z) ==> before(x, z))
  }

  lemma {:induction false} InsertKeeps<T>(before: (T, T) -> bool, x: T, xs: seq<T>)
    ensures multiset(InsertBy(before, x, xs)) == multiset(xs) + multiset{x}
    ensures |InsertBy(before, x, xs)| == |xs| + 1
  {
    if xs != [] && !before(xs[|xs| - 1], x) {
      InsertKeeps(before, x, xs[..|xs| - 1]);
      assert xs == xs[..|xs| - 1] + [xs[|xs| - 1]];
    }
  }

  lemma {:induction false} SortKeeps<T>(before: (T, T) -> bool, xs: seq<T>)
    ensures multiset(SortBy(before, xs)) == multiset(xs) && |SortBy(before, xs)| == |xs|
  {
    if xs != [] {
      SortKeeps(before, xs[..|xs| - 1]);
      InsertKeeps(before, xs[|xs| - 1], SortBy(before, xs[..|xs| - 1]));
      assert xs == xs[..|xs| - 1] + [xs[|xs| - 1]];
    }
  }

  lemma SameMembers<T>(a: seq<T>, b: seq<T>)
    requires multiset(a) == multiset(b)
    ensures forall x :: x in a <==> x in b
  {
    forall x
      ensures x in a <==> x in b
    {
      assert x in a <==> x in multiset(a);
      assert x in b <==> x in multiset(b);
    }
  }

  lemma {:induction false} InsertOrdered<T(!new)>(before: (T, T) -> bool, x: T, xs: seq<T>)
    requires Linear(before) && OrderedBy(before, xs)
    ensures OrderedBy(before, InsertBy(before, x, xs))
  {
    if xs != [] && !before(xs[|xs| - 1], x) {
      var front := xs[..|xs| - 1];
      InsertOrdered(before, x, front);
      InsertKeeps(before, x, front);
      var r := InsertBy(before, x, front);
      forall i | 0 <= i < |r|
        ensures before(r[i], xs[|xs| - 1])
      {
        assert r[i] in multiset(r);
      }
    }
  }

  lemma {:induction false} SortOrdered<T(!new)>(before: (T, T) -> bool, xs: seq<T>)
    requires Linear(before)
    ensures OrderedBy(before, SortBy(before, xs))
  {
    if xs != [] {
      SortOrdered(before, xs[..|xs| - 1]);
      InsertOrdered(before, xs[|xs| - 1], SortBy(before, xs[..|xs| - 1]));
    }
  }
}
