/**
  Pages of the history, each from a query of its own. Orders completed together carry the same time,
  and a query may return them in any order, so the pages need not fit together; this says when they do.
 */
module HistoryPages {
  import opened Collections
  import opened Decimal
  import opened HistoryQuery
  import Sorting

  /** What `ORDER BY completed_at DESC` may return. */
  ghost predicate Arrangement(r: seq<Row>, rows: seq<Row>, f: Filter) {
    multiset(r) == multiset(Matching(rows, f)) && Descending(r)
  }

  /** One answer for each page of the listing. */
  ghost predicate Answers(answers: seq<seq<Row>>, rows: seq<Row>, f: Filter, size: nat) {
    && |answers| == TotalPages(Count(rows, f), size)
    && forall i :: 0 <= i < |answers| ==> Arrangement(answers[i], rows, f)
  }

  /** The first page from the first answer, the second from the second, and so on. */
  function Joined(answers: seq<seq<Row>>, size: nat): seq<Row> {
    if answers == [] then []
    else Joined(answers[..|answers| - 1], size) + Slice(answers[|answers| - 1], (|answers| - 1) * size, size)
  }

  /** Whatever the queries return, the pages hold every row once. */
  ghost predicate PagesFit(rows: seq<Row>, f: Filter, size: nat) {
    forall answers :: Answers(answers, rows, f, size) ==> multiset(Joined(answers, size)) == multiset(Matching(rows, f))
  }

  /** The rows before and after place `b` were not completed at the same time. */
  predicate CleanAt(all: seq<Row>, b: nat) {
    0 < b < |all| ==> all[b - 1].completedAt != all[b].completedAt
  }

  /** No two rows on either side of the end of page `k` were completed at the same time. */
  predicate CleanEnd(all: seq<Row>, k: nat, size: nat) {
    CleanAt(all, k * size)
  }

  ghost predicate CleanEnds(all: seq<Row>, size: nat) {
    forall k: nat :: CleanEnd(all, k, size)
  }

  // ---------- Clean ends suffice ----------

  lemma LessAsymmetric(s: string, t: string)
    requires LessEq(s, t) && LessEq(t, s)
    ensures s == t
  {
    if Less(s, t) && Less(t, s) {
      LessTransitive(s, t, s);
      LessIrreflexive(s);
    }
  }

  predicate LaterThan(r: Row, t: string) {
    Less(t, r.completedAt)
  }

  ghost predicate SplitAt(r: seq<Row>, c: nat, t: string) {
    && c <= |r|
    && (forall i :: 0 <= i < c ==> LaterThan(r[i], t))
    && (forall i :: c <= i < |r| ==> !LaterThan(r[i], t))
  }

  lemma CleanSplit(all: seq<Row>, b: nat)
    requires Descending(all) && 0 < b < |all| && all[b - 1].completedAt != all[b].completedAt
    ensures SplitAt(all, b, all[b].completedAt)
  {
    var t := all[b].completedAt;
    forall i | 0 <= i < |all|
      ensures LaterThan(all[i], t) <==> i < b
    {
      if i < b {
        assert LessEq(t, all[b - 1].completedAt);
        if i < b - 1 { LessEqTransitive(t, all[b - 1].completedAt, all[i].completedAt); }
        if all[i].completedAt == t {
          assert LessEq(all[b - 1].completedAt, t);
          LessAsymmetric(all[b - 1].completedAt, t);
        }
      } else if LaterThan(all[i], t) {
        assert LessEq(all[i].completedAt, t);
        LessAsymmetric(all[i].completedAt, t);
        LessIrreflexive(t);
      }
    }
  }

  /** Later rows come first in every arrangement. */
  lemma {:induction false} SomeSplit(r: seq<Row>, t: string) returns (c: nat)
    requires Descending(r)
    ensures SplitAt(r, c, t)
  {
    if r == [] {
      c := 0;
    } else if LaterThan(r[|r| - 1], t) {
      c := |r|;
      forall i | 0 <= i < |r|
        ensures LaterThan(r[i], t)
      {
        if i < |r| - 1 && Less(r[|r| - 1].completedAt, r[i].completedAt) {
          LessTransitive(t, r[|r| - 1].completedAt, r[i].completedAt);
        }
      }
    } else {
      c := SomeSplit(r[..|r| - 1], t);
    }
  }

  lemma SplitCounts(r: seq<Row>, c: nat, t: string, x: Row)
    requires SplitAt(r, c, t)
    ensures multiset(r[..c])[x] == if LaterThan(x, t) then multiset(r)[x] else 0
  {
    hide LaterThan;
    assert r == r[..c] + r[c..];
    assert x in r[..c] <==> multiset(r[..c])[x] > 0;
    assert x in r[c..] <==> multiset(r[c..])[x] > 0;
  }

  /** So they have the same rows up to a clean end. */
  lemma SameFront(all: seq<Row>, r: seq<Row>, b: nat)
    requires Descending(all) && Descending(r) && multiset(r) == multiset(all)
    requires b <= |all| && CleanAt(all, b)
    ensures |r| == |all| && multiset(r[..b]) == multiset(all[..b])
  {
    assert |r| == |multiset(r)| == |multiset(all)| == |all|;
    if b == 0 {
    } else if b == |all| {
      assert r[..b] == r && all[..b] == all;
    } else {
      var t := all[b].completedAt;
      CleanSplit(all, b);
      var c := SomeSplit(r, t);
      hide SplitAt, LaterThan, Descending;
      forall x: Row
        ensures multiset(r[..c])[x] == multiset(all[..b])[x]
      {
        SplitCounts(all, b, t, x);
        SplitCounts(r, c, t, x);
      }
      assert multiset(r[..c]) == multiset(all[..b]);
      assert |r[..c]| == |multiset(r[..c])| == |multiset(all[..b])| == |all[..b]|;
    }
  }

  function Upto(n: nat, length: nat): nat {
    if n < length then n else length
  }

  lemma CleanUpto(all: seq<Row>, n: nat)
    requires CleanAt(all, n)
    ensures CleanAt(all, Upto(n, |all|))
  {}

  lemma SameBetween(all: seq<Row>, r: seq<Row>, a: nat, b: nat)
    requires a <= b <= |all| == |r|
    requires multiset(r[..a]) == multiset(all[..a]) && multiset(r[..b]) == multiset(all[..b])
    ensures multiset(r[a..b]) == multiset(all[a..b])
  {
    assert r[..b] == r[..a] + r[a..b] && all[..b] == all[..a] + all[a..b];
    assert multiset(r[a..b]) == multiset(r[..b]) - multiset(r[..a]);
    assert multiset(all[a..b]) == multiset(all[..b]) - multiset(all[..a]);
  }

  lemma SamePage(all: seq<Row>, r: seq<Row>, from: nat, size: nat)
    requires Descending(all) && Descending(r) && multiset(r) == multiset(all)
    requires CleanAt(all, from) && CleanAt(all, from + size)
    ensures multiset(Slice(r, from, size)) == multiset(Slice(all, from, size))
  {
    hide Descending, CleanAt;
    var (a, b) := (Upto(from, |all|), Upto(from + size, |all|));
    CleanUpto(all, from);
    CleanUpto(all, from + size);
    SameFront(all, r, a);
    SameFront(all, r, b);
    SameBetween(all, r, a, b);
  }

  ghost predicate SameRows(answers: seq<seq<Row>>, all: seq<Row>) {
    forall i :: 0 <= i < |answers| ==> Descending(answers[i]) && multiset(answers[i]) == multiset(all)
  }

  lemma {:induction false} SamePages(answers: seq<seq<Row>>, all: seq<Row>, size: nat)
    requires Descending(all) && CleanEnds(all, size) && SameRows(answers, all)
    ensures multiset(Joined(answers, size)) == multiset(PagesJoined(all, size, |answers|))
  {
    if answers != [] {
      var k: nat := |answers| - 1;
      SamePages(answers[..k], all, size);
      SameNext(answers[k], all, k, size);
    }
    hide Descending, CleanEnds, Slice;
  }

  lemma SameNext(r: seq<Row>, all: seq<Row>, k: nat, size: nat)
    requires Descending(all) && CleanEnds(all, size) && Descending(r) && multiset(r) == multiset(all)
    ensures multiset(Slice(r, k * size, size)) == multiset(Slice(all, k * size, size))
  {
    hide Descending, CleanAt, Slice;
    assert CleanEnd(all, k, size) && CleanEnd(all, k + 1, size);
    Distribute(k, 1, size);
    SamePage(all, r, k * size, size);
  }

  // ---------- and are needed ----------

  /** The rows at `b - 1` and `b` change places. */
  lemma Swapped(all: seq<Row>, b: nat)
    requires Descending(all) && 0 < b < |all| && all[b - 1].completedAt == all[b].completedAt
    ensures var r := all[b - 1 := all[b]][b := all[b - 1]]; Descending(r) && multiset(r) == multiset(all)
  {}

  lemma {:induction false} JoinedSame(answers: seq<seq<Row>>, all: seq<Row>, size: nat)
    requires forall i :: 0 <= i < |answers| ==> answers[i] == all
    ensures Joined(answers, size) == PagesJoined(all, size, |answers|)
  {
    if answers != [] { JoinedSame(answers[..|answers| - 1], all, size); }
  }

  lemma NextSlice(r: seq<Row>, from: nat, m: nat, size: nat)
    ensures Slice(r, from, m) + Slice(r, from + m, size) == Slice(r, from, m + size)
  {}

  lemma LastJoined(answers: seq<seq<Row>>, size: nat)
    ensures answers != [] ==>
              var n := |answers| - 1; Joined(answers, size) == Joined(answers[..n], size) + Slice(answers[n], n * size, size)
  {}

  /** The first `k` pages from one arrangement, the others from another. */
  predicate Mixed(answers: seq<seq<Row>>, all: seq<Row>, r: seq<Row>, k: nat) {
    k <= |answers| && forall i :: 0 <= i < |answers| ==> answers[i] == if i < k then all else r
  }

  lemma {:induction false} MixedJoined(answers: seq<seq<Row>>, all: seq<Row>, r: seq<Row>, k: nat, size: nat)
    requires Mixed(answers, all, r, k)
    ensures Joined(answers, size) == Slice(all, 0, k * size) + Slice(r, k * size, (|answers| - k) * size)
  {
    hide Slice, Joined;
    var n := |answers|;
    if n == k {
      JoinedSame(answers, all, size);
      PagesAreSlices(all, size, k);
      NothingSliced(r, k * size);
      assert (n - k) * size == 0;
    } else {
      var m: nat := n - 1 - k;
      MixedJoined(answers[..n - 1], all, r, k, size);
      LastJoined(answers, size);
      Distribute(k, m, size);
      hide *;
      OneMorePage(Joined(answers[..n - 1], size), Slice(all, 0, k * size), r, k * size, m * size, size);
      assert n - 1 == k + m && n - k == m + 1;
    }
  }

  lemma OneMorePage(joined: seq<Row>, front: seq<Row>, r: seq<Row>, from: nat, m: nat, size: nat)
    requires joined == front + Slice(r, from, m)
    ensures joined + Slice(r, from + m, size) == front + Slice(r, from, m + size)
  {
    NextSlice(r, from, m, size);
    hide Slice;
    assert front + Slice(r, from, m) + Slice(r, from + m, size) == front + (Slice(r, from, m) + Slice(r, from + m, size));
  }

  lemma NothingSliced(r: seq<Row>, from: nat)
    ensures Slice(r, from, 0) == []
  {}

  lemma Distribute(k: nat, m: nat, size: nat)
    ensures (k + m) * size == k * size + m * size && (m + 1) * size == m * size + size
  {}

  ghost predicate NoRepeats(rows: seq<Row>) {
    forall x :: multiset(rows)[x] <= 1
  }

  /** If the rows on either side of the end of a page change places, one of them comes twice. */
  lemma TieBreaksPages(all: seq<Row>, b: nat, m: nat)
    requires 0 < b < |all| && m >= |all| - b && NoRepeats(all)
    ensures multiset(Slice(all, 0, b) + Slice(all[b - 1 := all[b]][b := all[b - 1]], b, m)) != multiset(all)
  {
    var r := all[b - 1 := all[b]][b := all[b - 1]];
    var x := all[b - 1];
    assert Slice(all, 0, b) == all[..b - 1] + [x];
    assert Slice(r, b, m) == [x] + r[b + 1..];
    assert multiset(all)[x] <= 1;
  }

  lemma PlaceOfPage(k: nat, n: nat, size: nat, length: nat)
    requires k * size < length <= n * size
    ensures k < n && (n - k) * size >= length - k * size
  {
    if k >= n {
      ProductsMonotone(n, size, k, size);
    } else {
      Distribute(k, n - k, size);
    }
  }

  lemma MixOf(all: seq<Row>, r: seq<Row>, k: nat, n: nat) returns (answers: seq<seq<Row>>)
    requires k <= n
    ensures |answers| == n && Mixed(answers, all, r, k)
  {
    answers := seq(n, i requires 0 <= i < n => if i < k then all else r);
  }

  lemma UncleanMixes(rows: seq<Row>, f: Filter, all: seq<Row>, k: nat, size: nat)
    requires size >= 1 && Arrangement(all, rows, f) && NoRepeats(all) && !CleanEnd(all, k, size)
    ensures !PagesFit(rows, f, size)
  {
    hide Descending, Slice, TotalPages, NoRepeats, Count, Joined, Matching;
    var (n, b) := (TotalPages(Count(rows, f), size), k * size);
    var r := all[b - 1 := all[b]][b := all[b - 1]];
    Swapped(all, b);
    MatchingLength(rows, f, all);
    PagesReachTheEnd(|all|, size);
    PlaceOfPage(k, n, size, |all|);
    var answers := MixOf(all, r, k, n);
    MixedJoined(answers, all, r, k, size);
    TieBreaksPages(all, b, (n - k) * size);
    assert Answers(answers, rows, f, size);
  }

  lemma MatchingLength(rows: seq<Row>, f: Filter, r: seq<Row>)
    requires multiset(r) == multiset(Matching(rows, f))
    ensures |r| == Count(rows, f)
  {
    CountIsLength(rows, f);
    assert |r| == |multiset(r)| == |multiset(Matching(rows, f))|;
  }

  lemma CleanFits(rows: seq<Row>, f: Filter, all: seq<Row>, size: nat, answers: seq<seq<Row>>)
    requires size >= 1 && Arrangement(all, rows, f) && CleanEnds(all, size) && Answers(answers, rows, f, size)
    ensures multiset(Joined(answers, size)) == multiset(Matching(rows, f))
  {
    hide Descending, Matching, Count, TotalPages, CleanEnds, Slice, SameRows, Joined, PagesJoined;
    MatchingLength(rows, f, all);
    AnswersSame(rows, f, all, size, answers);
    SamePages(answers, all, size);
    PagesReachTheEnd(|all|, size);
    WholeJoined(all, size, |answers|);
  }

  lemma WholeJoined(all: seq<Row>, size: nat, n: nat)
    requires n * size >= |all|
    ensures PagesJoined(all, size, n) == all
  {
    PagesAreSlices(all, size, n);
    hide PagesJoined;
  }

  lemma AnswersSame(rows: seq<Row>, f: Filter, all: seq<Row>, size: nat, answers: seq<seq<Row>>)
    requires Arrangement(all, rows, f) && Answers(answers, rows, f, size)
    ensures SameRows(answers, all)
  {
    hide Descending, Matching;
  }

  lemma ListingArranged(rows: seq<Row>, f: Filter)
    ensures Arrangement(LatestFirst(Matching(rows, f)), rows, f)
  {
    Sorting.SortKeeps(NotEarlier, Matching(rows, f));
    SortSorts(Matching(rows, f));
  }

  lemma ListingNoRepeats(rows: seq<Row>, f: Filter)
    requires NoRepeats(rows)
    ensures NoRepeats(LatestFirst(Matching(rows, f)))
  {
    ListingArranged(rows, f);
    forall x: Row
      ensures multiset(Matching(rows, f))[x] <= 1
    {
      MatchingKeeps(rows, f, x);
      assert multiset(rows)[x] <= 1;
    }
  }

  /**
    Pages of separate queries hold every row once, whatever the queries make of ties, if and only if no
    two rows on either side of the end of a page were completed at the same time.
   */
  lemma PagesFitIff(rows: seq<Row>, f: Filter, size: nat)
    requires size >= 1 && NoRepeats(rows)
    ensures PagesFit(rows, f, size) <==> CleanEnds(LatestFirst(Matching(rows, f)), size)
  {
    hide Arrangement, NoRepeats, CleanEnd, Matching, LatestFirst, Answers, Joined;
    var all := LatestFirst(Matching(rows, f));
    ListingArranged(rows, f);
    ListingNoRepeats(rows, f);
    if CleanEnds(all, size) {
      forall answers | Answers(answers, rows, f, size)
        ensures multiset(Joined(answers, size)) == multiset(Matching(rows, f))
      {
        CleanFits(rows, f, all, size, answers);
      }
    } else {
      var k: nat :| !CleanEnd(all, k, size);
      UncleanMixes(rows, f, all, k, size);
    }
  }

  /** Two orders completed together are enough: one a page, and they need not both come. */
  lemma TwoAtOnce(x: Row, y: Row, f: Filter)
    requires x != y && x.completedAt == y.completedAt && Matches(x, f) && Matches(y, f)
    ensures !PagesFit([x, y], f, 1)
  {
    hide LatestFirst, Descending, PagesFit, CleanEnds;
    TwoMatch(x, y, f);
    ListingArranged([x, y], f);
    var all := LatestFirst(Matching([x, y], f));
    hide Matching, Matches;
    OneOfTwo(all, x, y);
    assert !CleanEnd(all, 1, 1);
    assert !CleanEnds(all, 1) by { NotAllClean(all, 1, 1); }
    TwoDiffer(x, y);
    PagesFitIff([x, y], f, 1);
  }

  lemma TwoMatch(x: Row, y: Row, f: Filter)
    requires Matches(x, f) && Matches(y, f)
    ensures Matching([x, y], f) == [x, y]
  {
    hide Matches;
    assert [x, y][1..] == [y] && [y][1..] == [];
    assert Matching([y], f) == [y] + Matching([], f);
    assert Matching([x, y], f) == [x] + Matching([y], f);
  }

  lemma OneOfTwo(all: seq<Row>, x: Row, y: Row)
    requires multiset(all) == multiset([x, y])
    ensures |all| == 2 && all[0] in [x, y] && all[1] in [x, y]
  {
    assert |all| == |multiset(all)| == |multiset([x, y])| == 2;
    Sorting.SameMembers(all, [x, y]);
    assert all[0] in all && all[1] in all;
  }

  lemma NotAllClean(all: seq<Row>, k: nat, size: nat)
    requires !CleanEnd(all, k, size)
    ensures !CleanEnds(all, size)
  {}

  lemma TwoDiffer(x: Row, y: Row)
    requires x != y
    ensures NoRepeats([x, y])
  {}
}
