/** The history listing: filters on stored text, its count, its order and its pages. */
module HistoryQuery {
  import opened Wrappers
  import opened Collections
  import opened Decimal
  import opened Timestamp
  import Sorting

  datatype Row = Row(store: string, table: string, order: string, completedAt: string)
  datatype Filter = Filter(store: string, table: Option<string>, dateFrom: Option<string>, dateTo: Option<string>)

  /** The last moment of a day, as the filter writes it. */
  function EndOfDay(dateTo: string): string {
    dateTo + "T23:59:59.999999+09:00"
  }

  predicate Matches(r: Row, f: Filter) {
    && r.store == f.store
    && (f.table.Some? ==> r.table == f.table.value)
    && (f.dateFrom.Some? ==> LessEq(f.dateFrom.value, r.completedAt))
    && (f.dateTo.Some? ==> LessEq(r.completedAt, EndOfDay(f.dateTo.value)))
  }

  function Matching(rows: seq<Row>, f: Filter): (r: seq<Row>)
    ensures forall x :: x in r <==> x in rows && Matches(x, f)
  {
    if rows == [] then []
    else (if Matches(rows[0], f) then [rows[0]] else []) + Matching(rows[1..], f)
  }

  predicate NotEarlier(r: Row, s: Row) {
    LessEq(s.completedAt, r.completedAt)
  }

  function LatestFirst(rows: seq<Row>): seq<Row> {
    Sorting.SortBy(NotEarlier, rows)
  }

  function Query(rows: seq<Row>, f: Filter, offset: nat, limit: nat): seq<Row> {
    Slice(LatestFirst(Matching(rows, f)), offset, limit)
  }

  function Count(rows: seq<Row>, f: Filter): nat {
    if rows == [] then 0 else (if Matches(rows[0], f) then 1 else 0) + Count(rows[1..], f)
  }

  // ---------- The date filter means days ----------

  /**
    A date is a prefix of the moments of its day, so as text it comes before all of them and after all
    earlier ones.
   */
  lemma FromMeansDay(d: Date, m: Moment)
    requires ValidDate(d) && ValidMoment(m)
    ensures LessEq(DateIso(d), ToIso(m)) <==> DayNumber(d) <= DayNumber(m.date)
  {
    DateIsoOrder(d, m.date);
    DateIsoOrder(m.date, d);
    DayOrder(d, m.date);
    DayOrder(m.date, d);
    assert DateIso(d) + "" == DateIso(d);
    LessConcat(DateIso(d), DateIso(m.date), "", "T" + ClockIso(m));
  }

  lemma ToMeansDay(d: Date, m: Moment)
    requires ValidDate(d) && ValidMoment(m)
    ensures LessEq(ToIso(m), EndOfDay(DateIso(d))) <==> DayNumber(m.date) <= DayNumber(d)
  {
    var last := Moment(d, 23, 59, 59, 999999);
    EndOfDayIsIso(d);
    IsoOrder(m, last);
    DayOrder(m.date, d);
  }

  lemma Literals()
    ensures Pad(23, 2) == "23" && Pad(59, 2) == "59" && Pad(999999, 6) == "999999"
  {
    assert Pad(999, 3) == "999";
    assert Pad(99999, 5) == Pad(9999, 4) + "9" == Pad(999, 3) + "9" + "9";
  }

  lemma EndOfDayIsIso(d: Date)
    ensures EndOfDay(DateIso(d)) == ToIso(Moment(d, 23, 59, 59, 999999))
  {
    Literals();
    hide Pad, DateIso;
    var clock := ClockIso(Moment(d, 23, 59, 59, 999999));
    assert clock == "23" + (":" + ("59" + (":" + ("59" + ("" + ("." + "999999" + SEOUL))))));
    assert "T" + clock == "T23:59:59.999999+09:00";
  }

  /** A row of the filter's store, and table if it names one, completed on a day from `from` to `to`. */
  predicate Wanted(r: Row, day: int, f: Filter, from: Option<Date>, to: Option<Date>)
    requires (from.Some? ==> ValidDate(from.value)) && (to.Some? ==> ValidDate(to.value))
  {
    && r.store == f.store && (f.table.Some? ==> r.table == f.table.value)
    && (from.Some? ==> DayNumber(from.value) <= day)
    && (to.Some? ==> day <= DayNumber(to.value))
  }

  lemma MatchesMeansDays(f: Filter, from: Option<Date>, to: Option<Date>, r: Row, m: Moment)
    requires ValidMoment(m) && r.completedAt == ToIso(m)
    requires (from.Some? ==> ValidDate(from.value)) && (to.Some? ==> ValidDate(to.value))
    requires f.dateFrom == (if from.Some? then Some(DateIso(from.value)) else None)
    requires f.dateTo == (if to.Some? then Some(DateIso(to.value)) else None)
    ensures Matches(r, f) <==> Wanted(r, DayNumber(m.date), f, from, to)
  {
    if from.Some? { FromMeansDay(from.value, m); }
    if to.Some? { ToMeansDay(to.value, m); }
    hide LessEq, DateIso, ToIso, EndOfDay, DayNumber, ValidDate, ValidMoment;
  }

  /**
    For rows stamped by the service and dates given as YYYY-MM-DD: a page holds only rows of the
    store (and table) whose completion day in Seoul lies in the range, and the whole listing, which is
    a page as long as the count, holds each of them exactly as often as it is there.
   */
  lemma FilterMeansDays(rows: seq<Row>, f: Filter, from: Option<Date>, to: Option<Date>, r: Row, m: Moment,
      offset: nat, limit: nat)
    requires ValidMoment(m) && r.completedAt == ToIso(m)
    requires (from.Some? ==> ValidDate(from.value)) && (to.Some? ==> ValidDate(to.value))
    requires f.dateFrom == (if from.Some? then Some(DateIso(from.value)) else None)
    requires f.dateTo == (if to.Some? then Some(DateIso(to.value)) else None)
    ensures r in Query(rows, f, offset, limit) ==> r in rows && Wanted(r, DayNumber(m.date), f, from, to)
    ensures multiset(Query(rows, f, 0, Count(rows, f)))[r] ==
            if Wanted(r, DayNumber(m.date), f, from, to) then multiset(rows)[r] else 0
  {
    hide Query, Matches, Wanted, Count, ToIso, DateIso, ValidMoment, ValidDate;
    MatchesMeansDays(f, from, to, r, m);
    PageOfMatching(rows, f, offset, limit, r);
    WholeListing(rows, f, r);
  }

  /** So a row that is there is listed exactly if it is wanted. */
  lemma ListedIff(rows: seq<Row>, f: Filter, from: Option<Date>, to: Option<Date>, r: Row, m: Moment)
    requires r in rows && ValidMoment(m) && r.completedAt == ToIso(m)
    requires (from.Some? ==> ValidDate(from.value)) && (to.Some? ==> ValidDate(to.value))
    requires f.dateFrom == (if from.Some? then Some(DateIso(from.value)) else None)
    requires f.dateTo == (if to.Some? then Some(DateIso(to.value)) else None)
    ensures r in Query(rows, f, 0, Count(rows, f)) <==> Wanted(r, DayNumber(m.date), f, from, to)
  {
    FilterMeansDays(rows, f, from, to, r, m, 0, 0);
    hide *;
    var listing := Query(rows, f, 0, Count(rows, f));
    assert r in listing <==> multiset(listing)[r] > 0;
    assert multiset(rows)[r] > 0;
  }

  lemma {:induction false} MatchingKeeps(rows: seq<Row>, f: Filter, r: Row)
    ensures multiset(Matching(rows, f))[r] == if Matches(r, f) then multiset(rows)[r] else 0
  {
    hide Matches;
    if rows != [] {
      MatchingKeeps(rows[1..], f, r);
      assert rows == [rows[0]] + rows[1..];
    }
  }

  lemma PageOfMatching(rows: seq<Row>, f: Filter, offset: nat, limit: nat, r: Row)
    ensures r in Query(rows, f, offset, limit) ==> r in rows && Matches(r, f)
  {
    Sorting.SortKeeps(NotEarlier, Matching(rows, f));
    Sorting.SameMembers(LatestFirst(Matching(rows, f)), Matching(rows, f));
    hide LatestFirst, Matches;
  }

  /** The page from the start that is as long as the count is the whole listing. */
  lemma WholeListing(rows: seq<Row>, f: Filter, r: Row)
    ensures multiset(Query(rows, f, 0, Count(rows, f)))[r] == if Matches(r, f) then multiset(rows)[r] else 0
  {
    CountIsLength(rows, f);
    MatchingKeeps(rows, f, r);
    Sorting.SortKeeps(NotEarlier, Matching(rows, f));
    var all := LatestFirst(Matching(rows, f));
    assert all[0..|all|] == all;
    hide LatestFirst, Matching, Matches, Count;
  }

  /** Page 1 to page `n`, put together. */
  function PagesUpTo(rows: seq<Row>, f: Filter, size: nat, n: nat): seq<Row> {
    if n == 0 then [] else PagesUpTo(rows, f, size, n - 1) + Query(rows, f, (n - 1) * size, size)
  }

  lemma {:induction false} PagesOfOne(rows: seq<Row>, f: Filter, size: nat, n: nat)
    ensures PagesUpTo(rows, f, size, n) == PagesJoined(LatestFirst(Matching(rows, f)), size, n)
  {
    hide LatestFirst, Matching;
    if n > 0 { PagesOfOne(rows, f, size, n - 1); }
  }

  /** The pages 1 to `TotalPages(count, size)`, put together, are the whole listing. */
  lemma PagesPartition(rows: seq<Row>, f: Filter, size: nat)
    requires size >= 1
    ensures PagesUpTo(rows, f, size, TotalPages(Count(rows, f), size)) == Query(rows, f, 0, Count(rows, f))
  {
    hide LatestFirst, Matching, Count, TotalPages;
    var (all, n) := (LatestFirst(Matching(rows, f)), TotalPages(Count(rows, f), size));
    PagesOfOne(rows, f, size, n);
    PagesAreSlices(all, size, n);
    PagesReachTheEnd(Count(rows, f), size);
    CountAgrees(rows, f, 0, Count(rows, f));
    ListingLength(rows, f);
  }

  lemma ListingLength(rows: seq<Row>, f: Filter)
    ensures |LatestFirst(Matching(rows, f))| == Count(rows, f)
  {
    CountIsLength(rows, f);
    Sorting.SortKeeps(NotEarlier, Matching(rows, f));
  }

  // ---------- Order and count ----------

  predicate Descending(rows: seq<Row>) {
    forall i, j :: 0 <= i < j < |rows| ==> LessEq(rows[j].completedAt, rows[i].completedAt)
  }

  lemma {:induction false} LessTotal(s: string, t: string)
    ensures Less(s, t) || s == t || Less(t, s)
  {
    if s != "" && t != "" && s[0] == t[0] {
      LessTotal(s[1..], t[1..]);
      assert s == [s[0]] + s[1..] && t == [t[0]] + t[1..];
    }
  }

  lemma {:induction false} LessTransitive(s: string, t: string, u: string)
    requires Less(s, t) && Less(t, u)
    ensures Less(s, u)
  {
    if s != "" && s[0] == t[0] && t[0] == u[0] { LessTransitive(s[1..], t[1..], u[1..]); }
  }

  lemma LessEqTransitive(s: string, t: string, u: string)
    requires LessEq(s, t) && LessEq(t, u)
    ensures LessEq(s, u)
  {
    if Less(s, t) && Less(t, u) { LessTransitive(s, t, u); }
  }

  lemma NotEarlierLinear()
    ensures Sorting.Linear(NotEarlier)
  {
    forall x: Row, y: Row
      ensures NotEarlier(x, y) || NotEarlier(y, x)
    {
      LessTotal(x.completedAt, y.completedAt);
    }
    forall x: Row, y: Row, z: Row | NotEarlier(x, y) && NotEarlier(y, z)
      ensures NotEarlier(x, z)
    {
      LessEqTransitive(z.completedAt, y.completedAt, x.completedAt);
    }
  }

  /** The listing is latest first. */
  lemma SortSorts(rows: seq<Row>)
    ensures Descending(LatestFirst(rows))
  {
    NotEarlierLinear();
    Sorting.SortOrdered(NotEarlier, rows);
    hide LessEq;
  }

  lemma {:induction false} CountIsLength(rows: seq<Row>, f: Filter)
    ensures Count(rows, f) == |Matching(rows, f)|
  {
    if rows != [] { CountIsLength(rows[1..], f); }
  }

  /** The count announces exactly how many rows each page of the listing holds. */
  lemma CountAgrees(rows: seq<Row>, f: Filter, offset: nat, limit: nat)
    ensures var n := Count(rows, f);
            |Query(rows, f, offset, limit)| == if offset >= n then 0 else if offset + limit <= n then limit else n - offset
    ensures Descending(Query(rows, f, offset, limit))
  {
    CountIsLength(rows, f);
    Sorting.SortKeeps(NotEarlier, Matching(rows, f));
    SortSorts(Matching(rows, f));
  }
}
