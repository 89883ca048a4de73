/** The history rows that the services write, as the listing finds them. */
module HistoryDays {
  import opened Wrappers
  import opened Timestamp
  import Q = HistoryQuery
  import Rows
  import Runs
  import Steps

  /** The stored row, with its completion time as text. */
  function RowOf(h: Rows.History): Q.Row
    requires InCalendar(h.completedAt)
  {
    Q.Row(h.store, h.table, h.order, ToIso(MomentOf(h.completedAt)))
  }

  ghost predicate AllInCalendar(histories: seq<Rows.History>) {
    forall i :: 0 <= i < |histories| ==> InCalendar(histories[i].completedAt)
  }

  function RowsOf(histories: seq<Rows.History>): (rows: seq<Q.Row>)
    requires AllInCalendar(histories)
    ensures |rows| == |histories| && forall i :: 0 <= i < |rows| ==> rows[i] == RowOf(histories[i])
  {
    seq(|histories|, i requires 0 <= i < |histories| => RowOf(histories[i]))
  }

  /** The filter for a range of days, as the admin's page sends it. */
  function DayFilter(store: string, table: Option<string>, from: Option<Day>, to: Option<Day>): Q.Filter {
    Q.Filter(store, table, if from.Some? then Some(DateIso(from.value)) else None, if to.Some? then Some(DateIso(to.value)) else None)
  }

  predicate InRange(day: int, from: Option<Day>, to: Option<Day>) {
    (from.Some? ==> DayNumber(from.value) <= day) && (to.Some? ==> day <= DayNumber(to.value))
  }

  /** The query for the page that is as long as the count. */
  function Listing(histories: seq<Rows.History>, f: Q.Filter): seq<Q.Row>
    requires AllInCalendar(histories)
  {
    Q.Query(RowsOf(histories), f, 0, Q.Count(RowsOf(histories), f))
  }

  /** A history row is listed exactly for its store, its table or all, and the ranges that contain its day. */
  lemma ListedByItsDay(histories: seq<Rows.History>, i: nat, store: string, table: Option<string>, from: Option<Day>,
      to: Option<Day>)
    requires AllInCalendar(histories) && i < |histories|
    ensures var h := histories[i];
            RowOf(h) in Listing(histories, DayFilter(store, table, from, to)) <==>
              h.store == store && (table.Some? ==> h.table == table.value) && InRange(DayOf(h.completedAt), from, to)
  {
    var h := histories[i];
    var rows := RowsOf(histories);
    assert rows[i] in rows;
    hide Q.Query, Q.Count, DateIso, ToIso, DayNumber, ValidDate, ValidMoment, InCalendar, RowsOf, MomentOf, AllInCalendar;
    var f := DayFilter(store, table, from, to);
    Q.ListedIff(rows, f, if from.Some? then Some(from.value) else None, if to.Some? then Some(to.value) else None,
                RowOf(h), MomentOf(h.completedAt));
  }

  /** A completion puts its session's orders into exactly the listings whose range contains the day of completion. */
  lemma CompletionListed(a: Rows.Db, r: Steps.CompleteRequest, i: nat, table: Option<string>, from: Option<Day>,
      to: Option<Day>)
    requires Steps.Admissible(a, Steps.Complete(r)) && Steps.CompleteSession(a, r).1.Success?
    requires var b := Steps.Next(a, Steps.Complete(r)); AllInCalendar(b.histories) && |a.histories| <= i < |b.histories|
    ensures var b := Steps.Next(a, Steps.Complete(r));
            RowOf(b.histories[i]) in Listing(b.histories, DayFilter(r.store, table, from, to)) <==>
              (table.Some? ==> b.histories[i].table == table.value) && InRange(DayOf(r.completedAt), from, to)
  {
    hide Steps.Next, Steps.Admissible, Steps.CompleteSession, Listing, RowsOf, RowOf, InRange;
    Runs.RowsAreAppended(a, r);
    var b := Steps.Next(a, Steps.Complete(r));
    assert b.histories[i].store == r.store && b.histories[i].completedAt == r.completedAt;
    ListedByItsDay(b.histories, i, r.store, table, from, to);
  }
}
