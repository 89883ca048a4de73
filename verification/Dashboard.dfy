/** The dashboard: one card a table, with the total and the latest orders of its current session. */
module Dashboard {
  import opened Wrappers
  import opened Collections
  import opened Rows
  import opened OrderLists
  import opened UnitOfWork
  import ActiveSessions
  import Decimal
  import Steps

  datatype Preview = Preview(order: Id, number: string, createdAt: int, summary: string, total: int)
  datatype Card = Card(table: Id, no: string, total: int, recent: seq<Preview>, hasNew: bool)

  /** The first dish, and how many more lines there are. */
  function ItemSummary(items: seq<Item>): string {
    if items == [] then ""
    else if |items| == 1 then items[0].name
    else items[0].name + " \U{C678} " + Decimal.Digits(|items| - 1) + "\U{AC74}"
  }

  function PreviewOf(o: Order): Preview {
    Preview(o.id, o.number, o.createdAt, ItemSummary(o.items), o.total)
  }

  function Previews(orders: seq<Order>): (r: seq<Preview>)
    ensures |r| == |orders| && forall i :: 0 <= i < |r| ==> r[i] == PreviewOf(orders[i])
  {
    seq(|orders|, i requires 0 <= i < |orders| => PreviewOf(orders[i]))
  }

  /** The tables of a store, or the one asked for. */
  function ListTables(tables: seq<Table>, store: Id, filter: Option<Id>): seq<Table> {
    if tables == [] then []
    else
      var last := tables[|tables| - 1];
      ListTables(tables[..|tables| - 1], store, filter)
      + if last.store == store && (filter.Some? ==> last.id == filter.value) then [last] else []
  }

  /** The card shows the session found for the table, unless that has run out. */
  function CardOf(db: Db, store: Id, t: Table, pick: Option<nat>, now: int): Card
    requires pick.Some? ==> pick.value < |db.sessions|
  {
    if pick.Some? && now < db.sessions[pick.value].expiresAt then
      var session := db.sessions[pick.value].id;
      Card(t.id, t.no, SumTableTotal(db.orders, store, session),
           Previews(Slice(Reverse(ListBySession(db.orders, store, session)), 0, 3)), false)
    else Card(t.id, t.no, 0, [], false)
  }

  ghost predicate ValidPicks(db: Db, store: Id, tables: seq<Table>, picks: seq<Option<nat>>) {
    |picks| == |tables| && forall i :: 0 <= i < |tables| ==> ValidPick(db.sessions, store, tables[i].id, picks[i])
  }

  /** The clock is read anew for each table. */
  method GetDashboard(work: Work, store: Id, filter: Option<Id>, picks: seq<Option<nat>>,
      nows: seq<int>) returns (cards: seq<Card>)
    requires work.pending == []
    requires ValidPicks(work.rows, store, ListTables(work.rows.tables, store, filter), picks) && |nows| == |picks|
    modifies work`agreed
    ensures work.agreed == old(work.agreed)
    ensures |cards| == |picks|
    ensures forall i :: 0 <= i < |cards| ==>
              cards[i] == CardOf(work.rows, store, ListTables(work.rows.tables, store, filter)[i], picks[i], nows[i])
  {
    hide SumTableTotal, ListBySession, Slice, Reverse, Previews, ListTables;
    var tables := ListTables(work.rows.tables, store, filter);
    cards := [];
    for i := 0 to |tables|
      invariant work.agreed == old(work.agreed) && |cards| == i
      invariant forall k :: 0 <= k < i ==> cards[k] == CardOf(work.rows, store, tables[k], picks[k], nows[k])
    {
      var total, previews := 0, [];
      var active := work.GetActiveSession(store, tables[i].id, picks[i]);
      if active.Some? && nows[i] < work.rows.sessions[active.value].expiresAt {
        var session := work.rows.sessions[active.value].id;
        total := work.SumTableTotal(store, session);
        var recent := work.RecentOrders(store, session, 3);
        previews := Previews(recent);
      }
      cards := cards + [Card(tables[i].id, tables[i].no, total, previews, false)];
    }
  }

  /** The cards are for the store's tables, or for the one asked for. */
  lemma {:induction false} TablesListed(tables: seq<Table>, store: Id, filter: Option<Id>)
    ensures forall t :: t in ListTables(tables, store, filter) <==>
              t in tables && t.store == store && (filter.Some? ==> t.id == filter.value)
  {
    if tables != [] {
      TablesListed(tables[..|tables| - 1], store, filter);
      assert tables == tables[..|tables| - 1] + [tables[|tables| - 1]];
    }
  }

  ghost predicate DistinctTables(tables: seq<Table>) {
    forall i, j :: 0 <= i < j < |tables| ==> tables[i].id != tables[j].id
  }

  /** ... each once. */
  lemma {:induction false} EachTableOnce(tables: seq<Table>, store: Id, filter: Option<Id>)
    requires DistinctTables(tables)
    ensures DistinctTables(ListTables(tables, store, filter))
  {
    if tables != [] {
      var front := tables[..|tables| - 1];
      EachTableOnce(front, store, filter);
      TablesListed(front, store, filter);
      var list := ListTables(front, store, filter);
      forall i | 0 <= i < |list|
        ensures list[i].id != tables[|tables| - 1].id
      {
        assert list[i] in front;
      }
    }
  }

  /** The first dish by name, and the number of further lines: "A", or "A 외 2건". */
  lemma SummaryMeans(a: Item, b: Item, c: Item)
    ensures ItemSummary([a]) == a.name
    ensures ItemSummary([a, b]) == a.name + " \U{C678} 1\U{AC74}"
    ensures ItemSummary([a, b, c]) == a.name + " \U{C678} 2\U{AC74}"
  {
    assert Decimal.Digits(1) == "1" && Decimal.Digits(2) == "2";
  }

  ghost predicate ShowsLiveOrder(p: Preview, db: Db, store: Id, session: Id) {
    exists o :: o in db.orders && o.store == store && o.session == session && o.deletedAt.None? && Shows(p, o)
  }

  predicate Shows(p: Preview, o: Order) {
    && p.order == o.id && p.number == o.number && p.createdAt == o.createdAt && p.total == o.total
    && p.summary == ItemSummary(o.items)
  }

  /** The last three orders of a list in the order of creation, the latest first. */
  lemma RecentAreLatest(all: seq<Order>)
    requires InCreationOrder(all)
    ensures var recent := Previews(Slice(Reverse(all), 0, 3));
            && |recent| == (if |all| < 3 then |all| else 3)
            && (forall i :: 0 <= i < |recent| ==> Shows(recent[i], all[|all| - 1 - i]))
            && (forall i, j :: 0 <= i < j < |recent| ==> recent[i].createdAt >= recent[j].createdAt)
            && (forall i, k :: 0 <= i < |recent| && 0 <= k < |all| - |recent| ==> all[k].createdAt <= recent[i].createdAt)
  {
    hide ItemSummary;
    var recent := Previews(Slice(Reverse(all), 0, 3));
    assert forall i :: 0 <= i < |recent| ==> recent[i] == PreviewOf(all[|all| - 1 - i]);
  }

  /** If the card leaves out `o`, everything on it is at least as late. */
  ghost predicate ShownOrNotLater(recent: seq<Preview>, o: Order) {
    || (exists i :: 0 <= i < |recent| && Shows(recent[i], o))
    || forall i :: 0 <= i < |recent| ==> o.createdAt <= recent[i].createdAt
  }

  /** At most three live orders of the session, the latest first; none that is left out is later than any of them. */
  ghost predicate ShowsLatest(recent: seq<Preview>, db: Db, store: Id, session: Id) {
    && |recent| == (if CountBySession(db.orders, store, session) < 3 then CountBySession(db.orders, store, session) else 3)
    && (forall i :: 0 <= i < |recent| ==> ShowsLiveOrder(recent[i], db, store, session))
    && (forall i, j :: 0 <= i < j < |recent| ==> recent[i].createdAt >= recent[j].createdAt)
    && (forall o :: o in db.orders && Live(o, store, session) ==> ShownOrNotLater(recent, o))
  }

  lemma RecentOfList(all: seq<Order>, recent: seq<Preview>, db: Db, store: Id, session: Id)
    requires |recent| == (if |all| < 3 then |all| else 3) && |all| == CountBySession(db.orders, store, session)
    requires forall o :: o in all <==> o in db.orders && o.store == store && o.session == session && o.deletedAt.None?
    requires forall i, j :: 0 <= i < j < |recent| ==> recent[i].createdAt >= recent[j].createdAt
    requires forall i :: 0 <= i < |recent| ==> Shows(recent[i], all[|all| - 1 - i])
    requires forall i, k :: 0 <= i < |recent| && 0 <= k < |all| - |recent| ==> all[k].createdAt <= recent[i].createdAt
    ensures ShowsLatest(recent, db, store, session)
  {
    hide Shows, CountBySession;
    forall o | o in all
      ensures ShownOrNotLater(recent, o)
    {
      var k :| 0 <= k < |all| && all[k] == o;
      if k >= |all| - |recent| { assert Shows(recent[|all| - 1 - k], o); }
    }
    forall i | 0 <= i < |recent|
      ensures ShowsLiveOrder(recent[i], db, store, session)
    {
      assert all[|all| - 1 - i] in all;
    }
  }

  lemma PreviewsShowLatest(db: Db, store: Id, session: Id)
    ensures ShowsLatest(Previews(Slice(Reverse(ListBySession(db.orders, store, session)), 0, 3)), db, store, session)
  {
    hide *;
    var all := ListBySession(db.orders, store, session);
    var recent := Previews(Slice(Reverse(all), 0, 3));
    ListCount(db.orders, store, session);
    ListMembers(db.orders, store, session);
    ListOrdered(db.orders, store, session);
    RecentAreLatest(all);
    RecentOfList(all, recent, db, store, session);
  }

  /** A card shows the latest orders of one live session, at most three, and the total of all of that session's. */
  lemma CardShowsOneSession(db: Db, store: Id, t: Table, pick: Option<nat>, now: int)
    requires ValidPick(db.sessions, store, t.id, pick) && pick.Some? && now < db.sessions[pick.value].expiresAt
    ensures var (card, session) := (CardOf(db, store, t, pick, now), db.sessions[pick.value].id);
            && card.table == t.id && card.no == t.no && !card.hasNew
            && card.total == TotalOf(ListBySession(db.orders, store, session))
            && ShowsLatest(card.recent, db, store, session)
  {
    var session := db.sessions[pick.value].id;
    ListTotal(db.orders, store, session);
    PreviewsShowLatest(db, store, session);
    hide ListBySession, SumTableTotal, TotalOf, ShowsLatest, Slice, Reverse, Previews;
  }

  /** A card shows nothing exactly if no running session was found, or one without live orders. */
  lemma EmptyCardIff(db: Db, store: Id, t: Table, pick: Option<nat>, now: int)
    requires ValidPick(db.sessions, store, t.id, pick)
    ensures CardOf(db, store, t, pick, now) == Card(t.id, t.no, 0, [], false) <==>
              !(ActiveSessions.FindsRunning(db.sessions, now, pick)
                && CountBySession(db.orders, store, db.sessions[pick.value].id) > 0)
  {
    hide ListBySession, CountBySession, SumTableTotal;
    if ActiveSessions.FindsRunning(db.sessions, now, pick) {
      CardShowsOneSession(db, store, t, pick, now);
      ListCount(db.orders, store, db.sessions[pick.value].id);
    }
  }

  /** Whichever row the lookup returns, the table's card shows nothing. */
  ghost predicate CardReset(db: Db, store: Id, t: Table, now: int) {
    forall pick: Option<nat> :: ValidPick(db.sessions, store, t.id, pick) ==>
      CardOf(db, store, t, pick, now) == Card(t.id, t.no, 0, [], false)
  }

  /** Row `j` runs besides the session being completed, and has live orders. */
  predicate OtherWithOrders(a: Db, r: Steps.CompleteRequest, now: int, j: int) {
    ActiveSessions.OtherRunning(a, r, now, j) && CountBySession(a.orders, r.store, a.sessions[j].id) > 0
  }

  /** Completing a session resets the table's card, if and only if no other session of the table runs and has orders. */
  lemma CompletionResetsCard(a: Db, r: Steps.CompleteRequest, t: Table, now: int)
    requires Steps.Admissible(a, Steps.Complete(r)) && Steps.CompleteSession(a, r).1.Success? && t.id == r.table
    ensures CardReset(Steps.Next(a, Steps.Complete(r)), r.store, t, now) <==> !exists j :: OtherWithOrders(a, r, now, j)
  {
    hide Steps.CompleteSession, Steps.Admissible, CardOf, CountBySession, ActiveSessions.OtherRunning,
      ActiveSessions.FindsRunning;
    var b := Steps.Next(a, Steps.Complete(r));
    assert b.orders == a.orders by { OrdersStay(a, r); }
    hide Steps.Next;
    forall pick: Option<nat> | ValidPick(b.sessions, r.store, r.table, pick)
      ensures CardOf(b, r.store, t, pick, now) != Card(t.id, t.no, 0, [], false) <==>
                pick.Some? && OtherWithOrders(a, r, now, pick.value)
    {
      ActiveSessions.FoundAfterCompletion(a, r, now, pick);
      EmptyCardIff(b, r.store, t, pick, now);
    }
    if j :| OtherWithOrders(a, r, now, j) {
      assert j >= 0 by { ActiveSessions.IsARow(a, r, now, j); }
      var pick: Option<nat> := Some(j);
      ActiveSessions.FoundAfterCompletion(a, r, now, pick);
      assert CardOf(b, r.store, t, pick, now) != Card(t.id, t.no, 0, [], false);
    }
  }

  lemma OrdersStay(a: Db, r: Steps.CompleteRequest)
    requires Steps.Admissible(a, Steps.Complete(r))
    ensures Steps.Next(a, Steps.Complete(r)).orders == a.orders
  {
    hide ListBySession, Steps.ArchiveAll, CountPending;
  }
}
