/** What every service step keeps true of the database. */
module Invariants {
  import opened Wrappers
  import opened Timestamp
  import opened Rows
  import opened Steps
  import opened OrderLists
  import Numbering
  import OrderNumber

  // ---------- The invariant ----------

  ghost predicate SessionIdsUnique(sessions: seq<Session>) {
    forall i, j :: 0 <= i < j < |sessions| ==> sessions[i].id != sessions[j].id
  }

  /** Sixteen hours of life; a completion time exactly when completed. */
  ghost predicate SessionSound(s: Session) {
    s.expiresAt == s.startedAt + SESSION_TTL && (s.completedAt.Some? <==> s.status == SessionStatus.Completed)
  }

  ghost predicate SessionIs(s: Session, store: Id, table: Id, id: Id) {
    s.id == id && s.store == store && s.table == table
  }

  ghost predicate HasSession(sessions: seq<Session>, store: Id, table: Id, id: Id) {
    exists j :: 0 <= j < |sessions| && SessionIs(sessions[j], store, table, id)
  }

  /** The money an order is worth, from its own lines. */
  function PriceSum(items: seq<Item>): int {
    if items == [] then 0
    else PriceSum(items[..|items| - 1]) + items[|items| - 1].unitPrice * items[|items| - 1].quantity
  }

  ghost predicate OrderSound(sessions: seq<Session>, o: Order) {
    && o.total == PriceSum(o.items)
    && HasSession(sessions, o.store, o.table, o.session)
    && o.seqNo >= 1 && o.number == OrderNumber.FormatOrderNumber(o.store, DateCompact(o.date), o.seqNo)
  }

  function SlotsOf(orders: seq<Order>): (slots: seq<Numbering.Slot>)
    ensures |slots| == |orders|
    ensures forall i :: 0 <= i < |orders| ==> slots[i] == Numbering.Slot(orders[i].store, orders[i].date, orders[i].seqNo)
  {
    seq(|orders|, i requires 0 <= i < |orders| => Numbering.Slot(orders[i].store, orders[i].date, orders[i].seqNo))
  }

  /** The history row is a copy of the order, but for the status and the marks that may change later. */
  ghost predicate CopyOf(h: History, o: Order) {
    && h.order == o.id && h.store == o.store && h.table == o.table && h.session == o.session
    && h.number == o.number && h.total == o.total && h.createdAt == o.createdAt && h.items == o.items
  }

  ghost predicate HistorySound(sessions: seq<Session>, orders: seq<Order>, h: History) {
    && h.status == OrderStatus.Completed
    && (exists i :: 0 <= i < |orders| && CopyOf(h, orders[i]))
    && (exists j :: 0 <= j < |sessions| && ClosedAt(sessions[j], h))
  }

  ghost predicate ClosedAt(s: Session, h: History) {
    SessionIs(s, h.store, h.table, h.session) && s.status == SessionStatus.Completed && s.completedAt == Some(h.completedAt)
  }

  ghost predicate ArchivedOnce(histories: seq<History>) {
    forall i, j :: 0 <= i < j < |histories| ==> histories[i].order != histories[j].order
  }

  ghost predicate HistoryIdsUnique(histories: seq<History>) {
    forall i, j :: 0 <= i < j < |histories| ==> histories[i].id != histories[j].id
  }

  ghost predicate InHistory(histories: seq<History>, order: Id) {
    exists k :: 0 <= k < |histories| && histories[k].order == order
  }

  /** A live order of a completed session is in the history. */
  ghost predicate NothingLost(sessions: seq<Session>, orders: seq<Order>, histories: seq<History>) {
    forall i, j :: 0 <= i < |orders| && 0 <= j < |sessions| && OwedTo(orders[i], sessions[j])
      ==> InHistory(histories, orders[i].id)
  }

  ghost predicate OwedTo(o: Order, s: Session) {
    o.deletedAt.None? && s.id == o.session && s.status == SessionStatus.Completed
  }

  ghost predicate SessionsOk(sessions: seq<Session>) {
    SessionIdsUnique(sessions) && forall j :: 0 <= j < |sessions| ==> SessionSound(sessions[j])
  }

  ghost predicate OrdersOk(orders: seq<Order>) {
    DistinctIds(orders) && Numbering.Consecutive(SlotsOf(orders))
  }

  ghost predicate OrdersSound(sessions: seq<Session>, orders: seq<Order>) {
    forall i :: 0 <= i < |orders| ==> OrderSound(sessions, orders[i])
  }

  ghost predicate HistoriesSound(sessions: seq<Session>, orders: seq<Order>, histories: seq<History>) {
    forall k :: 0 <= k < |histories| ==> HistorySound(sessions, orders, histories[k])
  }

  ghost predicate TablesOk(tables: seq<Table>) {
    forall i, j :: 0 <= i < j < |tables| ==>
      tables[i].id != tables[j].id && (tables[i].store != tables[j].store || tables[i].no != tables[j].no)
  }

  ghost predicate Inv(db: Db) {
    && TablesOk(db.tables)
    && SessionsOk(db.sessions)
    && OrdersOk(db.orders)
    && OrdersSound(db.sessions, db.orders)
    && HistoriesSound(db.sessions, db.orders, db.histories)
    && ArchivedOnce(db.histories) && HistoryIdsUnique(db.histories)
    && NothingLost(db.sessions, db.orders, db.histories)
  }

  const EMPTY_DB := Db([], [], [], [], [])

  // ---------- How a database may develop ----------

  /** Everything in an order but its status and its deletion marks. */
  function Core(o: Order): Order {
    o.(status := OrderStatus.Pending, deletedAt := None, deletedBy := None)
  }

  ghost predicate SessionLater(s: Session, t: Session) {
    && s.id == t.id && s.store == t.store && s.table == t.table && s.startedAt == t.startedAt && s.expiresAt == t.expiresAt
    && (s.status != SessionStatus.Active ==> t == s)
  }

  ghost predicate OrderLater(o: Order, p: Order) {
    Core(o) == Core(p) && (o.deletedAt.Some? ==> p == o)
  }

  ghost predicate SessionsLater(s: seq<Session>, t: seq<Session>) {
    |s| <= |t| && forall j :: 0 <= j < |s| ==> SessionLater(s[j], t[j])
  }

  ghost predicate OrdersLater(o: seq<Order>, p: seq<Order>) {
    |o| <= |p| && forall i :: 0 <= i < |o| ==> OrderLater(o[i], p[i])
  }

  /** Sessions that are closed in `s` have in `p` only orders they had in `o`. */
  ghost predicate ClosedFrozen(s: seq<Session>, o: seq<Order>, p: seq<Order>) {
    forall i, j :: |o| <= i < |p| && 0 <= j < |s| && s[j].status != SessionStatus.Active ==> p[i].session != s[j].id
  }

  /** Sessions close for good, orders keep their contents, history only grows, and closed sessions get no orders. */
  ghost predicate Later(a: Db, b: Db) {
    && SessionsLater(a.sessions, b.sessions)
    && OrdersLater(a.orders, b.orders)
    && a.histories <= b.histories
    && ClosedFrozen(a.sessions, a.orders, b.orders)
  }

  lemma LaterReflexive(a: Db)
    ensures Later(a, a)
  {}

  lemma CoreFields(o: Order, p: Order)
    requires Core(o) == Core(p)
    ensures o.id == p.id && o.store == p.store && o.table == p.table && o.session == p.session && o.number == p.number
    ensures o.seqNo == p.seqNo && o.date == p.date && o.total == p.total && o.createdAt == p.createdAt && o.items == p.items
  {
    var (x, y) := (Core(o), Core(p));
    assert x.id == y.id && x.store == y.store && x.table == y.table && x.session == y.session && x.number == y.number;
    assert x.seqNo == y.seqNo && x.date == y.date && x.total == y.total && x.createdAt == y.createdAt && x.items == y.items;
  }

  lemma SessionsLaterTransitive(s: seq<Session>, t: seq<Session>, u: seq<Session>)
    requires SessionsLater(s, t) && SessionsLater(t, u)
    ensures SessionsLater(s, u)
  {
    forall j | 0 <= j < |s|
      ensures SessionLater(s[j], u[j])
    {
      assert SessionLater(s[j], t[j]) && SessionLater(t[j], u[j]);
    }
  }

  lemma OrdersLaterTransitive(o: seq<Order>, p: seq<Order>, q: seq<Order>)
    requires OrdersLater(o, p) && OrdersLater(p, q)
    ensures OrdersLater(o, q)
  {
    forall i | 0 <= i < |o|
      ensures OrderLater(o[i], q[i])
    {
      assert OrderLater(o[i], p[i]) && OrderLater(p[i], q[i]);
    }
  }

  lemma LaterTransitive(a: Db, b: Db, c: Db)
    requires Later(a, b) && Later(b, c)
    ensures Later(a, c)
  {
    SessionsLaterTransitive(a.sessions, b.sessions, c.sessions);
    OrdersLaterTransitive(a.orders, b.orders, c.orders);
    forall i, j | |a.orders| <= i < |c.orders| && 0 <= j < |a.sessions| && a.sessions[j].status != SessionStatus.Active
      ensures c.orders[i].session != a.sessions[j].id
    {
      assert SessionLater(a.sessions[j], b.sessions[j]);
      if i < |b.orders| {
        assert OrderLater(b.orders[i], c.orders[i]);
        CoreFields(b.orders[i], c.orders[i]);
      }
    }
  }

  // ---------- What earlier rows owe stays paid ----------

  lemma OrderSoundLater(s: seq<Session>, t: seq<Session>, o: Order, p: Order)
    requires OrderSound(s, o) && SessionsLater(s, t) && OrderLater(o, p)
    ensures OrderSound(t, p)
  {
    CoreFields(o, p);
    var j :| 0 <= j < |s| && SessionIs(s[j], o.store, o.table, o.session);
    assert SessionLater(s[j], t[j]);
    assert SessionIs(t[j], o.store, o.table, o.session);
  }

  lemma OrdersSoundLater(s: seq<Session>, t: seq<Session>, o: seq<Order>, p: seq<Order>)
    requires OrdersSound(s, o) && SessionsLater(s, t) && OrdersLater(o, p)
    ensures |o| == |p| ==> OrdersSound(t, p)
  {
    forall i | 0 <= i < |o|
      ensures OrderSound(t, p[i])
    {
      assert OrderSound(s, o[i]) && OrderLater(o[i], p[i]);
      OrderSoundLater(s, t, o[i], p[i]);
    }
  }

  lemma HistorySoundLater(s: seq<Session>, t: seq<Session>, o: seq<Order>, p: seq<Order>, h: History)
    requires HistorySound(s, o, h) && SessionsLater(s, t) && OrdersLater(o, p)
    ensures HistorySound(t, p, h)
  {
    var i :| 0 <= i < |o| && CopyOf(h, o[i]);
    assert OrderLater(o[i], p[i]);
    CoreFields(o[i], p[i]);
    assert CopyOf(h, p[i]);
    var j :| 0 <= j < |s| && ClosedAt(s[j], h);
    assert SessionLater(s[j], t[j]);
    assert ClosedAt(t[j], h);
  }

  lemma HistoriesSoundLater(s: seq<Session>, t: seq<Session>, o: seq<Order>, p: seq<Order>, hs: seq<History>)
    requires HistoriesSound(s, o, hs) && SessionsLater(s, t) && OrdersLater(o, p)
    ensures HistoriesSound(t, p, hs)
  {
    forall k | 0 <= k < |hs|
      ensures HistorySound(t, p, hs[k])
    {
      assert HistorySound(s, o, hs[k]);
      HistorySoundLater(s, t, o, p, hs[k]);
    }
  }

  lemma OrdersOkLater(o: seq<Order>, p: seq<Order>)
    requires OrdersOk(o) && OrdersLater(o, p) && |o| == |p|
    ensures OrdersOk(p)
  {
    forall i | 0 <= i < |o|
      ensures o[i].id == p[i].id && SlotsOf(o)[i] == SlotsOf(p)[i]
    {
      assert OrderLater(o[i], p[i]);
      CoreFields(o[i], p[i]);
    }
    assert SlotsOf(o) == SlotsOf(p);
  }

  lemma SameOrdersLater(o: seq<Order>)
    ensures OrdersLater(o, o)
  {}

  lemma SameSessionsLater(s: seq<Session>)
    ensures SessionsLater(s, s)
  {}

  // ---------- The effects a step is made of ----------

  /** Sessions may expire, and new ones may start. */
  lemma SessionsChange(a: Db, t: seq<Session>)
    requires Inv(a) && SessionsOk(t) && SessionsLater(a.sessions, t)
    requires forall j :: 0 <= j < |t| && t[j].status == SessionStatus.Completed ==> j < |a.sessions| && t[j] == a.sessions[j]
    ensures var b := a.(sessions := t); Inv(b) && Later(a, b)
  {
    SameOrdersLater(a.orders);
    OrdersSoundLater(a.sessions, t, a.orders, a.orders);
    HistoriesSoundLater(a.sessions, t, a.orders, a.orders, a.histories);
    hide OrderSound, HistorySound, SessionLater, OrderLater, OrdersOk, SessionsOk, SessionsLater, OrdersLater;
  }

  lemma AddSessionKeeps(a: Db, s: Session)
    requires Inv(a) && FreshSession(a, s.id) && SessionSound(s) && s.status == SessionStatus.Active
    ensures Inv(AddSession(a, s)) && Later(a, AddSession(a, s))
  {
    hide OrdersOk, OrdersSound, HistoriesSound, ArchivedOnce, HistoryIdsUnique, NothingLost, TablesOk;
    SessionsChange(a, a.sessions + [s]);
  }

  lemma MarkExpiredKeeps(a: Db, i: nat)
    requires Inv(a) && i < |a.sessions| && a.sessions[i].status == SessionStatus.Active
    ensures var b := MarkSession(a, i, SessionStatus.Expired, None); Inv(b) && Later(a, b)
  {
    hide OrdersOk, OrdersSound, HistoriesSound, ArchivedOnce, HistoryIdsUnique, NothingLost, TablesOk;
    SessionsChange(a, MarkSession(a, i, SessionStatus.Expired, None).sessions);
  }

  /** One order may change its status or be marked deleted. */
  lemma OrderChangeKeeps(a: Db, i: nat, o: Order)
    requires Inv(a) && i < |a.orders| && OrderLater(a.orders[i], o)
    ensures var b := a.(orders := a.orders[i := o]); Inv(b) && Later(a, b)
  {
    var p := a.orders[i := o];
    CoreFields(a.orders[i], o);
    assert OrdersLater(a.orders, p);
    SameSessionsLater(a.sessions);
    OrdersOkLater(a.orders, p);
    OrdersSoundLater(a.sessions, a.sessions, a.orders, p);
    HistoriesSoundLater(a.sessions, a.sessions, a.orders, p, a.histories);
    OrderChangeLosesNothing(a, i, o);
    hide OrderSound, HistorySound, SessionLater, OrderLater, OrdersOk, SessionsOk, SessionsLater, OrdersLater,
        NothingLost, CopyOf;
  }

  lemma OrderChangeLosesNothing(a: Db, i: nat, o: Order)
    requires NothingLost(a.sessions, a.orders, a.histories) && i < |a.orders| && OrderLater(a.orders[i], o)
    ensures NothingLost(a.sessions, a.orders[i := o], a.histories)
  {
    CoreFields(a.orders[i], o);
    var p := a.orders[i := o];
    forall n, j | 0 <= n < |p| && 0 <= j < |a.sessions| && OwedTo(p[n], a.sessions[j])
      ensures InHistory(a.histories, p[n].id)
    {
      assert OwedTo(a.orders[n], a.sessions[j]);
    }
  }

  /** A new order goes to an active session, with the next number. */
  lemma AppendOrderKeeps(a: Db, o: Order, j: nat)
    requires Inv(a) && FreshOrder(a, o.id) && OrderSound(a.sessions, o)
    requires o.seqNo == Numbering.CountFor(SlotsOf(a.orders), o.store, o.date) + 1
    requires j < |a.sessions| && a.sessions[j].id == o.session && a.sessions[j].status == SessionStatus.Active
    ensures var b := a.(orders := a.orders + [o]); Inv(b) && Later(a, b)
  {
    hide OrderSound, OrdersSound, HistoriesSound, OrdersOk, SessionsOk, SessionsLater, OrdersLater, NothingLost,
        ClosedFrozen, TablesOk, ArchivedOnce, HistoryIdsUnique, FreshOrder;
    var p := a.orders + [o];
    AppendOrdersOk(a, o);
    SameSessionsLater(a.sessions);
    AppendOrdersLater(a.orders, o);
    AppendOrdersSound(a.sessions, a.orders, o);
    HistoriesSoundLater(a.sessions, a.sessions, a.orders, p, a.histories);
    AppendToActive(a, o, j);
  }

  lemma AppendOrdersSound(s: seq<Session>, orders: seq<Order>, o: Order)
    requires OrdersSound(s, orders) && OrderSound(s, o)
    ensures OrdersSound(s, orders + [o])
  {
    hide OrderSound;
  }

  lemma AppendToActive(a: Db, o: Order, j: nat)
    requires SessionsOk(a.sessions) && NothingLost(a.sessions, a.orders, a.histories)
    requires j < |a.sessions| && a.sessions[j].id == o.session && a.sessions[j].status == SessionStatus.Active
    ensures NothingLost(a.sessions, a.orders + [o], a.histories)
    ensures ClosedFrozen(a.sessions, a.orders, a.orders + [o])
  {
    var p := a.orders + [o];
    OnlyOneSession(a.sessions, j);
    forall i, n | 0 <= i < |p| && 0 <= n < |a.sessions| && OwedTo(p[i], a.sessions[n])
      ensures InHistory(a.histories, p[i].id)
    {
      assert i < |a.orders|;
      assert OwedTo(a.orders[i], a.sessions[n]);
    }
  }

  lemma AppendOrdersLater(o: seq<Order>, x: Order)
    ensures OrdersLater(o, o + [x])
  {}

  lemma AppendOrdersOk(a: Db, o: Order)
    requires OrdersOk(a.orders) && FreshOrder(a, o.id)
    requires o.seqNo == Numbering.CountFor(SlotsOf(a.orders), o.store, o.date) + 1
    ensures OrdersOk(a.orders + [o])
  {
    var x := Numbering.Slot(o.store, o.date, o.seqNo);
    assert SlotsOf(a.orders + [o]) == SlotsOf(a.orders) + [x];
    Numbering.ConsecutiveSnoc(SlotsOf(a.orders), x);
  }

  lemma OnlyOneSession(s: seq<Session>, j: nat)
    requires SessionsOk(s) && j < |s|
    ensures forall n :: 0 <= n < |s| && s[n].id == s[j].id ==> n == j
  {}

  /** Archiving a session whose orders are all done: one history row for each live order, and the session is closed. */
  lemma ArchiveKeeps(a: Db, j: nat, ids: seq<Id>, completedAt: int)
    requires Inv(a) && j < |a.sessions| && a.sessions[j].status == SessionStatus.Active && FreshHistories(a, ids)
    requires var s := a.sessions[j];
             && |ListBySession(a.orders, s.store, s.id)| <= |ids|
             && CountPending(a.orders, s.store, s.id) == 0
    ensures var s := a.sessions[j];
            var rows := ArchiveAll(ListBySession(a.orders, s.store, s.id), ids, s.store, s.id, completedAt);
            var b := MarkSession(a.(histories := a.histories + rows), j, SessionStatus.Completed, Some(completedAt));
            Inv(b) && Later(a, b)
  {
    hide OrderSound, OrdersSound, HistoriesSound, OrdersOk, SessionsOk, SessionsLater, OrdersLater, NothingLost,
        TablesOk, ArchivedOnce, HistoryIdsUnique, FreshHistories, ArchiveAll, ListBySession, WithStatus, CountPending;
    var s := a.sessions[j];
    var list := ListBySession(a.orders, s.store, s.id);
    var rows := ArchiveAll(list, ids, s.store, s.id, completedAt);
    var t := a.sessions[j := WithStatus(s, SessionStatus.Completed, Some(completedAt))];
    CloseSession(a.sessions, j, completedAt);
    SameOrdersLater(a.orders);
    OrdersSoundLater(a.sessions, t, a.orders, a.orders);
    HistoriesSoundLater(a.sessions, t, a.orders, a.orders, a.histories);
    RowsSound(a, j, ids, completedAt);
    RowsOnce(a, j, ids, completedAt);
    RowsLoseNothing(a, j, ids, completedAt);
    RowsHaveFreshIds(a, list, ids, s.store, s.id, completedAt);
    JoinSound(t, a.orders, a.histories, rows);
    assert a.histories <= a.histories + rows;
  }

  lemma RowsHaveFreshIds(a: Db, list: seq<Order>, ids: seq<Id>, store: Id, session: Id, completedAt: int)
    requires HistoryIdsUnique(a.histories) && FreshHistories(a, ids) && |list| <= |ids|
    ensures HistoryIdsUnique(a.histories + ArchiveAll(list, ids, store, session, completedAt))
  {
    hide ArchiveAll;
    var rows := ArchiveAll(list, ids, store, session, completedAt);
    assert forall k :: 0 <= k < |rows| ==> rows[k].id == ids[k];
  }

  lemma JoinSound(s: seq<Session>, orders: seq<Order>, histories: seq<History>, rows: seq<History>)
    requires HistoriesSound(s, orders, histories) && HistoriesSound(s, orders, rows)
    ensures HistoriesSound(s, orders, histories + rows)
  {
    hide HistorySound;
  }

  lemma CloseSession(s: seq<Session>, j: nat, completedAt: int)
    requires SessionsOk(s) && j < |s| && s[j].status == SessionStatus.Active
    ensures var t := s[j := WithStatus(s[j], SessionStatus.Completed, Some(completedAt))];
            SessionsOk(t) && SessionsLater(s, t)
  {}

  lemma RowsSound(a: Db, j: nat, ids: seq<Id>, completedAt: int)
    requires Inv(a) && j < |a.sessions|
    requires var s := a.sessions[j];
             && |ListBySession(a.orders, s.store, s.id)| <= |ids|
             && CountPending(a.orders, s.store, s.id) == 0
    ensures var s := a.sessions[j];
            var rows := ArchiveAll(ListBySession(a.orders, s.store, s.id), ids, s.store, s.id, completedAt);
            HistoriesSound(a.sessions[j := WithStatus(s, SessionStatus.Completed, Some(completedAt))], a.orders, rows)
  {
    hide Inv, ListBySession, CountPending, ArchiveAll, HistorySound, WithStatus, Archived;
    var s := a.sessions[j];
    var list := ListBySession(a.orders, s.store, s.id);
    var rows := ArchiveAll(list, ids, s.store, s.id, completedAt);
    ListMembers(a.orders, s.store, s.id);
    NonePending(a.orders, s.store, s.id);
    forall k | 0 <= k < |rows|
      ensures HistorySound(a.sessions[j := WithStatus(s, SessionStatus.Completed, Some(completedAt))], a.orders, rows[k])
    {
      assert list[k] in list;
      RowSound(a, j, list[k], ids[k], completedAt);
    }
  }

  lemma RowSound(a: Db, j: nat, o: Order, id: Id, completedAt: int)
    requires Inv(a) && j < |a.sessions| && o in a.orders && o.status == OrderStatus.Completed
    requires Live(o, a.sessions[j].store, a.sessions[j].id)
    ensures var s := a.sessions[j];
            HistorySound(a.sessions[j := WithStatus(s, SessionStatus.Completed, Some(completedAt))], a.orders,
                         Archived(o, id, s.store, s.id, completedAt))
  {
    hide Inv;
    var s := a.sessions[j];
    var row := Archived(o, id, s.store, s.id, completedAt);
    var i :| 0 <= i < |a.orders| && a.orders[i] == o;
    assert CopyOf(row, a.orders[i]);
    OrderOfSession(a, i, j);
    var t := a.sessions[j := WithStatus(s, SessionStatus.Completed, Some(completedAt))];
    assert ClosedAt(t[j], row);
  }

  /** An order that names a session by its id belongs to that session's table. */
  lemma OrderOfSession(a: Db, i: nat, j: nat)
    requires Inv(a) && i < |a.orders| && j < |a.sessions| && a.sessions[j].id == a.orders[i].session
    ensures SessionIs(a.sessions[j], a.orders[i].store, a.orders[i].table, a.orders[i].session)
  {
    var o := a.orders[i];
    assert OrderSound(a.sessions, o);
    var n :| 0 <= n < |a.sessions| && SessionIs(a.sessions[n], o.store, o.table, o.session);
    OnlyOneSession(a.sessions, j);
  }

  /** The rows of a session being closed are not in the history yet. */
  lemma RowsOnce(a: Db, j: nat, ids: seq<Id>, completedAt: int)
    requires Inv(a) && j < |a.sessions| && a.sessions[j].status == SessionStatus.Active
    requires var s := a.sessions[j]; |ListBySession(a.orders, s.store, s.id)| <= |ids|
    ensures var s := a.sessions[j];
            ArchivedOnce(a.histories + ArchiveAll(ListBySession(a.orders, s.store, s.id), ids, s.store, s.id, completedAt))
  {
    var s := a.sessions[j];
    var list := ListBySession(a.orders, s.store, s.id);
    var rows := ArchiveAll(list, ids, s.store, s.id, completedAt);
    ListMembers(a.orders, s.store, s.id);
    ListDistinct(a.orders, s.store, s.id);
    forall i, k | 0 <= i < |a.histories| && 0 <= k < |rows|
      ensures a.histories[i].order != rows[k].order
    {
      assert list[k] in list;
      NotArchivedYet(a, j, a.histories[i], list[k]);
    }
  }

  lemma NotArchivedYet(a: Db, j: nat, h: History, o: Order)
    requires Inv(a) && j < |a.sessions| && a.sessions[j].status == SessionStatus.Active
    requires h in a.histories && o in a.orders && o.session == a.sessions[j].id
    ensures h.order != o.id
  {
    hide Numbering.Consecutive, OrdersSound, NothingLost, ArchivedOnce, TablesOk, SessionSound;
    assert HistorySound(a.sessions, a.orders, h);
    var i :| 0 <= i < |a.orders| && CopyOf(h, a.orders[i]);
    var n :| 0 <= n < |a.sessions| && ClosedAt(a.sessions[n], h);
    OnlyOneSession(a.sessions, j);
    var m :| 0 <= m < |a.orders| && a.orders[m] == o;
    assert i != m;
  }

  lemma RowsLoseNothing(a: Db, j: nat, ids: seq<Id>, completedAt: int)
    requires Inv(a) && j < |a.sessions|
    requires var s := a.sessions[j]; |ListBySession(a.orders, s.store, s.id)| <= |ids|
    ensures var s := a.sessions[j];
            var rows := ArchiveAll(ListBySession(a.orders, s.store, s.id), ids, s.store, s.id, completedAt);
            NothingLost(a.sessions[j := WithStatus(s, SessionStatus.Completed, Some(completedAt))], a.orders, a.histories + rows)
  {
    var s := a.sessions[j];
    var list := ListBySession(a.orders, s.store, s.id);
    var rows := ArchiveAll(list, ids, s.store, s.id, completedAt);
    var t := a.sessions[j := WithStatus(s, SessionStatus.Completed, Some(completedAt))];
    hide ListBySession, ArchiveAll, OrdersOk, OrdersSound, HistoriesSound, ArchivedOnce, TablesOk, SessionsOk,
        NothingLost, InHistory, Live;
    forall i, n | 0 <= i < |a.orders| && 0 <= n < |t| && OwedTo(a.orders[i], t[n])
      ensures InHistory(a.histories + rows, a.orders[i].id)
    {
      if n == j {
        OwedHere(a, j, i, list, ids, completedAt);
      } else {
        OwedElsewhere(a, i, n);
        StillInHistory(a.histories, rows, a.orders[i].id);
      }
    }
    assert NothingLost(t, a.orders, a.histories + rows) by { LostNone(t, a.orders, a.histories + rows); }
  }

  lemma LostNone(s: seq<Session>, orders: seq<Order>, histories: seq<History>)
    requires forall i, n :: 0 <= i < |orders| && 0 <= n < |s| && OwedTo(orders[i], s[n]) ==> InHistory(histories, orders[i].id)
    ensures NothingLost(s, orders, histories)
  {}

  lemma OwedElsewhere(a: Db, i: nat, n: nat)
    requires NothingLost(a.sessions, a.orders, a.histories) && i < |a.orders| && n < |a.sessions|
             && OwedTo(a.orders[i], a.sessions[n])
    ensures InHistory(a.histories, a.orders[i].id)
  {}

  lemma StillInHistory(histories: seq<History>, rows: seq<History>, id: Id)
    requires InHistory(histories, id)
    ensures InHistory(histories + rows, id)
  {
    var k :| 0 <= k < |histories| && histories[k].order == id;
    assert (histories + rows)[k].order == id;
  }

  /** A live order of the session being closed is among the rows archived now. */
  lemma OwedHere(a: Db, j: nat, i: nat, list: seq<Order>, ids: seq<Id>, completedAt: int)
    requires Inv(a) && j < |a.sessions| && i < |a.orders|
    requires a.orders[i].deletedAt.None? && a.orders[i].session == a.sessions[j].id
    requires list == ListBySession(a.orders, a.sessions[j].store, a.sessions[j].id) && |list| <= |ids|
    ensures InHistory(a.histories + ArchiveAll(list, ids, a.sessions[j].store, a.sessions[j].id, completedAt), a.orders[i].id)
  {
    hide Inv, ListBySession, ArchiveAll, InHistory, HasSession;
    var s := a.sessions[j];
    OrderOfSession(a, i, j);
    ListMembers(a.orders, s.store, s.id);
    assert a.orders[i] in list;
    ListedIsArchived(a.histories, list, ids, s.store, s.id, completedAt, a.orders[i]);
  }

  lemma ListedIsArchived(histories: seq<History>, list: seq<Order>, ids: seq<Id>, store: Id, session: Id,
      completedAt: int, o: Order)
    requires |list| <= |ids| && o in list
    ensures InHistory(histories + ArchiveAll(list, ids, store, session, completedAt), o.id)
  {
    hide ArchiveAll;
    var rows := ArchiveAll(list, ids, store, session, completedAt);
    var k :| 0 <= k < |list| && list[k] == o;
    assert (histories + rows)[|histories| + k] == rows[k];
  }
}
