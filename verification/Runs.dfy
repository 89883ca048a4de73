/** Whole runs of the service: any requests, in any order, starting from an empty database. */
module Runs {
  import opened Collections
  import opened Wrappers
  import opened Timestamp
  import opened Rows
  import opened Steps
  import opened OrderLists
  import opened Invariants
  import opened Transactions
  import Numbering
  import OrderNumber

  ghost predicate ValidRun(run: seq<Request>)
    decreases |run|, 0
  {
    run == [] || (ValidRun(run[..|run| - 1]) && Admissible(After(run[..|run| - 1]), run[|run| - 1]))
  }

  ghost function After(run: seq<Request>): Db
    requires ValidRun(run)
    decreases |run|, 1
  {
    if run == [] then EMPTY_DB else Next(After(run[..|run| - 1]), run[|run| - 1])
  }

  lemma EmptyInv()
    ensures Inv(EMPTY_DB)
  {}

  lemma {:induction false} ReachableInv(run: seq<Request>)
    requires ValidRun(run)
    ensures Inv(After(run))
  {
    hide Inv, Later, Next, Admissible;
    if run == [] {
      EmptyInv();
    } else {
      ReachableInv(run[..|run| - 1]);
      NextKeeps(After(run[..|run| - 1]), run[|run| - 1]);
    }
  }

  lemma {:induction false} PrefixValid(run: seq<Request>, n: nat)
    requires ValidRun(run) && n <= |run|
    ensures ValidRun(run[..n])
    decreases |run|
  {
    if n < |run| {
      PrefixValid(run[..|run| - 1], n);
      assert run[..|run| - 1][..n] == run[..n];
    } else {
      assert run[..n] == run;
    }
  }

  lemma StepOf(run: seq<Request>, n: nat)
    requires ValidRun(run) && n < |run|
    ensures ValidRun(run[..n]) && ValidRun(run[..n + 1]) && Admissible(After(run[..n]), run[n])
    ensures After(run[..n + 1]) == Next(After(run[..n]), run[n])
  {
    hide Next, Admissible;
    PrefixValid(run, n + 1);
    assert run[..n + 1][..n] == run[..n];
  }

  /** The database only ever develops forwards. */
  lemma {:induction false} RunLater(run: seq<Request>, n: nat)
    requires ValidRun(run) && n <= |run|
    ensures ValidRun(run[..n]) && Later(After(run[..n]), After(run))
    decreases |run|
  {
    hide Inv, Later, Next, Admissible;
    PrefixValid(run, n);
    if n == |run| {
      assert run[..n] == run;
      LaterReflexive(After(run));
    } else {
      var front := run[..|run| - 1];
      RunLater(front, n);
      assert front[..n] == run[..n];
      ReachableInv(front);
      NextKeeps(After(front), run[|run| - 1]);
      LaterTransitive(After(run[..n]), After(front), After(run));
    }
  }

  // ---------- Sessions ----------

  /**
    Once a session is expired or completed, it stays as it is, and its orders are for good the ones
    it has now, with the contents they have now.
   */
  lemma ClosedSessionFrozen(run: seq<Request>, n: nat, j: nat)
    requires ValidRun(run) && n <= |run| && ValidRun(run[..n])
    requires j < |After(run[..n]).sessions| && After(run[..n]).sessions[j].status != SessionStatus.Active
    ensures var (before, now) := (After(run[..n]), After(run));
            && j < |now.sessions| && now.sessions[j] == before.sessions[j]
            && |before.orders| <= |now.orders|
            && forall i :: 0 <= i < |now.orders| && now.orders[i].session == now.sessions[j].id ==>
                 i < |before.orders| && Core(now.orders[i]) == Core(before.orders[i])
  {
    RunLater(run, n);
    var (a, b) := (After(run[..n]), After(run));
    assert SessionLater(a.sessions[j], b.sessions[j]);
    forall i | 0 <= i < |b.orders| && b.orders[i].session == b.sessions[j].id
      ensures i < |a.orders| && Core(b.orders[i]) == Core(a.orders[i])
    {
      if i < |a.orders| { assert OrderLater(a.orders[i], b.orders[i]); }
    }
  }

  /** Once a session is closed, the tokens that name it place no more orders, however long the run goes on. */
  lemma ClosedSessionTakesNoOrders(run: seq<Request>, n: nat, j: nat, q: CreateRequest)
    requires ValidRun(run) && n <= |run| && ValidRun(run[..n])
    requires j < |After(run[..n]).sessions| && After(run[..n]).sessions[j].status != SessionStatus.Active
    requires Admissible(After(run), Create(q)) && q.tokenSession == Some(After(run[..n]).sessions[j].id)
    ensures CreateOrder(After(run), q) ==
            (After(run), Failure(if q.items == [] then OrderEmpty else if q.table.None? then Forbidden else SessionClosed))
  {
    hide Inv, Admissible, CreateOrder, Core;
    ClosedSessionFrozen(run, n, j);
    ReachableInv(run);
    hide ValidRun, After;
    TokenOfClosed(After(run), j, q);
  }

  lemma TokenOfClosed(a: Db, j: nat, q: CreateRequest)
    requires Inv(a) && j < |a.sessions| && a.sessions[j].status != SessionStatus.Active
    requires Admissible(a, Create(q)) && q.tokenSession == Some(a.sessions[j].id)
    ensures CreateOrder(a, q) ==
            (a, Failure(if q.items == [] then OrderEmpty else if q.table.None? then Forbidden else SessionClosed))
  {
    NotTheSame(a, j);
    hide Inv;
  }

  lemma NotTheSame(a: Db, j: nat)
    requires Inv(a) && j < |a.sessions| && a.sessions[j].status != SessionStatus.Active
    ensures forall i :: 0 <= i < |a.sessions| && a.sessions[i].status == SessionStatus.Active ==> a.sessions[i].id != a.sessions[j].id
  {
    OnlyOneSession(a.sessions, j);
  }

  /**
    Request `q`, taking the database from `a` to `b`, placed order number `i`, now `o`, in a session open to
    it: with the lines requested, at the prices of the menu at that time.
   */
  ghost predicate PlacedBy(a: Db, q: Request, b: Db, i: nat, o: Order) {
    && q.Create? && q.create.table.Some?
    && |a.orders| == i < |b.orders| && Core(b.orders[i]) == Core(o)
    && LinesFit(a.menus, q.create.store, q.create.items, o.items) && o.total == PriceSum(o.items)
    && o.id == q.create.orderId && o.store == q.create.store && o.table == q.create.table.value
    && o.createdAt == q.create.createdAt && o.date == q.create.today
    && exists j :: 0 <= j < |b.sessions| && OpenFor(b.sessions[j], q.create, q.create.table.value, o.session)
  }

  /** Every order of a run was placed by a request that found its session active, unexpired and its own. */
  lemma {:induction false} OrdersComeFromOpenSessions(run: seq<Request>, i: nat) returns (n: nat)
    requires ValidRun(run) && i < |After(run).orders|
    ensures n < |run| && ValidRun(run[..n]) && ValidRun(run[..n + 1])
    ensures PlacedBy(After(run[..n]), run[n], After(run[..n + 1]), i, After(run).orders[i])
  {
    hide Inv, Next, Admissible, PlacedBy, SessionsLater, ClosedFrozen, Core;
    var m := |run| - 1;
    var front := run[..m];
    var (a, b) := (After(front), After(run));
    ReachableInv(front);
    NextKeeps(a, run[m]);
    if i < |a.orders| {
      n := OrdersComeFromOpenSessions(front, i);
      assert front[..n] == run[..n] && front[..n + 1] == run[..n + 1];
      SamePlacing(After(run[..n]), run[n], After(run[..n + 1]), i, a.orders[i], b.orders[i]);
    } else {
      n := m;
      assert run[..m + 1] == run;
      PlacedNow(a, run[m], i);
    }
  }

  lemma SamePlacing(a: Db, q: Request, b: Db, i: nat, o: Order, p: Order)
    requires PlacedBy(a, q, b, i, o) && OrderLater(o, p)
    ensures PlacedBy(a, q, b, i, p)
  {
    CoreFields(o, p);
  }

  lemma PlacedNow(a: Db, q: Request, i: nat)
    requires Inv(a) && Admissible(a, q) && |a.orders| <= i < |Next(a, q).orders|
    ensures PlacedBy(a, q, Next(a, q), i, Next(a, q).orders[i])
  {
    NewOrderNeedsCreate(a, q);
    CreateGoesToOpenSession(a, q.create);
  }

  lemma NewOrderNeedsCreate(a: Db, q: Request)
    requires Admissible(a, q) && |Next(a, q).orders| > |a.orders|
    ensures q.Create? && CreateOrder(a, q.create).1.Success?
  {}

  // ---------- History ----------

  /**
    In every reachable state each order is in the history at most once, with status COMPLETED and
    the contents of the order; its session is completed; and no live order of a completed session is missing.
   */
  lemma HistoryIsFaithful(run: seq<Request>)
    requires ValidRun(run)
    ensures var db := After(run);
            && (forall k, m :: 0 <= k < m < |db.histories| ==> db.histories[k].order != db.histories[m].order)
            && (forall k :: 0 <= k < |db.histories| ==> HistorySound(db.sessions, db.orders, db.histories[k]))
            && (forall i, j :: 0 <= i < |db.orders| && 0 <= j < |db.sessions| && OwedTo(db.orders[i], db.sessions[j])
                  ==> InHistory(db.histories, db.orders[i].id))
  {
    ReachableInv(run);
    InvHistories(After(run));
  }

  lemma InvHistories(db: Db)
    requires Inv(db)
    ensures forall k, m :: 0 <= k < m < |db.histories| ==> db.histories[k].order != db.histories[m].order
    ensures forall k :: 0 <= k < |db.histories| ==> HistorySound(db.sessions, db.orders, db.histories[k])
    ensures forall i, j :: 0 <= i < |db.orders| && 0 <= j < |db.sessions| && OwedTo(db.orders[i], db.sessions[j])
              ==> InHistory(db.histories, db.orders[i].id)
  {}

  /** A live order is in the history exactly if its session was completed: one that expired is never archived. */
  lemma ArchivedIffCompleted(run: seq<Request>, i: nat, j: nat)
    requires ValidRun(run) && i < |After(run).orders| && j < |After(run).sessions|
    requires After(run).orders[i].deletedAt.None? && After(run).orders[i].session == After(run).sessions[j].id
    ensures InHistory(After(run).histories, After(run).orders[i].id) <==> After(run).sessions[j].status == SessionStatus.Completed
  {
    ReachableInv(run);
    hide ValidRun, After;
    ArchivedOfSession(After(run), i, j);
  }

  lemma ArchivedOfSession(a: Db, i: nat, j: nat)
    requires Inv(a) && i < |a.orders| && j < |a.sessions| && a.orders[i].deletedAt.None? && a.orders[i].session == a.sessions[j].id
    ensures InHistory(a.histories, a.orders[i].id) <==> a.sessions[j].status == SessionStatus.Completed
  {
    hide Numbering.Consecutive, OrderSound, ArchivedOnce, TablesOk, SessionSound;
    if k :| 0 <= k < |a.histories| && a.histories[k].order == a.orders[i].id {
      assert HistorySound(a.sessions, a.orders, a.histories[k]);
      var m :| 0 <= m < |a.orders| && CopyOf(a.histories[k], a.orders[m]);
      assert m == i;
      var n :| 0 <= n < |a.sessions| && ClosedAt(a.sessions[n], a.histories[k]);
      OnlyOneSession(a.sessions, j);
    }
    if a.sessions[j].status == SessionStatus.Completed { assert OwedTo(a.orders[i], a.sessions[j]); }
  }

  /** The rows a completion adds to the history. */
  ghost function RowsArchived(a: Db, r: CompleteRequest): seq<History>
    requires Admissible(a, Complete(r)) && r.pick.Some?
  {
    var session := a.sessions[r.pick.value].id;
    ArchiveAll(ListBySession(a.orders, r.store, session), r.historyIds, r.store, session, r.completedAt)
  }

  lemma RowsAreAppended(a: Db, r: CompleteRequest)
    requires Admissible(a, Complete(r)) && CompleteSession(a, r).1.Success?
    ensures r.pick.Some? && r.pick.value < |a.sessions|
    ensures Next(a, Complete(r)).histories == a.histories + RowsArchived(a, r)
    ensures HistoryTotal(RowsArchived(a, r)) == SumTableTotal(a.orders, r.store, a.sessions[r.pick.value].id)
  {
    hide ListBySession, SumTableTotal, HistoryTotal, ValidPick;
    CompleteArchives(a, r);
    var rows := RowsArchived(a, r);
    assert (a.histories + rows)[|a.histories|..] == rows;
  }

  /** What a completion archived is there for good, and comes to the table's total just before it. */
  lemma ArchivedForGood(run: seq<Request>, n: nat)
    requires ValidRun(run) && n < |run| && run[n].Complete? && ValidRun(run[..n])
    requires Admissible(After(run[..n]), run[n]) && CompleteSession(After(run[..n]), run[n].complete).1.Success?
    ensures var (a, r, final) := (After(run[..n]), run[n].complete, After(run).histories);
            && r.pick.Some? && r.pick.value < |a.sessions|
            && var rows := RowsArchived(a, r);
            && |a.histories| + |rows| <= |final|
            && final[|a.histories|..|a.histories| + |rows|] == rows
            && HistoryTotal(rows) == SumTableTotal(a.orders, r.store, a.sessions[r.pick.value].id)
  {
    hide *;
    var (a, r) := (After(run[..n]), run[n].complete);
    RowsAreAppended(a, r);
    HistoryExtends(run, n);
    Embedded(a.histories, RowsArchived(a, r), After(run).histories);
  }

  lemma HistoryExtends(run: seq<Request>, n: nat)
    requires ValidRun(run) && n < |run|
    ensures ValidRun(run[..n]) && Admissible(After(run[..n]), run[n])
    ensures Next(After(run[..n]), run[n]).histories <= After(run).histories
  {
    hide *;
    StepOf(run, n);
    RunLater(run, n + 1);
    HistoriesGrow(After(run[..n + 1]), After(run));
  }

  lemma HistoriesGrow(a: Db, b: Db)
    requires Later(a, b)
    ensures a.histories <= b.histories
  {}

  lemma Embedded(a: seq<History>, rows: seq<History>, c: seq<History>)
    requires a + rows <= c
    ensures |a| + |rows| <= |c| && c[|a|..|a| + |rows|] == rows
  {
    assert c[|a|..|a| + |rows|] == (a + rows)[|a|..];
  }

  // ---------- Lists ----------

  /** Orders created at the same moment carry the same day. */
  ghost predicate SameMomentSameDay(orders: seq<Order>) {
    forall i, j :: 0 <= i < |orders| && 0 <= j < |orders| && orders[i].createdAt == orders[j].createdAt ==>
      orders[i].date == orders[j].date
  }

  lemma KeysDistinct(db: Db, store: Id, session: Id)
    requires Inv(db) && SameMomentSameDay(db.orders)
    ensures DistinctKeys(ListBySession(db.orders, store, session))
  {
    hide Inv, OrdersOk, ListBySession, DistinctIds;
    var list := ListBySession(db.orders, store, session);
    InvDistinct(db);
    ListMembers(db.orders, store, session);
    ListDistinct(db.orders, store, session);
    forall i, j | 0 <= i < j < |list|
      ensures list[i].createdAt != list[j].createdAt || list[i].seqNo != list[j].seqNo
    {
      assert list[i] in list && list[j] in list;
      var m :| 0 <= m < |db.orders| && db.orders[m] == list[i];
      var n :| 0 <= n < |db.orders| && db.orders[n] == list[j];
      DifferentIds(list, i, j);
      DifferentSlots(db.orders, m, n);
    }
  }

  lemma InvDistinct(db: Db)
    requires Inv(db)
    ensures OrdersOk(db.orders) && DistinctIds(db.orders)
  {}

  lemma DifferentIds(orders: seq<Order>, i: nat, j: nat)
    requires DistinctIds(orders) && i < j < |orders|
    ensures orders[i].id != orders[j].id
  {}

  lemma DifferentSlots(orders: seq<Order>, m: nat, n: nat)
    requires OrdersOk(orders) && m < |orders| && n < |orders| && orders[m].id != orders[n].id
    ensures SlotsOf(orders)[m] != SlotsOf(orders)[n]
  {
    hide DistinctIds, Numbering.Consecutive, SlotsOf;
    Numbering.NumbersDistinct(SlotsOf(orders), if m < n then m else n, if m < n then n else m);
  }

  /** In every reachable state whose clock read one day at each moment, the pages of separate queries fit together. */
  lemma ReachablePages(run: seq<Request>, answers: seq<seq<Order>>, store: Id, session: Id, size: nat)
    requires ValidRun(run) && SameMomentSameDay(After(run).orders)
    requires size >= 1 && |answers| == TotalPages(CountBySession(After(run).orders, store, session), size)
    requires forall i :: 0 <= i < |answers| ==> AscendingArrangement(answers[i], After(run).orders, store, session)
    ensures JoinedPages(answers, size) == ListBySession(After(run).orders, store, session)
  {
    ReachableInv(run);
    hide *;
    KeysDistinct(After(run), store, session);
    PagesOfSeparateQueries(answers, After(run).orders, store, session, size);
  }

  // ---------- Money ----------

  /** The money a request brings to a session's table: an order placed counts, a deleted one counts back. */
  function Flow(a: Db, q: Request, store: Id, session: Id): int
    requires q.Create? && q.create.pick.Some? ==> q.create.pick.value < |a.sessions|
  {
    match q
    case Create(r) =>
      (match CreateOrder(a, r).1
       case Failure(_) => 0
       case Success(o) => if o.store == store && o.session == session then PriceSum(o.items) else 0)
    case Delete(r) =>
      (match FindOrder(a.orders, r.store, r.order)
       case None => 0
       case Some(i) => if a.orders[i].store == store && a.orders[i].session == session then -PriceSum(a.orders[i].items) else 0)
    case _ => 0
  }

  lemma CreateFlow(a: Db, r: CreateRequest, store: Id, session: Id)
    requires Inv(a) && Admissible(a, Create(r))
    ensures SumTableTotal(CreateOrder(a, r).0.orders, store, session)
            == SumTableTotal(a.orders, store, session) + Flow(a, Create(r), store, session)
  {
    hide Inv, CreateOrder, SumTableTotal, Later;
    if CreateOrder(a, r).1.Success? {
      CreateGoesToOpenSession(a, r);
      CreateKeeps(a, r);
      LastIsSound(CreateOrder(a, r).0);
      SumSnoc(a.orders, CreateOrder(a, r).1.value, store, session);
    } else {
      NoOrderNoChange(a, r);
    }
  }

  lemma NoOrderNoChange(a: Db, r: CreateRequest)
    requires r.pick.Some? ==> r.pick.value < |a.sessions|
    requires CreateOrder(a, r).1.Failure?
    ensures CreateOrder(a, r).0 == a
  {}

  lemma DeleteFlow(a: Db, r: DeleteRequest, store: Id, session: Id)
    requires Inv(a)
    ensures SumTableTotal(DeleteOrder(a, r).0.orders, store, session)
            == SumTableTotal(a.orders, store, session) + Flow(a, Delete(r), store, session)
  {
    hide Inv, SumTableTotal;
    var found := FindOrder(a.orders, r.store, r.order);
    if found.Some? {
      var o := a.orders[found.value];
      assert o.total == PriceSum(o.items) by { OrderWithInv(a, found.value); }
      SumUpdate(a.orders, found.value, o.(deletedAt := Some(r.at), deletedBy := Some(r.actor)), store, session);
    }
  }

  lemma OrderWithInv(a: Db, i: nat)
    requires Inv(a) && i < |a.orders|
    ensures a.orders[i].total == PriceSum(a.orders[i].items)
  {
    hide OrdersOk, HistoriesSound, NothingLost, TablesOk, SessionsOk;
    assert OrderSound(a.sessions, a.orders[i]);
  }

  lemma StepFlow(a: Db, q: Request, store: Id, session: Id)
    requires Inv(a) && Admissible(a, q)
    ensures SumTableTotal(Next(a, q).orders, store, session) == SumTableTotal(a.orders, store, session) + Flow(a, q, store, session)
  {
    hide Inv, SumTableTotal, CreateOrder, DeleteOrder;
    match q
    case Create(r) => CreateFlow(a, r, store, session);
    case Delete(r) => DeleteFlow(a, r, store, session);
    case Status(r) =>
      var found := FindOrder(a.orders, r.store, r.order);
      if found.Some? { SumUpdate(a.orders, found.value, a.orders[found.value].(status := r.status), store, session); }
    case Setup(r) => OtherFlow(a, q);
    case Login(r) => OtherFlow(a, q);
    case Complete(r) => OtherFlow(a, q);
    case EditMenus(_) => OtherFlow(a, q);
  }

  lemma OtherFlow(a: Db, q: Request)
    requires Admissible(a, q) && (q.Setup? || q.Login? || q.Complete? || q.EditMenus?)
    ensures Next(a, q).orders == a.orders
  {}

  lemma LastIsSound(b: Db)
    requires Inv(b) && b.orders != []
    ensures b.orders[|b.orders| - 1].total == PriceSum(b.orders[|b.orders| - 1].items)
  {
    OrderWithInv(b, |b.orders| - 1);
  }

  ghost function FlowOf(run: seq<Request>, store: Id, session: Id): int
    requires ValidRun(run)
  {
    if run == [] then 0
    else FlowOf(run[..|run| - 1], store, session) + Flow(After(run[..|run| - 1]), run[|run| - 1], store, session)
  }

  /** At any time a session's total is what was ordered less what was deleted, whatever happened to the menu. */
  lemma {:induction false} MoneyBalance(run: seq<Request>, store: Id, session: Id)
    requires ValidRun(run)
    ensures SumTableTotal(After(run).orders, store, session) == FlowOf(run, store, session)
  {
    if run != [] {
      hide Inv, Next, Admissible, Flow, SumTableTotal;
      var front := run[..|run| - 1];
      MoneyBalance(front, store, session);
      ReachableInv(front);
      StepFlow(After(front), run[|run| - 1], store, session);
    } else {
      assert SumTableTotal([], store, session) == 0;
    }
  }

  // ---------- Numbers ----------

  /** Order numbers in the database are 1..n for each store and day, and printed they are unique over all of them. */
  lemma OrderNumbersUnique(run: seq<Request>, i: nat, j: nat)
    requires ValidRun(run) && i < j < |After(run).orders|
    ensures After(run).orders[i].number != After(run).orders[j].number
  {
    ReachableInv(run);
    var db := After(run);
    var (o, p) := (db.orders[i], db.orders[j]);
    assert OrderSound(db.sessions, o) && OrderSound(db.sessions, p);
    Numbering.NumbersDistinct(SlotsOf(db.orders), i, j);
    CompactInjective(o.date, p.date);
    CompactInjective(p.date, o.date);
    hide Inv;
    OrderNumber.FormatInjective(o.store, DateCompact(o.date), o.seqNo, p.store, DateCompact(p.date), p.seqNo);
  }
}
