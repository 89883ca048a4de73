/**
  The services as they work: statement by statement on a unit of work, queries answered from flushed
  rows. Each is proved to commit what its step in `Steps` says, where writes apply at once; only the
  total that `DeleteOrder` returns differs.
 */
module Services {
  import opened Wrappers
  import opened Timestamp
  import opened Rows
  import opened OrderLists
  import opened Invariants
  import opened UnitOfWork
  import Numbering
  import OrderNumber
  import Steps
  import Transactions

  type Error = Steps.Error

  // ---------- Repository calls that write ----------

  method MarkSession(work: Work, i: nat, status: SessionStatus, completedAt: Option<int>)
    requires i < |work.View().sessions|
    modifies work`pending
    ensures work.View() == Steps.MarkSession(old(work.View()), i, status, completedAt)
  {
    var session := work.View().sessions[i].(status := status);
    if completedAt.Some? { session := session.(completedAt := completedAt); }
    work.Write(SetSession(i, session));
  }

  method StartSession(work: Work, id: Id, store: Id, table: Id, startedAt: int)
    modifies work`pending
    ensures work.View() == Steps.AddSession(old(work.View()), Steps.NewSession(id, store, table, startedAt))
  {
    work.Write(Change.AddSession(Session(id, store, table, SessionStatus.Active, startedAt, startedAt + Steps.SESSION_TTL, None)));
  }

  method UpsertTable(work: Work, r: Steps.SetupRequest) returns (id: Id)
    requires work.View() == work.rows
    modifies work`pending, work`agreed
    ensures (work.View(), id) == Steps.UpsertTable(old(work.View()), r)
    ensures work.agreed == old(work.agreed)
  {
    var found := work.GetTableByNo(r.store, r.no);
    if found.None? {
      id := r.tableId;
      work.Write(AddTable(Table(id, r.store, r.no, Some(r.passwordHash), true)));
    } else {
      var table := work.View().tables[found.value];
      id := table.id;
      work.Write(SetTable(found.value, table.(passwordHash := Some(r.passwordHash), autoLogin := true)));
    }
  }

  // ---------- create_order ----------

  method GetOrStartSession(work: Work, r: Steps.CreateRequest, table: Id) returns (res: Result<Id, Error>)
    requires work.View() == work.rows && ValidPick(work.rows.sessions, r.store, table, r.pick)
    modifies work`pending, work`agreed
    ensures work.agreed == old(work.agreed)
    ensures match Steps.GetOrStartSession(old(work.View()), r, table)
            case Failure(e) => res == Failure(e)
            case Success((db, id)) => res == Success(id) && work.View() == db
  {
    var session := work.GetActiveSession(r.store, table, r.pick);
    if session.Some? {
      var s := work.View().sessions[session.value];
      if r.now >= s.expiresAt {
        MarkSession(work, session.value, SessionStatus.Expired, None);
      } else {
        if r.tokenSession.Some? && r.tokenSession.value != s.id { return Failure(Steps.SessionClosed); }
        return Success(s.id);
      }
    }
    if r.tokenSession.Some? { return Failure(Steps.SessionClosed); }
    StartSession(work, r.sessionId, r.store, table, r.now);
    return Success(r.sessionId);
  }

  /** `total_amount`: the sum of a list of line amounts. */
  function Sum(amounts: seq<int>): int {
    if amounts == [] then 0 else Sum(amounts[..|amounts| - 1]) + amounts[|amounts| - 1]
  }

  function LineAmounts(items: seq<Item>): seq<int> {
    if items == [] then [] else LineAmounts(items[..|items| - 1]) + [items[|items| - 1].lineAmount]
  }

  lemma {:induction false} SumOfLines(items: seq<Item>)
    ensures Sum(LineAmounts(items)) == TotalAmount(items)
  {
    if items != [] {
      SumOfLines(items[..|items| - 1]);
      assert LineAmounts(items)[..|LineAmounts(items)| - 1] == LineAmounts(items[..|items| - 1]);
    }
  }

  lemma UnknownDishFails(menus: seq<Menu>, store: Id, items: seq<Steps.ItemRequest>, k: nat)
    requires k < |items| && Steps.PriceItems(menus, store, items[..k + 1]).None?
    ensures Steps.PriceItems(menus, store, items).None?
  {
    Transactions.PricedIffKnown(menus, store, items[..k + 1]);
    Transactions.PricedIffKnown(menus, store, items);
    assert forall i :: 0 <= i < k + 1 ==> items[..k + 1][i] == items[i];
  }

  /** One line of the order after the other, each at the menu's price; nothing if a dish is unknown. */
  method SnapshotItems(work: Work, store: Id,
      requests: seq<Steps.ItemRequest>) returns (res: Option<(seq<Item>, seq<int>)>)
    requires work.View().menus == work.rows.menus
    modifies work`agreed
    ensures work.agreed == old(work.agreed)
    ensures match Steps.PriceItems(work.rows.menus, store, requests)
            case None => res.None?
            case Some(items) => res == Some((items, LineAmounts(items)))
  {
    hide *;
    var items: seq<Item>, lineAmounts: seq<int> := [], [];
    assert Steps.PriceItems(work.rows.menus, store, requests[..0]) == Some(items) by { Nothing(work.rows.menus, store, requests); }
    assert LineAmounts(items) == lineAmounts by { NoLines(); }
    for i := 0 to |requests|
      invariant work.agreed == old(work.agreed)
      invariant Steps.PriceItems(work.rows.menus, store, requests[..i]) == Some(items)
      invariant LineAmounts(items) == lineAmounts
    {
      var menu := work.GetMenu(store, requests[i].menu);
      OneMoreItem(work.rows.menus, store, requests, i);
      if menu.None? {
        UnknownDishFails(work.rows.menus, store, requests, i);
        return None;
      }
      var amount := Rows.LineAmount(menu.value.price, requests[i].quantity);
      var item := Item(menu.value.id, menu.value.name, menu.value.price, requests[i].quantity, amount);
      OneMoreLine(items, item);
      lineAmounts := lineAmounts + [amount];
      items := items + [item];
    }
    assert requests[..|requests|] == requests;
    return Some((items, lineAmounts));
  }

  lemma Nothing(menus: seq<Menu>, store: Id, requests: seq<Steps.ItemRequest>)
    ensures Steps.PriceItems(menus, store, requests[..0]) == Some([])
  {}

  lemma NoLines()
    ensures LineAmounts([]) == []
  {}

  lemma OneMoreItem(menus: seq<Menu>, store: Id, requests: seq<Steps.ItemRequest>, i: nat)
    requires i < |requests| && Steps.PriceItems(menus, store, requests[..i]).Some?
    ensures var (q, menu) := (requests[i], FindMenu(menus, store, requests[i].menu));
            Steps.PriceItems(menus, store, requests[..i + 1]) ==
            match menu
            case None => None
            case Some(m) =>
              Some(Steps.PriceItems(menus, store, requests[..i]).value
                   + [Item(m.id, m.name, m.price, q.quantity, Rows.LineAmount(m.price, q.quantity))])
  {
    assert requests[..i + 1][..i] == requests[..i];
  }

  lemma OneMoreLine(items: seq<Item>, item: Item)
    ensures LineAmounts(items + [item]) == LineAmounts(items) + [item.lineAmount]
  {
    assert (items + [item])[..|items|] == items;
  }

  // ---------- The constraints hold ----------

  lemma InvMeansConstraints(db: Db)
    requires Inv(db)
    ensures Constraints(db)
  {
    forall i, j | 0 <= i < j < |db.orders|
      ensures db.orders[i].store != db.orders[j].store || db.orders[i].date != db.orders[j].date
              || db.orders[i].seqNo != db.orders[j].seqNo
    {
      Numbering.NumbersDistinct(SlotsOf(db.orders), i, j);
    }
  }

  lemma NextConstraints(db: Db, q: Steps.Request)
    requires Inv(db) && Steps.Admissible(db, q)
    ensures Inv(Steps.Next(db, q)) && Constraints(Steps.Next(db, q))
  {
    Transactions.NextKeeps(db, q);
    InvMeansConstraints(Steps.Next(db, q));
  }

  // ---------- The transactions ----------

  method CreateOrder(work: Work, r: Steps.CreateRequest) returns (res: Result<Order, Error>)
    requires work.pending == [] && Inv(work.rows) && Steps.Admissible(work.rows, Steps.Create(r))
    modifies work
    ensures (work.rows, res) == Steps.CreateOrder(old(work.rows), r)
    ensures work.pending == [] && Inv(work.rows) && work.agreed == old(work.agreed)
  {
    hide Inv, Constraints, Steps.PriceItems, LineAmounts, Sum, TotalAmount, MaxSeq;
    ghost var before := work.rows;
    NextConstraints(before, Steps.Create(r));
    if r.items == [] { return Failure(Steps.OrderEmpty); }
    if r.table.None? { return Failure(Steps.Forbidden); }
    var table := r.table.value;

    var session := GetOrStartSession(work, r, table);
    if session.Failure? {
      work.Rollback();
      return Failure(session.error);
    }
    StartLeavesRest(before, r, table);
    var lines := SnapshotItems(work, r.store, r.items);
    if lines.None? {
      work.Rollback();
      return Failure(Steps.InvalidMenu);
    }
    var total := Sum(lines.value.1);
    SumOfLines(lines.value.0);

    var highest := work.MaxOrderSeq(r.store, r.today);
    var seqNo := highest + 1;
    var number := OrderNumber.FormatOrderNumber(r.store, DateCompact(r.today), seqNo);
    var order := Order(r.orderId, r.store, table, session.value, number, seqNo, r.today,
                       OrderStatus.Pending, total, r.createdAt, None, None, lines.value.0);
    work.Write(AddOrder(order));
    var ok := work.Commit();
    assert ok;
    return Success(order);
  }

  lemma StartLeavesRest(db: Db, r: Steps.CreateRequest, table: Id)
    requires r.pick.Some? ==> r.pick.value < |db.sessions|
    requires Steps.GetOrStartSession(db, r, table).Success?
    ensures var db1 := Steps.GetOrStartSession(db, r, table).value.0; db1.menus == db.menus && db1.orders == db.orders
  {}

  method UpdateStatus(work: Work, r: Steps.StatusRequest) returns (res: Result<Order, Error>)
    requires work.pending == [] && Inv(work.rows)
    modifies work
    ensures (work.rows, res) == Steps.UpdateStatus(old(work.rows), r)
    ensures work.pending == [] && Inv(work.rows) && work.agreed == old(work.agreed)
  {
    hide Inv, Constraints;
    NextConstraints(work.rows, Steps.Status(r));
    var found := work.GetOrder(r.store, r.order);
    if found.None? {
      work.Rollback();
      return Failure(Steps.NotFound);
    }
    var order := work.View().orders[found.value].(status := r.status);
    work.Write(SetOrder(found.value, order));
    var ok := work.Commit();
    assert ok;
    return Success(order);
  }

  /**
    Commits the deletion, but sums up the table before the deletion is flushed: the total returned
    still counts the deleted order. It is the right one, and all queries agree with writes applied at
    once, exactly when the order costs nothing.
   */
  method DeleteOrder(work: Work, r: Steps.DeleteRequest) returns (res: Result<Steps.Deleted, Error>)
    requires work.pending == [] && Inv(work.rows)
    modifies work
    ensures work.rows == Steps.DeleteOrder(old(work.rows), r).0
    ensures work.pending == [] && Inv(work.rows)
    ensures match FindOrder(old(work.rows).orders, r.store, r.order)
            case None => res == Failure(Steps.NotFound) && work.agreed == old(work.agreed)
            case Some(i) =>
              var (o, atOnce) := (old(work.rows).orders[i], Steps.DeleteOrder(old(work.rows), r).1.value);
              && res == Success(atOnce.(tableTotal := atOnce.tableTotal + o.total))
              && res.value.tableTotal == SumTableTotal(old(work.rows).orders, r.store, o.session)
              && res.value.tableTotal == SumTableTotal(work.rows.orders, r.store, o.session) + o.total
              && work.agreed == (old(work.agreed) && o.total == 0)
  {
    hide Inv, Constraints, SumTableTotal;
    ghost var before := work.rows;
    NextConstraints(before, Steps.Delete(r));
    var found := work.GetOrder(r.store, r.order);
    if found.None? {
      work.Rollback();
      return Failure(Steps.NotFound);
    }
    var order := work.View().orders[found.value];
    var deleted := order.(deletedAt := Some(r.at), deletedBy := Some(r.actor));
    work.Write(SetOrder(found.value, deleted));
    SumUpdate(before.orders, found.value, deleted, r.store, order.session);
    var total := work.SumTableTotal(r.store, order.session);
    var ok := work.Commit();
    assert ok;
    return Success(Steps.Deleted(r.order, order.table, total));
  }

  /** What a deletion returns: the session's total, summed while the order still counts. */
  function ReturnedTotal(db: Db, r: Steps.DeleteRequest): int
    requires FindOrder(db.orders, r.store, r.order).Some?
  {
    SumTableTotal(db.orders, r.store, db.orders[FindOrder(db.orders, r.store, r.order).value].session)
  }

  /** It is the total after the deletion exactly if the order is worth nothing. */
  lemma ReturnedTotalRightIff(db: Db, r: Steps.DeleteRequest)
    requires FindOrder(db.orders, r.store, r.order).Some?
    ensures var i := FindOrder(db.orders, r.store, r.order).value;
            ReturnedTotal(db, r) == Steps.DeleteOrder(db, r).1.value.tableTotal <==> db.orders[i].total == 0
  {
    hide SumTableTotal;
    var i := FindOrder(db.orders, r.store, r.order).value;
    var o := db.orders[i];
    SumUpdate(db.orders, i, o.(deletedAt := Some(r.at), deletedBy := Some(r.actor)), r.store, o.session);
  }

  method SetupTable(work: Work, r: Steps.SetupRequest) returns (res: Result<(Id, Id), Error>)
    requires work.pending == [] && Inv(work.rows) && Steps.Admissible(work.rows, Steps.Setup(r))
    modifies work
    ensures (work.rows, res) == Steps.SetupTable(old(work.rows), r)
    ensures work.pending == [] && Inv(work.rows) && work.agreed == old(work.agreed)
  {
    hide Inv, Constraints, Steps.UpsertTable;
    NextConstraints(work.rows, Steps.Setup(r));
    var existing := work.GetTableByNo(r.store, r.no);
    if existing.Some? {
      var active := work.GetActiveSession(r.store, work.View().tables[existing.value].id, r.pick);
      if active.Some? && r.now < work.View().sessions[active.value].expiresAt {
        work.Rollback();
        return Failure(Steps.SessionClosed);
      }
    }
    var table := UpsertTable(work, r);
    StartSession(work, r.sessionId, r.store, table, r.startedAt);
    var ok := work.Commit();
    assert ok;
    return Success((table, r.sessionId));
  }

  /** What `authenticate_table` does to the database once the rate limiter has let the call through. */
  method LoginTable(work: Work, r: Steps.LoginRequest) returns (res: Result<Id, Error>)
    requires work.pending == [] && Inv(work.rows) && Steps.Admissible(work.rows, Steps.Login(r))
    modifies work
    ensures (work.rows, res) == Steps.LoginTable(old(work.rows), r)
    ensures work.pending == [] && Inv(work.rows) && work.agreed == old(work.agreed)
  {
    hide Inv, Constraints;
    NextConstraints(work.rows, Steps.Login(r));
    var table := work.GetTableByNo(r.store, r.no);
    if table.None? { return Failure(Steps.Unauthorized); }
    var t := work.View().tables[table.value];
    if !(t.autoLogin && t.passwordHash.Some? && t.passwordHash.value in r.fits) { return Failure(Steps.Unauthorized); }
    var session := work.GetActiveSession(r.store, t.id, r.pick);
    if session.None? { return Failure(Steps.TokenExpired); }
    var s := work.View().sessions[session.value];
    if r.now >= s.expiresAt {
      MarkSession(work, session.value, SessionStatus.Expired, None);
      var ok := work.Commit();
      assert ok;
      return Failure(Steps.TokenExpired);
    }
    return Success(s.id);
  }

  // ---------- complete_session ----------

  method ArchiveSession(work: Work, r: Steps.CompleteRequest, session: Id) returns (count: nat)
    requires work.View() == work.rows
    requires |Rows.ListBySession(work.rows.orders, r.store, session)| <= |r.historyIds|
    modifies work`pending, work`agreed
    ensures work.agreed == old(work.agreed)
    ensures var list := Rows.ListBySession(old(work.rows).orders, r.store, session);
            && count == |list|
            && work.View() == old(work.rows).(histories :=
                 old(work.rows).histories + Steps.ArchiveAll(list, r.historyIds, r.store, session, r.completedAt))
  {
    hide Rows.ListBySession, Steps.ArchiveAll, ApplyAll;
    var orders := work.ListBySession(r.store, session);
    ghost var before := work.rows;
    assert before.histories + Steps.ArchiveAll(orders[..0], r.historyIds, r.store, session, r.completedAt) == before.histories;
    for i := 0 to |orders|
      invariant work.agreed == old(work.agreed)
      invariant work.View() == before.(histories :=
                  before.histories + Steps.ArchiveAll(orders[..i], r.historyIds, r.store, session, r.completedAt))
    {
      var o := orders[i];
      var history := History(r.historyIds[i], r.store, o.table, session, o.id,
                             o.number, o.total, o.status, o.createdAt, r.completedAt, o.items);
      work.Write(AddHistory(history));
      OneMoreRow(before.histories, orders, i, r.historyIds, r.store, session, r.completedAt);
    }
    assert orders[..|orders|] == orders;
    count := |orders|;
  }

  lemma OneMoreRow(before: seq<History>, orders: seq<Order>, i: nat, ids: seq<Id>, store: Id, session: Id,
      completedAt: int)
    requires i < |orders| <= |ids|
    ensures before + Steps.ArchiveAll(orders[..i + 1], ids, store, session, completedAt)
            == (before + Steps.ArchiveAll(orders[..i], ids, store, session, completedAt))
               + [Steps.Archived(orders[i], ids[i], store, session, completedAt)]
  {
    assert orders[..i + 1][..i] == orders[..i];
  }

  method CompleteSession(work: Work, r: Steps.CompleteRequest) returns (res: Result<nat, Error>)
    requires work.pending == [] && Inv(work.rows) && Steps.Admissible(work.rows, Steps.Complete(r))
    modifies work
    ensures (work.rows, res) == Steps.CompleteSession(old(work.rows), r)
    ensures work.pending == [] && Inv(work.rows) && work.agreed == old(work.agreed)
  {
    hide Inv, Constraints, Rows.ListBySession, Steps.ArchiveAll, CountPending;
    NextConstraints(work.rows, Steps.Complete(r));
    var session := work.GetActiveSession(r.store, r.table, r.pick);
    if session.None? {
      work.Rollback();
      return Failure(Steps.NotFound);
    }
    var id := work.View().sessions[session.value].id;
    var open := work.CountPending(r.store, id);
    if open > 0 {
      work.Rollback();
      return Failure(Steps.SessionClosed);
    }
    var count := ArchiveSession(work, r, id);
    MarkSession(work, session.value, SessionStatus.Completed, Some(r.completedAt));
    var ok := work.Commit();
    assert ok;
    return Success(count);
  }
}
