/** Each transaction on its own: what it keeps, where an order goes, what a failure leaves behind. */
module Transactions {
  import opened Wrappers
  import opened Timestamp
  import opened Rows
  import opened Steps
  import opened OrderLists
  import opened Invariants
  import Numbering
  import OrderNumber

  // ---------- Prices and numbers ----------

  /** The line asks for the dish and the quantity requested, at the name and price of that dish on the store's menu. */
  ghost predicate LineFits(menus: seq<Menu>, store: Id, q: ItemRequest, line: Item) {
    && line.menu == q.menu && line.quantity == q.quantity && line.lineAmount == line.unitPrice * q.quantity
    && exists m :: m in menus && m.store == store && m.id == q.menu && m.price == line.unitPrice && m.name == line.name
  }

  /** One line for each item requested, in order. */
  ghost predicate LinesFit(menus: seq<Menu>, store: Id, items: seq<ItemRequest>, lines: seq<Item>) {
    |lines| == |items| && forall i :: 0 <= i < |items| ==> LineFits(menus, store, items[i], lines[i])
  }

  lemma LinesFitSnoc(menus: seq<Menu>, store: Id, items: seq<ItemRequest>, lines: seq<Item>, q: ItemRequest, line: Item)
    requires LinesFit(menus, store, items, lines) && LineFits(menus, store, q, line)
    ensures LinesFit(menus, store, items + [q], lines + [line])
    ensures PriceSum(lines + [line]) == PriceSum(lines) + line.unitPrice * line.quantity
    ensures TotalAmount(lines + [line]) == TotalAmount(lines) + line.lineAmount
  {
    hide LineFits;
    assert (lines + [line])[..|lines|] == lines;
  }

  /** The total of an order is what its copied prices and quantities come to. */
  lemma {:induction false} PricedItems(menus: seq<Menu>, store: Id, items: seq<ItemRequest>)
    requires PriceItems(menus, store, items).Some?
    ensures var priced := PriceItems(menus, store, items).value;
            TotalAmount(priced) == PriceSum(priced) && LinesFit(menus, store, items, priced)
  {
    hide FindMenu, PriceSum, TotalAmount, LinesFit;
    if items == [] {
      NoLines(menus, store);
    } else {
      var front, q := items[..|items| - 1], items[|items| - 1];
      PricedItems(menus, store, front);
      var m := FindMenu(menus, store, q.menu).value;
      var line := Item(m.id, m.name, m.price, q.quantity, LineAmount(m.price, q.quantity));
      assert LineFits(menus, store, q, line);
      LinesFitSnoc(menus, store, front, PriceItems(menus, store, front).value, q, line);
      assert items == front + [q];
    }
  }

  lemma NoLines(menus: seq<Menu>, store: Id)
    ensures LinesFit(menus, store, [], []) && TotalAmount([]) == 0 && PriceSum([]) == 0
  {}

  ghost predicate Known(menus: seq<Menu>, store: Id, dish: Id) {
    exists m :: m in menus && m.store == store && m.id == dish
  }

  ghost predicate DishesKnown(menus: seq<Menu>, store: Id, items: seq<ItemRequest>) {
    forall i :: 0 <= i < |items| ==> Known(menus, store, items[i].menu)
  }

  lemma FoundIffKnown(menus: seq<Menu>, store: Id, dish: Id)
    ensures FindMenu(menus, store, dish).Some? <==> Known(menus, store, dish)
  {
    var found := FindMenu(menus, store, dish);
    if found.Some? { assert found.value in menus; }
  }

  lemma KnownSnoc(menus: seq<Menu>, store: Id, front: seq<ItemRequest>, last: ItemRequest)
    ensures DishesKnown(menus, store, front + [last]) <==> DishesKnown(menus, store, front) && Known(menus, store, last.menu)
  {
    hide Known;
    var items := front + [last];
    assert items[|front|] == last && forall i :: 0 <= i < |front| ==> items[i] == front[i];
  }

  /** An unknown dish is the only reason why lines cannot be priced. */
  lemma {:induction false} PricedIffKnown(menus: seq<Menu>, store: Id, items: seq<ItemRequest>)
    ensures PriceItems(menus, store, items).Some? <==> DishesKnown(menus, store, items)
  {
    hide Known, FindMenu;
    if items != [] {
      var front, last := items[..|items| - 1], items[|items| - 1];
      PricedIffKnown(menus, store, front);
      FoundIffKnown(menus, store, last.menu);
      KnownSnoc(menus, store, front, last);
      assert items == front + [last];
      hide DishesKnown;
    }
  }

  lemma {:induction false} MaxSeqIsMaxNumber(orders: seq<Order>, store: Id, date: Day)
    ensures MaxSeq(orders, store, date) == Numbering.MaxNumber(SlotsOf(orders), store, date)
  {
    if orders != [] {
      MaxSeqIsMaxNumber(orders[..|orders| - 1], store, date);
      assert SlotsOf(orders)[..|orders| - 1] == SlotsOf(orders[..|orders| - 1]);
    }
  }

  lemma NextNumber(orders: seq<Order>, store: Id, date: Day)
    requires OrdersOk(orders)
    ensures MaxSeq(orders, store, date) == Numbering.CountFor(SlotsOf(orders), store, date)
  {
    MaxSeqIsMaxNumber(orders, store, date);
    Numbering.MaxIsCount(SlotsOf(orders), store, date);
  }

  // ---------- create_order ----------

  /**
    The session an order goes to is active and not expired, belongs to the table, and is the token's if the
    token names one.
   */
  ghost predicate OpenFor(s: Session, r: CreateRequest, table: Id, id: Id) {
    && SessionIs(s, r.store, table, id) && s.status == SessionStatus.Active && r.now < s.expiresAt
    && (r.tokenSession.Some? ==> r.tokenSession.value == id)
  }

  lemma StartSession(a: Db, r: CreateRequest, table: Id) returns (j: nat)
    requires Inv(a) && ValidPick(a.sessions, r.store, table, r.pick) && FreshSession(a, r.sessionId)
    requires GetOrStartSession(a, r, table).Success?
    ensures var (b, id) := GetOrStartSession(a, r, table).value;
            && Inv(b) && Later(a, b) && b.orders == a.orders && b.menus == a.menus && b.histories == a.histories
                 && b.tables == a.tables
            && j < |b.sessions| && OpenFor(b.sessions[j], r, table, id)
  {
    hide Inv;
    var (b, id) := GetOrStartSession(a, r, table).value;
    if r.pick.Some? && r.now < a.sessions[r.pick.value].expiresAt {
      LaterReflexive(a);
      j := r.pick.value;
    } else {
      var c := a;
      LaterReflexive(a);
      if r.pick.Some? {
        MarkExpiredKeeps(a, r.pick.value);
        c := MarkSession(a, r.pick.value, SessionStatus.Expired, None);
      }
      AddSessionKeeps(c, NewSession(r.sessionId, r.store, table, r.now));
      LaterTransitive(a, c, b);
      j := |c.sessions|;
    }
  }

  lemma NewOrderSound(c: Db, r: CreateRequest, table: Id, id: Id, items: seq<Item>, j: nat)
    requires OrdersOk(c.orders) && j < |c.sessions| && SessionIs(c.sessions[j], r.store, table, id)
    requires TotalAmount(items) == PriceSum(items)
    ensures var o := NewOrder(c.orders, r, table, id, items);
            OrderSound(c.sessions, o) && o.seqNo == Numbering.CountFor(SlotsOf(c.orders), o.store, o.date) + 1
  {
    NextNumber(c.orders, r.store, r.today);
  }

  lemma CreateKeeps(a: Db, r: CreateRequest)
    requires Inv(a) && Admissible(a, Create(r))
    ensures var b := CreateOrder(a, r).0; Inv(b) && Later(a, b)
  {
    hide Later, GetOrStartSession, PriceItems, NewOrder, OrdersSound, HistoriesSound, NothingLost, TotalAmount;
    LaterReflexive(a);
    if CreateOrder(a, r).1.Success? {
      var table := r.table.value;
      var j := StartSession(a, r, table);
      var (c, id) := GetOrStartSession(a, r, table).value;
      var items := PriceItems(c.menus, r.store, r.items).value;
      var o := NewOrder(c.orders, r, table, id, items);
      PricedItems(c.menus, r.store, r.items);
      NewOrderSound(c, r, table, id, items, j);
      NewOrderFields(c.orders, r, table, id, items);
      AppendOrderKeeps(c, o, j);
      LaterTransitive(a, c, c.(orders := c.orders + [o]));
    }
  }

  lemma NewOrderFields(orders: seq<Order>, r: CreateRequest, table: Id, id: Id, items: seq<Item>)
    ensures NewOrder(orders, r, table, id, items).id == r.orderId && NewOrder(orders, r, table, id, items).session == id
  {}

  /** Every created order has the lines requested, at menu prices, and went to an open session of its table. */
  lemma CreateGoesToOpenSession(a: Db, r: CreateRequest)
    requires Inv(a) && Admissible(a, Create(r)) && CreateOrder(a, r).1.Success?
    ensures var (b, o) := (CreateOrder(a, r).0, CreateOrder(a, r).1.value);
            && r.table.Some? && b.orders == a.orders + [o] && b.histories == a.histories && b.tables == a.tables
            && LinesFit(a.menus, r.store, r.items, o.items) && o.total == PriceSum(o.items)
            && o.status == OrderStatus.Pending && o.deletedAt.None? && o.deletedBy.None? && o.createdAt == r.createdAt
                 && o.id == r.orderId && o.store == r.store && o.table == r.table.value
            && o.number == OrderNumber.FormatOrderNumber(r.store, DateCompact(r.today), o.seqNo)
            && o.seqNo == Numbering.CountFor(SlotsOf(a.orders), r.store, r.today) + 1 && o.date == r.today
            && exists j :: 0 <= j < |b.sessions| && OpenFor(b.sessions[j], r, r.table.value, o.session)
  {
    var j := StartSession(a, r, r.table.value);
    PricedItems(a.menus, r.store, r.items);
    NextNumber(a.orders, r.store, r.today);
    hide Inv, Later, OpenFor, Admissible, LinesFit, PriceItems, PriceSum, TotalAmount;
    var b := CreateOrder(a, r).0;
    assert OpenFor(b.sessions[j], r, r.table.value, CreateOrder(a, r).1.value.session);
  }

  ghost predicate OpenPick(a: Db, r: CreateRequest)
    requires r.pick.Some? ==> r.pick.value < |a.sessions|
  {
    r.pick.Some? && r.now < a.sessions[r.pick.value].expiresAt
  }

  /** Exactly when an order is placed: something was ordered, every dish is known, and the token fits the session. */
  lemma CreateSucceedsIff(a: Db, r: CreateRequest)
    requires r.pick.Some? ==> r.pick.value < |a.sessions|
    ensures CreateOrder(a, r).1.Success? <==>
              && r.items != [] && r.table.Some?
              && (r.tokenSession.Some? ==> OpenPick(a, r) && r.tokenSession.value == a.sessions[r.pick.value].id)
              && DishesKnown(a.menus, r.store, r.items)
  {
    PricedIffKnown(a.menus, r.store, r.items);
  }

  // ---------- The other transactions ----------

  lemma StatusKeeps(a: Db, r: StatusRequest)
    requires Inv(a)
    ensures var b := UpdateStatus(a, r).0; Inv(b) && Later(a, b)
  {
    hide Inv;
    LaterReflexive(a);
    var found := FindOrder(a.orders, r.store, r.order);
    if found.Some? { OrderChangeKeeps(a, found.value, a.orders[found.value].(status := r.status)); }
  }

  lemma DeleteKeeps(a: Db, r: DeleteRequest)
    requires Inv(a)
    ensures var b := DeleteOrder(a, r).0; Inv(b) && Later(a, b)
  {
    hide Inv;
    LaterReflexive(a);
    var found := FindOrder(a.orders, r.store, r.order);
    if found.Some? {
      OrderChangeKeeps(a, found.value, a.orders[found.value].(deletedAt := Some(r.at), deletedBy := Some(r.actor)));
    }
  }

  lemma TablesChangeKeeps(a: Db, tables: seq<Table>)
    requires Inv(a) && TablesOk(tables)
    ensures Inv(a.(tables := tables)) && Later(a, a.(tables := tables))
  {
    hide SessionsOk, OrdersOk, OrdersSound, HistoriesSound, ArchivedOnce, HistoryIdsUnique, NothingLost, TablesOk;
    SameSessionsLater(a.sessions);
    SameOrdersLater(a.orders);
  }

  lemma UpsertKeeps(a: Db, r: SetupRequest)
    requires Inv(a) && FreshTable(a, r.tableId)
    ensures var (b, id) := UpsertTable(a, r);
            && Inv(b) && Later(a, b) && b == a.(tables := b.tables)
            && exists i :: 0 <= i < |b.tables| && b.tables[i].id == id && b.tables[i].store == r.store && b.tables[i].no == r.no
                 && b.tables[i].autoLogin && b.tables[i].passwordHash == Some(r.passwordHash)
  {
    var (b, id) := UpsertTable(a, r);
    UpsertTablesOk(a, r);
    TablesChangeKeeps(a, b.tables);
    hide Inv, Later, TablesOk;
    var found := FindTable(a.tables, r.store, r.no);
    var i := if found.Some? then found.value else |a.tables|;
    assert b.tables[i].id == id;
  }

  lemma UpsertTablesOk(a: Db, r: SetupRequest)
    requires TablesOk(a.tables) && FreshTable(a, r.tableId)
    ensures TablesOk(UpsertTable(a, r).0.tables)
  {
    if FindTable(a.tables, r.store, r.no).None? {
      forall i | 0 <= i < |a.tables|
        ensures a.tables[i].store != r.store || a.tables[i].no != r.no
      {
        assert a.tables[i] in a.tables;
      }
    }
  }

  lemma SetupKeeps(a: Db, r: SetupRequest)
    requires Inv(a) && Admissible(a, Setup(r))
    ensures var b := SetupTable(a, r).0; Inv(b) && Later(a, b)
  {
    hide Inv, Later;
    LaterReflexive(a);
    if SetupTable(a, r).1.Success? {
      UpsertKeeps(a, r);
      var (c, table) := UpsertTable(a, r);
      AddSessionKeeps(c, NewSession(r.sessionId, r.store, table, r.startedAt));
      LaterTransitive(a, c, AddSession(c, NewSession(r.sessionId, r.store, table, r.startedAt)));
    }
  }

  lemma LoginKeeps(a: Db, r: LoginRequest)
    requires Inv(a) && Admissible(a, Login(r))
    ensures var b := LoginTable(a, r).0; Inv(b) && Later(a, b)
  {
    hide Inv, Later;
    LaterReflexive(a);
    if LoginTable(a, r).0 != a { MarkExpiredKeeps(a, r.pick.value); }
  }

  lemma CompleteKeeps(a: Db, r: CompleteRequest)
    requires Inv(a) && Admissible(a, Complete(r))
    ensures var b := Next(a, Complete(r)); Inv(b) && Later(a, b)
  {
    hide Inv, Later, ListBySession, ArchiveAll;
    LaterReflexive(a);
    if CompleteSession(a, r).1.Success? { ArchiveKeeps(a, r.pick.value, r.historyIds, r.completedAt); }
  }

  /**
    The live orders of session `i`, all completed, became history rows, which add up to the table's total
    just before.
   */
  ghost predicate ArchivedAll(a: Db, r: CompleteRequest, i: nat, b: Db, count: nat)
    requires i < |a.sessions| && |ListBySession(a.orders, r.store, a.sessions[i].id)| <= |r.historyIds|
  {
    var session := a.sessions[i].id;
    var list := ListBySession(a.orders, r.store, session);
    && (forall o :: o in list <==> o in a.orders && Live(o, r.store, session))
    && (forall o :: o in list ==> o.status == OrderStatus.Completed)
    && b.histories == a.histories + ArchiveAll(list, r.historyIds, r.store, session, r.completedAt)
    && HistoryTotal(b.histories[|a.histories|..]) == SumTableTotal(a.orders, r.store, session)
    && b.sessions == a.sessions[i := WithStatus(a.sessions[i], SessionStatus.Completed, Some(r.completedAt))]
    && b.orders == a.orders && b.tables == a.tables && b.menus == a.menus
    && count == CountBySession(a.orders, r.store, session)
  }

  lemma ArchivingDone(a: Db, r: CompleteRequest, i: nat)
    requires i < |a.sessions| && CountPending(a.orders, r.store, a.sessions[i].id) == 0
    requires |ListBySession(a.orders, r.store, a.sessions[i].id)| <= |r.historyIds|
    ensures var session := a.sessions[i].id;
            var list := ListBySession(a.orders, r.store, session);
            var rows := ArchiveAll(list, r.historyIds, r.store, session, r.completedAt);
            var b := MarkSession(a.(histories := a.histories + rows), i, SessionStatus.Completed, Some(r.completedAt));
            ArchivedAll(a, r, i, b, |list|)
  {
    hide ListBySession, ArchiveAll, CountPending, SumTableTotal, HistoryTotal, CountBySession;
    var session := a.sessions[i].id;
    var list := ListBySession(a.orders, r.store, session);
    var rows := ArchiveAll(list, r.historyIds, r.store, session, r.completedAt);
    ListMembers(a.orders, r.store, session);
    NonePending(a.orders, r.store, session);
    ListTotal(a.orders, r.store, session);
    ListCount(a.orders, r.store, session);
    ArchivedTotal(list, r.historyIds, r.store, session, r.completedAt);
    assert (a.histories + rows)[|a.histories|..] == rows;
  }

  /** What completing a session does. */
  lemma CompleteArchives(a: Db, r: CompleteRequest)
    requires Admissible(a, Complete(r)) && CompleteSession(a, r).1.Success?
    ensures r.pick.Some? && r.pick.value < |a.sessions|
    ensures |ListBySession(a.orders, r.store, a.sessions[r.pick.value].id)| <= |r.historyIds|
    ensures ArchivedAll(a, r, r.pick.value, Next(a, Complete(r)), CompleteSession(a, r).1.value)
  {
    hide ListBySession, ArchiveAll, CountPending, ArchivedAll, FreshHistories;
    ArchivingDone(a, r, r.pick.value);
  }

  function HistoryTotal(rows: seq<History>): int {
    if rows == [] then 0 else HistoryTotal(rows[..|rows| - 1]) + rows[|rows| - 1].total
  }

  lemma {:induction false} ArchivedTotal(list: seq<Order>, ids: seq<Id>, store: Id, session: Id, completedAt: int)
    requires |list| <= |ids|
    ensures HistoryTotal(ArchiveAll(list, ids, store, session, completedAt)) == TotalOf(list)
  {
    if list != [] {
      ArchivedTotal(list[..|list| - 1], ids, store, session, completedAt);
      var rows := ArchiveAll(list, ids, store, session, completedAt);
      assert rows[..|rows| - 1] == ArchiveAll(list[..|list| - 1], ids, store, session, completedAt);
    }
  }

  // ---------- What the other transactions do ----------

  ghost predicate HasLiveOrder(orders: seq<Order>, store: Id, id: Id) {
    exists i :: 0 <= i < |orders| && IsLiveOrder(orders[i], store, id)
  }

  predicate IsLiveOrder(o: Order, store: Id, id: Id) {
    o.store == store && o.id == id && o.deletedAt.None?
  }

  lemma FoundIffLive(orders: seq<Order>, store: Id, id: Id)
    ensures FindOrder(orders, store, id).Some? <==> HasLiveOrder(orders, store, id)
  {
    var found := FindOrder(orders, store, id);
    if found.Some? { assert IsLiveOrder(orders[found.value], store, id); }
    if i :| 0 <= i < |orders| && IsLiveOrder(orders[i], store, id) { assert orders[i] in orders; }
  }

  /** Any status may follow any other, for a live order of the store; totals and numbers do not notice. */
  lemma StatusChanges(a: Db, r: StatusRequest, store: Id, session: Id, date: Day)
    ensures UpdateStatus(a, r).1.Success? <==> HasLiveOrder(a.orders, r.store, r.order)
    ensures var (b, res) := UpdateStatus(a, r);
            res.Success? ==>
              && res.value in b.orders && IsLiveOrder(res.value, r.store, r.order) && res.value.status == r.status
              && (exists i :: 0 <= i < |a.orders| && res.value == a.orders[i].(status := r.status)
                   && b == a.(orders := a.orders[i := res.value]))
              && SumTableTotal(b.orders, store, session) == SumTableTotal(a.orders, store, session)
              && MaxSeq(b.orders, store, date) == MaxSeq(a.orders, store, date)
  {
    FoundIffLive(a.orders, r.store, r.order);
    var found := FindOrder(a.orders, r.store, r.order);
    if found.Some? {
      var o := a.orders[found.value].(status := r.status);
      assert UpdateStatus(a, r).0.orders[found.value] == o;
      SumUpdate(a.orders, found.value, o, store, session);
      SameMax(a.orders, found.value, o, store, date);
    }
  }

  lemma {:induction false} SameMax(orders: seq<Order>, i: nat, o: Order, store: Id, date: Day)
    requires i < |orders| && o.store == orders[i].store && o.date == orders[i].date && o.seqNo == orders[i].seqNo
    ensures MaxSeq(orders[i := o], store, date) == MaxSeq(orders, store, date)
  {
    var front := orders[..|orders| - 1];
    if i < |front| {
      SameMax(front, i, o, store, date);
      assert orders[i := o][..|front|] == front[i := o];
    } else {
      assert orders[i := o][..|front|] == front;
    }
  }

  /**
    A deleted order is gone from its session's list, and only it; it cannot be found again, and its number
    stays taken.
   */
  lemma DeleteRemoves(a: Db, r: DeleteRequest, store: Id, session: Id, date: Day)
    requires DistinctIds(a.orders)
    ensures DeleteOrder(a, r).1.Success? <==> HasLiveOrder(a.orders, r.store, r.order)
    ensures var b := DeleteOrder(a, r).0;
            DeleteOrder(a, r).1.Success? ==>
              && (forall o :: o in ListBySession(b.orders, store, session) <==>
                    o in ListBySession(a.orders, store, session) && o.id != r.order)
              && FindOrder(b.orders, r.store, r.order).None?
              && MaxSeq(b.orders, store, date) == MaxSeq(a.orders, store, date)
  {
    FoundIffLive(a.orders, r.store, r.order);
    var found := FindOrder(a.orders, r.store, r.order);
    if found.Some? {
      var b := DeleteOrder(a, r).0;
      var o := a.orders[found.value].(deletedAt := Some(r.at), deletedBy := Some(r.actor));
      SameMax(a.orders, found.value, o, store, date);
      hide MaxSeq, ListBySession;
      FoundIffLive(b.orders, r.store, r.order);
      ListMembers(a.orders, store, session);
      ListMembers(b.orders, store, session);
      OthersStay(a.orders, found.value, o);
    }
  }

  lemma OthersStay(orders: seq<Order>, i: nat, o: Order)
    requires DistinctIds(orders) && i < |orders| && o.id == orders[i].id
    ensures forall x :: x in orders[i := o] && x.id != o.id <==> x in orders && x.id != o.id
    ensures forall x :: x in orders[i := o] && x.id == o.id ==> x == o
    ensures forall k :: 0 <= k < |orders| && orders[k].id == o.id ==> k == i
  {
    forall x | x in orders && x.id != o.id
      ensures x in orders[i := o]
    {
      var k :| 0 <= k < |orders| && orders[k] == x;
      assert orders[i := o][k] == x;
    }
  }

  lemma InvTables(a: Db)
    requires Inv(a)
    ensures TablesOk(a.tables)
  {}

  lemma UpsertedFound(tables: seq<Table>, store: Id, no: string)
    requires TablesOk(tables)
    ensures forall i :: 0 <= i < |tables| && tables[i].store == store && tables[i].no == no ==>
              FindTable(tables, store, no) == Some(i)
  {
    var found := FindTable(tables, store, no);
    forall i | 0 <= i < |tables| && tables[i].store == store && tables[i].no == no
      ensures found == Some(i)
    {
      assert tables[i] in tables;
    }
  }

  /** A session is completed exactly if it was found ACTIVE and none of its live orders is unfinished. */
  lemma CompleteSucceedsIff(a: Db, r: CompleteRequest)
    requires Admissible(a, Complete(r))
    ensures CompleteSession(a, r).1.Success? <==>
              && r.pick.Some?
              && forall o :: o in a.orders && Live(o, r.store, a.sessions[r.pick.value].id) ==> o.status == OrderStatus.Completed
  {
    hide ListBySession, ArchiveAll, CountPending;
    if r.pick.Some? { NonePending(a.orders, r.store, a.sessions[r.pick.value].id); }
  }

  // ---------- Every step ----------

  lemma NextKeeps(a: Db, q: Request)
    requires Inv(a) && Admissible(a, q)
    ensures Inv(Next(a, q)) && Later(a, Next(a, q))
  {
    hide Inv, Later, SetupTable, LoginTable, CreateOrder, UpdateStatus, DeleteOrder, CompleteSession, ListBySession;
    match q
    case Setup(r) => SetupKeeps(a, r);
    case Login(r) => LoginKeeps(a, r);
    case Create(r) => CreateKeeps(a, r);
    case Status(r) => StatusKeeps(a, r);
    case Delete(r) => DeleteKeeps(a, r);
    case Complete(r) => CompleteKeeps(a, r);
    case EditMenus(menus) => MenusKeep(a, menus);
  }

  lemma MenusKeep(a: Db, menus: seq<Menu>)
    requires Inv(a)
    ensures Inv(a.(menus := menus)) && Later(a, a.(menus := menus))
  {
    hide SessionsOk, OrdersOk, OrdersSound, HistoriesSound, ArchivedOnce, HistoryIdsUnique, NothingLost, TablesOk;
    SameSessionsLater(a.sessions);
    SameOrdersLater(a.orders);
  }

  // ---------- Marking sessions that have run out ----------

  /** The request looks session `i` up and finds that it has run out. */
  predicate FindsRunOut(a: Db, q: Request, i: nat)
    requires i < |a.sessions|
  {
    match q
    case Setup(r) => r.pick == Some(i) && r.now >= a.sessions[i].expiresAt
    case Login(r) => PinAccepted(a, r) && r.pick == Some(i) && r.now >= a.sessions[i].expiresAt
    case Create(r) => r.items != [] && r.table.Some? && r.pick == Some(i) && r.now >= a.sessions[i].expiresAt
    case _ => false
  }

  /**
    Of the requests that do, a login leaves the mark, an order only if it names no session and only known
    dishes, a setup never.
   */
  ghost predicate LeavesMark(a: Db, q: Request) {
    match q
    case Login(_) => true
    case Create(r) => r.tokenSession.None? && DishesKnown(a.menus, r.store, r.items)
    case _ => false
  }

  /** Exactly when a request leaves an ACTIVE session marked EXPIRED. */
  lemma MarkedExpiredIff(a: Db, q: Request, i: nat)
    requires Admissible(a, q) && i < |a.sessions| && a.sessions[i].status == SessionStatus.Active
    ensures Next(a, q).sessions[i].status == SessionStatus.Expired <==> FindsRunOut(a, q, i) && LeavesMark(a, q)
  {
    hide ListBySession, ArchiveAll, CountPending, FindTable, PriceItems, DishesKnown;
    if q.Create? { PricedIffKnown(a.menus, q.create.store, q.create.items); }
  }
}
