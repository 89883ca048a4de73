/** Concrete runs: a table from set-up to completion, and the runs in which something promised goes wrong. */
module Witnesses {
  import opened Wrappers
  import opened Timestamp
  import opened Rows
  import opened Runs
  import opened Steps
  import ActiveSessions
  import Dashboard
  import Numbering
  import OrderLists
  import OrderNumber
  import Services
  import TableLogins
  import Transactions

  const NOODLES := Menu("noodles", "store", "Noodles", 9000)
  const ORDER_NOODLES := CreateRequest("store", Some("table"), None, [ItemRequest("noodles", 1)],
                                       0, Numbering.NEW_YEAR, 0, "order", "unused", Some(0))
  const ORDERED := [ActiveSessions.FIRST_SETUP, EditMenus([NOODLES]), Create(ORDER_NOODLES)]
  const SERVE := StatusRequest("store", "order", OrderStatus.Completed)
  const CLOSE := CompleteRequest("store", "table", 1, ["history"], Some(0))
  const SERVED := ORDERED + [Status(SERVE)]
  const CLOSED := SERVED + [Complete(CLOSE)]

  /** Nothing but the one order, in the table's only session. */
  ghost predicate OneOrder(db: Db) {
    && db.tables == [Table("table", "store", "T1", Some("hash"), true)]
    && db.sessions == [NewSession("session1", "store", "table", 0)]
    && db.histories == []
    && |db.orders| == 1
    && var o := db.orders[0];
    o.id == "order" && o.store == "store" && o.session == "session1" && o.total == 9000 && o.deletedAt.None?
  }

  lemma NoOrders()
    ensures SumTableTotal([], "store", "session1") == 0 && OrderLists.CountBySession([], "store", "session1") == 0
    ensures CountPending([], "store", "session1") == 0
  {}

  lemma NoodlesPriced()
    ensures PriceItems([NOODLES], "store", [ItemRequest("noodles", 1)]) == Some([Item("noodles", "Noodles", 9000, 1, 9000)])
    ensures TotalAmount([Item("noodles", "Noodles", 9000, 1, 9000)]) == 9000
  {
    var items := [ItemRequest("noodles", 1)];
    Services.Nothing([NOODLES], "store", items);
    Services.OneMoreItem([NOODLES], "store", items, 0);
    assert items[..1] == items;
    assert FindMenu([NOODLES], "store", "noodles") == Some(NOODLES);
    assert PriceItems([NOODLES], "store", items).value == [Item("noodles", "Noodles", 9000, 1, 9000)];
    assert [Item("noodles", "Noodles", 9000, 1, 9000)][..0] == [];
  }

  lemma NoodlesOrdered(a: Db)
    requires a.tables == [Table("table", "store", "T1", Some("hash"), true)] && a.menus == [NOODLES]
    requires a.sessions == [NewSession("session1", "store", "table", 0)] && a.orders == [] && a.histories == []
    ensures Admissible(a, Create(ORDER_NOODLES))
    ensures OneOrder(CreateOrder(a, ORDER_NOODLES).0)
  {
    hide OrderNumber.FormatOrderNumber, DateCompact;
    assert a.tables[0].id == "table";
    NoodlesPriced();
    hide PriceItems;
    assert |CreateOrder(a, ORDER_NOODLES).0.orders| == 1;
  }

  lemma OrderedRun()
    ensures ValidRun(ORDERED) && OneOrder(After(ORDERED))
  {
    var run := ORDERED;
    assert run[..2] == [ActiveSessions.FIRST_SETUP, EditMenus([NOODLES])] && run[..2][..1] == [ActiveSessions.FIRST_SETUP];
    ActiveSessions.FirstSetup();
    hide ActiveSessions.FIRST_SETUP, CreateOrder, OneOrder;
    NoodlesOrdered(After(run[..2]));
  }

  // ---------- Deleting the order ----------

  lemma TotalIs(db: Db)
    requires OneOrder(db)
    ensures SumTableTotal(db.orders, "store", "session1") == 9000
  {
    assert db.orders == [] + [db.orders[0]];
    OrderLists.SumSnoc([], db.orders[0], "store", "session1");
    NoOrders();
  }

  /** Deleting the only order returns a total of 9000, although nothing is left. */
  lemma WrongTotalReturned()
    ensures ValidRun(ORDERED)
    ensures var (db, r) := (After(ORDERED), DeleteRequest("store", "order", "admin", 1));
            && FindOrder(db.orders, r.store, r.order).Some?
            && Services.ReturnedTotal(db, r) == 9000 && DeleteOrder(db, r).1.value.tableTotal == 0
  {
    OrderedRun();
    hide After, ValidRun, SumTableTotal;
    var db := After(ORDERED);
    TotalIs(db);
    OrderLists.SumUpdate(db.orders, 0, db.orders[0].(deletedAt := Some(1), deletedBy := Some("admin")), "store", "session1");
  }

  // ---------- Serving it ----------

  lemma Served(db: Db)
    requires OneOrder(db)
    ensures OneOrder(UpdateStatus(db, SERVE).0)
    ensures var orders := UpdateStatus(db, SERVE).0.orders;
            CountPending(orders, "store", "session1") == 0 && OrderLists.CountBySession(orders, "store", "session1") == 1
  {
    NoOrders();
    var orders := UpdateStatus(db, SERVE).0.orders;
    assert orders[..0] == [];
  }

  lemma ServedRun()
    ensures ValidRun(SERVED) && OneOrder(After(SERVED))
    ensures CountPending(After(SERVED).orders, "store", "session1") == 0
    ensures |ListBySession(After(SERVED).orders, "store", "session1")| == 1
  {
    OrderedRun();
    hide OneOrder, CountPending, ListBySession;
    assert SERVED[..3] == ORDERED;
    Served(After(ORDERED));
    OrderLists.ListCount(After(SERVED).orders, "store", "session1");
  }

  /** The table is closed, and the order, paid in full, is the only row of the history. */
  lemma ClosedRun()
    ensures ValidRun(CLOSED)
    ensures var db := After(CLOSED);
            |db.histories| == 1 && Transactions.HistoryTotal(db.histories) == 9000 && db.sessions[0].status == SessionStatus.Completed
  {
    ServedRun();
    var b := After(SERVED);
    TotalIs(b);
    hide OneOrder, CountPending, SumTableTotal, ListBySession, ArchiveAll, Transactions.HistoryTotal;
    Closing(b);
    RowsAreAppended(b, CLOSE);
    assert CLOSED[..4] == SERVED;
    assert [] + RowsArchived(b, CLOSE) == RowsArchived(b, CLOSE);
  }

  lemma Closing(b: Db)
    requires OneOrder(b) && CountPending(b.orders, "store", "session1") == 0
    requires |ListBySession(b.orders, "store", "session1")| == 1
    ensures Admissible(b, Complete(CLOSE)) && CompleteSession(b, CLOSE).1.Success?
    ensures b.histories == [] && b.sessions == [NewSession("session1", "store", "table", 0)]
  {
    hide ListBySession, CountPending, ArchiveAll;
  }

  // ---------- Sessions that run out ----------

  const WITH_TOKEN := CreateRequest("store", Some("table"), Some("session1"), [ItemRequest("noodles", 1)],
                                    SESSION_TTL, Numbering.NEW_YEAR, SESSION_TTL, "order", "unused", Some(0))

  /** An order with the table's token finds its session run out, and is refused; the session stays marked ACTIVE. */
  lemma ExpiredStaysActive()
    ensures ValidRun([ActiveSessions.FIRST_SETUP, Create(WITH_TOKEN)])
    ensures var (a, b) := (After([ActiveSessions.FIRST_SETUP]), After([ActiveSessions.FIRST_SETUP, Create(WITH_TOKEN)]));
            && CreateOrder(a, WITH_TOKEN).1 == Failure(SessionClosed)
            && |b.sessions| == 1 && b.sessions[0].status == SessionStatus.Active && b.sessions[0].expiresAt <= WITH_TOKEN.now
  {
    ActiveSessions.FirstSetup();
    var run := [ActiveSessions.FIRST_SETUP, Create(WITH_TOKEN)];
    assert run[..1] == [ActiveSessions.FIRST_SETUP];
    var a := After(run[..1]);
    hide ActiveSessions.FIRST_SETUP;
    assert a.tables[0].id == "table";
    assert Admissible(a, Create(WITH_TOKEN));
  }

  const EXPIRED := ORDERED + [Login(LoginRequest("store", "T1", {"hash"}, SESSION_TTL, Some(0)))]

  /**
    A login marks the session of a table with an order EXPIRED: the order is still there, and will not enter
    the history.
   */
  lemma ExpiredOrderNotArchived()
    ensures ValidRun(EXPIRED)
    ensures var db := After(EXPIRED);
            && |db.orders| == 1 && db.orders[0].deletedAt.None? && |db.sessions| == 1 && db.orders[0].session == db.sessions[0].id
            && db.sessions[0].status == SessionStatus.Expired && db.histories == []
  {
    OrderedRun();
    assert EXPIRED[..3] == ORDERED;
    hide ValidRun, After;
    LoginExpires(After(ORDERED));
    assert ValidRun(EXPIRED) && After(EXPIRED) == Next(After(ORDERED), EXPIRED[3]) by { OneMore(ORDERED, EXPIRED[3]); }
  }

  lemma LoginExpires(a: Db)
    requires OneOrder(a)
    ensures var q := LoginRequest("store", "T1", {"hash"}, SESSION_TTL, Some(0));
            Admissible(a, Login(q)) && Next(a, Login(q)) == MarkSession(a, 0, SessionStatus.Expired, None)
  {
    assert FindTable(a.tables, "store", "T1") == Some(0);
  }

  lemma OneMore(run: seq<Request>, q: Request)
    requires ValidRun(run) && Admissible(After(run), q)
    ensures ValidRun(run + [q]) && After(run + [q]) == Next(After(run), q)
  {
    hide Next, Admissible;
    assert (run + [q])[..|run|] == run;
  }

  // ---------- Two sessions at once ----------

  const TWICE := [ActiveSessions.FIRST_SETUP, ActiveSessions.SECOND_SETUP]

  ghost predicate TwoSessions(db: Db) {
    && db.tables == [Table("table", "store", "T1", Some("hash"), true)]
    && db.sessions == [NewSession("session1", "store", "table", 0), NewSession("session2", "store", "table", SESSION_TTL)]
  }

  lemma SetUpTwice()
    ensures ValidRun(TWICE) && TwoSessions(After(TWICE)) && After(TWICE).orders == []
  {
    ActiveSessions.TwoActiveSessions();
    ActiveSessions.FirstSetup();
    assert TWICE[..1] == [ActiveSessions.FIRST_SETUP];
    assert FindTable(After([ActiveSessions.FIRST_SETUP]).tables, "store", "T1") == Some(0);
  }

  const THIRD_SETUP := SetupRequest("store", "T1", "hash", SESSION_TTL + 1, SESSION_TTL + 1, "unused", "session3", Some(0))

  /** The table has a session that runs, and yet is set up again: the lookup returned the old one. */
  lemma SetUpOverRunning()
    ensures ValidRun(TWICE + [Setup(THIRD_SETUP)])
    ensures var (a, b) := (After(TWICE), After(TWICE + [Setup(THIRD_SETUP)]));
            && ActiveSessions.TableHas(a, "store", "T1", THIRD_SETUP.now, true)
            && SetupTable(a, THIRD_SETUP).1.Success? && |b.sessions| == 3
            && forall j :: 0 <= j < 3 ==> b.sessions[j].status == SessionStatus.Active
  {
    SetUpTwice();
    hide ValidRun, After;
    var a := After(TWICE);
    assert FindTable(a.tables, "store", "T1") == Some(0);
    assert ActiveSessions.ActiveRow(a.sessions[1], "store", "table", THIRD_SETUP.now, true);
    assert Admissible(a, Setup(THIRD_SETUP));
    OneMore(TWICE, Setup(THIRD_SETUP));
  }

  const TABLET := LoginRequest("store", "T1", {"hash"}, SESSION_TTL + 1, Some(0))

  /** Right after such a setup the tablet, with the right password, may be turned away. */
  lemma TurnedAwayAfterSetup()
    ensures ValidRun(TWICE) && Admissible(After(TWICE), Login(TABLET))
    ensures TABLET.now < ActiveSessions.SECOND_SETUP.setup.startedAt + SESSION_TTL
    ensures LoginTable(After(TWICE), TABLET).1 == Failure(TokenExpired) && !TableLogins.SureToGetIn(After(TWICE), TABLET)
  {
    SetUpTwice();
    hide ValidRun, After;
    assert FindTable(After(TWICE).tables, "store", "T1") == Some(0);
    assert TABLET.(pick := Some(0)) == TABLET;
    assert PickOfTable(After(TWICE), "store", "T1", Some(0));
  }

  // ---------- Completing one of two sessions ----------

  const ORDER_LATER := CreateRequest("store", Some("table"), None, [ItemRequest("noodles", 1)],
                                     SESSION_TTL + 1, Numbering.NEW_YEAR, SESSION_TTL + 1, "order", "unused", Some(1))
  const BUSY := TWICE + [EditMenus([NOODLES])] + [Create(ORDER_LATER)]
  const CLOSE_OLD := CompleteRequest("store", "table", SESSION_TTL + 2, [], Some(0))
  const TABLET_LATER := LoginRequest("store", "T1", {"hash"}, SESSION_TTL + 2, Some(1))

  /** Two sessions, and one order, in the second. */
  ghost predicate OrderInSecond(db: Db) {
    && TwoSessions(db)
    && |db.orders| == 1
    && var o := db.orders[0];
    o.store == "store" && o.session == "session2" && o.total == 9000 && o.deletedAt.None?
  }

  lemma OrderedLater(a: Db)
    requires TwoSessions(a) && a.menus == [NOODLES] && a.orders == []
    ensures Admissible(a, Create(ORDER_LATER)) && OrderInSecond(CreateOrder(a, ORDER_LATER).0)
  {
    hide OrderNumber.FormatOrderNumber, DateCompact;
    assert a.tables[0].id == "table";
    NoodlesPriced();
    hide PriceItems;
    assert |CreateOrder(a, ORDER_LATER).0.orders| == 1;
  }

  lemma BusyRun()
    ensures ValidRun(BUSY) && OrderInSecond(After(BUSY))
  {
    SetUpTwice();
    hide ValidRun, After, OrderInSecond;
    var a := After(TWICE);
    OneMore(TWICE, EditMenus([NOODLES]));
    OrderedLater(a.(menus := [NOODLES]));
    OneMore(TWICE + [EditMenus([NOODLES])], Create(ORDER_LATER));
  }

  lemma NothingInFirst(b: Db)
    requires OrderInSecond(b)
    ensures CountPending(b.orders, "store", "session1") == 0 && ListBySession(b.orders, "store", "session1") == []
    ensures SumTableTotal(b.orders, "store", "session2") == 9000
  {
    assert b.orders[..0] == [];
    assert OrderLists.CountBySession(b.orders, "store", "session1") == 0;
    OrderLists.ListCount(b.orders, "store", "session1");
  }

  /**
    Completing the session that has run out leaves the other: its card is not reset, and the tablet still
    gets a token.
   */
  lemma OtherSessionStays()
    ensures ValidRun(BUSY) && Admissible(After(BUSY), Complete(CLOSE_OLD)) && CompleteSession(After(BUSY), CLOSE_OLD).1.Success?
    ensures var b := Next(After(BUSY), Complete(CLOSE_OLD));
            && ValidPick(b.sessions, "store", "table", Some(1))
            && LoginTable(b, TABLET_LATER).1 == Success("session2")
            && Dashboard.CardOf(b, "store", b.tables[0], Some(1), SESSION_TTL + 2).total == 9000
  {
    BusyRun();
    hide ValidRun, After;
    var a := After(BUSY);
    NothingInFirst(a);
    hide CountPending, ListBySession, SumTableTotal;
    assert FindTable(a.tables, "store", "T1") == Some(0);
  }
}
