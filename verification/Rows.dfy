/** The rows of the database that the services work on, and the queries over them. */
module Rows {
  import opened Wrappers
  import opened Timestamp
  import Sorting

  type Id = string

  datatype SessionStatus = Active | Completed | Expired
  datatype OrderStatus = Pending | Preparing | Completed

  datatype Table = Table(id: Id, store: Id, no: string, passwordHash: Option<string>, autoLogin: bool)

  datatype Session = Session(id: Id, store: Id, table: Id, status: SessionStatus,
                             startedAt: int, expiresAt: int, completedAt: Option<int>)

  datatype Menu = Menu(id: Id, store: Id, name: string, price: int)

  /** Name and price are copied from the menu when the order is placed. */
  datatype Item = Item(menu: Id, name: string, unitPrice: int, quantity: int, lineAmount: int)

  datatype Order = Order(id: Id, store: Id, table: Id, session: Id, number: string, seqNo: int, date: Day,
                         status: OrderStatus, total: int, createdAt: int,
                         deletedAt: Option<int>, deletedBy: Option<string>, items: seq<Item>)

  datatype History = History(id: Id, store: Id, table: Id, session: Id, order: Id, number: string,
                             total: int, status: OrderStatus, createdAt: int, completedAt: int, items: seq<Item>)

  /** Rows lie in insertion order and are never removed, so a row's index is its identity. */
  datatype Db = Db(tables: seq<Table>, sessions: seq<Session>, menus: seq<Menu>, orders: seq<Order>, histories: seq<History>)

  // ---------- Tables and sessions ----------

  function FindTable(tables: seq<Table>, store: Id, no: string): (r: Option<nat>)
    ensures r.Some? ==> r.value < |tables| && tables[r.value].store == store && tables[r.value].no == no
    ensures r.None? ==> forall t :: t in tables ==> t.store != store || t.no != no
  {
    if tables == [] then None
    else if tables[|tables| - 1].store == store && tables[|tables| - 1].no == no then Some(|tables| - 1)
    else
      var r := FindTable(tables[..|tables| - 1], store, no);
      assert tables == tables[..|tables| - 1] + [tables[|tables| - 1]];
      r
  }

  predicate ActiveFor(s: Session, store: Id, table: Id) {
    s.store == store && s.table == table && s.status == SessionStatus.Active
  }

  /** The query for a table's active session has no ordering: the database may return any row that fits. */
  ghost predicate ValidPick(sessions: seq<Session>, store: Id, table: Id, pick: Option<nat>) {
    match pick
    case None => forall i :: 0 <= i < |sessions| ==> !ActiveFor(sessions[i], store, table)
    case Some(i) => i < |sessions| && ActiveFor(sessions[i], store, table)
  }

  function ActiveCount(sessions: seq<Session>, store: Id, table: Id): nat {
    if sessions == [] then 0
    else ActiveCount(sessions[..|sessions| - 1], store, table) + if ActiveFor(sessions[|sessions| - 1], store, table) then 1 else 0
  }

  // ---------- Menus ----------

  function FindMenu(menus: seq<Menu>, store: Id, id: Id): (r: Option<Menu>)
    ensures r.Some? ==> r.value in menus && r.value.store == store && r.value.id == id
    ensures r.None? ==> forall m :: m in menus ==> m.store != store || m.id != id
  {
    if menus == [] then None
    else if menus[0].store == store && menus[0].id == id then Some(menus[0])
    else FindMenu(menus[1..], store, id)
  }

  // ---------- Orders ----------

  predicate Live(o: Order, store: Id, session: Id) {
    o.store == store && o.session == session && o.deletedAt.None?
  }

  /** A live order of the store, by its id. */
  function FindOrder(orders: seq<Order>, store: Id, id: Id): (r: Option<nat>)
    ensures r.Some? ==> r.value < |orders| && orders[r.value].deletedAt.None?
    ensures r.Some? ==> orders[r.value].store == store && orders[r.value].id == id
    ensures r.None? ==> forall o :: o in orders ==> o.store != store || o.id != id || o.deletedAt.Some?
  {
    if orders == [] then None
    else
      var last := orders[|orders| - 1];
      if last.store == store && last.id == id && last.deletedAt.None? then Some(|orders| - 1)
      else
        var r := FindOrder(orders[..|orders| - 1], store, id);
        assert orders == orders[..|orders| - 1] + [last];
        r
  }

  /** `MAX(order_seq)` of a store and day, deleted rows included; 0 without any. */
  function MaxSeq(orders: seq<Order>, store: Id, date: Day): nat {
    if orders == [] then 0
    else
      var m := MaxSeq(orders[..|orders| - 1], store, date);
      var last := orders[|orders| - 1];
      if last.store == store && last.date == date && last.seqNo > m then last.seqNo else m
  }

  function Worth(o: Order, store: Id, session: Id): int {
    if Live(o, store, session) then o.total else 0
  }

  function SumTableTotal(orders: seq<Order>, store: Id, session: Id): int {
    if orders == [] then 0
    else SumTableTotal(orders[..|orders| - 1], store, session) + Worth(orders[|orders| - 1], store, session)
  }

  predicate Unfinished(o: Order, store: Id, session: Id) {
    Live(o, store, session) && (o.status == OrderStatus.Pending || o.status == OrderStatus.Preparing)
  }

  function CountPending(orders: seq<Order>, store: Id, session: Id): nat {
    if orders == [] then 0
    else CountPending(orders[..|orders| - 1], store, session) + if Unfinished(orders[|orders| - 1], store, session) then 1 else 0
  }

  function LiveOrders(orders: seq<Order>, store: Id, session: Id): seq<Order> {
    if orders == [] then []
    else
      LiveOrders(orders[..|orders| - 1], store, session)
      + if Live(orders[|orders| - 1], store, session) then [orders[|orders| - 1]] else []
  }

  /** `ORDER BY created_at, order_seq`, ascending. */
  predicate Precedes(a: Order, b: Order) {
    a.createdAt < b.createdAt || (a.createdAt == b.createdAt && a.seqNo <= b.seqNo)
  }

  function SortByCreation(orders: seq<Order>): seq<Order> {
    Sorting.SortBy(Precedes, orders)
  }

  function ListBySession(orders: seq<Order>, store: Id, session: Id): seq<Order> {
    SortByCreation(LiveOrders(orders, store, session))
  }

  // ---------- Money ----------

  /** `line_amount`, then `total_amount` over the lines. */
  function LineAmount(unitPrice: int, quantity: int): int {
    unitPrice * quantity
  }

  function TotalAmount(items: seq<Item>): int {
    if items == [] then 0 else TotalAmount(items[..|items| - 1]) + items[|items| - 1].lineAmount
  }
}
