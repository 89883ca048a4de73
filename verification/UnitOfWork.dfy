/**
  The database session with `autoflush=False`: queries see only the flushed rows, while new objects
  and changed attributes wait in memory until the commit writes them.
 */
module UnitOfWork {
  import opened Wrappers
  import opened Collections
  import opened Timestamp
  import Rows
  import opened OrderLists

  type Db = Rows.Db
  type Id = Rows.Id

  /** A new object, or the state in memory of a loaded one, found by its row. */
  datatype Change =
    | AddTable(table: Rows.Table)
    | SetTable(i: nat, table: Rows.Table)
    | AddSession(session: Rows.Session)
    | SetSession(i: nat, session: Rows.Session)
    | AddOrder(order: Rows.Order)
    | SetOrder(i: nat, order: Rows.Order)
    | AddHistory(history: Rows.History)

  predicate Fits(db: Db, c: Change) {
    match c
    case SetTable(i, _) => i < |db.tables|
    case SetSession(i, _) => i < |db.sessions|
    case SetOrder(i, _) => i < |db.orders|
    case _ => true
  }

  function Apply(db: Db, c: Change): Db {
    match c
    case AddTable(t) => db.(tables := db.tables + [t])
    case SetTable(i, t) => if i < |db.tables| then db.(tables := db.tables[i := t]) else db
    case AddSession(s) => db.(sessions := db.sessions + [s])
    case SetSession(i, s) => if i < |db.sessions| then db.(sessions := db.sessions[i := s]) else db
    case AddOrder(o) => db.(orders := db.orders + [o])
    case SetOrder(i, o) => if i < |db.orders| then db.(orders := db.orders[i := o]) else db
    case AddHistory(h) => db.(histories := db.histories + [h])
  }

  function ApplyAll(db: Db, changes: seq<Change>): Db {
    if changes == [] then db else Apply(ApplyAll(db, changes[..|changes| - 1]), changes[|changes| - 1])
  }

  /** The primary keys and UNIQUE constraints of the schema. */
  predicate Constraints(db: Db) {
    && (forall i, j :: 0 <= i < j < |db.tables| ==> db.tables[i].id != db.tables[j].id)
    && (forall i, j :: 0 <= i < j < |db.sessions| ==> db.sessions[i].id != db.sessions[j].id)
    && (forall i, j :: 0 <= i < j < |db.orders| ==> db.orders[i].id != db.orders[j].id)
    && (forall i, j :: 0 <= i < j < |db.histories| ==> db.histories[i].id != db.histories[j].id)
    && (forall i, j :: 0 <= i < j < |db.tables| ==> db.tables[i].store != db.tables[j].store || db.tables[i].no != db.tables[j].no)
    && (forall i, j :: 0 <= i < j < |db.orders| ==>
          db.orders[i].store != db.orders[j].store || db.orders[i].date != db.orders[j].date
          || db.orders[i].seqNo != db.orders[j].seqNo)
  }

  class Work {
    var rows: Db
    var pending: seq<Change>
    /** Whether every query so far was answered as it would have been with all writes applied at once. */
    ghost var agreed: bool

    constructor (db: Db)
      ensures rows == db && pending == [] && agreed
    {
      rows, pending, agreed := db, [], true;
    }

    /** What the objects in memory say: the flushed rows with the pending changes on top. */
    function View(): Db
      reads this`rows, this`pending
    {
      ApplyAll(rows, pending)
    }

    method Write(c: Change)
      requires Fits(View(), c)
      modifies this`pending
      ensures View() == Apply(old(View()), c)
    {
      ghost var before := pending;
      pending := pending + [c];
      assert pending[..|pending| - 1] == before;
    }

    /** Flush and commit; a broken constraint rolls everything back. */
    method Commit() returns (ok: bool)
      modifies this`rows, this`pending
      ensures ok == Constraints(old(View()))
      ensures rows == (if ok then old(View()) else old(rows)) && pending == [] && View() == rows
    {
      ok := Constraints(View());
      if ok { rows := View(); }
      pending := [];
    }

    method Rollback()
      modifies this`pending
      ensures pending == [] && View() == rows
    {
      pending := [];
    }

    // ---------- Queries: answered from the flushed rows ----------

    method GetTableByNo(store: Id, no: string) returns (i: Option<nat>)
      modifies this`agreed
      ensures i == Rows.FindTable(rows.tables, store, no)
      ensures agreed == (old(agreed) && i == Rows.FindTable(View().tables, store, no))
    {
      i := Rows.FindTable(rows.tables, store, no);
      agreed := agreed && i == Rows.FindTable(View().tables, store, no);
    }

    /** The row the database happens to return is `pick`. */
    method GetActiveSession(store: Id, table: Id, pick: Option<nat>) returns (i: Option<nat>)
      requires Rows.ValidPick(rows.sessions, store, table, pick)
      modifies this`agreed
      ensures i == pick
      ensures agreed == (old(agreed) && Rows.ValidPick(View().sessions, store, table, pick))
    {
      i := pick;
      agreed := agreed && Rows.ValidPick(View().sessions, store, table, pick);
    }

    method GetMenu(store: Id, id: Id) returns (menu: Option<Rows.Menu>)
      modifies this`agreed
      ensures menu == Rows.FindMenu(rows.menus, store, id)
      ensures agreed == (old(agreed) && menu == Rows.FindMenu(View().menus, store, id))
    {
      menu := Rows.FindMenu(rows.menus, store, id);
      agreed := agreed && menu == Rows.FindMenu(View().menus, store, id);
    }

    method MaxOrderSeq(store: Id, date: Day) returns (n: nat)
      modifies this`agreed
      ensures n == Rows.MaxSeq(rows.orders, store, date)
      ensures agreed == (old(agreed) && n == Rows.MaxSeq(View().orders, store, date))
    {
      n := Rows.MaxSeq(rows.orders, store, date);
      agreed := agreed && n == Rows.MaxSeq(View().orders, store, date);
    }

    method GetOrder(store: Id, id: Id) returns (i: Option<nat>)
      modifies this`agreed
      ensures i == Rows.FindOrder(rows.orders, store, id)
      ensures agreed == (old(agreed) && i == Rows.FindOrder(View().orders, store, id))
    {
      i := Rows.FindOrder(rows.orders, store, id);
      agreed := agreed && i == Rows.FindOrder(View().orders, store, id);
    }

    method SumTableTotal(store: Id, session: Id) returns (total: int)
      modifies this`agreed
      ensures total == Rows.SumTableTotal(rows.orders, store, session)
      ensures agreed == (old(agreed) && total == Rows.SumTableTotal(View().orders, store, session))
    {
      total := Rows.SumTableTotal(rows.orders, store, session);
      agreed := agreed && total == Rows.SumTableTotal(View().orders, store, session);
    }

    method CountPending(store: Id, session: Id) returns (n: nat)
      modifies this`agreed
      ensures n == Rows.CountPending(rows.orders, store, session)
      ensures agreed == (old(agreed) && n == Rows.CountPending(View().orders, store, session))
    {
      n := Rows.CountPending(rows.orders, store, session);
      agreed := agreed && n == Rows.CountPending(View().orders, store, session);
    }

    method ListBySession(store: Id, session: Id) returns (orders: seq<Rows.Order>)
      modifies this`agreed
      ensures orders == Rows.ListBySession(rows.orders, store, session)
      ensures agreed == (old(agreed) && orders == Rows.ListBySession(View().orders, store, session))
    {
      orders := Rows.ListBySession(rows.orders, store, session);
      agreed := agreed && orders == Rows.ListBySession(View().orders, store, session);
    }

    method RecentOrders(store: Id, session: Id, limit: nat) returns (orders: seq<Rows.Order>)
      modifies this`agreed
      ensures orders == Slice(Reverse(Rows.ListBySession(rows.orders, store, session)), 0, limit)
      ensures agreed == (old(agreed) && orders == Slice(Reverse(Rows.ListBySession(View().orders, store, session)), 0, limit))
    {
      orders := Slice(Reverse(Rows.ListBySession(rows.orders, store, session)), 0, limit);
      agreed := agreed && orders == Slice(Reverse(Rows.ListBySession(View().orders, store, session)), 0, limit);
    }
  }
}
