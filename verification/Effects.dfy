/** What each transaction leaves behind, row by row and field by field, and what it answers when it refuses. */
module Effects {
  import opened Wrappers
  import opened Rows
  import opened Steps
  import opened OrderLists
  import opened Invariants
  import opened Transactions

  /** A running session of sixteen hours, counted in microseconds. */
  predicate StartedAt(s: Session, id: Id, store: Id, table: Id, at: int) {
    && s.id == id && s.store == store && s.table == table
    && s.status == SessionStatus.Active && s.startedAt == at && s.expiresAt == at + 57_600_000_000 && s.completedAt.None?
  }

  /** Session `i` got the status and the completion time; everything else about all sessions is as before. */
  ghost predicate OnlyMarked(before: seq<Session>, after: seq<Session>, i: nat, status: SessionStatus, completedAt: Option<int>) {
    && i < |before| == |after|
    && after[i].status == status && after[i].completedAt == completedAt
    && after[i].id == before[i].id && after[i].store == before[i].store && after[i].table == before[i].table
    && after[i].startedAt == before[i].startedAt && after[i].expiresAt == before[i].expiresAt
    && forall j :: 0 <= j < |before| && j != i ==> after[j] == before[j]
  }

  // ---------- create_order ----------

  /**
    An order joins the session found running for its table. If none is, and its token names none, a new
    session starts now, and one that was found run out is marked EXPIRED.
   */
  lemma CreateEffect(a: Db, r: CreateRequest)
    requires Inv(a) && Admissible(a, Create(r)) && CreateOrder(a, r).1.Success?
    ensures var (b, o) := (CreateOrder(a, r).0, CreateOrder(a, r).1.value);
            && b.tables == a.tables && b.menus == a.menus && b.histories == a.histories && b.orders == a.orders + [o]
            && if OpenPick(a, r) then b.sessions == a.sessions && o.session == a.sessions[r.pick.value].id
               else
                 && |b.sessions| == |a.sessions| + 1 && o.session == r.sessionId
                 && StartedAt(b.sessions[|a.sessions|], r.sessionId, r.store, r.table.value, r.now)
                 && if r.pick.Some?
                    then OnlyMarked(a.sessions, b.sessions[..|a.sessions|], r.pick.value, SessionStatus.Expired, None)
                    else b.sessions[..|a.sessions|] == a.sessions
  {
    hide PriceItems, NewOrder, OrdersOk, OrdersSound, HistoriesSound, NothingLost, TablesOk, KnownTable;
    var (c, id) := GetOrStartSession(a, r, r.table.value).value;
    assert id == CreateOrder(a, r).1.value.session by {
      NewOrderFields(c.orders, r, r.table.value, id, PriceItems(c.menus, r.store, r.items).value);
    }
    if !OpenPick(a, r) {
      if r.pick.Some? { assert SessionSound(a.sessions[r.pick.value]); }
      var marked := if r.pick.Some? then MarkSession(a, r.pick.value, SessionStatus.Expired, None) else a;
      assert c.sessions[..|a.sessions|] == marked.sessions;
    }
  }

  /** A refused order changes nothing; the first reason in this order is the answer. */
  lemma CreateRefused(a: Db, r: CreateRequest)
    requires r.pick.Some? ==> r.pick.value < |a.sessions|
    requires CreateOrder(a, r).1.Failure?
    ensures CreateOrder(a, r).0 == a
    ensures CreateOrder(a, r).1.error ==
            if r.items == [] then OrderEmpty
            else if r.table.None? then Forbidden
            else if r.tokenSession.Some? && !(OpenPick(a, r) && a.sessions[r.pick.value].id == r.tokenSession.value)
            then SessionClosed
            else InvalidMenu
  {
    hide PriceItems, NewOrder;
  }

  // ---------- update_status and delete_order ----------

  /** Without such a live order both answer NOT_FOUND, and nothing changes. */
  lemma NotFoundRefused(a: Db, s: StatusRequest, d: DeleteRequest)
    ensures !HasLiveOrder(a.orders, s.store, s.order) ==> UpdateStatus(a, s) == (a, Failure(NotFound))
    ensures !HasLiveOrder(a.orders, d.store, d.order) ==> DeleteOrder(a, d) == (a, Failure(NotFound))
  {
    FoundIffLive(a.orders, s.store, s.order);
    FoundIffLive(a.orders, d.store, d.order);
    hide FindOrder;
  }

  /** The live order of that id, `i`, gets its two deletion marks, and nothing else changes. */
  lemma DeleteEffect(a: Db, r: DeleteRequest, i: nat)
    requires DistinctIds(a.orders) && i < |a.orders| && IsLiveOrder(a.orders[i], r.store, r.order)
    ensures var ((b, res), o) := (DeleteOrder(a, r), a.orders[i]);
            && res.Success? && res.value.order == r.order && res.value.table == o.table
            && res.value.tableTotal == SumTableTotal(a.orders, o.store, o.session) - o.total
            && b.tables == a.tables && b.sessions == a.sessions && b.menus == a.menus && b.histories == a.histories
            && |b.orders| == |a.orders| && (forall j :: 0 <= j < |a.orders| && j != i ==> b.orders[j] == a.orders[j])
            && b.orders[i].deletedAt == Some(r.at) && b.orders[i].deletedBy == Some(r.actor)
            && b.orders[i].status == o.status && Core(b.orders[i]) == Core(o)
  {
    hide SumTableTotal;
    FoundIffLive(a.orders, r.store, r.order);
    var found := FindOrder(a.orders, r.store, r.order).value;
    assert a.orders[found].id == a.orders[i].id;
    SumUpdate(a.orders, i, a.orders[i].(deletedAt := Some(r.at), deletedBy := Some(r.actor)), r.store, a.orders[i].session);
  }

  // ---------- setup_table ----------

  predicate TableAt(tables: seq<Table>, store: Id, no: string, i: nat) {
    i < |tables| && tables[i].store == store && tables[i].no == no
  }

  ghost predicate HasTable(tables: seq<Table>, store: Id, no: string) {
    exists i :: TableAt(tables, store, no, i)
  }

  /** The table has the password now, lets tablets log in, and keeps its id if it had one; the other tables are as before. */
  ghost predicate TableReady(before: seq<Table>, after: seq<Table>, r: SetupRequest, i: nat, id: Id) {
    && TableAt(after, r.store, r.no, i) && after[i].id == id
    && after[i].passwordHash == Some(r.passwordHash) && after[i].autoLogin
    && (if TableAt(before, r.store, r.no, i) then |after| == |before| && id == before[i].id
        else !HasTable(before, r.store, r.no) && i == |before| && |after| == i + 1 && id == r.tableId)
    && forall j :: 0 <= j < |before| && j != i ==> after[j] == before[j]
  }

  /** A set-up readies the table and starts a session for it, beside whatever sessions there are. */
  lemma SetupEffect(a: Db, r: SetupRequest) returns (i: nat)
    requires Inv(a) && Admissible(a, Setup(r)) && SetupTable(a, r).1.Success?
    ensures var (b, (table, session)) := (SetupTable(a, r).0, SetupTable(a, r).1.value);
            && TableReady(a.tables, b.tables, r, i, table) && session == r.sessionId
            && |b.sessions| == |a.sessions| + 1 && b.sessions[..|a.sessions|] == a.sessions
            && StartedAt(b.sessions[|a.sessions|], session, r.store, table, r.startedAt)
            && b.orders == a.orders && b.menus == a.menus && b.histories == a.histories
  {
    hide SessionsOk, OrdersOk, OrdersSound, HistoriesSound, NothingLost, ArchivedOnce, HistoryIdsUnique;
    var found := FindTable(a.tables, r.store, r.no);
    i := if found.Some? then found.value else |a.tables|;
    FoundIffTable(a.tables, r.store, r.no);
  }

  /** It is refused exactly while the table is there and the session found for it is running. */
  lemma SetupRefused(a: Db, r: SetupRequest)
    requires Admissible(a, Setup(r))
    ensures SetupTable(a, r).1.Failure? <==>
              HasTable(a.tables, r.store, r.no) && r.pick.Some? && r.now < a.sessions[r.pick.value].expiresAt
    ensures SetupTable(a, r).1.Failure? ==> SetupTable(a, r) == (a, Failure(SessionClosed))
  {
    FoundIffTable(a.tables, r.store, r.no);
  }

  lemma FoundIffTable(tables: seq<Table>, store: Id, no: string)
    ensures FindTable(tables, store, no).Some? <==> HasTable(tables, store, no)
  {
    var found := FindTable(tables, store, no);
    if found.Some? { assert TableAt(tables, store, no, found.value); }
    if i: nat :| TableAt(tables, store, no, i) { assert tables[i] in tables; }
  }

  // ---------- authenticate_table ----------

  /** The table is there, lets tablets log in, has a password, and it is the one sent. */
  predicate RightPassword(tables: seq<Table>, r: LoginRequest, i: nat) {
    && TableAt(tables, r.store, r.no, i) && tables[i].autoLogin
    && tables[i].passwordHash.Some? && tables[i].passwordHash.value in r.fits
  }

  /**
    UNAUTHORIZED without the right password, TOKEN_EXPIRED without a running session, and otherwise that
    session; the only thing a login ever changes is the mark of a session found run out.
   */
  lemma LoginAnswer(a: Db, r: LoginRequest)
    requires Inv(a) && Admissible(a, Login(r))
    ensures var (b, res) := LoginTable(a, r);
            if !exists i :: RightPassword(a.tables, r, i) then b == a && res == Failure(Unauthorized)
            else if r.pick.None? then b == a && res == Failure(TokenExpired)
            else if r.now < a.sessions[r.pick.value].expiresAt then b == a && res == Success(a.sessions[r.pick.value].id)
            else
              && res == Failure(TokenExpired) && b == a.(sessions := b.sessions)
              && OnlyMarked(a.sessions, b.sessions, r.pick.value, SessionStatus.Expired, None)
  {
    hide OrdersOk, OrdersSound, HistoriesSound, NothingLost, ArchivedOnce, HistoryIdsUnique, SessionIdsUnique;
    var found := FindTable(a.tables, r.store, r.no);
    FoundIffTable(a.tables, r.store, r.no);
    if found.Some? && PinAccepted(a, r) { assert RightPassword(a.tables, r, found.value); }
    if i: nat :| RightPassword(a.tables, r, i) {
      assert TableAt(a.tables, r.store, r.no, i);
      UpsertedFound(a.tables, r.store, r.no);
    }
    if r.pick.Some? { assert SessionSound(a.sessions[r.pick.value]); }
  }

  // ---------- complete_session ----------

  /** History row `h` is order `o`, completed at `at`. */
  predicate ArchivedFrom(h: History, o: Order, id: Id, at: int) {
    && h.id == id && h.order == o.id && h.store == o.store && h.table == o.table && h.session == o.session
    && h.number == o.number && h.total == o.total && h.status == o.status && h.createdAt == o.createdAt
    && h.items == o.items && h.completedAt == at
  }

  /** The session is marked COMPLETED, and the orders on its list are copied to the history, in their order. */
  lemma CompleteEffect(a: Db, r: CompleteRequest)
    requires Inv(a) && Admissible(a, Complete(r)) && CompleteSession(a, r).1.Success?
    ensures var (b, list) := (Next(a, Complete(r)), ListBySession(a.orders, r.store, a.sessions[r.pick.value].id));
            && r.pick.Some? && OnlyMarked(a.sessions, b.sessions, r.pick.value, SessionStatus.Completed, Some(r.completedAt))
            && b.tables == a.tables && b.menus == a.menus && b.orders == a.orders
            && |b.histories| == |a.histories| + |list| && b.histories[..|a.histories|] == a.histories
            && (forall k, m :: 0 <= k < |list| && m == |a.histories| + k ==>
                  ArchivedFrom(b.histories[m], list[k], r.historyIds[k], r.completedAt))
            && CompleteSession(a, r).1.value == |list|
  {
    hide ListBySession, CountPending, FreshHistories, Inv;
    var session := a.sessions[r.pick.value].id;
    ListMembers(a.orders, r.store, session);
    var list := ListBySession(a.orders, r.store, session);
    forall k | 0 <= k < |list|
      ensures list[k].store == r.store && list[k].session == session
    {
      assert list[k] in list;
    }
  }

  /** Without a session found ACTIVE it is not there; with unfinished orders it stays open; nothing changes. */
  lemma CompleteRefused(a: Db, r: CompleteRequest)
    requires Admissible(a, Complete(r)) && CompleteSession(a, r).1.Failure?
    ensures CompleteSession(a, r) == (a, Failure(if r.pick.None? then NotFound else SessionClosed))
  {}
}
