/**
  How many sessions of a table are ACTIVE at once. One at most, unless a table is set up again over
  a session that has run out but is still marked ACTIVE; table logins clear such sessions away.
 */
module ActiveSessions {
  import opened Wrappers
  import opened Rows
  import opened Steps
  import opened Invariants
  import opened Transactions
  import opened Runs

  // ---------- Counting rows ----------

  function Bit(b: bool): nat {
    if b then 1 else 0
  }

  lemma {:induction false} CountUpdate(sessions: seq<Session>, i: nat, s: Session, store: Id, table: Id)
    requires i < |sessions|
    ensures ActiveCount(sessions[i := s], store, table) + Bit(ActiveFor(sessions[i], store, table))
            == ActiveCount(sessions, store, table) + Bit(ActiveFor(s, store, table))
  {
    var front := sessions[..|sessions| - 1];
    if i < |front| {
      CountUpdate(front, i, s, store, table);
      assert sessions[i := s][..|front|] == front[i := s];
    } else {
      assert sessions[i := s][..|front|] == front;
    }
  }

  lemma CountSnoc(sessions: seq<Session>, s: Session, store: Id, table: Id)
    ensures ActiveCount(sessions + [s], store, table) == ActiveCount(sessions, store, table) + Bit(ActiveFor(s, store, table))
  {
    assert (sessions + [s])[..|sessions|] == sessions;
  }

  lemma {:induction false} CountZeroIff(sessions: seq<Session>, store: Id, table: Id)
    ensures ActiveCount(sessions, store, table) == 0 <==> forall i :: 0 <= i < |sessions| ==> !ActiveFor(sessions[i], store, table)
  {
    if sessions != [] {
      CountZeroIff(sessions[..|sessions| - 1], store, table);
      assert forall i :: 0 <= i < |sessions| - 1 ==> sessions[..|sessions| - 1][i] == sessions[i];
    }
  }

  /** An unordered query finds no active session exactly when there is none. */
  lemma {:induction false} PickMeansCount(sessions: seq<Session>, store: Id, table: Id, pick: Option<nat>)
    requires ValidPick(sessions, store, table, pick)
    ensures pick.None? <==> ActiveCount(sessions, store, table) == 0
  {
    CountZeroIff(sessions, store, table);
  }

  // ---------- What one request changes ----------

  /** How many more ACTIVE rows of the table there are after the request. */
  function Change(a: Db, q: Request, store: Id, table: Id): int
    requires q.Setup? && q.setup.pick.Some? ==> q.setup.pick.value < |a.sessions|
    requires q.Login? && q.login.pick.Some? ==> q.login.pick.value < |a.sessions|
    requires q.Create? && q.create.pick.Some? ==> q.create.pick.value < |a.sessions|
    requires q.Complete? && q.complete.pick.Some? ==> q.complete.pick.value < |a.sessions|
    requires q.Complete? && q.complete.pick.Some? ==>
               |ListBySession(a.orders, q.complete.store, a.sessions[q.complete.pick.value].id)| <= |q.complete.historyIds|
  {
    match q
    case Setup(r) =>
      var res := SetupTable(a, r).1;
      if res.Success? && r.store == store && res.value.0 == table then 1 else 0
    case Login(r) =>
      if LoginTable(a, r).1 == Failure(TokenExpired) && r.pick.Some?
          && ActiveFor(a.sessions[r.pick.value], store, table) then -1 else 0
    case Create(r) =>
      if CreateOrder(a, r).1.Success? && r.pick.None? && r.store == store && r.table == Some(table) then 1 else 0
    case Complete(r) =>
      if CompleteSession(a, r).1.Success? && r.store == store && r.table == table then -1 else 0
    case _ => 0
  }

  lemma ChangeOfSetup(a: Db, r: SetupRequest, store: Id, table: Id)
    requires Admissible(a, Setup(r))
    ensures ActiveCount(SetupTable(a, r).0.sessions, store, table)
            == ActiveCount(a.sessions, store, table) + Change(a, Setup(r), store, table)
  {
    hide ActiveCount, FindTable;
    var (c, id) := UpsertTable(a, r);
    CountSnoc(a.sessions, NewSession(r.sessionId, r.store, id, r.startedAt), store, table);
  }

  lemma ChangeOfLogin(a: Db, r: LoginRequest, store: Id, table: Id)
    requires Admissible(a, Login(r))
    ensures ActiveCount(LoginTable(a, r).0.sessions, store, table)
            == ActiveCount(a.sessions, store, table) + Change(a, Login(r), store, table)
  {
    hide ActiveCount, FindTable;
    if LoginTable(a, r).0 != a {
      var s := a.sessions[r.pick.value];
      CountUpdate(a.sessions, r.pick.value, WithStatus(s, SessionStatus.Expired, None), store, table);
    }
  }

  lemma ChangeOfStart(a: Db, r: CreateRequest, id: Id, store: Id, table: Id)
    requires ValidPick(a.sessions, r.store, id, r.pick) && GetOrStartSession(a, r, id).Success?
    ensures ActiveCount(GetOrStartSession(a, r, id).value.0.sessions, store, table)
            == ActiveCount(a.sessions, store, table) + Bit(r.pick.None? && r.store == store && id == table)
  {
    hide ActiveCount;
    var s := NewSession(r.sessionId, r.store, id, r.now);
    if r.pick.Some? {
      var found := a.sessions[r.pick.value];
      var marked := a.sessions[r.pick.value := WithStatus(found, SessionStatus.Expired, None)];
      CountUpdate(a.sessions, r.pick.value, WithStatus(found, SessionStatus.Expired, None), store, table);
      CountSnoc(marked, s, store, table);
    } else {
      CountSnoc(a.sessions, s, store, table);
    }
  }

  lemma ChangeOfCreate(a: Db, r: CreateRequest, store: Id, table: Id)
    requires Admissible(a, Create(r))
    ensures ActiveCount(CreateOrder(a, r).0.sessions, store, table)
            == ActiveCount(a.sessions, store, table) + Change(a, Create(r), store, table)
  {
    hide ActiveCount, GetOrStartSession, PriceItems, NewOrder;
    if CreateOrder(a, r).1.Success? { ChangeOfStart(a, r, r.table.value, store, table); }
  }

  lemma ChangeOfComplete(a: Db, r: CompleteRequest, store: Id, table: Id)
    requires Admissible(a, Complete(r))
    ensures ActiveCount(CompleteSession(a, r).0.sessions, store, table)
            == ActiveCount(a.sessions, store, table) + Change(a, Complete(r), store, table)
  {
    hide ActiveCount, ListBySession, ArchiveAll, CountPending;
    if CompleteSession(a, r).1.Success? {
      var s := a.sessions[r.pick.value];
      CountUpdate(a.sessions, r.pick.value, WithStatus(s, SessionStatus.Completed, Some(r.completedAt)), store, table);
    }
  }

  lemma StepChange(a: Db, q: Request, store: Id, table: Id)
    requires Admissible(a, q)
    ensures ActiveCount(Next(a, q).sessions, store, table) == ActiveCount(a.sessions, store, table) + Change(a, q, store, table)
  {
    hide ActiveCount, Change, SetupTable, LoginTable, CreateOrder, CompleteSession, ListBySession;
    match q
    case Setup(r) => ChangeOfSetup(a, r, store, table);
    case Login(r) => ChangeOfLogin(a, r, store, table);
    case Create(r) => ChangeOfCreate(a, r, store, table);
    case Complete(r) => ChangeOfComplete(a, r, store, table);
    case Status(r) => NoChange(a, q, store, table);
    case Delete(r) => NoChange(a, q, store, table);
    case EditMenus(_) => NoChange(a, q, store, table);
  }

  lemma NoChange(a: Db, q: Request, store: Id, table: Id)
    requires Admissible(a, q) && (q.Status? || q.Delete? || q.EditMenus?)
    ensures Next(a, q).sessions == a.sessions && Change(a, q, store, table) == 0
  {}

  // ---------- At most one ----------

  /** Setting the table up again although the session found there, still marked ACTIVE, has run out. */
  ghost predicate SetupOverExpired(a: Db, q: Request) {
    && q.Setup? && q.setup.pick.Some? && q.setup.pick.value < |a.sessions|
    && q.setup.now >= a.sessions[q.setup.pick.value].expiresAt
  }

  ghost predicate SessionsHaveTables(a: Db) {
    forall j :: 0 <= j < |a.sessions| ==> KnownTable(a, a.sessions[j].store, a.sessions[j].table)
  }

  ghost predicate OneActive(a: Db) {
    forall store, table :: ActiveCount(a.sessions, store, table) <= 1
  }

  /** The one request that can leave a table with more than one ACTIVE session always does. */
  lemma OneActiveIff(a: Db, q: Request)
    requires TablesOk(a.tables) && SessionsHaveTables(a) && Admissible(a, q) && OneActive(a)
    ensures OneActive(Next(a, q)) <==> !SetupOverExpired(a, q)
  {
    hide ActiveCount, Next, TablesOk, SessionsHaveTables, Admissible;
    if SetupOverExpired(a, q) {
      var store, table := SecondSession(a, q.setup);
      assert ActiveCount(Next(a, q).sessions, store, table) == 2;
    } else {
      forall store, table
        ensures ActiveCount(Next(a, q).sessions, store, table) <= 1
      {
        assert ActiveCount(a.sessions, store, table) <= 1;
        StepChange(a, q, store, table);
        RiseFromZero(a, q, store, table);
      }
    }
  }

  lemma SecondSession(a: Db, r: SetupRequest) returns (store: Id, table: Id)
    requires Admissible(a, Setup(r)) && SetupOverExpired(a, Setup(r)) && OneActive(a)
    ensures ActiveCount(Next(a, Setup(r)).sessions, store, table) == 2
  {
    hide ActiveCount, FindTable;
    store, table := r.store, a.tables[FindTable(a.tables, r.store, r.no).value].id;
    PickMeansCount(a.sessions, store, table, r.pick);
    StepChange(a, Setup(r), store, table);
  }

  /** Otherwise an ACTIVE row is added only where there is none. */
  lemma RiseFromZero(a: Db, q: Request, store: Id, table: Id)
    requires TablesOk(a.tables) && SessionsHaveTables(a) && Admissible(a, q) && !SetupOverExpired(a, q)
    ensures Change(a, q, store, table) <= 0 || ActiveCount(a.sessions, store, table) == 0
  {
    hide ActiveCount, ListBySession, ArchiveAll, CompleteSession, CreateOrder, PriceItems, TablesOk;
    match q
    case Create(r) => if r.table.Some? { PickMeansCount(a.sessions, r.store, r.table.value, r.pick); }
    case Setup(r) =>
      var found := FindTable(a.tables, r.store, r.no);
      if found.Some? {
        PickMeansCount(a.sessions, r.store, a.tables[found.value].id, r.pick);
      } else {
        NoSessionsYet(a, r.store, r.tableId);
      }
    case _ =>
  }

  lemma NoSessionsYet(a: Db, store: Id, table: Id)
    requires SessionsHaveTables(a) && FreshTable(a, table)
    ensures ActiveCount(a.sessions, store, table) == 0
  {
    CountZeroIff(a.sessions, store, table);
    forall j | 0 <= j < |a.sessions|
      ensures !ActiveFor(a.sessions[j], store, table)
    {
      assert KnownTable(a, a.sessions[j].store, a.sessions[j].table);
    }
  }

  lemma TablesStay(a: Db, q: Request)
    requires Admissible(a, q)
    ensures |a.tables| <= |Next(a, q).tables|
    ensures forall i :: 0 <= i < |a.tables| ==>
              Next(a, q).tables[i].id == a.tables[i].id && Next(a, q).tables[i].store == a.tables[i].store
  {
    hide ListBySession, ArchiveAll, CountPending, PriceItems, NewOrder;
  }

  lemma NewSessionHasTable(a: Db, q: Request, j: nat)
    requires Admissible(a, q) && |a.sessions| <= j < |Next(a, q).sessions|
    ensures KnownTable(Next(a, q), Next(a, q).sessions[j].store, Next(a, q).sessions[j].table)
  {
    hide ListBySession, ArchiveAll, CountPending, PriceItems, NewOrder;
    if q.Setup? {
      var found := FindTable(a.tables, q.setup.store, q.setup.no);
      var i := if found.Some? then found.value else |a.tables|;
      assert Next(a, q).tables[i].id == Next(a, q).sessions[j].table;
    }
  }

  lemma TablesKnownNext(a: Db, q: Request)
    requires Inv(a) && SessionsHaveTables(a) && Admissible(a, q)
    ensures SessionsHaveTables(Next(a, q))
  {
    NextKeeps(a, q);
    TablesStay(a, q);
    hide Inv, Next, OrdersLater, ClosedFrozen, Admissible;
    var b := Next(a, q);
    forall j | 0 <= j < |b.sessions|
      ensures KnownTable(b, b.sessions[j].store, b.sessions[j].table)
    {
      if j < |a.sessions| {
        assert SessionLater(a.sessions[j], b.sessions[j]);
        var i :| 0 <= i < |a.tables| && a.tables[i].id == a.sessions[j].table && a.tables[i].store == a.sessions[j].store;
        assert b.tables[i].id == a.tables[i].id;
      } else {
        NewSessionHasTable(a, q, j);
      }
    }
  }

  lemma {:induction false} ReachableTablesKnown(run: seq<Request>)
    requires ValidRun(run)
    ensures SessionsHaveTables(After(run))
  {
    hide Inv, Next, Admissible;
    if run != [] {
      var front := run[..|run| - 1];
      ReachableTablesKnown(front);
      ReachableInv(front);
      TablesKnownNext(After(front), run[|run| - 1]);
    }
  }

  ghost predicate AlwaysOneActive(run: seq<Request>)
    requires ValidRun(run)
  {
    OneActive(After(run)) && (run != [] ==> AlwaysOneActive(run[..|run| - 1]))
  }

  ghost predicate NeverOverExpired(run: seq<Request>)
    requires ValidRun(run)
  {
    run != [] ==> NeverOverExpired(run[..|run| - 1]) && !SetupOverExpired(After(run[..|run| - 1]), run[|run| - 1])
  }

  /**
    Over whole runs: no table ever has two ACTIVE sessions exactly when no table is ever set up over an
    expired one.
   */
  lemma {:induction false} OneActiveThroughout(run: seq<Request>)
    requires ValidRun(run)
    ensures AlwaysOneActive(run) <==> NeverOverExpired(run)
  {
    hide Next, Admissible, SetupOverExpired, SessionsHaveTables, Inv, TablesOk;
    if run != [] {
      var front := run[..|run| - 1];
      OneActiveThroughout(front);
      if AlwaysOneActive(front) {
        ReachableInv(front);
        ReachableTablesKnown(front);
        assert TablesOk(After(front).tables) by { TablesOkInv(After(front)); }
        OneActiveIff(After(front), run[|run| - 1]);
      }
    }
  }

  lemma TablesOkInv(a: Db)
    requires Inv(a)
    ensures TablesOk(a.tables)
  {}

  // ---------- When a setup is refused ----------

  /** An ACTIVE row of the table that is still running, or one that has run out. */
  predicate ActiveRow(s: Session, store: Id, table: Id, now: int, running: bool) {
    ActiveFor(s, store, table) && (now < s.expiresAt <==> running)
  }

  ghost predicate HasActiveRow(sessions: seq<Session>, store: Id, table: Id, now: int, running: bool) {
    exists j :: 0 <= j < |sessions| && ActiveRow(sessions[j], store, table, now, running)
  }

  /** ... of the table with this number, if there is one. */
  ghost predicate TableHas(a: Db, store: Id, no: string, now: int, running: bool) {
    var found := FindTable(a.tables, store, no);
    found.Some? && HasActiveRow(a.sessions, store, a.tables[found.value].id, now, running)
  }

  lemma TwoRowsCount(sessions: seq<Session>, i: nat, j: nat, store: Id, table: Id)
    requires i < |sessions| && j < |sessions| && i != j
    requires ActiveFor(sessions[i], store, table) && ActiveFor(sessions[j], store, table)
    ensures ActiveCount(sessions, store, table) >= 2
  {
    var closed := sessions[i].(status := SessionStatus.Expired);
    CountUpdate(sessions, i, closed, store, table);
    CountZeroIff(sessions[i := closed], store, table);
    assert ActiveFor(sessions[i := closed][j], store, table);
  }

  /** While no table has two ACTIVE rows, a table is not set up again exactly as long as its session runs. */
  lemma SetupRefusedIff(a: Db, r: SetupRequest)
    requires Admissible(a, Setup(r)) && OneActive(a)
    ensures SetupTable(a, r).1.Failure? <==> TableHas(a, r.store, r.no, r.now, true)
  {
    hide ActiveCount, FindTable;
    var found := FindTable(a.tables, r.store, r.no);
    if found.Some? {
      var table := a.tables[found.value].id;
      assert ActiveCount(a.sessions, r.store, table) <= 1;
      if r.pick.Some? && r.now < a.sessions[r.pick.value].expiresAt {
        assert ActiveRow(a.sessions[r.pick.value], r.store, table, r.now, true);
      }
      if j :| 0 <= j < |a.sessions| && ActiveRow(a.sessions[j], r.store, table, r.now, true) {
        if r.pick.Some? && r.pick.value != j { TwoRowsCount(a.sessions, j, r.pick.value, r.store, table); }
      }
    }
  }

  /** Some row that the lookup may return lets the setup through. */
  ghost predicate MayPass(a: Db, r: SetupRequest) {
    exists pick :: PickOfTable(a, r.store, r.no, pick) && SetupTable(a, r.(pick := pick)).1.Success?
  }

  /**
    In general, a setup can get past a session that still runs if and only if the table has a run-out ACTIVE
    row too.
   */
  lemma SetupOverRunningIff(a: Db, r: SetupRequest)
    requires TableHas(a, r.store, r.no, r.now, true)
    ensures MayPass(a, r) <==> TableHas(a, r.store, r.no, r.now, false)
  {
    hide FindTable;
    var table := a.tables[FindTable(a.tables, r.store, r.no).value].id;
    var i :| 0 <= i < |a.sessions| && ActiveRow(a.sessions[i], r.store, table, r.now, true);
    if pick: Option<nat> :| PickOfTable(a, r.store, r.no, pick) && SetupTable(a, r.(pick := pick)).1.Success? {
      assert ActiveFor(a.sessions[i], r.store, table);
      assert ActiveRow(a.sessions[pick.value], r.store, table, r.now, false);
    }
    if j :| 0 <= j < |a.sessions| && ActiveRow(a.sessions[j], r.store, table, r.now, false) {
      assert PickOfTable(a, r.store, r.no, Some(j));
      assert SetupTable(a, r.(pick := Some(j))).1.Success?;
    }
  }

  // ---------- What a completion leaves ----------

  /** Row `j` is an ACTIVE session of the table that still runs, and not the one being completed. */
  predicate OtherRunning(a: Db, r: CompleteRequest, now: int, j: int) {
    0 <= j < |a.sessions| && r.pick != Some(j) && ActiveRow(a.sessions[j], r.store, r.table, now, true)
  }

  /** What the lookup returned is a session that runs. */
  predicate FindsRunning(sessions: seq<Session>, now: int, pick: Option<nat>) {
    pick.Some? && pick.value < |sessions| && now < sessions[pick.value].expiresAt
  }

  /** After a completion, the lookup finds exactly the rows that were there besides the completed one. */
  lemma FoundAfterCompletion(a: Db, r: CompleteRequest, now: int, pick: Option<nat>)
    requires Admissible(a, Complete(r)) && CompleteSession(a, r).1.Success?
    ensures var b := Next(a, Complete(r));
            && |b.sessions| == |a.sessions|
            && (ValidPick(b.sessions, r.store, r.table, pick) && FindsRunning(b.sessions, now, pick) <==>
                  pick.Some? && OtherRunning(a, r, now, pick.value))
            && (pick.Some? && OtherRunning(a, r, now, pick.value) ==> b.sessions[pick.value] == a.sessions[pick.value])
  {
    hide ListBySession, ArchiveAll, CountPending;
  }

  /** No lookup finds a running session any more, if and only if the table had no other one. */
  lemma CompletionClosesIff(a: Db, r: CompleteRequest, now: int)
    requires Admissible(a, Complete(r)) && CompleteSession(a, r).1.Success?
    ensures var b := Next(a, Complete(r));
            (forall pick: Option<nat> :: ValidPick(b.sessions, r.store, r.table, pick) ==> !FindsRunning(b.sessions, now, pick))
            <==> !exists j :: OtherRunning(a, r, now, j)
  {
    hide Next, CompleteSession, Admissible, ValidPick, OtherRunning, FindsRunning;
    var b := Next(a, Complete(r));
    forall pick: Option<nat>
      ensures ValidPick(b.sessions, r.store, r.table, pick) && FindsRunning(b.sessions, now, pick) <==>
                pick.Some? && OtherRunning(a, r, now, pick.value)
    {
      FoundAfterCompletion(a, r, now, pick);
    }
    if j :| OtherRunning(a, r, now, j) {
      assert j >= 0 by { IsARow(a, r, now, j); }
      var pick: Option<nat> := Some(j);
      assert pick.Some? && OtherRunning(a, r, now, pick.value);
    }
  }

  lemma IsARow(a: Db, r: CompleteRequest, now: int, j: int)
    requires OtherRunning(a, r, now, j)
    ensures 0 <= j < |a.sessions|
  {}

  // ---------- A run that breaks it ----------

  const FIRST_SETUP := Setup(SetupRequest("store", "T1", "hash", 0, 0, "table", "session1", None))
  const SECOND_SETUP := Setup(SetupRequest("store", "T1", "hash", SESSION_TTL, SESSION_TTL, "unused", "session2", Some(0)))

  /** Set up a table, let its session run out, set it up again: two ACTIVE sessions. */
  lemma TwoActiveSessions()
    ensures ValidRun([FIRST_SETUP, SECOND_SETUP])
    ensures ActiveCount(After([FIRST_SETUP, SECOND_SETUP]).sessions, "store", "table") == 2
  {
    var run := [FIRST_SETUP, SECOND_SETUP];
    assert run[..1] == [FIRST_SETUP] && run[..1][..0] == [];
    FirstSetup();
    var a := After([FIRST_SETUP]);
    assert FindTable(a.tables, "store", "T1") == Some(0);
    assert Admissible(a, SECOND_SETUP);
    assert ValidRun(run);
    StepChange(a, SECOND_SETUP, "store", "table");
    CountSnoc([], a.sessions[0], "store", "table");
  }

  lemma FirstSetup()
    ensures ValidRun([FIRST_SETUP])
    ensures After([FIRST_SETUP])
            == Db([Table("table", "store", "T1", Some("hash"), true)], [NewSession("session1", "store", "table", 0)], [], [], [])
  {
    var run := [FIRST_SETUP];
    assert run[..0] == [];
    assert ValidRun([]) && After([]) == EMPTY_DB;
    assert FindTable([], "store", "T1") == None;
    assert Admissible(EMPTY_DB, FIRST_SETUP);
  }
}
