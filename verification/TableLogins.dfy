/**
  Logins at a table that has stale sessions: rows still marked ACTIVE although they have run out.
  A login may find any of the ACTIVE rows; one that finds a stale row marks it and is turned away.
 */
module TableLogins {
  import opened Wrappers
  import opened Rows
  import opened Steps
  import opened Invariants
  import opened Transactions
  import opened Runs
  import opened ActiveSessions

  predicate DueBy(s: Session, store: Id, table: Id, horizon: int) {
    s.store == store && s.table == table && s.expiresAt <= horizon
  }

  /** Rows of the table that have run out by `horizon`, whatever their status. */
  function DueCount(sessions: seq<Session>, store: Id, table: Id, horizon: int): nat {
    if sessions == [] then 0
    else
      DueCount(sessions[..|sessions| - 1], store, table, horizon)
      + if DueBy(sessions[|sessions| - 1], store, table, horizon) then 1 else 0
  }

  /** ... and of those, the ones still marked ACTIVE. */
  function StaleCount(sessions: seq<Session>, store: Id, table: Id, horizon: int): nat {
    if sessions == [] then 0
    else
      var last := sessions[|sessions| - 1];
      StaleCount(sessions[..|sessions| - 1], store, table, horizon)
      + if DueBy(last, store, table, horizon) && last.status == SessionStatus.Active then 1 else 0
  }

  /** ... and the ones no longer marked ACTIVE. */
  function SpentCount(sessions: seq<Session>, store: Id, table: Id, horizon: int): nat {
    if sessions == [] then 0
    else
      var last := sessions[|sessions| - 1];
      SpentCount(sessions[..|sessions| - 1], store, table, horizon)
      + if DueBy(last, store, table, horizon) && last.status != SessionStatus.Active then 1 else 0
  }

  lemma {:induction false} DueIsStaleAndSpent(sessions: seq<Session>, store: Id, table: Id, horizon: int)
    ensures DueCount(sessions, store, table, horizon)
            == StaleCount(sessions, store, table, horizon) + SpentCount(sessions, store, table, horizon)
  {
    if sessions != [] { DueIsStaleAndSpent(sessions[..|sessions| - 1], store, table, horizon); }
  }

  /** Spent rows stay spent. */
  lemma {:induction false} SpentGrows(s: seq<Session>, t: seq<Session>, store: Id, table: Id, horizon: int)
    requires SessionsLater(s, t)
    ensures SpentCount(s, store, table, horizon) <= SpentCount(t, store, table, horizon)
  {
    if t != [] {
      var u := t[..|t| - 1];
      if |s| == |t| {
        assert SessionLater(s[|s| - 1], t[|t| - 1]);
        assert forall j :: 0 <= j < |u| ==> s[..|s| - 1][j] == s[j] && u[j] == t[j];
        SpentGrows(s[..|s| - 1], u, store, table, horizon);
      } else {
        SpentGrows(s, u, store, table, horizon);
      }
    }
  }

  lemma {:induction false} MarkingSpends(s: seq<Session>, i: nat, store: Id, table: Id, horizon: int)
    requires i < |s| && DueBy(s[i], store, table, horizon) && s[i].status == SessionStatus.Active
    ensures SpentCount(s[i := WithStatus(s[i], SessionStatus.Expired, None)], store, table, horizon)
            == SpentCount(s, store, table, horizon) + 1
  {
    var t := s[i := WithStatus(s[i], SessionStatus.Expired, None)];
    if i < |s| - 1 {
      MarkingSpends(s[..|s| - 1], i, store, table, horizon);
      assert t[..|s| - 1] == s[..|s| - 1][i := t[i]];
    } else {
      assert t[..|s| - 1] == s[..|s| - 1];
    }
  }

  // ---------- Logins with the right PIN ----------

  /** A login at the table that gets past the password check. */
  ghost predicate PinLogin(a: Db, q: Request, store: Id, table: Id) {
    && q.Login? && q.login.store == store && PinAccepted(a, q.login)
    && a.tables[FindTable(a.tables, store, q.login.no).value].id == table
  }

  ghost predicate TurnedAway(a: Db, q: Request, store: Id, table: Id)
    requires Admissible(a, q)
  {
    PinLogin(a, q, store, table) && LoginTable(a, q.login).1 == Failure(TokenExpired)
  }

  ghost predicate LetIn(a: Db, q: Request, store: Id, table: Id)
    requires Admissible(a, q)
  {
    PinLogin(a, q, store, table) && LoginTable(a, q.login).1.Success?
  }

  /** Being turned away uses up a stale row, if there is an ACTIVE row at all. */
  lemma TurnedAwaySpends(a: Db, q: Request, store: Id, table: Id, horizon: int)
    requires Inv(a) && Admissible(a, q) && (q.Login? ==> q.login.now <= horizon)
    requires exists j :: 0 <= j < |a.sessions| && ActiveFor(a.sessions[j], store, table)
    ensures SpentCount(a.sessions, store, table, horizon) + (if TurnedAway(a, q, store, table) then 1 else 0)
            <= SpentCount(Next(a, q).sessions, store, table, horizon)
  {
    NextKeeps(a, q);
    hide Inv, OrdersLater, SessionsLater, ClosedFrozen, SpentCount, FindTable;
    SpentGrows(a.sessions, Next(a, q).sessions, store, table, horizon);
    if TurnedAway(a, q, store, table) { MarkingSpends(a.sessions, q.login.pick.value, store, table, horizon); }
  }

  ghost function TurnedAwayCount(run: seq<Request>, n: nat, store: Id, table: Id): nat
    requires ValidRun(run) && n <= |run|
  {
    if |run| == n then 0
    else
      var front := run[..|run| - 1];
      TurnedAwayCount(front, n, store, table) + if TurnedAway(After(front), run[|run| - 1], store, table) then 1 else 0
  }

  ghost function LetInCount(run: seq<Request>, n: nat, store: Id, table: Id): nat
    requires ValidRun(run) && n <= |run|
  {
    if |run| == n then 0
    else
      var front := run[..|run| - 1];
      LetInCount(front, n, store, table) + if LetIn(After(front), run[|run| - 1], store, table) then 1 else 0
  }

  /** Logins at the table with the right PIN, from step `n` on. */
  ghost function PinLogins(run: seq<Request>, n: nat, store: Id, table: Id): nat
    requires ValidRun(run) && n <= |run|
  {
    if |run| == n then 0
    else
      var front := run[..|run| - 1];
      PinLogins(front, n, store, table) + if PinLogin(After(front), run[|run| - 1], store, table) then 1 else 0
  }

  lemma {:induction false} EachLoginAnswered(run: seq<Request>, n: nat, store: Id, table: Id)
    requires ValidRun(run) && n <= |run|
    ensures PinLogins(run, n, store, table) == LetInCount(run, n, store, table) + TurnedAwayCount(run, n, store, table)
    decreases |run|
  {
    hide FindTable, Next, CreateOrder, CompleteSession, SetupTable;
    if |run| > n { EachLoginAnswered(run[..|run| - 1], n, store, table); }
  }

  ghost predicate LoginsBy(run: seq<Request>, n: nat, horizon: int) {
    forall i :: n <= i < |run| && run[i].Login? ==> run[i].login.now <= horizon
  }

  ghost predicate LiveUntil(a: Db, j: nat, store: Id, table: Id) {
    j < |a.sessions| && ActiveFor(a.sessions[j], store, table)
  }

  lemma LiveBefore(a: Db, b: Db, j: nat, store: Id, table: Id)
    requires Later(a, b) && j < |a.sessions| && LiveUntil(b, j, store, table)
    ensures LiveUntil(a, j, store, table)
  {
    assert SessionLater(a.sessions[j], b.sessions[j]);
  }

  lemma {:induction false} TurnedAwayBySpending(run: seq<Request>, n: nat, store: Id, table: Id, horizon: int, j: nat)
    requires ValidRun(run) && n <= |run| && LoginsBy(run, n, horizon)
    requires ValidRun(run[..n]) && j < |After(run[..n]).sessions| && LiveUntil(After(run), j, store, table)
    ensures SpentCount(After(run[..n]).sessions, store, table, horizon) + TurnedAwayCount(run, n, store, table)
            <= SpentCount(After(run).sessions, store, table, horizon)
    decreases |run|
  {
    hide Inv, OrdersLater, ClosedFrozen, SpentCount, Next, Admissible, TurnedAway, PinLogin;
    if |run| == n {
      assert run[..n] == run;
    } else {
      var front, last := run[..|run| - 1], run[|run| - 1];
      assert front[..n] == run[..n];
      RunLater(front, n);
      ReachableInv(front);
      NextKeeps(After(front), last);
      LiveBefore(After(front), After(run), j, store, table);
      TurnedAwayBySpending(front, n, store, table, horizon, j);
      TurnedAwaySpends(After(front), last, store, table, horizon);
    }
  }

  /**
    Whatever else happens meanwhile, and whichever rows the lookups return: while one session of the
    table stays ACTIVE, at most as many logins with the right PIN are turned away as there are stale
    rows, counting those that come to it until the time of the last login. All the others are let in.
   */
  lemma LoginSucceedsInTheEnd(run: seq<Request>, n: nat, store: Id, table: Id, horizon: int, j: nat)
    requires ValidRun(run) && n <= |run| && LoginsBy(run, n, horizon)
    requires ValidRun(run[..n]) && j < |After(run[..n]).sessions| && LiveUntil(After(run), j, store, table)
    ensures var (a, b) := (After(run[..n]).sessions, After(run).sessions);
            var k := StaleCount(a, store, table, horizon) + DueCount(b, store, table, horizon) - DueCount(a, store, table, horizon);
            && TurnedAwayCount(run, n, store, table) + StaleCount(b, store, table, horizon) <= k
            && LetInCount(run, n, store, table) >= PinLogins(run, n, store, table) - k
  {
    TurnedAwayBySpending(run, n, store, table, horizon, j);
    EachLoginAnswered(run, n, store, table);
    DueIsStaleAndSpent(After(run[..n]).sessions, store, table, horizon);
    DueIsStaleAndSpent(After(run).sessions, store, table, horizon);
  }

  lemma {:induction false} DueUnchanged(s: seq<Session>, t: seq<Session>, store: Id, table: Id, horizon: int)
    requires SessionsLater(s, t)
    requires forall j :: |s| <= j < |t| ==> !DueBy(t[j], store, table, horizon)
    ensures DueCount(s, store, table, horizon) == DueCount(t, store, table, horizon)
  {
    if t != [] {
      var u := t[..|t| - 1];
      if |s| == |t| {
        assert SessionLater(s[|s| - 1], t[|t| - 1]);
        assert forall j :: 0 <= j < |u| ==> s[..|s| - 1][j] == s[j] && u[j] == t[j];
        DueUnchanged(s[..|s| - 1], u, store, table, horizon);
      } else {
        DueUnchanged(s, u, store, table, horizon);
      }
    }
  }

  /**
    In particular: of `k + 1` logins one is let in, if there are `k` stale rows and no session started
    meanwhile runs out.
   */
  lemma OneMoreLoginThanStale(run: seq<Request>, n: nat, store: Id, table: Id, horizon: int, j: nat)
    requires ValidRun(run) && n <= |run| && LoginsBy(run, n, horizon)
    requires ValidRun(run[..n]) && j < |After(run[..n]).sessions| && LiveUntil(After(run), j, store, table)
    requires forall i :: |After(run[..n]).sessions| <= i < |After(run).sessions| ==>
               !DueBy(After(run).sessions[i], store, table, horizon)
    requires PinLogins(run, n, store, table) > StaleCount(After(run[..n]).sessions, store, table, horizon)
    ensures LetInCount(run, n, store, table) >= 1
  {
    hide Next, Admissible, OrdersLater, ClosedFrozen;
    RunLater(run, n);
    DueUnchanged(After(run[..n]).sessions, After(run).sessions, store, table, horizon);
    LoginSucceedsInTheEnd(run, n, store, table, horizon, j);
  }

  // ---------- After a setup ----------

  /** Whichever row the lookup returns, the login is let in. */
  ghost predicate SureToGetIn(a: Db, q: LoginRequest) {
    forall pick :: PickOfTable(a, q.store, q.no, pick) ==> LoginTable(a, q.(pick := pick)).1.Success?
  }

  /**
    With the password just set, the tablet is sure to get in exactly while the new session lasts, if
    no older session of the table, run out by then, was left marked ACTIVE. The lookup may always
    return the new session.
   */
  lemma SetupThenLogin(a: Db, r: SetupRequest, q: LoginRequest)
    requires Inv(a) && SessionsHaveTables(a) && Admissible(a, Setup(r)) && SetupTable(a, r).1.Success?
    requires q.store == r.store && q.no == r.no && r.passwordHash in q.fits
    ensures var b := SetupTable(a, r).0;
            && (SureToGetIn(b, q) <==> q.now < r.startedAt + SESSION_TTL && !TableHas(a, r.store, r.no, q.now, false))
            && PickOfTable(b, q.store, q.no, Some(|a.sessions|))
            && (q.pick == Some(|a.sessions|) && q.now < r.startedAt + SESSION_TTL ==> LoginTable(b, q).1 == Success(r.sessionId))
  {
    hide Inv, Later, TablesOk, SessionsHaveTables, TableHas, FindTable;
    var b := SetupTable(a, r).0;
    var table := UpsertTable(a, r).1;
    PasswordIsSet(a, r, q);
    OnlyNewOrOld(a, r, q.now);
    assert ActiveFor(b.sessions[|a.sessions|], q.store, table);
    assert PickOfTable(b, q.store, q.no, Some(|a.sessions|));
    if j :| 0 <= j < |a.sessions| && ActiveRow(a.sessions[j], r.store, table, q.now, false) {
      assert ActiveFor(b.sessions[j], q.store, table);
      assert PickOfTable(b, q.store, q.no, Some(j));
      assert LoginTable(b, q.(pick := Some(j))).1.Failure?;
    }
    assert SureToGetIn(b, q) ==> LoginTable(b, q.(pick := Some(|a.sessions|))).1.Success?;
  }

  lemma PasswordIsSet(a: Db, r: SetupRequest, q: LoginRequest)
    requires Inv(a) && Admissible(a, Setup(r)) && SetupTable(a, r).1.Success?
    requires q.store == r.store && q.no == r.no && r.passwordHash in q.fits
    ensures var b := SetupTable(a, r).0;
            && PinAccepted(b, q) && b.tables[FindTable(b.tables, q.store, q.no).value].id == UpsertTable(a, r).1
            && b.sessions == a.sessions + [NewSession(r.sessionId, r.store, UpsertTable(a, r).1, r.startedAt)]
  {
    hide Inv, Later, TablesOk;
    UpsertKeeps(a, r);
    var (c, table) := UpsertTable(a, r);
    UpsertedFound(c.tables, r.store, r.no) by { InvTables(c); }
  }

  /** A table that is new has no sessions yet. */
  lemma OnlyNewOrOld(a: Db, r: SetupRequest, now: int)
    requires SessionsHaveTables(a) && FreshTable(a, r.tableId)
    ensures TableHas(a, r.store, r.no, now, false) <==> HasActiveRow(a.sessions, r.store, UpsertTable(a, r).1, now, false)
  {
    hide FindTable;
    forall j | 0 <= j < |a.sessions|
      ensures !ActiveRow(a.sessions[j], r.store, r.tableId, now, false)
    {
      assert KnownTable(a, a.sessions[j].store, a.sessions[j].table);
    }
  }

  lemma StaleSnoc(sessions: seq<Session>, s: Session, store: Id, table: Id, horizon: int)
    requires s.expiresAt > horizon
    ensures StaleCount(sessions + [s], store, table, horizon) == StaleCount(sessions, store, table, horizon)
  {
    assert (sessions + [s])[..|sessions|] == sessions;
  }

  lemma SetupIsNext(run: seq<Request>, n: nat, table: Id)
    requires ValidRun(run) && n < |run| && run[n].Setup?
    requires ValidRun(run[..n]) && Admissible(After(run[..n]), run[n])
    requires SetupTable(After(run[..n]), run[n].setup).1 == Success((table, run[n].setup.sessionId))
    ensures var r := run[n].setup;
            && ValidRun(run[..n + 1])
            && After(run[..n + 1]).sessions == After(run[..n]).sessions + [NewSession(r.sessionId, r.store, table, r.startedAt)]
  {
    hide ValidRun, After, FindTable;
    StepOf(run, n);
  }

  /** However many stale rows a setup left, of one login more than those one is let in while the new session runs. */
  lemma SetupLetsInAtLast(run: seq<Request>, n: nat, table: Id, horizon: int)
    requires ValidRun(run) && n < |run| && run[n].Setup?
    requires ValidRun(run[..n]) && Admissible(After(run[..n]), run[n])
    requires SetupTable(After(run[..n]), run[n].setup).1 == Success((table, run[n].setup.sessionId))
    requires LoginsBy(run, n + 1, horizon) && horizon < run[n].setup.startedAt + SESSION_TTL
    requires LiveUntil(After(run), |After(run[..n]).sessions|, run[n].setup.store, table)
    requires forall i :: |After(run[..n]).sessions| < i < |After(run).sessions| ==>
               !DueBy(After(run).sessions[i], run[n].setup.store, table, horizon)
    requires PinLogins(run, n + 1, run[n].setup.store, table)
             > StaleCount(After(run[..n]).sessions, run[n].setup.store, table, horizon)
    ensures LetInCount(run, n + 1, run[n].setup.store, table) >= 1
  {
    hide *;
    var a, r := After(run[..n]), run[n].setup;
    SetupIsNext(run, n, table);
    StaleSnoc(a.sessions, NewSession(r.sessionId, r.store, table, r.startedAt), r.store, table, horizon) by { RunsLong(r, table); }
    OneMoreLoginThanStale(run, n + 1, r.store, table, horizon, |a.sessions|);
  }

  lemma RunsLong(r: SetupRequest, table: Id)
    ensures NewSession(r.sessionId, r.store, table, r.startedAt).expiresAt == r.startedAt + SESSION_TTL
  {}

  // ---------- After a completion ----------

  /** Whichever row the lookup returns, the login is turned away. */
  ghost predicate NeverGetsIn(a: Db, q: LoginRequest) {
    forall pick: Option<nat> :: PickOfTable(a, q.store, q.no, pick) ==> LoginTable(a, q.(pick := pick)).1 == Failure(TokenExpired)
  }

  lemma LoginAnswer(a: Db, q: LoginRequest, table: Id, pick: Option<nat>)
    requires PinLogin(a, Login(q), q.store, table) && ValidPick(a.sessions, q.store, table, pick)
    ensures PickOfTable(a, q.store, q.no, pick)
    ensures LoginTable(a, q.(pick := pick)).1 == Failure(TokenExpired) <==> !FindsRunning(a.sessions, q.now, pick)
  {
    hide FindTable;
  }

  /** After a completion even the right PIN gets no token, if and only if the table had no other session running. */
  lemma CompletionEndsLogins(a: Db, r: CompleteRequest, q: LoginRequest)
    requires Admissible(a, Complete(r)) && CompleteSession(a, r).1.Success? && q.store == r.store
    requires PinLogin(Next(a, Complete(r)), Login(q), r.store, r.table)
    ensures NeverGetsIn(Next(a, Complete(r)), q) <==> !exists j :: OtherRunning(a, r, q.now, j)
  {
    hide Next, CompleteSession, Admissible, OtherRunning, FindsRunning, FindTable, LoginTable;
    var b := Next(a, Complete(r));
    CompletionClosesIff(a, r, q.now);
    forall pick: Option<nat> | ValidPick(b.sessions, r.store, r.table, pick)
      ensures PickOfTable(b, q.store, q.no, pick)
      ensures LoginTable(b, q.(pick := pick)).1 == Failure(TokenExpired) <==> !FindsRunning(b.sessions, q.now, pick)
    {
      LoginAnswer(b, q, r.table, pick);
    }
  }

  /** Whichever row the lookup returns, the order is refused. */
  ghost predicate NeverPlaced(a: Db, q: CreateRequest, table: Id) {
    forall pick: Option<nat> :: ValidPick(a.sessions, q.store, table, pick) ==> CreateOrder(a, q.(pick := pick)).1.Failure?
  }

  /** Row `j` runs besides the session being completed, and the order names it. */
  predicate NamesOtherRunning(a: Db, r: CompleteRequest, q: CreateRequest, j: int) {
    OtherRunning(a, r, q.now, j) && q.tokenSession == Some(a.sessions[j].id)
  }

  /**
    After a completion a token places an order of known dishes, if and only if it names another session still
    running.
   */
  lemma CompletionEndsOrders(a: Db, r: CompleteRequest, q: CreateRequest)
    requires Admissible(a, Complete(r)) && CompleteSession(a, r).1.Success?
    requires q.store == r.store && q.table == Some(r.table) && q.tokenSession.Some?
    requires q.items != [] && DishesKnown(a.menus, q.store, q.items)
    ensures NeverPlaced(Next(a, Complete(r)), q, r.table) <==> !exists j :: NamesOtherRunning(a, r, q, j)
  {
    hide CompleteSession, Admissible, OtherRunning, CreateOrder, DishesKnown;
    var b := Next(a, Complete(r));
    assert b.menus == a.menus by { MenusStay(a, r); }
    hide Next;
    forall pick: Option<nat> | ValidPick(b.sessions, r.store, r.table, pick)
      ensures CreateOrder(b, q.(pick := pick)).1.Success? <==> pick.Some? && NamesOtherRunning(a, r, q, pick.value)
    {
      FoundAfterCompletion(a, r, q.now, pick);
      CreateSucceedsIff(b, q.(pick := pick));
    }
    if j :| NamesOtherRunning(a, r, q, j) {
      assert j >= 0 by { IsARow(a, r, q.now, j); }
      var pick: Option<nat> := Some(j);
      FoundAfterCompletion(a, r, q.now, pick);
      assert CreateOrder(b, q.(pick := pick)).1.Success?;
    }
  }

  lemma MenusStay(a: Db, r: CompleteRequest)
    requires Admissible(a, Complete(r))
    ensures Next(a, Complete(r)).menus == a.menus
  {
    hide ListBySession, ArchiveAll, CountPending;
  }
}
