/**
  Starting sessions while any number of requests run at once. Finding that a table has no ACTIVE
  session and committing a new one are two separate steps of a request, and no constraint stands
  between them. No session runs out here.
 */
module SessionRace {
  import opened Wrappers
  import Collections

  type Client = nat

  datatype Row = Row(table: string, active: bool)

  /** The committed sessions, and the requests that found none for their table. */
  datatype State = State(rows: seq<Row>, found: map<Client, string>)

  datatype Step =
    | Look(client: Client, table: string)   // a set-up, or an order whose token names no session
    | Commit(client: Client)
    | Abandon(client: Client)
    | Close(row: nat)

  const EMPTY := State([], map[])

  function ActiveIn(rows: seq<Row>, table: string): nat {
    if rows == [] then 0
    else
      var last := rows[|rows| - 1];
      ActiveIn(rows[..|rows| - 1], table) + if last.active && last.table == table then 1 else 0
  }

  /** A request that finds an ACTIVE session starts none. */
  predicate Enabled(s: State, step: Step) {
    match step
    case Look(c, table) => c !in s.found && ActiveIn(s.rows, table) == 0
    case Commit(c) => c in s.found
    case Abandon(c) => c in s.found
    case Close(i) => i < |s.rows|
  }

  function Next(s: State, step: Step): State
    requires Enabled(s, step)
  {
    match step
    case Look(c, table) => s.(found := s.found[c := table])
    case Commit(c) => State(s.rows + [Row(s.found[c], true)], s.found - {c})
    case Abandon(c) => s.(found := s.found - {c})
    case Close(i) => s.(rows := s.rows[i := s.rows[i].(active := false)])
  }

  predicate ValidRun(run: seq<Step>)
    decreases |run|, 0
  {
    run == [] || (ValidRun(run[..|run| - 1]) && Enabled(After(run[..|run| - 1]), run[|run| - 1]))
  }

  function After(run: seq<Step>): State
    requires ValidRun(run)
    decreases |run|, 1
  {
    if run == [] then EMPTY else Next(After(run[..|run| - 1]), run[|run| - 1])
  }

  // ---------- As many sessions as clients, and no more ----------

  /** The requests about to start a session of the table. */
  function Starting(s: State, table: string): set<Client> {
    set c | c in s.found && s.found[c] == table
  }

  lemma ActiveSnoc(rows: seq<Row>, r: Row, table: string)
    ensures ActiveIn(rows + [r], table) == ActiveIn(rows, table) + if r.active && r.table == table then 1 else 0
  {
    assert (rows + [r])[..|rows|] == rows;
  }

  lemma {:induction false} ActiveUpdate(rows: seq<Row>, i: nat, r: Row, table: string)
    requires i < |rows|
    ensures ActiveIn(rows[i := r], table) ==
            ActiveIn(rows, table) - (if rows[i].active && rows[i].table == table then 1 else 0)
            + (if r.active && r.table == table then 1 else 0)
  {
    var front := rows[..|rows| - 1];
    if i < |front| {
      ActiveUpdate(front, i, r, table);
      assert rows[i := r][..|front|] == front[i := r];
    } else {
      assert rows[i := r][..|front|] == front;
    }
  }

  predicate About(step: Step, c: Client) {
    !step.Close? && step.client == c
  }

  /** The client's last step, if that was to look. */
  function OpenLook(run: seq<Step>, c: Client): Option<Step> {
    if run == [] then None
    else if !About(run[|run| - 1], c) then OpenLook(run[..|run| - 1], c)
    else if run[|run| - 1].Look? then Some(run[|run| - 1])
    else None
  }

  lemma {:induction false} FoundAsLooked(run: seq<Step>, c: Client)
    requires ValidRun(run)
    ensures c in After(run).found <==> OpenLook(run, c).Some?
    ensures OpenLook(run, c).Some? ==> OpenLook(run, c).value.Look? && After(run).found[c] == OpenLook(run, c).value.table
  {
    if run != [] { FoundAsLooked(run[..|run| - 1], c); }
  }

  /**
    A commit starts one session, of the table its client looked for last; closing an ACTIVE one ends it;
    and nothing else changes how many a table has.
   */
  lemma StepChange(run: seq<Step>, step: Step, table: string)
    requires ValidRun(run) && Enabled(After(run), step)
    ensures var (s, n) := (After(run), ActiveIn(Next(After(run), step).rows, table));
            match step
            case Commit(c) =>
              var q := OpenLook(run, c);
              q.Some? && q.value.Look? && n == ActiveIn(s.rows, table) + if q.value.table == table then 1 else 0
            case Close(i) => n == ActiveIn(s.rows, table) - if s.rows[i].active && s.rows[i].table == table then 1 else 0
            case _ => n == ActiveIn(s.rows, table)
  {
    hide ActiveIn, ValidRun, After, OpenLook;
    var rows := After(run).rows;
    match step
    case Commit(c) =>
      FoundAsLooked(run, c);
      ActiveSnoc(rows, Row(After(run).found[c], true), table);
    case Close(i) => ActiveUpdate(rows, i, rows[i].(active := false), table);
    case _ =>
  }

  ghost predicate Inv(s: State, clients: set<Client>, table: string) {
    s.found.Keys <= clients && ActiveIn(s.rows, table) + |Starting(s, table)| <= |clients|
  }

  lemma NextKeepsInv(s: State, step: Step, clients: set<Client>, table: string)
    requires Inv(s, clients, table) && Enabled(s, step) && (step.Close? || step.client in clients)
    ensures Inv(Next(s, step), clients, table)
  {
    var t := Next(s, step);
    match step
    case Look(c, x) =>
      if x == table {
        Collections.CardinalityMonotone(Starting(t, table), clients);
      } else {
        assert Starting(t, table) == Starting(s, table);
      }
    case Commit(c) =>
      ActiveSnoc(s.rows, Row(s.found[c], true), table);
      assert Starting(t, table) == Starting(s, table) - {c};
    case Abandon(c) =>
      assert Starting(t, table) == Starting(s, table) - {c};
    case Close(i) =>
      ActiveUpdate(s.rows, i, s.rows[i].(active := false), table);
      assert Starting(t, table) == Starting(s, table);
  }

  lemma {:induction false} RunKeepsInv(run: seq<Step>, clients: set<Client>, table: string)
    requires ValidRun(run) && forall i :: 0 <= i < |run| ==> run[i].Close? || run[i].client in clients
    ensures Inv(After(run), clients, table)
  {
    if run == [] {
      assert Starting(EMPTY, table) == {};
    } else {
      RunKeepsInv(run[..|run| - 1], clients, table);
      hide Inv;
      NextKeepsInv(After(run[..|run| - 1]), run[|run| - 1], clients, table);
    }
  }

  /** However the steps interleave, a table has at most as many ACTIVE sessions as there are clients ... */
  lemma ActiveBounded(run: seq<Step>, clients: set<Client>, table: string)
    requires ValidRun(run) && forall i :: 0 <= i < |run| ==> run[i].Close? || run[i].client in clients
    ensures ActiveIn(After(run).rows, table) <= |clients|
  {
    RunKeepsInv(run, clients, table);
  }

  /** ... and with one client at a time there is never more than one. */
  lemma OneAtATime(run: seq<Step>, c: Client, table: string)
    requires ValidRun(run) && forall i :: 0 <= i < |run| ==> run[i].Close? || run[i].client == c
    ensures ActiveIn(After(run).rows, table) <= 1
  {
    ActiveBounded(run, {c}, table);
  }

  // ---------- The bound is reached ----------

  /** Clients 0 to n - 1 look, one after the other, and then the first `m` of them commit. */
  function Race(n: nat, m: nat): seq<Step>
    requires m <= n
  {
    if m > 0 then Race(n, m - 1) + [Commit(m - 1)]
    else if n > 0 then Race(n - 1, 0) + [Look(n - 1, "table")]
    else []
  }

  /** Clients m to n - 1 have looked and not committed yet; the others have. */
  ghost predicate Midway(s: State, n: nat, m: nat) {
    && ActiveIn(s.rows, "table") == m
    && (forall c: Client :: c in s.found <==> m <= c < n)
    && (forall c :: c in s.found ==> s.found[c] == "table")
  }

  lemma OneMoreLooks(s: State, n: nat)
    requires Midway(s, n, 0)
    ensures Enabled(s, Look(n, "table")) && Midway(Next(s, Look(n, "table")), n + 1, 0)
  {}

  lemma OneMoreCommits(s: State, n: nat, m: nat)
    requires m < n && Midway(s, n, m)
    ensures Enabled(s, Commit(m)) && Midway(Next(s, Commit(m)), n, m + 1)
  {
    ActiveSnoc(s.rows, Row("table", true), "table");
  }

  lemma {:induction false} RaceRuns(n: nat, m: nat)
    requires m <= n
    ensures ValidRun(Race(n, m)) && Midway(After(Race(n, m)), n, m)
  {
    hide Midway, Next, Enabled;
    if m > 0 {
      RaceRuns(n, m - 1);
      var front := Race(n, m - 1);
      assert Race(n, m)[..|front|] == front;
      OneMoreCommits(After(front), n, m - 1);
    } else if n > 0 {
      RaceRuns(n - 1, 0);
      var front := Race(n - 1, 0);
      assert Race(n, m)[..|front|] == front;
      OneMoreLooks(After(front), n - 1);
    } else {
      assert Midway(EMPTY, 0, 0) by { NobodyLooked(); }
    }
  }

  lemma NobodyLooked()
    ensures Midway(EMPTY, 0, 0)
  {}

  lemma {:induction false} RaceClients(n: nat, m: nat)
    requires m <= n
    ensures forall i :: 0 <= i < |Race(n, m)| ==> !Race(n, m)[i].Close? && Race(n, m)[i].client < n
  {
    if m > 0 { RaceClients(n, m - 1); } else if n > 0 { RaceClients(n - 1, 0); }
  }

  /** For every number of clients there is a run in which each of them starts a session of the same table. */
  lemma BoundIsReached(n: nat) returns (run: seq<Step>)
    ensures ValidRun(run) && ActiveIn(After(run).rows, "table") == n
    ensures forall i :: 0 <= i < |run| ==> !run[i].Close? && run[i].client < n
  {
    run := Race(n, n);
    RaceRuns(n, n);
    RaceClients(n, n);
  }
}
