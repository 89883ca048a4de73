/** The decorator that runs a write transaction again when the database is locked. */
module Retry {
  import opened Wrappers
  import opened Rows
  import opened Steps
  import Invariants
  import Numbering
  import Transactions

  // ---------- Which errors are conflicts ----------

  /** What a transaction may raise: a database error with the driver's own message, if any, or anything else. */
  datatype Exception =
    | Operational(orig: Option<string>, text: string)
    | Integrity(text: string)          // a UNIQUE constraint, say
    | Application(error: Steps.Error)

  /** Lower case, as far as it can make an ASCII letter: A to Z, and the Kelvin sign. */
  function LowerChar(c: char): char {
    if 'A' <= c <= 'Z' then c - 'A' + 'a' else if c == '\U{212A}' then 'k' else c
  }

  function Lower(s: string): (r: string)
    ensures |r| == |s| && forall i :: 0 <= i < |s| ==> r[i] == LowerChar(s[i])
  {
    if s == [] then [] else Lower(s[..|s| - 1]) + [LowerChar(s[|s| - 1])]
  }

  predicate StandsAt(w: string, s: string, i: nat) {
    i + |w| <= |s| && s[i..i + |w|] == w
  }

  predicate Contains(s: string, w: string) {
    exists i :: 0 <= i <= |s| - |w| && StandsAt(w, s, i)
  }

  predicate IsWriteConflict(e: Exception) {
    match e
    case Operational(orig, text) =>
      var msg := Lower(if orig.Some? then orig.value else text);
      Contains(msg, "locked") || Contains(msg, "busy")
    case _ => false
  }

  predicate SameLetter(c: char, letter: char) {
    c == letter || (letter == 'k' && c == '\U{212A}') || ('a' <= letter <= 'z' && c == letter - 'a' + 'A')
  }

  predicate ReadsAt(w: string, s: string, i: nat) {
    i + |w| <= |s| && forall k :: 0 <= k < |w| ==> SameLetter(s[i + k], w[k])
  }

  /** The word stands somewhere in the message, in letters of either case. */
  predicate Mentions(s: string, w: string) {
    exists i :: 0 <= i <= |s| - |w| && ReadsAt(w, s, i)
  }

  lemma StandsIffReads(s: string, w: string, i: nat)
    requires forall k :: 0 <= k < |w| ==> 'a' <= w[k] <= 'z'
    ensures StandsAt(w, Lower(s), i) <==> ReadsAt(w, s, i)
  {
    if i + |w| <= |s| {
      var l := Lower(s)[i..i + |w|];
      assert forall k :: 0 <= k < |w| ==> l[k] == LowerChar(s[i + k]);
      assert forall k :: 0 <= k < |w| ==> (l[k] == w[k] <==> SameLetter(s[i + k], w[k]));
      assert l == w <==> forall k :: 0 <= k < |w| ==> l[k] == w[k];
    }
  }

  lemma ContainsIffMentions(s: string, w: string)
    requires forall k :: 0 <= k < |w| ==> 'a' <= w[k] <= 'z'
    ensures Contains(Lower(s), w) <==> Mentions(s, w)
  {
    forall i: nat
      ensures StandsAt(w, Lower(s), i) <==> ReadsAt(w, s, i)
    {
      StandsIffReads(s, w, i);
    }
  }

  /** Exactly the operational errors whose message speaks of a lock or a busy database, in any case. */
  lemma ConflictIff(e: Exception)
    ensures IsWriteConflict(e) <==>
              e.Operational? && var msg := if e.orig.Some? then e.orig.value else e.text;
              Mentions(msg, "locked") || Mentions(msg, "busy")
  {
    if e.Operational? {
      var msg := if e.orig.Some? then e.orig.value else e.text;
      ContainsIffMentions(msg, "locked");
      ContainsIffMentions(msg, "busy");
    }
  }

  // ---------- The loop ----------

  const MAX_RETRIES := 3

  /** The waiting times, in milliseconds. */
  const BACKOFF := [10, 20, 40]

  /** A transaction commits and returns, or raises and is rolled back. */
  datatype Outcome<S, T> = Commits(state: S, value: T) | Raises(error: Exception)

  datatype Ending<S, T> = Ending(state: S, res: Result<T, Exception>, runs: nat, slept: nat)

  /** The state that run `k` starts from, when all before were rolled back: others may have committed meanwhile. */
  function Before<S>(others: (nat, S) -> S, start: S, k: nat): S {
    others(k, if k == 0 then start else Before(others, start, k - 1))
  }

  function Waited(runs: nat): nat
    requires runs <= |BACKOFF|
  {
    if runs == 0 then 0 else Waited(runs - 1) + BACKOFF[runs - 1]
  }

  ghost predicate Conflicted<S, T>(body: (nat, S) -> Outcome<S, T>, others: (nat, S) -> S, start: S, k: nat) {
    var o := body(k, Before(others, start, k));
    o.Raises? && IsWriteConflict(o.error)
  }

  /**
    All runs but the last ran into a conflict. The last one's effect is the only one there is; if it
    raised, there is none, and the error is passed on. Conflicts are passed on only after three runs.
   */
  ghost predicate EndsRight<S, T>(body: (nat, S) -> Outcome<S, T>, others: (nat, S) -> S, start: S, e: Ending<S, T>) {
    && 1 <= e.runs <= MAX_RETRIES
    && (forall k :: 0 <= k < e.runs - 1 ==> Conflicted(body, others, start, k))
    && (Conflicted(body, others, start, e.runs - 1) ==> e.runs == MAX_RETRIES)
    && e.slept == Waited(e.runs - 1)
    && match body(e.runs - 1, Before(others, start, e.runs - 1))
       case Commits(s, value) => e.state == s && e.res == Success(value)
       case Raises(error) => e.state == Before(others, start, e.runs - 1) && e.res == Failure(error)
  }

  method RetryOnWriteConflict<S, T>(body: (nat, S) -> Outcome<S, T>, others: (nat, S) -> S,
      start: S) returns (e: Ending<S, T>)
    ensures EndsRight(body, others, start, e)
  {
    var state, slept := start, 0;
    var lastError: Option<Exception> := None;
    for attempt := 0 to MAX_RETRIES
      invariant attempt > 0 ==> state == Before(others, start, attempt - 1)
      invariant attempt == 0 ==> state == start
      invariant slept == Waited(if attempt < MAX_RETRIES then attempt else MAX_RETRIES - 1)
      invariant forall k :: 0 <= k < attempt ==> Conflicted(body, others, start, k)
      invariant attempt > 0 ==> lastError.Some? && body(attempt - 1, Before(others, start, attempt - 1)) == Raises(lastError.value)
    {
      state := others(attempt, state);
      match body(attempt, state)
      case Commits(s, value) =>
        return Ending(s, Success(value), attempt + 1, slept);
      case Raises(error) =>
        if !IsWriteConflict(error) { return Ending(state, Failure(error), attempt + 1, slept); }
        lastError := Some(error);
        if attempt < MAX_RETRIES - 1 { slept := slept + BACKOFF[attempt]; }
    }
    return Ending(state, Failure(lastError.value), MAX_RETRIES, slept);
  }

  /** There is only one way to end right, and it takes at most three runs and 30 ms of waiting. */
  lemma EndingIsUnique<S, T>(body: (nat, S) -> Outcome<S, T>, others: (nat, S) -> S, start: S, e: Ending<S, T>,
      f: Ending<S, T>)
    requires EndsRight(body, others, start, e) && EndsRight(body, others, start, f)
    ensures e == f && e.runs <= 3 && e.slept <= 30
  {
    hide Conflicted, Before;
    var _ := Conflicted(body, others, start, e.runs - 1);
    var _ := Conflicted(body, others, start, f.runs - 1);
    assert Waited(1) == 10 && Waited(2) == 30;
  }

  /**
    A locked or busy database is tried again, twice at most, after 10 ms and then 20 ms more, and nothing
    else is: after any other error the body has run for the last time.
   */
  lemma OnlyConflictsAreRetried<S, T>(body: (nat, S) -> Outcome<S, T>, others: (nat, S) -> S, start: S, e: Ending<S, T>)
    requires EndsRight(body, others, start, e)
    ensures e.runs > 1 <==> Conflicted(body, others, start, 0)
    ensures e.runs == 3 <==> Conflicted(body, others, start, 0) && Conflicted(body, others, start, 1)
    ensures e.slept == if e.runs == 1 then 0 else if e.runs == 2 then 10 else 30
    ensures Conflicted(body, others, start, 0) && Conflicted(body, others, start, 1) && Conflicted(body, others, start, 2) ==>
              e.res.Failure? && IsWriteConflict(e.res.error)
    ensures body(0, Before(others, start, 0)).Raises? && body(0, Before(others, start, 0)).error.Integrity? ==>
              e.runs == 1 && e.res == Failure(body(0, Before(others, start, 0)).error) && e.state == Before(others, start, 0)
  {
    hide Before;
    assert Waited(1) == 10 && Waited(2) == 30;
  }

  // ---------- create_order, retried ----------

  /** A row number out of range is no row. */
  function OnRows(db: Db, r: CreateRequest): CreateRequest {
    if r.pick.Some? && r.pick.value >= |db.sessions| then r.(pick := None) else r
  }

  /**
    One run of create_order: the database may raise a lock or a broken constraint; clock, ids and rows are
    read anew.
   */
  function CreateRun(raised: Option<Exception>, r: CreateRequest, db: Db): Outcome<Db, Order> {
    if raised.Some? then Raises(raised.value)
    else
      match CreateOrder(db, OnRows(db, r))
      case (after, Success(o)) => Commits(after, o)
      case (_, Failure(error)) => Raises(Application(error))
  }

  function CreateRuns(raised: nat -> Option<Exception>, r: nat -> CreateRequest): (nat, Db) -> Outcome<Db, Order> {
    (k: nat, db: Db) => CreateRun(raised(k), r(k), db)
  }

  lemma PickIsARow(db: Db, r: CreateRequest)
    requires Admissible(db, Create(r))
    ensures OnRows(db, r) == r
  {}

  /**
    However often it was tried, the outcome is that of one create_order in the state of the last run, or
    what the database raised there: at most one order, with the next number.
   */
  lemma RetriedCreate(raised: nat -> Option<Exception>, r: nat -> CreateRequest, others: (nat, Db) -> Db, start: Db,
      e: Ending<Db, Order>)
    requires EndsRight(CreateRuns(raised, r), others, start, e)
    requires var db := Before(others, start, e.runs - 1); Invariants.Inv(db) && Admissible(db, Create(r(e.runs - 1)))
    ensures var (db, q) := (Before(others, start, e.runs - 1), r(e.runs - 1));
            && (e.res.Failure? ==> e.state == db)
            && (raised(e.runs - 1).Some? ==> e.res == Failure(raised(e.runs - 1).value))
            && (raised(e.runs - 1).None? ==>
                  match CreateOrder(db, q)
                  case (after, Success(o)) => e.res == Success(o) && e.state == after
                  case (_, Failure(error)) => e.res == Failure(Application(error)))
            && (e.res.Success? ==>
                  && e.state.orders == db.orders + [e.res.value]
                  && e.res.value.seqNo == Numbering.CountFor(Invariants.SlotsOf(db.orders), q.store, q.today) + 1
                  && Invariants.Inv(e.state))
  {
    hide Invariants.Inv, CreateOrder, IsWriteConflict, Admissible;
    var (db, q) := (Before(others, start, e.runs - 1), r(e.runs - 1));
    assert OnRows(db, q) == q by { PickIsARow(db, q); }
    assert CreateRuns(raised, r)(e.runs - 1, db) == CreateRun(raised(e.runs - 1), q, db);
    if e.res.Success? {
      Transactions.CreateGoesToOpenSession(db, q);
      Transactions.CreateKeeps(db, q);
    }
  }

  // ---------- An insert that comes too late ----------

  const UNIQUE_FAILED := Integrity("UNIQUE constraint failed: orders.store_id, orders.order_date, orders.order_seq")

  /**
    The end of one run of create_order, in the state in which its insert is to be committed: what it
    read is in the state already, and others may have committed since.
   */
  function InsertRun(raised: Option<Exception>, c: Numbering.Client, s: Numbering.State): Outcome<Numbering.State,
      int> {
    if raised.Some? then Raises(raised.value)
    else if c !in s.reading then Raises(Application(NotFound))
    else if Numbering.Accepted(s, c) then Commits(Numbering.Next(s, Numbering.Commit(c)), Numbering.Wanted(s.reading[c]).number)
    else Raises(UNIQUE_FAILED)
  }

  function InsertRuns(raised: nat -> Option<Exception>, c: Numbering.Client): (nat,
      Numbering.State) -> Outcome<Numbering.State, int> {
    (k: nat, s: Numbering.State) => InsertRun(raised(k), c, s)
  }

  lemma InsertOutcome(c: Numbering.Client, s: Numbering.State)
    requires Numbering.Inv(s) && c in s.reading
    ensures var (o, x) := (InsertRun(None, c, s), Numbering.Wanted(s.reading[c]));
            if Numbering.Overtaken(s, c) then o == Raises(UNIQUE_FAILED)
            else
              && o.Commits? && o.value == x.number && o.state.rows == s.rows + [Numbering.NumberedRow(x, c, false)]
              && x.number == Numbering.CountFor(Numbering.Slots(s.rows), x.store, x.date) + 1
  {
    Numbering.RefusedIffOvertaken(s, c);
    hide Numbering.Inv, Numbering.Overtaken, Numbering.Accepted, Numbering.CountFor;
  }

  /**
    A request overtaken between its reading and its insert is lost: whichever run this happens in, the
    retry ends there with the broken constraint, and no row is added. If it was not overtaken, its
    row is added, with the next number.
   */
  lemma OvertakenIsLost(raised: nat -> Option<Exception>, c: Numbering.Client,
      others: (nat, Numbering.State) -> Numbering.State,
                        start: Numbering.State, e: Ending<Numbering.State, int>)
    requires EndsRight(InsertRuns(raised, c), others, start, e) && raised(e.runs - 1).None?
    requires var s := Before(others, start, e.runs - 1); Numbering.Inv(s) && c in s.reading
    ensures var s := Before(others, start, e.runs - 1);
            if Numbering.Overtaken(s, c) then e.res == Failure(UNIQUE_FAILED) && e.state == s
            else
              var x := Numbering.Wanted(s.reading[c]);
              && e.res == Success(x.number) && e.state.rows == s.rows + [Numbering.NumberedRow(x, c, false)]
              && x.number == Numbering.CountFor(Numbering.Slots(s.rows), x.store, x.date) + 1
  {
    hide InsertRun, Before, Conflicted, Numbering.Inv, Numbering.Overtaken, Numbering.CountFor, Numbering.Slots;
    var s := Before(others, start, e.runs - 1);
    assert InsertRuns(raised, c)(e.runs - 1, s) == InsertRun(None, c, s);
    InsertOutcome(c, s);
  }

  /**
    So every refusal of an interleaved run, when it meets the first run of its request, is a request that
    fails for good.
   */
  lemma RefusalIsLost(run: seq<Numbering.Step>, c: Numbering.Client, raised: nat -> Option<Exception>,
                      others: (nat, Numbering.State) -> Numbering.State, start: Numbering.State, e: Ending<Numbering.State, int>)
    requires Numbering.ValidRun(run) && c in Numbering.After(run).reading
    requires EndsRight(InsertRuns(raised, c), others, start, e)
    requires Before(others, start, 0) == Numbering.After(run) && raised(0).None?
    ensures !Numbering.Accepted(Numbering.After(run), c) <==> e.res == Failure(UNIQUE_FAILED) && e.runs == 1
    ensures !Numbering.Accepted(Numbering.After(run), c) ==> e.state == Numbering.After(run)
  {
    hide Numbering.ValidRun, Numbering.After, Numbering.Accepted, Numbering.Next;
    assert InsertRuns(raised, c)(0, Before(others, start, 0)) == InsertRun(None, c, Before(others, start, 0));
    OnlyConflictsAreRetried(InsertRuns(raised, c), others, start, e);
  }

  function NothingRaised(k: nat): Option<Exception> {
    None
  }

  function NobodyElse(k: nat, s: Numbering.State): Numbering.State {
    s
  }

  /** Which does happen: of two clients that read at the same time only one is served. */
  lemma OneOfTwoIsLost(e: Ending<Numbering.State, int>)
    requires Numbering.ValidRun(Numbering.TWO_CLIENTS)
    requires EndsRight(InsertRuns(NothingRaised, 1), NobodyElse, Numbering.After(Numbering.TWO_CLIENTS), e)
    ensures e.res == Failure(UNIQUE_FAILED) && e.runs == 1 && e.state == Numbering.After(Numbering.TWO_CLIENTS)
  {
    Numbering.SecondIsRefused();
    hide Numbering.ValidRun, Numbering.After, Numbering.TWO_CLIENTS;
    RefusalIsLost(Numbering.TWO_CLIENTS, 1, NothingRaised, NobodyElse, Numbering.After(Numbering.TWO_CLIENTS), e);
  }
}
