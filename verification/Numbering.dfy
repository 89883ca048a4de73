/**
  Order numbering while any number of requests run at once. Reading the highest number and committing
  the insert are two separate steps of a request; between them other requests may commit, so what was
  read may be stale. The database refuses an insert whose (store, date, number) is already taken.
 */
module Numbering {
  import opened Collections
  import opened Timestamp
  import opened Wrappers
  import OrderNumber

  type Client = nat

  /** The numbered part of an order row. */
  datatype Slot = Slot(store: string, date: Day, number: int)

  /** Committed rows in commit order; deleting an order only marks its row. */
  datatype NumberedRow = NumberedRow(slot: Slot, owner: Client, deleted: bool)

  /** A request that has read the highest number, at a time when `at` rows had been committed. */
  datatype Reading = Reading(store: string, date: Day, highest: int, at: nat)

  datatype State = State(rows: seq<NumberedRow>, reading: map<Client, Reading>)

  datatype Step =
    | Read(client: Client, store: string, date: Day)
    | Commit(client: Client)
    | Abandon(client: Client)      // any other failure: the transaction is rolled back
    | SoftDelete(row: nat)

  const EMPTY := State([], map[])

  /** `MAX(order_seq)` over the rows of a store and day, deleted or not; 0 without any. */
  function MaxNumber(slots: seq<Slot>, store: string, date: Day): int {
    if slots == [] then 0
    else
      var m := MaxNumber(slots[..|slots| - 1], store, date);
      var last := slots[|slots| - 1];
      if last.store == store && last.date == date && last.number > m then last.number else m
  }

  function CountFor(slots: seq<Slot>, store: string, date: Day): nat {
    if slots == [] then 0
    else
      var last := slots[|slots| - 1];
      CountFor(slots[..|slots| - 1], store, date) + if last.store == store && last.date == date then 1 else 0
  }

  function Slots(rows: seq<NumberedRow>): (slots: seq<Slot>)
    ensures |slots| == |rows|
    ensures forall i :: 0 <= i < |rows| ==> slots[i] == rows[i].slot
  {
    seq(|rows|, i requires 0 <= i < |rows| => rows[i].slot)
  }

  function Wanted(r: Reading): Slot {
    Slot(r.store, r.date, r.highest + 1)
  }

  /** May the client's insert be committed? Only the UNIQUE constraint can refuse it. */
  predicate Accepted(s: State, c: Client)
    requires c in s.reading
  {
    Wanted(s.reading[c]) !in Slots(s.rows)
  }

  predicate Enabled(s: State, step: Step) {
    match step
    case Read(c, _, _) => c !in s.reading
    case Commit(c) => c in s.reading
    case Abandon(c) => c in s.reading
    case SoftDelete(i) => i < |s.rows|
  }

  function Next(s: State, step: Step): State
    requires Enabled(s, step)
  {
    match step
    case Read(c, store, date) =>
      s.(reading := s.reading[c := Reading(store, date, MaxNumber(Slots(s.rows), store, date), |s.rows|)])
    case Commit(c) =>
      if Accepted(s, c)
      then State(s.rows + [NumberedRow(Wanted(s.reading[c]), c, false)], s.reading - {c})
      else s.(reading := s.reading - {c})
    case Abandon(c) => s.(reading := s.reading - {c})
    case SoftDelete(i) => s.(rows := s.rows[i := s.rows[i].(deleted := true)])
  }

  /** Every interleaving: the state after a sequence of enabled steps. */
  predicate ValidRun(run: seq<Step>)
    decreases |run|, 0
  {
    run == [] || (ValidRun(run[..|run| - 1]) && Enabled(After(run[..|run| - 1]), run[|run| - 1]))
  }

  function After(run: seq<Step>): State
    requires ValidRun(run)
    decreases |run|, 1
  {
    if run == [] then EMPTY else Next(After(run[..|run| - 1]), run[|run| - 1])
  }

  // ---------- Numbers without gaps ----------

  /** Each row carries one more than the number of earlier rows of its store and day. */
  ghost predicate Consecutive(slots: seq<Slot>) {
    forall i :: 0 <= i < |slots| ==> slots[i].number == CountFor(slots[..i], slots[i].store, slots[i].date) + 1
  }

  /** A reading is the count of a prefix of the rows, and the reader has committed nothing since. */
  ghost predicate ReadFrom(rows: seq<NumberedRow>, c: Client, r: Reading) {
    && r.at <= |rows|
    && r.highest == CountFor(Slots(rows)[..r.at], r.store, r.date)
    && forall i :: r.at <= i < |rows| ==> rows[i].owner != c
  }

  ghost predicate Inv(s: State) {
    && Consecutive(Slots(s.rows))
    && forall c :: c in s.reading ==> ReadFrom(s.rows, c, s.reading[c])
  }

  lemma CountSnoc(slots: seq<Slot>, x: Slot, store: string, date: Day)
    ensures CountFor(slots + [x], store, date) ==
            CountFor(slots, store, date) + if x.store == store && x.date == date then 1 else 0
  {
    assert (slots + [x])[..|slots|] == slots;
  }

  lemma {:induction false} CountMonotone(slots: seq<Slot>, n: nat, store: string, date: Day)
    requires n <= |slots|
    ensures CountFor(slots[..n], store, date) <= CountFor(slots, store, date)
    decreases |slots|
  {
    if n == |slots| {
      assert slots[..n] == slots;
    } else {
      assert slots[..|slots| - 1][..n] == slots[..n];
      CountMonotone(slots[..|slots| - 1], n, store, date);
    }
  }

  lemma ConsecutivePrefix(slots: seq<Slot>, n: nat)
    requires Consecutive(slots) && n <= |slots|
    ensures Consecutive(slots[..n])
  {
    forall i | 0 <= i < n
      ensures slots[..n][..i] == slots[..i]
    {}
  }

  lemma MemberSnoc(slots: seq<Slot>, x: Slot, y: Slot)
    ensures y in slots + [x] <==> y in slots || y == x
  {}

  /** Without gaps, the maximum is the count. */
  lemma {:induction false} MaxIsCount(slots: seq<Slot>, store: string, date: Day)
    requires Consecutive(slots)
    ensures MaxNumber(slots, store, date) == CountFor(slots, store, date)
  {
    if slots != [] {
      ConsecutivePrefix(slots, |slots| - 1);
      MaxIsCount(slots[..|slots| - 1], store, date);
    }
  }

  /** The numbers given out for a store and day are exactly 1..n. */
  lemma {:induction false} TakenIffCounted(slots: seq<Slot>, store: string, date: Day, number: int)
    requires Consecutive(slots)
    ensures Slot(store, date, number) in slots <==> 1 <= number <= CountFor(slots, store, date)
  {
    if slots != [] {
      var front, last := slots[..|slots| - 1], slots[|slots| - 1];
      ConsecutivePrefix(slots, |slots| - 1);
      TakenIffCounted(front, store, date, number);
      TakenIffCounted(front, last.store, last.date, last.number);
      MemberSnoc(front, last, Slot(store, date, number));
      assert slots == front + [last];
      CountSnoc(front, last, store, date);
      hide CountFor, Consecutive;
    }
  }

  /** No number is given out twice. */
  lemma NumbersDistinct(slots: seq<Slot>, i: nat, j: nat)
    requires Consecutive(slots) && i < j < |slots|
    ensures slots[i] != slots[j]
  {
    ConsecutivePrefix(slots, j);
    TakenIffCounted(slots[..j], slots[j].store, slots[j].date, slots[j].number);
    assert slots[..j][i] == slots[i];
  }

  lemma ConsecutiveSnoc(slots: seq<Slot>, x: Slot)
    requires Consecutive(slots) && x.number == CountFor(slots, x.store, x.date) + 1
    ensures Consecutive(slots + [x])
  {
    var s' := slots + [x];
    forall i | 0 <= i < |s'|
      ensures s'[i].number == CountFor(s'[..i], s'[i].store, s'[i].date) + 1
    {
      assert s'[..i] == if i < |slots| then slots[..i] else slots;
    }
  }

  // ---------- When is an insert refused? ----------

  /** Someone else's order for the reader's store and day was committed after it read. */
  ghost predicate Overtaken(s: State, c: Client)
    requires c in s.reading
  {
    var r := s.reading[c];
    exists i :: r.at <= i < |s.rows| && s.rows[i].owner != c && s.rows[i].slot.store == r.store && s.rows[i].slot.date == r.date
  }

  lemma {:induction false} CountUnchanged(slots: seq<Slot>, n: nat, store: string, date: Day)
    requires n <= |slots|
    ensures CountFor(slots, store, date) == CountFor(slots[..n], store, date) <==>
            forall i :: n <= i < |slots| ==> slots[i].store != store || slots[i].date != date
    ensures CountFor(slots[..n], store, date) <= CountFor(slots, store, date)
    decreases |slots|
  {
    if n == |slots| {
      assert slots[..n] == slots;
    } else {
      var front := slots[..|slots| - 1];
      assert front[..n] == slots[..n];
      CountUnchanged(front, n, store, date);
    }
  }

  lemma AcceptedIffCurrent(s: State, c: Client)
    requires Inv(s) && c in s.reading
    ensures var r := s.reading[c];
            Accepted(s, c) <==> CountFor(Slots(s.rows), r.store, r.date) == r.highest
  {
    hide CountFor, Consecutive, Slots;
    var r := s.reading[c];
    assert ReadFrom(s.rows, c, r);
    CountMonotone(Slots(s.rows), r.at, r.store, r.date);
    TakenIffCounted(Slots(s.rows), r.store, r.date, r.highest + 1);
  }

  lemma CurrentIffNotOvertaken(s: State, c: Client)
    requires Inv(s) && c in s.reading
    ensures var r := s.reading[c];
            CountFor(Slots(s.rows), r.store, r.date) == r.highest <==> !Overtaken(s, c)
  {
    var r := s.reading[c];
    var slots := Slots(s.rows);
    assert ReadFrom(s.rows, c, r);
    CountUnchanged(slots, r.at, r.store, r.date);
    hide CountFor, Consecutive, Slots;
    if i :| r.at <= i < |slots| && slots[i].store == r.store && slots[i].date == r.date {
      assert s.rows[i].owner != c && s.rows[i].slot.store == r.store && s.rows[i].slot.date == r.date;
    }
  }

  /** An insert is refused if and only if its reader was overtaken: every refusal means another client's progress. */
  lemma RefusedIffOvertaken(s: State, c: Client)
    requires Inv(s) && c in s.reading
    ensures Accepted(s, c) <==> !Overtaken(s, c)
    ensures Accepted(s, c) ==> Wanted(s.reading[c]).number == CountFor(Slots(s.rows), s.reading[c].store, s.reading[c].date) + 1
  {
    AcceptedIffCurrent(s, c);
    CurrentIffNotOvertaken(s, c);
  }

  // ---------- Every interleaving ----------

  lemma NextKeepsInv(s: State, step: Step)
    requires Inv(s) && Enabled(s, step)
    ensures Inv(Next(s, step))
  {
    hide CountFor, MaxNumber, Consecutive;
    var s' := Next(s, step);
    var slots := Slots(s.rows);
    match step
    case Read(c, store, date) =>
      MaxIsCount(slots, store, date);
      assert slots[..|slots|] == slots;
    case Commit(c) =>
      if Accepted(s, c) {
        RefusedIffOvertaken(s, c);
        var x := Wanted(s.reading[c]);
        assert Slots(s'.rows) == slots + [x];
        ConsecutiveSnoc(slots, x);
        forall d | d in s'.reading
          ensures ReadFrom(s'.rows, d, s'.reading[d])
        {
          assert ReadFrom(s.rows, d, s.reading[d]);
          assert Slots(s'.rows)[..s.reading[d].at] == slots[..s.reading[d].at];
        }
      }
    case Abandon(c) =>
    case SoftDelete(i) =>
      assert Slots(s'.rows) == slots;
  }

  lemma {:induction false} RunKeepsInv(run: seq<Step>)
    requires ValidRun(run)
    ensures Inv(After(run))
  {
    if run != [] {
      RunKeepsInv(run[..|run| - 1]);
      NextKeepsInv(After(run[..|run| - 1]), run[|run| - 1]);
    }
  }

  /**
    However requests and deletions interleave, the numbers stored for a store and day are exactly
    1..n, each once, in commit order.
   */
  lemma NumbersAreExact(run: seq<Step>, store: string, date: Day)
    requires ValidRun(run)
    ensures var slots := Slots(After(run).rows);
            && (forall number :: Slot(store, date, number) in slots <==> 1 <= number <= CountFor(slots, store, date))
            && (forall i, j :: 0 <= i < j < |slots| ==> slots[i] != slots[j])
            && Consecutive(slots)
  {
    RunKeepsInv(run);
    var slots := Slots(After(run).rows);
    forall number
      ensures Slot(store, date, number) in slots <==> 1 <= number <= CountFor(slots, store, date)
    {
      TakenIffCounted(slots, store, date, number);
    }
    forall i, j | 0 <= i < j < |slots|
      ensures slots[i] != slots[j]
    {
      NumbersDistinct(slots, i, j);
    }
  }

  /** The printed number of a row. */
  function Printed(x: Slot): string
    requires x.number >= 0
  {
    OrderNumber.FormatOrderNumber(x.store, DateCompact(x.date), x.number)
  }

  /** Although no constraint says so, printed order numbers are unique over all stores and days. */
  lemma PrintedNumbersUnique(run: seq<Step>, i: nat, j: nat)
    requires ValidRun(run)
    requires i < j < |After(run).rows|
    ensures var rows := After(run).rows;
            && rows[i].slot.number >= 1 && rows[j].slot.number >= 1
            && Printed(rows[i].slot) != Printed(rows[j].slot)
  {
    var rows := After(run).rows;
    RunKeepsInv(run);
    assert Slots(rows)[i] == rows[i].slot && Slots(rows)[j] == rows[j].slot;
    NumbersDistinct(Slots(rows), i, j);
    var (a, b) := (rows[i].slot, rows[j].slot);
    CompactInjective(a.date, b.date);
    CompactInjective(b.date, a.date);
    OrderNumber.FormatInjective(a.store, DateCompact(a.date), a.number, b.store, DateCompact(b.date), b.number);
  }

  // ---------- What each step does ----------

  predicate About(step: Step, c: Client) {
    !step.SoftDelete? && step.client == c
  }

  /** The client's last step, if that was to read. */
  function OpenRead(run: seq<Step>, c: Client): Option<Step> {
    if run == [] then None
    else if !About(run[|run| - 1], c) then OpenRead(run[..|run| - 1], c)
    else if run[|run| - 1].Read? then Some(run[|run| - 1])
    else None
  }

  /** In every run, a client is about to insert exactly if its last step was to read, for the store and day it read. */
  lemma {:induction false} ReadingsAsRead(run: seq<Step>, c: Client)
    requires ValidRun(run)
    ensures c in After(run).reading <==> OpenRead(run, c).Some?
    ensures OpenRead(run, c).Some? ==>
              var (q, r) := (OpenRead(run, c).value, After(run).reading[c]);
              q.Read? && r.store == q.store && r.date == q.date
  {
    if run != [] {
      ReadingsAsRead(run[..|run| - 1], c);
      hide Accepted, Wanted, MaxNumber, Slots;
    }
  }

  /** One row more: the client's, for what it read for, with the next number. */
  ghost predicate Inserted(a: seq<NumberedRow>, b: seq<NumberedRow>, c: Client, q: Step)
    requires q.Read?
  {
    && |b| == |a| + 1 && b[..|a|] == a && b[|a|].owner == c && !b[|a|].deleted
    && b[|a|].slot.store == q.store && b[|a|].slot.date == q.date
    && b[|a|].slot.number == CountFor(Slots(a), q.store, q.date) + 1
  }

  ghost predicate OnlyMarked(a: seq<NumberedRow>, b: seq<NumberedRow>, i: nat) {
    && i < |a| == |b| && b[i].deleted && b[i].slot == a[i].slot && b[i].owner == a[i].owner
    && forall j :: 0 <= j < |a| && j != i ==> b[j] == a[j]
  }

  /**
    The insert that follows adds the client's row, with the store and day it read for and the next number,
    unless it was overtaken; deleting an order only marks it; and nothing else touches the rows.
   */
  lemma StepEffect(run: seq<Step>, step: Step)
    requires ValidRun(run) && Enabled(After(run), step)
    ensures step.Read? || step.Abandon? ==> Next(After(run), step).rows == After(run).rows
    ensures step.SoftDelete? ==> OnlyMarked(After(run).rows, Next(After(run), step).rows, step.row)
    ensures step.Commit? ==> OpenRead(run, step.client).Some? && OpenRead(run, step.client).value.Read?
    ensures step.Commit? ==>
              if Overtaken(After(run), step.client) then Next(After(run), step).rows == After(run).rows
              else Inserted(After(run).rows, Next(After(run), step).rows, step.client, OpenRead(run, step.client).value)
  {
    hide ValidRun, After, OpenRead, CountFor, Slots, Inv, Overtaken, Accepted;
    if step.Commit? {
      RunKeepsInv(run);
      ReadingsAsRead(run, step.client);
      RefusedIffOvertaken(After(run), step.client);
    }
  }

  // ---------- Progress ----------

  /** Committed and refused inserts so far. */
  datatype Tally = Tally(accepts: nat, refusals: nat)

  function Tallied(t: Tally, s: State, step: Step): Tally
    requires Enabled(s, step)
  {
    if !step.Commit? then t
    else if Accepted(s, step.client) then t.(accepts := t.accepts + 1)
    else t.(refusals := t.refusals + 1)
  }

  function TallyOf(run: seq<Step>): Tally
    requires ValidRun(run)
  {
    if run == [] then Tally(0, 0)
    else Tallied(TallyOf(run[..|run| - 1]), After(run[..|run| - 1]), run[|run| - 1])
  }

  /** The readers whose insert would now be refused. */
  function Doomed(s: State): set<Client> {
    set c | c in s.reading && !Accepted(s, c)
  }

  /** Refusals so far, and those still to come from doomed readers, are paid for by commits. */
  ghost predicate PaidFor(t: Tally, s: State, others: nat) {
    t.refusals + |Doomed(s)| <= Allowance(t.accepts, others)
  }

  /** So many refusals can `accepts` commits explain. */
  function Allowance(accepts: nat, others: nat): nat {
    if accepts == 0 then 0 else Allowance(accepts - 1, others) + others
  }

  lemma {:induction false} AllowanceIsProduct(accepts: nat, others: nat)
    ensures Allowance(accepts, others) == accepts * others
  {
    if accepts > 0 { AllowanceIsProduct(accepts - 1, others); }
  }

  /** A commit may doom all other readers; every other step dooms no one, and a refusal frees its client. */
  lemma StepDooms(s: State, step: Step, clients: set<Client>)
    requires Inv(s) && Enabled(s, step) && s.reading.Keys <= clients
    requires step.SoftDelete? || step.client in clients
    ensures var s' := Next(s, step);
            && s'.reading.Keys <= clients
            && if step.Commit? && Accepted(s, step.client) then |Doomed(s')| <= |clients| - 1
               else if step.Commit? then |Doomed(s')| == |Doomed(s)| - 1
               else |Doomed(s')| <= |Doomed(s)|
  {
    var s' := Next(s, step);
    match step
    case Commit(c) =>
      if Accepted(s, c) {
        CardinalityMonotone(Doomed(s'), clients - {c});
      } else {
        assert Doomed(s') == Doomed(s) - {c};
      }
    case Read(c, _, _) =>
      ReadIsFresh(s, step);
      CardinalityMonotone(Doomed(s'), Doomed(s));
    case Abandon(c) =>
      CardinalityMonotone(Doomed(s'), Doomed(s));
    case SoftDelete(i) =>
      assert Slots(s'.rows) == Slots(s.rows);
      CardinalityMonotone(Doomed(s'), Doomed(s));
  }

  lemma StepPaidFor(t: Tally, s: State, step: Step, clients: set<Client>)
    requires Inv(s) && Enabled(s, step) && s.reading.Keys <= clients && |clients| >= 1
    requires step.SoftDelete? || step.client in clients
    requires PaidFor(t, s, |clients| - 1)
    ensures PaidFor(Tallied(t, s, step), Next(s, step), |clients| - 1)
  {
    hide Inv, Doomed, Next, Enabled, Accepted;
    StepDooms(s, step, clients);
  }

  /** Directly after reading, an insert would be accepted. */
  lemma ReadIsFresh(s: State, step: Step)
    requires Inv(s) && Enabled(s, step) && step.Read?
    ensures Accepted(Next(s, step), step.client)
  {
    NextKeepsInv(s, step);
    RefusedIffOvertaken(Next(s, step), step.client);
  }

  /**
    With N clients, at most N - 1 inserts are refused for each one committed: whatever the
    scheduling, requests are never refused without others being served.
   */
  lemma RefusalsBounded(run: seq<Step>, clients: set<Client>)
    requires ValidRun(run) && |clients| >= 1
    requires forall i :: 0 <= i < |run| ==> run[i].SoftDelete? || run[i].client in clients
    ensures TallyOf(run).refusals <= TallyOf(run).accepts * (|clients| - 1)
  {
    hide TallyOf, After, ValidRun, Doomed, Next, Allowance;
    RunPaidFor(run, clients);
    AllowanceIsProduct(TallyOf(run).accepts, |clients| - 1);
  }

  lemma {:induction false} RunPaidFor(run: seq<Step>, clients: set<Client>)
    requires ValidRun(run) && |clients| >= 1
    requires forall i :: 0 <= i < |run| ==> run[i].SoftDelete? || run[i].client in clients
    ensures After(run).reading.Keys <= clients
    ensures PaidFor(TallyOf(run), After(run), |clients| - 1)
  {
    if run != [] {
      var g := run[..|run| - 1];
      RunPaidFor(g, clients);
      RunKeepsInv(g);
      StepDooms(After(g), run[|run| - 1], clients);
      StepPaidFor(TallyOf(g), After(g), run[|run| - 1], clients);
    }
  }

  /** Every committed insert of a run is a row. */
  lemma {:induction false} AcceptsAreRows(run: seq<Step>)
    requires ValidRun(run)
    ensures TallyOf(run).accepts == |After(run).rows|
  {
    if run != [] { AcceptsAreRows(run[..|run| - 1]); }
  }

  // ---------- A refused insert ----------

  const NEW_YEAR: Day := Date(2025, 1, 1)
  const TWO_CLIENTS := [Read(0, "store", NEW_YEAR), Read(1, "store", NEW_YEAR), Commit(0)]

  /** Two clients read, one commits: the other's insert is refused. */
  lemma SecondIsRefused()
    ensures ValidRun(TWO_CLIENTS) && 1 in After(TWO_CLIENTS).reading && !Accepted(After(TWO_CLIENTS), 1)
  {
    var run := TWO_CLIENTS;
    var r := Reading("store", NEW_YEAR, 0, 0);
    assert run[..2] == [Read(0, "store", NEW_YEAR), Read(1, "store", NEW_YEAR)] && run[..2][..1] == [Read(0, "store", NEW_YEAR)];
    assert run[..2][..1][..0] == [];
    assert After(run[..2][..1]) == State([], map[0 := r]);
    assert After(run[..2]) == State([], map[0 := r, 1 := r]);
    var s := After(run);
    assert s.rows == [NumberedRow(Slot("store", NEW_YEAR, 1), 0, false)];
    assert Slots(s.rows)[0] == Wanted(s.reading[1]);
  }
}
