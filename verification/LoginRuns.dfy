/** Any number of logins, interleaved, on a limiter that starts empty: the bound in terms of what callers see. */
module LoginRuns {
  import opened LimiterSpec
  import opened LimiterStore
  import opened LoginGuard
  import opened RateLimiter
  import Collections

  /** The two halves of a login: the limiter is asked, and the verdict on the credentials is recorded. */
  datatype Call = Ask(key: Key, at: real) | Verdict(key: Key, at: real, credentialsOk: bool)

  /** A verdict is skipped when the login was locked out before. */
  datatype Answer = Locked | Open | Skipped | Refused | Accepted

  function LatestBefore(start: real, calls: seq<Call>, i: nat): real
    requires i <= |calls|
  {
    if i == 0 then start else calls[i - 1].at
  }

  /** The clock never runs backwards. */
  predicate InTime(start: real, calls: seq<Call>) {
    forall i :: 0 <= i < |calls| ==> LatestBefore(start, calls, i) <= calls[i].at
  }

  /** The last of the first `n` calls that is about `k`; -1 without any. */
  function LatestCall(calls: seq<Call>, n: nat, k: Key): (i: int)
    requires n <= |calls|
    ensures -1 <= i < n && (i >= 0 ==> calls[i].key == k)
  {
    if n == 0 then -1 else if calls[n - 1].key == k then n - 1 else LatestCall(calls, n - 1, k)
  }

  /** Logins of different keys may overlap as they like; one key has one login at a time. */
  predicate OneLoginPerKey(calls: seq<Call>) {
    forall i :: 0 <= i < |calls| && calls[i].Verdict? ==>
      LatestCall(calls, i, calls[i].key) >= 0 && calls[LatestCall(calls, i, calls[i].key)].Ask?
  }

  // ---------- What the calls leave in the history ----------

  function Events(c: Call, o: Answer): seq<Event> {
    match c
    case Ask(k, at) => [Probed(k, at, o == Locked)]
    case Verdict(k, at, _) => if o == Refused then [Failed(k, at)] else if o == Accepted then [Cleared(k)] else []
  }

  function HistoryOf(calls: seq<Call>, answers: seq<Answer>): seq<Event>
    requires |calls| == |answers|
  {
    if calls == [] then []
    else
      HistoryOf(calls[..|calls| - 1], answers[..|answers| - 1]) + Events(calls[|calls| - 1], answers[|answers| - 1])
  }

  function KeysUsed(calls: seq<Call>): set<Key> {
    set i | 0 <= i < |calls| :: calls[i].key
  }

  lemma {:induction false} OnlyKeysUsed(calls: seq<Call>, answers: seq<Answer>)
    requires |calls| == |answers|
    ensures KeysOf(HistoryOf(calls, answers)) <= KeysUsed(calls)
    ensures forall i :: 0 <= i < |HistoryOf(calls, answers)| ==> !HistoryOf(calls, answers)[i].Evicted?
  {
    if calls != [] {
      var front, last := calls[..|calls| - 1], calls[|calls| - 1];
      var h := HistoryOf(front, answers[..|answers| - 1]);
      var g := HistoryOf(calls, answers);
      OnlyKeysUsed(front, answers[..|answers| - 1]);
      forall i | 0 <= i < |g|
        ensures g[i].key in KeysUsed(calls) && !g[i].Evicted?
      {
        if i < |h| {
          assert g[i] == h[i] && h[i].key in KeysOf(h);
          var j :| 0 <= j < |front| && front[j].key == g[i].key;
          assert calls[j].key == g[i].key;
        } else {
          assert last.key == g[i].key;
        }
      }
    }
  }

  /** With few keys an eviction would not be justified. */
  lemma NoVictim(h: seq<Event>, victim: Key, calls: seq<Call>, answers: seq<Answer>, cap: nat)
    requires |calls| == |answers| && h == HistoryOf(calls, answers) && |KeysUsed(calls)| <= cap
    ensures !EvictionsJustified(h + [Evicted(victim)], cap)
  {
    var g := h + [Evicted(victim)];
    OnlyKeysUsed(calls, answers);
    forall k | k in TouchedKeys(g)
      ensures k in KeysUsed(calls)
    {
      LastTouchSnoc(h, Evicted(victim), k);
      TouchedOnlyIfSeen(h, k);
    }
    Collections.CardinalityMonotone(TouchedKeys(g), KeysUsed(calls));
    assert g[|h|].Evicted?;
    if EvictionsJustified(g, cap) { FewKeysNeverEvicted(g, cap); }
  }

  // ---------- Counting refused credentials ----------

  /** Among the calls lo..hi, wrong credentials for `k` that were found out in the half-open span [a, b). */
  function RefusedCalls(calls: seq<Call>, answers: seq<Answer>, lo: nat, hi: nat, k: Key, a: real, b: real): nat
    requires lo <= hi <= |calls| == |answers|
  {
    if hi == lo then 0
    else
      var last := calls[hi - 1];
      RefusedCalls(calls, answers, lo, hi - 1, k, a, b)
      + if last.Verdict? && answers[hi - 1] == Refused && last.key == k && a <= last.at < b then 1 else 0
  }

  predicate NoneGranted(calls: seq<Call>, answers: seq<Answer>, lo: nat, hi: nat, k: Key)
    requires lo <= hi <= |calls| == |answers|
  {
    forall i :: lo <= i < hi && calls[i].key == k ==> answers[i] != Accepted
  }

  lemma FailuresOfOne(h: seq<Event>, c: Call, o: Answer, lo: nat, k: Key, a: real, b: real)
    requires lo <= |h|
    ensures FailuresIn(h + Events(c, o), lo, k, a, b)
            == FailuresIn(h, lo, k, a, b) + if c.Verdict? && o == Refused && c.key == k && a <= c.at < b then 1 else 0
  {
    var es := Events(c, o);
    if es == [] {
      assert h + es == h;
    } else {
      assert (h + es)[..|h|] == h;
    }
  }

  /** The history after the first `n` calls. */
  function HistoryUpTo(calls: seq<Call>, answers: seq<Answer>, n: nat): seq<Event>
    requires n <= |calls| == |answers|
  {
    HistoryOf(calls[..n], answers[..n])
  }

  lemma UpToOneMore(calls: seq<Call>, answers: seq<Answer>, n: nat)
    requires n < |calls| == |answers|
    ensures HistoryUpTo(calls, answers, n + 1) == HistoryUpTo(calls, answers, n) + Events(calls[n], answers[n])
  {
    assert calls[..n + 1][..n] == calls[..n] && answers[..n + 1][..n] == answers[..n];
  }

  lemma {:induction false} CountsAgree(calls: seq<Call>, answers: seq<Answer>, lo: nat, hi: nat, k: Key, a: real,
      b: real)
    requires lo <= hi <= |calls| == |answers|
    ensures var (from, h) := (HistoryUpTo(calls, answers, lo), HistoryUpTo(calls, answers, hi));
            |from| <= |h| && FailuresIn(h, |from|, k, a, b) == RefusedCalls(calls, answers, lo, hi, k, a, b)
    decreases hi
  {
    hide HistoryUpTo, Events;
    if lo < hi {
      CountsAgree(calls, answers, lo, hi - 1, k, a, b);
      UpToOneMore(calls, answers, hi - 1);
      var from := |HistoryUpTo(calls, answers, lo)|;
      FailuresOfOne(HistoryUpTo(calls, answers, hi - 1), calls[hi - 1], answers[hi - 1], from, k, a, b);
    }
  }

  lemma {:induction false} NotForgotten(calls: seq<Call>, answers: seq<Answer>, lo: nat, hi: nat, k: Key)
    requires lo <= hi <= |calls| == |answers| && NoneGranted(calls, answers, lo, hi, k)
    ensures var (from, h) := (HistoryUpTo(calls, answers, lo), HistoryUpTo(calls, answers, hi));
            |from| <= |h| && Unforgotten(h, |from|, k)
    decreases hi
  {
    hide HistoryUpTo;
    if lo < hi {
      NotForgotten(calls, answers, lo, hi - 1, k);
      UpToOneMore(calls, answers, hi - 1);
    }
  }

  lemma {:induction false} HistoryPrefix(calls: seq<Call>, answers: seq<Answer>, n: nat)
    requires n <= |calls| == |answers|
    ensures HistoryUpTo(calls, answers, n) <= HistoryOf(calls, answers)
    decreases |calls|
  {
    if n == |calls| {
      assert calls[..n] == calls && answers[..n] == answers;
    } else {
      var m := |calls| - 1;
      assert calls[..m][..n] == calls[..n] && answers[..m][..n] == answers[..n];
      HistoryPrefix(calls[..m], answers[..m], n);
    }
  }

  lemma DisciplinedPrefix(p: Policy, h: seq<Event>, g: seq<Event>, clock: real)
    requires Disciplined(p, h, clock) && g <= h
    ensures Disciplined(p, g, clock)
  {
    forall i | 0 <= i < |g|
      ensures g[..i] == h[..i] && g[i] == h[i]
    {}
  }

  predicate BoundedIn(p: Policy, calls: seq<Call>, answers: seq<Answer>, lo: nat, hi: nat, k: Key, a: real, t: real)
    requires lo <= hi <= |calls| == |answers| && p.window > 0.0
  {
    t >= 0.0 && NoneGranted(calls, answers, lo, hi, k) ==>
      RefusedCalls(calls, answers, lo, hi, k, a, a + t) <= ((t / p.window).Floor + 1) * Max(1, p.maxFailures)
  }

  /** In every stretch of a run, and every span of time, at most so many credentials are refused. */
  ghost predicate Bounded(p: Policy, calls: seq<Call>, answers: seq<Answer>)
    requires |calls| == |answers| && p.window > 0.0
  {
    forall lo: nat, hi: nat, k, a, t :: lo <= hi <= |calls| ==> BoundedIn(p, calls, answers, lo, hi, k, a, t)
  }

  lemma {:induction false} StretchBound(p: Policy, calls: seq<Call>, answers: seq<Answer>, clock: real,
                                        lo: nat, hi: nat, k: Key, a: real, t: real)
    requires lo <= hi <= |calls| == |answers| && p.cooldown >= p.window > 0.0
    requires Disciplined(p, HistoryOf(calls, answers), clock)
    ensures BoundedIn(p, calls, answers, lo, hi, k, a, t)
  {
    hide Guarded, Honest, Timed, Unforgotten, FailuresIn, RefusedCalls, HistoryOf, HistoryUpTo, NoneGranted;
    if t >= 0.0 && NoneGranted(calls, answers, lo, hi, k) {
      HistoryPrefix(calls, answers, hi);
      DisciplinedPrefix(p, HistoryOf(calls, answers), HistoryUpTo(calls, answers, hi), clock);
      CountsAgree(calls, answers, lo, hi, k, a, a + t);
      NotForgotten(calls, answers, lo, hi, k);
      SpanBound(p, HistoryUpTo(calls, answers, hi), |HistoryUpTo(calls, answers, lo)|, k, a, t);
    }
  }

  lemma {:induction false} RunBound(p: Policy, calls: seq<Call>, answers: seq<Answer>, clock: real)
    requires |calls| == |answers| && p.cooldown >= p.window > 0.0
    requires Disciplined(p, HistoryOf(calls, answers), clock)
    ensures Bounded(p, calls, answers)
  {
    forall lo: nat, hi: nat, k, a, t | lo <= hi <= |calls|
      ensures BoundedIn(p, calls, answers, lo, hi, k, a, t)
    {
      StretchBound(p, calls, answers, clock, lo, hi, k, a, t);
    }
  }

  // ---------- One call ----------

  ghost predicate Follows(h: seq<Event>, before: seq<Event>, c: Call, o: Answer) {
    h == before + Events(c, o) || exists victim :: h == before + Events(c, o) + [Evicted(victim)]
  }

  /** The key was asked for last, and let through. */
  ghost predicate Ready(h: seq<Event>, k: Key, clock: real) {
    var last := LastAbout(h, k);
    last.Some? && last.value.Probed? && !last.value.locked && last.value.at <= clock
  }

  lemma ReadySnoc(h: seq<Event>, e: Event, k: Key, clock: real, later: real)
    requires Ready(h, k, clock) && clock <= later && (e.key != k || e.Evicted?)
    ensures Ready(h + [e], k, later)
  {
    assert (h + [e])[..|h|] == h;
  }

  lemma AllReady(h: seq<Event>, e: Event, waiting: set<Key>, clock: real, later: real)
    requires forall k :: k in waiting ==> Ready(h, k, clock)
    requires clock <= later && !e.Evicted?
    ensures forall k :: k in waiting - {e.key} ==> Ready(h + [e], k, later)
  {
    forall k | k in waiting - {e.key}
      ensures Ready(h + [e], k, later)
    {
      ReadySnoc(h, e, k, clock, later);
    }
  }

  /** One half of a login; `waiting` are the keys that were asked for and let through. */
  method Serve(limiter: Limiter, c: Call, waiting: set<Key>) returns (answer: Answer, still: set<Key>)
    requires limiter.Valid() && limiter.clock <= c.at && Disciplined(limiter.policy, limiter.history, limiter.clock)
    requires forall k :: k in waiting ==> Ready(limiter.history, k, limiter.clock)
    modifies limiter
    ensures limiter.Valid() && Disciplined(limiter.policy, limiter.history, limiter.clock) && limiter.clock <= c.at
    ensures forall k :: k in still ==> Ready(limiter.history, k, limiter.clock)
    ensures Follows(limiter.history, old(limiter.history), c, answer)
    ensures match c
            case Ask(k, at) =>
              && answer == (if LockedOut(limiter.policy, old(limiter.history), k, at) then Locked else Open)
              && still == if answer == Open then waiting + {k} else waiting - {k}
            case Verdict(k, _, ok) =>
              && answer == (if k !in waiting then Skipped else if ok then Accepted else Refused)
              && still == waiting - {k}
  {
    hide Limiter.Valid, Disciplined, Replay, LockedAt, LockedOut, LastAbout, MovedToEnd, MaybeSwept, KeepOnly, Recorded,
        ProbedOrder;
    ghost var p, h, clock := limiter.policy, limiter.history, limiter.clock;
    match c {
      case Ask(k, at) =>
        var locked := limiter.IsLocked(k, at);
        ghost var e := Probed(k, at, locked);
        DisciplinedSnoc(p, h, e, clock, at);
        AllReady(h, e, waiting, clock, at);
        AskedNow(h, e);
        answer := if locked then Locked else Open;
        still := if locked then waiting - {k} else waiting + {k};
      case Verdict(k, at, ok) =>
        still := waiting - {k};
        if k !in waiting {
          answer := Skipped;
          assert h + Events(c, answer) == h;
        } else if ok {
          limiter.RecordSuccess(k);
          DisciplinedSnoc(p, h, Cleared(k), clock, clock);
          AllReady(h, Cleared(k), waiting, clock, clock);
          answer := Accepted;
        } else {
          limiter.RecordFailure(k, at);
          ghost var failed := h + [Failed(k, at)];
          DisciplinedSnoc(p, h, Failed(k, at), clock, at);
          AllReady(h, Failed(k, at), waiting, clock, at);
          if limiter.history != failed {
            ghost var victim := limiter.history[|failed|].key;
            DisciplinedSnoc(p, failed, Evicted(victim), at, at);
            StillReady(failed, victim, still, at);
          }
          answer := Refused;
        }
    }
  }

  lemma StillReady(h: seq<Event>, victim: Key, waiting: set<Key>, clock: real)
    requires forall k :: k in waiting ==> Ready(h, k, clock)
    ensures forall k :: k in waiting ==> Ready(h + [Evicted(victim)], k, clock)
  {
    forall k | k in waiting
      ensures Ready(h + [Evicted(victim)], k, clock)
    {
      ReadySnoc(h, Evicted(victim), k, clock, clock);
    }
  }

  // ---------- The run ----------

  /** Call `i` got the answer that the calls before it call for: its ask's, and its own credentials' verdict. */
  predicate Deserved(calls: seq<Call>, answers: seq<Answer>, i: nat)
    requires i < |calls| && i < |answers| && OneLoginPerKey(calls)
  {
    match calls[i]
    case Ask(_, _) => answers[i] == Locked || answers[i] == Open
    case Verdict(k, _, ok) =>
      answers[i] == if answers[LatestCall(calls, i, k)] == Locked then Skipped else if ok then Accepted else Refused
  }

  /** ... and an ask is locked exactly if the refusals and acceptances before it lock the key; nothing was evicted. */
  predicate PlainlyAnswered(p: Policy, calls: seq<Call>, answers: seq<Answer>, i: nat)
    requires i < |calls| && i < |answers|
  {
    calls[i].Ask? ==>
      (answers[i] == Locked <==> LockedOut(p, HistoryOf(calls[..i], answers[..i]), calls[i].key, calls[i].at))
  }

  /** The keys whose latest call so far was an ask that let them through. */
  ghost predicate WaitingAfter(calls: seq<Call>, answers: seq<Answer>, n: nat, waiting: set<Key>)
    requires n <= |calls| && n <= |answers|
  {
    forall k :: k in waiting <==>
      LatestCall(calls, n, k) >= 0 && calls[LatestCall(calls, n, k)].Ask? && answers[LatestCall(calls, n, k)] == Open
  }

  ghost predicate FewKeys(p: Policy, calls: seq<Call>) {
    |KeysUsed(calls)| <= p.keyCap
  }

  /**
    Logins of any number of users, interleaved in any way, on a limiter with room for them all: in any
    stretch of the run in which a key is not granted, any span of time `t` sees at most
    `maxFailures * (floor(t / window) + 1)` refused credentials for it.
   */
  method ServeAll(policy: Policy, start: real, calls: seq<Call>) returns (limiter: Limiter, answers: seq<Answer>)
    requires 0.0 <= start && InTime(start, calls) && OneLoginPerKey(calls)
    ensures fresh(limiter) && limiter.Valid() && limiter.policy == policy
    ensures Disciplined(policy, limiter.history, limiter.clock)
    ensures |answers| == |calls| && forall i :: 0 <= i < |calls| ==> Deserved(calls, answers, i)
    ensures FewKeys(policy, calls) ==>
              && limiter.history == HistoryOf(calls, answers)
              && (forall i :: 0 <= i < |calls| ==> PlainlyAnswered(policy, calls, answers, i))
              && (policy.cooldown >= policy.window > 0.0 ==> Bounded(policy, calls, answers))
  {
    hide Limiter.Valid, Disciplined, Follows, Deserved, PlainlyAnswered, WaitingAfter, HistoryOf, FewKeys, Bounded,
      Ready, LockedOut, OneLoginPerKey;
    limiter := new Limiter(policy, start);
    answers := [];
    var waiting: set<Key> := {};
    AtTheStart(policy, start, calls);
    for i := 0 to |calls|
      invariant fresh(limiter) && limiter.Valid() && limiter.policy == policy && |answers| == i
      invariant limiter.clock <= LatestBefore(start, calls, i) && Disciplined(policy, limiter.history, limiter.clock)
      invariant forall k :: k in waiting ==> Ready(limiter.history, k, limiter.clock)
      invariant WaitingAfter(calls, answers, i, waiting)
      invariant forall j :: 0 <= j < i ==> Deserved(calls, answers, j)
      invariant FewKeys(policy, calls) ==> limiter.history == HistoryOf(calls[..i], answers)
      invariant FewKeys(policy, calls) ==> forall j :: 0 <= j < i ==> PlainlyAnswered(policy, calls, answers, j)
    {
      ghost var before, was := limiter.history, waiting;
      var answer: Answer;
      answer, waiting := Serve(limiter, calls[i], waiting);
      OneMoreAnswer(calls, answers, i, was, answer, waiting);
      OneMoreCall(limiter, before, calls, i, answers, answer);
      answers := answers + [answer];
    }
    assert calls[..|calls|] == calls;
    if FewKeys(policy, calls) && policy.cooldown >= policy.window > 0.0 {
      RunBound(policy, calls, answers, limiter.clock);
    }
  }

  lemma AtTheStart(p: Policy, start: real, calls: seq<Call>)
    ensures Disciplined(p, [], start) && HistoryOf(calls[..0], []) == [] && WaitingAfter(calls, [], 0, {})
  {}

  /** The next answer is deserved, and the set of waiting keys is the right one again. */
  lemma OneMoreAnswer(calls: seq<Call>, answers: seq<Answer>, i: nat, was: set<Key>, o: Answer, waiting: set<Key>)
    requires |answers| == i < |calls| && OneLoginPerKey(calls) && WaitingAfter(calls, answers, i, was)
    requires forall j :: 0 <= j < i ==> Deserved(calls, answers, j)
    requires match calls[i]
             case Ask(k, _) => (o == Locked || o == Open) && waiting == if o == Open then was + {k} else was - {k}
             case Verdict(k, _, ok) =>
               o == (if k !in was then Skipped else if ok then Accepted else Refused) && waiting == was - {k}
    ensures WaitingAfter(calls, answers + [o], i + 1, waiting)
    ensures forall j :: 0 <= j <= i ==> Deserved(calls, answers + [o], j)
  {
    forall j | 0 <= j <= i
      ensures Deserved(calls, answers + [o], j)
    {
      if j < i {
        assert Deserved(calls, answers, j);
      } else if calls[i].Verdict? {
        var ask := LatestCall(calls, i, calls[i].key);
        if ask < i { assert Deserved(calls, answers, ask); }
      }
    }
  }

  /** With few keys nothing was evicted, so the history is the calls' own, and the answer what they call for. */
  lemma OneMoreCall(limiter: Limiter, before: seq<Event>, calls: seq<Call>, i: nat, answers: seq<Answer>, o: Answer)
    requires |answers| == i < |calls| && limiter.Valid() && Follows(limiter.history, before, calls[i], o)
    requires calls[i].Ask? ==> (o == Locked <==> LockedOut(limiter.policy, before, calls[i].key, calls[i].at))
    requires FewKeys(limiter.policy, calls) ==> before == HistoryOf(calls[..i], answers)
    requires FewKeys(limiter.policy, calls) ==> forall j :: 0 <= j < i ==> PlainlyAnswered(limiter.policy, calls, answers, j)
    ensures FewKeys(limiter.policy, calls) ==> limiter.history == HistoryOf(calls[..i + 1], answers + [o])
    ensures FewKeys(limiter.policy, calls) ==> forall j :: 0 <= j <= i ==> PlainlyAnswered(limiter.policy, calls, answers + [o], j)
  {
    if FewKeys(limiter.policy, calls) {
      hide LockedOut;
      HistoryGrows(limiter, before, calls, i, answers, o);
      forall j | 0 <= j <= i
        ensures PlainlyAnswered(limiter.policy, calls, answers + [o], j)
      {
        assert (answers + [o])[..j] == answers[..j];
        if j < i { assert PlainlyAnswered(limiter.policy, calls, answers, j); }
      }
    }
  }

  lemma HistoryGrows(limiter: Limiter, before: seq<Event>, calls: seq<Call>, i: nat, answers: seq<Answer>, o: Answer)
    requires |answers| == i < |calls| && limiter.Valid() && Follows(limiter.history, before, calls[i], o)
    requires FewKeys(limiter.policy, calls) && before == HistoryOf(calls[..i], answers)
    ensures limiter.history == HistoryOf(calls[..i + 1], answers + [o])
    ensures answers[..i] == answers
  {
    var h := HistoryOf(calls[..i + 1], answers + [o]);
    assert calls[..i + 1][..i] == calls[..i] && (answers + [o])[..i] == answers;
    assert h == before + Events(calls[i], o);
    FewerKeys(calls, i + 1);
    if victim :| limiter.history == h + [Evicted(victim)] {
      NoVictim(h, victim, calls[..i + 1], answers + [o], limiter.policy.keyCap);
    }
  }

  lemma FewerKeys(calls: seq<Call>, n: nat)
    requires n <= |calls|
    ensures |KeysUsed(calls[..n])| <= |KeysUsed(calls)|
  {
    Collections.CardinalityMonotone(KeysUsed(calls[..n]), KeysUsed(calls));
  }
}
