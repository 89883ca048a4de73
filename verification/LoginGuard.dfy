/**
  How the login services use the limiter: ask, verify the credentials, then record the outcome.
  From this pattern follows a bound on the failed attempts that fit into any span of time.
 */
module LoginGuard {
  import opened Wrappers
  import opened LimiterSpec
  import opened LimiterStore
  import opened RateLimiter

  datatype Outcome = RateLimited | AuthError | Granted

  /** The last event about a key, its evictions aside. */
  function LastAbout(h: seq<Event>, k: Key): Option<Event> {
    if h == [] then None
    else if h[|h| - 1].key == k && !h[|h| - 1].Evicted? then Some(h[|h| - 1])
    else LastAbout(h[..|h| - 1], k)
  }

  /** Every failure was recorded right after the key was asked for, not later than the failure, and found unlocked. */
  ghost predicate Guarded(h: seq<Event>) {
    forall i :: 0 <= i < |h| && h[i].Failed? ==> AskedFirst(h[..i], h[i])
  }

  predicate AskedFirst(h: seq<Event>, e: Event)
    requires e.Failed?
  {
    var last := LastAbout(h, e.key);
    last.Some? && last.value.Probed? && !last.value.locked && last.value.at <= e.at
  }

  /** Every answer was the one the specification gives. */
  ghost predicate Honest(p: Policy, h: seq<Event>) {
    forall i :: 0 <= i < |h| && h[i].Probed? ==> (h[i].locked <==> LockedAt(Replay(p, h[..i], h[i].key), h[i].at))
  }

  /** No success and no eviction of the key from index `lo` on. */
  predicate Unforgotten(h: seq<Event>, lo: nat, k: Key) {
    forall i :: lo <= i < |h| && h[i].key == k ==> !h[i].Cleared? && !h[i].Evicted?
  }

  /** How many failures of `k`, from index `lo` on, lie in the half-open span [a, b). */
  function FailuresIn(h: seq<Event>, lo: nat, k: Key, a: real, b: real): nat
    requires lo <= |h|
  {
    if |h| == lo then 0
    else
      var e := h[|h| - 1];
      FailuresIn(h[..|h| - 1], lo, k, a, b) + if e.Failed? && e.key == k && a <= e.at < b then 1 else 0
  }

  /** What the login services make of a history, at any time. */
  ghost predicate Disciplined(p: Policy, h: seq<Event>, clock: real) {
    Guarded(h) && Honest(p, h) && TimedUpTo(h, clock)
  }

  /** An event that may follow a disciplined history. */
  ghost predicate Proper(p: Policy, h: seq<Event>, e: Event, clock: real) {
    match e
    case Failed(_, at) => AskedFirst(h, e) && at == clock
    case Probed(k, at, locked) => locked <==> LockedAt(Replay(p, h, k), at)
    case Cleared(_) => true
    case Evicted(_) => true
  }

  // ---------- One login attempt ----------

  /** The limiter calls of `authenticate_admin` and `authenticate_table`; the credential check is an input. */
  method Authenticate(limiter: Limiter, key: Key, askedAt: real, credentialsOk: bool,
      verifiedAt: real) returns (outcome: Outcome)
    requires limiter.Valid() && limiter.clock <= askedAt <= verifiedAt
    requires Disciplined(limiter.policy, limiter.history, limiter.clock)
    modifies limiter
    ensures limiter.Valid() && Disciplined(limiter.policy, limiter.history, limiter.clock) && limiter.clock <= verifiedAt
    ensures outcome == RateLimited <==> LockedOut(limiter.policy, old(limiter.history), key, askedAt)
    ensures outcome == Granted <==> outcome != RateLimited && credentialsOk
    ensures var h := old(limiter.history);
            match outcome
            case RateLimited => limiter.history == h + [Probed(key, askedAt, true)]
            case Granted => limiter.history == h + [Probed(key, askedAt, false)] + [Cleared(key)]
            case AuthError =>
              var failed := h + [Probed(key, askedAt, false)] + [Failed(key, verifiedAt)];
              || limiter.history == failed
              || exists victim :: limiter.history == failed + [Evicted(victim)]
  {
    hide Limiter.Valid, Disciplined, MovedToEnd, MaybeSwept, KeepOnly, Recorded, Replay, LockedAt, LockedOut;
    ghost var p, h, clock := limiter.policy, limiter.history, limiter.clock;
    var locked := limiter.IsLocked(key, askedAt);
    ghost var asked := h + [Probed(key, askedAt, locked)];
    DisciplinedSnoc(p, h, Probed(key, askedAt, locked), clock, askedAt);
    AskedNow(h, Probed(key, askedAt, locked));
    if locked {
      outcome := RateLimited;
    } else if !credentialsOk {
      limiter.RecordFailure(key, verifiedAt);
      DisciplinedSnoc(p, asked, Failed(key, verifiedAt), askedAt, verifiedAt);
      ghost var failed := asked + [Failed(key, verifiedAt)];
      if limiter.history != failed {
        ghost var victim := limiter.history[|failed|].key;
        DisciplinedSnoc(p, failed, Evicted(victim), verifiedAt, verifiedAt);
      }
      outcome := AuthError;
    } else {
      limiter.RecordSuccess(key);
      DisciplinedSnoc(p, asked, Cleared(key), askedAt, askedAt);
      outcome := Granted;
    }
  }

  lemma DisciplinedSnoc(p: Policy, h: seq<Event>, e: Event, clock: real, clock': real)
    requires Disciplined(p, h, clock) && clock <= clock' && Proper(p, h, e, clock')
    ensures Disciplined(p, h + [e], clock')
  {
    GuardedSnoc(h, e);
    HonestSnoc(p, h, e);
  }

  lemma AskedNow(h: seq<Event>, e: Event)
    requires !e.Evicted?
    ensures LastAbout(h + [e], e.key) == Some(e)
  {}

  lemma GuardedSnoc(h: seq<Event>, e: Event)
    requires Guarded(h)
    requires e.Failed? ==> AskedFirst(h, e)
    ensures Guarded(h + [e])
  {
    var h' := h + [e];
    forall i | 0 <= i < |h'| && h'[i].Failed?
      ensures AskedFirst(h'[..i], h'[i])
    {
      assert h'[..i] == if i < |h| then h[..i] else h;
    }
  }

  lemma HonestSnoc(p: Policy, h: seq<Event>, e: Event)
    requires Honest(p, h)
    requires e.Probed? ==> (e.locked <==> LockedAt(Replay(p, h, e.key), e.at))
    ensures Honest(p, h + [e])
  {
    var h' := h + [e];
    forall i | 0 <= i < |h'| && h'[i].Probed?
      ensures h'[i].locked <==> LockedAt(Replay(p, h'[..i], h'[i].key), h'[i].at)
    {
      assert h'[..i] == if i < |h| then h[..i] else h;
    }
  }

  // ---------- The bound ----------

  /** The state of the argument after a prefix that holds `n` failures in the window starting at `a`. */
  ghost predicate Contained(p: Policy, log: Log, n: nat, a: real) {
    || (n <= CountSince(log.failures, a) && n < Max(1, p.maxFailures))
    || (n <= Max(1, p.maxFailures) && log.lockedUntil.Some? && log.lockedUntil.value >= a + p.window)
  }

  /** If the key was asked for last and found unlocked, then no lock is in force from that moment on. */
  lemma {:induction false} AskedMeansUnlocked(p: Policy, h: seq<Event>, k: Key, t: real)
    requires Honest(p, h)
    requires AskedFirst(h, Failed(k, t))
    ensures !LockedAt(Replay(p, h, k), t)
  {
    var g := h[..|h| - 1];
    assert g + [h[|h| - 1]] == h;
    ReplaySnoc(p, g, h[|h| - 1], k);
    if h[|h| - 1].key != k || h[|h| - 1].Evicted? {
      assert Honest(p, g) by { HonestPrefix(p, h); }
      AskedMeansUnlocked(p, g, k, t);
    }
  }

  lemma HonestPrefix(p: Policy, h: seq<Event>)
    requires Honest(p, h) && h != []
    ensures Honest(p, h[..|h| - 1])
  {
    var g := h[..|h| - 1];
    forall i | 0 <= i < |g| && g[i].Probed?
      ensures g[i].locked <==> LockedAt(Replay(p, g[..i], g[i].key), g[i].at)
    {
      assert g[..i] == h[..i];
    }
  }

  lemma GuardedPrefix(h: seq<Event>)
    requires Guarded(h) && h != []
    ensures Guarded(h[..|h| - 1])
  {
    var g := h[..|h| - 1];
    forall i | 0 <= i < |g| && g[i].Failed?
      ensures AskedFirst(g[..i], g[i])
    {
      assert g[..i] == h[..i];
    }
  }

  lemma {:induction false} CountedMeansSeen(h: seq<Event>, lo: nat, k: Key, a: real, b: real)
    requires lo <= |h|
    ensures FailuresIn(h, lo, k, a, b) > 0 ==> exists i :: 0 <= i < |h| && h[i].Failed? && h[i].at >= a
  {
    if |h| > lo {
      var g := h[..|h| - 1];
      CountedMeansSeen(g, lo, k, a, b);
      if FailuresIn(g, lo, k, a, b) > 0 {
        var i :| 0 <= i < |g| && g[i].Failed? && g[i].at >= a;
        assert h[i].Failed?;
      }
    }
  }

  /** One failure keeps the argument going: it is counted, or it locks, or it lies outside the window. */
  lemma FailureContained(p: Policy, log: Log, n: nat, a: real, t: real)
    requires p.cooldown >= p.window
    requires Contained(p, log, n, a) && !LockedAt(log, t)
    requires n > 0 ==> a <= t
    ensures Contained(p, AfterFailure(p, log, t), n + (if a <= t < a + p.window then 1 else 0), a)
  {
    CountSinceMonotoneIf(log.failures, t - p.window, a);
    CountSinceConcat(log.failures, [t], a);
  }

  lemma CountSinceMonotoneIf(times: seq<real>, t: real, u: real)
    ensures t <= u ==> CountSince(times, u) <= CountSince(times, t)
  {
    if t <= u { CountSinceMonotone(times, t, u); }
  }

  lemma NoneContained(p: Policy, log: Log, a: real)
    ensures Contained(p, log, 0, a)
  {}

  /** The last event, if it is a failure of `k`, keeps the argument going. */
  lemma LastFailureContained(p: Policy, h: seq<Event>, lo: nat, k: Key, a: real)
    requires lo < |h| && p.cooldown >= p.window && Guarded(h) && Honest(p, h) && Timed(h)
    requires h[|h| - 1].key == k && h[|h| - 1].Failed?
    requires var g := h[..|h| - 1]; Contained(p, Replay(p, g, k), FailuresIn(g, lo, k, a, a + p.window), a)
    ensures Contained(p, Replay(p, h, k), FailuresIn(h, lo, k, a, a + p.window), a)
  {
    hide LastAbout, Honest, Contained, AfterFailure, LockedAt, CountSince;
    var (g, e) := (h[..|h| - 1], h[|h| - 1]);
    HonestPrefix(p, h);
    assert AskedFirst(g, e);
    AskedMeansUnlocked(p, g, k, e.at);
    CountedMeansSeen(g, lo, k, a, a + p.window);
    FailureContained(p, Replay(p, g, k), FailuresIn(g, lo, k, a, a + p.window), a, e.at);
  }

  lemma {:induction false} WindowContained(p: Policy, h: seq<Event>, lo: nat, k: Key, a: real)
    requires lo <= |h| && p.cooldown >= p.window
    requires Guarded(h) && Honest(p, h) && Timed(h) && Unforgotten(h, lo, k)
    ensures Contained(p, Replay(p, h, k), FailuresIn(h, lo, k, a, a + p.window), a)
  {
    hide Guarded, Honest, Contained, Replay;
    if |h| == lo {
      NoneContained(p, Replay(p, h, k), a);
    } else {
      var (g, e) := (h[..|h| - 1], h[|h| - 1]);
      assert h == g + [e];
      GuardedPrefix(h);
      HonestPrefix(p, h);
      WindowContained(p, g, lo, k, a);
      ReplaySnoc(p, g, e, k);
      if e.key == k && e.Failed? { LastFailureContained(p, h, lo, k, a); }
    }
  }

  /**
    Between two successes, and as long as the key is not evicted, no half-open span as long as the
    window holds more failed attempts than the maximum.
   */
  lemma WindowBound(p: Policy, h: seq<Event>, lo: nat, k: Key, a: real)
    requires lo <= |h| && p.cooldown >= p.window
    requires Guarded(h) && Honest(p, h) && Timed(h) && Unforgotten(h, lo, k)
    ensures FailuresIn(h, lo, k, a, a + p.window) <= Max(1, p.maxFailures)
  {
    WindowContained(p, h, lo, k, a);
  }

  lemma {:induction false} FailuresSplit(h: seq<Event>, lo: nat, k: Key, a: real, b: real, c: real)
    requires lo <= |h| && a <= b <= c
    ensures FailuresIn(h, lo, k, a, c) == FailuresIn(h, lo, k, a, b) + FailuresIn(h, lo, k, b, c)
  {
    if |h| > lo { FailuresSplit(h[..|h| - 1], lo, k, a, b, c); }
  }

  lemma {:induction false} FailuresMonotone(h: seq<Event>, lo: nat, k: Key, a: real, b: real, c: real)
    requires lo <= |h| && b <= c
    ensures FailuresIn(h, lo, k, a, b) <= FailuresIn(h, lo, k, a, c)
  {
    if |h| > lo { FailuresMonotone(h[..|h| - 1], lo, k, a, b, c); }
  }

  /** The bound for a span of at most `n` windows. */
  lemma {:induction false} WindowsBound(p: Policy, h: seq<Event>, lo: nat, k: Key, a: real, b: real, n: nat)
    requires lo <= |h| && p.cooldown >= p.window >= 0.0
    requires Guarded(h) && Honest(p, h) && Timed(h) && Unforgotten(h, lo, k)
    requires b <= a + n as real * p.window
    ensures FailuresIn(h, lo, k, a, b) <= n * Max(1, p.maxFailures)
    decreases n
  {
    var m := Max(1, p.maxFailures);
    if n == 0 {
      NoneInEmptySpan(h, lo, k, a, b);
    } else {
      WindowBound(p, h, lo, k, a);
      if b <= a + p.window {
        FailuresMonotone(h, lo, k, a, b, a + p.window);
        assert m <= n * m;
      } else {
        assert n as real * p.window == (n - 1) as real * p.window + p.window;
        WindowsBound(p, h, lo, k, a + p.window, b, n - 1);
        FailuresSplit(h, lo, k, a, a + p.window, b);
        assert n * m == (n - 1) * m + m;
      }
    }
  }

  lemma {:induction false} NoneInEmptySpan(h: seq<Event>, lo: nat, k: Key, a: real, b: real)
    requires lo <= |h| && b <= a
    ensures FailuresIn(h, lo, k, a, b) == 0
  {
    if |h| > lo { NoneInEmptySpan(h[..|h| - 1], lo, k, a, b); }
  }

  /** Over any span of length `t`, at most `maxFailures * (floor(t / window) + 1)` attempts fail. */
  lemma SpanBound(p: Policy, h: seq<Event>, lo: nat, k: Key, a: real, t: real)
    requires lo <= |h| && p.cooldown >= p.window > 0.0 && t >= 0.0
    requires Guarded(h) && Honest(p, h) && Timed(h) && Unforgotten(h, lo, k)
    ensures FailuresIn(h, lo, k, a, a + t) <= ((t / p.window).Floor + 1) * Max(1, p.maxFailures)
  {
    var q := t / p.window;
    var n := q.Floor + 1;
    assert q * p.window == t;
    assert q >= 0.0;
    assert q <= n as real;
    ScaleUp(q, n as real, p.window);
    WindowsBound(p, h, lo, k, a, a + t, n);
  }

  lemma ScaleUp(x: real, y: real, w: real)
    requires x <= y && w > 0.0
    ensures x * w <= y * w
  {}
}
