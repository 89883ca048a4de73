/**
  The login rate limiter as its documentation describes it: for each key, remember every failure
  since the last success (or lock) and, when asked, count those that are no older than the window.
  Nothing is ever pruned here. Module RateLimiter proves that the real store, which prunes lazily,
  sweeps now and then and evicts by age of use, answers as this one does.
 */
module LimiterSpec {
  import opened Wrappers

  type Key = string

  /** The four settings the limiter is built with. */
  datatype Policy = Policy(maxFailures: int, window: real, cooldown: real, keyCap: nat)

  /** What happened to a limiter, oldest first. An eviction is an event of its own. */
  datatype Event =
    | Failed(key: Key, at: real)
    | Cleared(key: Key)
    | Probed(key: Key, at: real, locked: bool)
    | Evicted(key: Key)

  datatype Log = Log(failures: seq<real>, lockedUntil: Option<real>)

  const EMPTY_LOG := Log([], None)

  function Max(a: int, b: int): int {
    if a < b then b else a
  }

  function CountSince(times: seq<real>, threshold: real): nat {
    if times == [] then 0
    else CountSince(times[..|times| - 1], threshold) + if times[|times| - 1] >= threshold then 1 else 0
  }

  /** One more failure at time `at`: it locks the key when, with those still in the window, it reaches the maximum. */
  function AfterFailure(p: Policy, log: Log, at: real): Log {
    if CountSince(log.failures, at - p.window) + 1 >= p.maxFailures
    then Log([], Some(at + p.cooldown))
    else log.(failures := log.failures + [at])
  }

  function Replay(p: Policy, h: seq<Event>, k: Key): Log {
    if h == [] then EMPTY_LOG
    else
      var log := Replay(p, h[..|h| - 1], k);
      var e := h[|h| - 1];
      if e.key != k then log
      else
        match e
        case Failed(_, at) => AfterFailure(p, log, at)
        case Cleared(_) => EMPTY_LOG
        case Probed(_, _, _) => log
        case Evicted(_) => EMPTY_LOG
  }

  /** The same, taking no notice of evictions: every failure since the key's last success or lock. */
  function PlainReplay(p: Policy, h: seq<Event>, k: Key): Log {
    if h == [] then EMPTY_LOG
    else
      var log := PlainReplay(p, h[..|h| - 1], k);
      match h[|h| - 1]
      case Failed(key, at) => if key == k then AfterFailure(p, log, at) else log
      case Cleared(key) => if key == k then EMPTY_LOG else log
      case _ => log
  }

  predicate LockedAt(log: Log, now: real) {
    log.lockedUntil.Some? && log.lockedUntil.value > now
  }

  /** Failures are recorded in the order of time. */
  predicate Timed(h: seq<Event>) {
    forall i, j :: 0 <= i < j < |h| && h[i].Failed? && h[j].Failed? ==> h[i].at <= h[j].at
  }

  /** ... and none of them after `clock`. */
  predicate TimedUpTo(h: seq<Event>, clock: real) {
    Timed(h) && forall i :: 0 <= i < |h| && h[i].Failed? ==> h[i].at <= clock
  }

  lemma TimedSnoc(h: seq<Event>, e: Event, clock: real, later: real)
    requires TimedUpTo(h, clock) && clock <= later && (e.Failed? ==> e.at == later)
    ensures TimedUpTo(h + [e], later)
  {}

  // ---------- When a key is locked, by the events alone ----------

  /** Failures of `k` among the events lo..hi, at time `from` or later. */
  function FailuresFrom(h: seq<Event>, lo: nat, hi: nat, k: Key, from: real): nat
    requires hi <= |h|
  {
    if hi <= lo then 0
    else
      var e := h[hi - 1];
      FailuresFrom(h, lo, hi - 1, k, from) + if e.Failed? && e.key == k && e.at >= from then 1 else 0
  }

  /** A success or an eviction: all about the key is forgotten. */
  predicate Forgets(e: Event, k: Key) {
    e.key == k && (e.Cleared? || e.Evicted?)
  }

  /** The last of the first `n` events with which counting for `k` starts anew: it was forgotten, or it was locked; -1 without any. */
  function LastReset(p: Policy, h: seq<Event>, k: Key, n: nat): (i: int)
    requires n <= |h|
    ensures -1 <= i < n
    decreases n, 0
  {
    if n == 0 then -1
    else if Forgets(h[n - 1], k) || Locks(p, h, k, n - 1) then n - 1
    else LastReset(p, h, k, n - 1)
  }

  /** Event `i` is a failure of `k`, and with it there are at least `maxFailures` in the window that ends with it. */
  predicate Locks(p: Policy, h: seq<Event>, k: Key, i: nat)
    requires i < |h|
    decreases i, 1
  {
    h[i].Failed? && h[i].key == k
    && FailuresFrom(h, LastReset(p, h, k, i) + 1, i, k, h[i].at - p.window) + 1 >= p.maxFailures
  }

  /** Event `i` locked the key, the lock is in force at `now`, and none of the first `n` events has forgotten it. */
  predicate LockedBy(p: Policy, h: seq<Event>, k: Key, i: nat, n: nat, now: real)
    requires i < n <= |h|
  {
    Locks(p, h, k, i) && h[i].Failed? && now < h[i].at + p.cooldown && forall j :: i < j < n ==> !Forgets(h[j], k)
  }

  predicate LockedOutAfter(p: Policy, h: seq<Event>, k: Key, n: nat, now: real)
    requires n <= |h|
  {
    exists i :: 0 <= i < n && LockedBy(p, h, k, i, n, now)
  }

  predicate LockedOut(p: Policy, h: seq<Event>, k: Key, now: real) {
    LockedOutAfter(p, h, k, |h|, now)
  }

  /** When the lock last set on the key ends. */
  function LockEnd(p: Policy, h: seq<Event>, k: Key, n: nat): Option<real>
    requires n <= |h|
  {
    if n == 0 || Forgets(h[n - 1], k) then None
    else if Locks(p, h, k, n - 1) then Some(h[n - 1].at + p.cooldown)
    else LockEnd(p, h, k, n - 1)
  }

  /** The log of the specification is what the events say. */
  lemma {:induction false} ReplayByEvents(p: Policy, h: seq<Event>, k: Key, n: nat)
    requires n <= |h|
    ensures SaysAsEvents(p, h, k, n, Replay(p, h[..n], k))
  {
    if n > 0 {
      ReplayByEvents(p, h, k, n - 1);
      assert h[..n] == h[..n - 1] + [h[n - 1]];
      ReplaySnoc(p, h[..n - 1], h[n - 1], k);
      OneMoreEvent(p, h, k, n - 1, n, Replay(p, h[..n - 1], k), Replay(p, h[..n], k));
    }
  }

  ghost predicate SaysAsEvents(p: Policy, h: seq<Event>, k: Key, n: nat, log: Log)
    requires n <= |h|
  {
    && log.lockedUntil == LockEnd(p, h, k, n)
    && forall from :: CountSince(log.failures, from) == FailuresFrom(h, LastReset(p, h, k, n) + 1, n, k, from)
  }

  lemma OneMoreEvent(p: Policy, h: seq<Event>, k: Key, n: nat, m: nat, log: Log, log': Log)
    requires m == n + 1 <= |h| && SaysAsEvents(p, h, k, n, log)
    requires h[n].Failed? && h[n].key == k ==> log' == AfterFailure(p, log, h[n].at)
    requires Forgets(h[n], k) ==> log' == EMPTY_LOG
    requires h[n].key != k || h[n].Probed? ==> log' == log
    ensures SaysAsEvents(p, h, k, m, log')
  {
    if h[n].key != k || h[n].Probed? {
      OtherEvent(p, h, k, n, m, log);
    } else if h[n].Failed? {
      OneMoreFailure(p, h, k, n, m, log);
    }
  }

  lemma OtherEvent(p: Policy, h: seq<Event>, k: Key, n: nat, m: nat, log: Log)
    requires m == n + 1 <= |h| && SaysAsEvents(p, h, k, n, log) && (h[n].key != k || h[n].Probed?)
    ensures SaysAsEvents(p, h, k, m, log)
  {
    assert !Locks(p, h, k, n);
    hide Locks, CountSince;
  }

  lemma OneMoreFailure(p: Policy, h: seq<Event>, k: Key, n: nat, m: nat, log: Log)
    requires m == n + 1 <= |h| && SaysAsEvents(p, h, k, n, log) && h[n].Failed? && h[n].key == k
    ensures SaysAsEvents(p, h, k, m, AfterFailure(p, log, h[n].at))
  {
    var at := h[n].at;
    assert Locks(p, h, k, n) <==> CountSince(log.failures, at - p.window) + 1 >= p.maxFailures;
    hide Locks;
    if !Locks(p, h, k, n) {
      forall from
        ensures CountSince(log.failures + [at], from) == FailuresFrom(h, LastReset(p, h, k, m) + 1, m, k, from)
      {
        CountSinceConcat(log.failures, [at], from);
      }
    }
  }

  lemma {:induction false} LockEndMeans(p: Policy, h: seq<Event>, k: Key, n: nat, now: real)
    requires n <= |h| && Timed(h)
    ensures LockEnd(p, h, k, n).Some? && now < LockEnd(p, h, k, n).value <==> LockedOutAfter(p, h, k, n, now)
  {
    if n > 0 {
      LockEndMeans(p, h, k, n - 1, now);
      LockedByNext(p, h, k, n - 1, n, now);
      hide Locks, LockedOutAfter;
    }
  }

  /** One more event: it forgets the key, or locks it, or leaves it locked as it was. */
  lemma LockedByNext(p: Policy, h: seq<Event>, k: Key, n: nat, m: nat, now: real)
    requires m == n + 1 <= |h| && Timed(h)
    ensures LockedOutAfter(p, h, k, m, now) <==>
              !Forgets(h[n], k) && if Locks(p, h, k, n) then now < h[n].at + p.cooldown
                                   else LockedOutAfter(p, h, k, n, now)
  {
    hide Locks;
    if i :| 0 <= i < m && LockedBy(p, h, k, i, m, now) {
      if i < n {
        assert LockedBy(p, h, k, i, n, now);
        if Locks(p, h, k, n) { OnlyFailuresLock(p, h, k, n); }
      }
    }
    if i :| 0 <= i < n && LockedBy(p, h, k, i, n, now) {
      if !Forgets(h[n], k) { assert LockedBy(p, h, k, i, m, now); }
    }
    if !Forgets(h[n], k) && Locks(p, h, k, n) {
      OnlyFailuresLock(p, h, k, n);
      if now < h[n].at + p.cooldown { assert LockedBy(p, h, k, n, m, now); }
    }
  }

  lemma OnlyFailuresLock(p: Policy, h: seq<Event>, k: Key, i: nat)
    requires i < |h| && Locks(p, h, k, i)
    ensures h[i].Failed?
  {}

  /**
    The specification, by the events alone: a key is locked exactly if some failure of it, with those
    in the window before it and after the key's last success, eviction or lock, made up the maximum,
    less than the cooldown ago, and the key had no success and no eviction since.
   */
  lemma LockedIff(p: Policy, h: seq<Event>, k: Key, now: real)
    requires Timed(h)
    ensures LockedAt(Replay(p, h, k), now) <==> LockedOut(p, h, k, now)
  {
    assert h[..|h|] == h;
    ReplayByEvents(p, h, k, |h|);
    LockEndMeans(p, h, k, |h|, now);
    hide Replay, Locks, LockEnd, LockedOutAfter;
  }

  /** Each failure of the key has, with itself, fewer than the maximum in the window that ends with it. */
  predicate AlwaysBelowMaximum(p: Policy, h: seq<Event>, k: Key) {
    forall i :: 0 <= i < |h| && h[i].Failed? && h[i].key == k ==> BelowMaximum(p, h, k, i)
  }

  predicate BelowMaximum(p: Policy, h: seq<Event>, k: Key, i: nat)
    requires i < |h| && h[i].Failed?
  {
    FailuresFrom(h, 0, i + 1, k, h[i].at - p.window) < p.maxFailures
  }

  lemma BelowMaximumNeverLocked(p: Policy, h: seq<Event>, k: Key, now: real)
    requires Timed(h) && p.window >= 0.0 && AlwaysBelowMaximum(p, h, k)
    ensures !LockedAt(Replay(p, h, k), now)
  {
    LockedIff(p, h, k, now);
    if i :| 0 <= i < |h| && LockedBy(p, h, k, i, |h|, now) {
      assert BelowMaximum(p, h, k, i);
      FewerLater(h, LastReset(p, h, k, i) + 1, i, k, h[i].at - p.window);
    }
  }

  lemma {:induction false} FewerLater(h: seq<Event>, lo: nat, hi: nat, k: Key, from: real)
    requires lo <= hi <= |h|
    ensures FailuresFrom(h, lo, hi, k, from) <= FailuresFrom(h, 0, hi, k, from)
  {
    if lo < hi { FewerLater(h, lo, hi - 1, k, from); }
  }

  /**
    A key with nothing to forget: as soon as the failures of it make up the maximum, all of them in
    the window that ends with the last one, it is locked, and stays so for the cooldown.
   */
  lemma MaximumLocks(p: Policy, h: seq<Event>, k: Key, i: nat, n: nat, now: real)
    requires n == i + 1 <= |h| && Timed(h) && h[i].Failed? && h[i].key == k
    requires forall j :: 0 <= j < |h| ==> !Forgets(h[j], k)
    requires forall j :: 0 <= j < i && h[j].Failed? && h[j].key == k ==> h[j].at >= h[i].at - p.window
    requires p.window >= 0.0 && FailuresFrom(h, 0, n, k, h[i].at - p.window) == p.maxFailures
    requires now < h[i].at + p.cooldown
    ensures LockedAt(Replay(p, h, k), now)
  {
    NoEarlierLock(p, h, k, i, i, h[i].at - p.window);
    assert Locks(p, h, k, i);
    assert LockedBy(p, h, k, i, |h|, now);
    LockedIff(p, h, k, now);
  }

  lemma {:induction false} NoEarlierLock(p: Policy, h: seq<Event>, k: Key, n: nat, i: nat, from: real)
    requires n <= i < |h|
    requires forall j :: 0 <= j < |h| ==> !Forgets(h[j], k)
    requires forall j :: 0 <= j < i && h[j].Failed? && h[j].key == k ==> h[j].at >= from
    requires FailuresFrom(h, 0, i, k, from) < p.maxFailures
    ensures LastReset(p, h, k, n) == -1
  {
    if n > 0 {
      NoEarlierLock(p, h, k, n - 1, i, from);
      if h[n - 1].Failed? && h[n - 1].key == k {
        MoreFromEarlier(h, n - 1, k, h[n - 1].at - p.window, from);
        MoreByLater(h, n, i, k, from);
      }
    }
  }

  lemma {:induction false} MoreFromEarlier(h: seq<Event>, n: nat, k: Key, late: real, from: real)
    requires n <= |h| && forall j :: 0 <= j < n && h[j].Failed? && h[j].key == k ==> h[j].at >= from
    ensures FailuresFrom(h, 0, n, k, late) <= FailuresFrom(h, 0, n, k, from)
  {
    if n > 0 { MoreFromEarlier(h, n - 1, k, late, from); }
  }

  lemma {:induction false} MoreByLater(h: seq<Event>, n: nat, m: nat, k: Key, from: real)
    requires n <= m <= |h|
    ensures FailuresFrom(h, 0, n, k, from) <= FailuresFrom(h, 0, m, k, from)
  {
    if n < m { MoreByLater(h, n, m - 1, k, from); }
  }

  // ---------- Use order, for the LRU cap ----------

  /** A recorded failure, and an answer "locked", move a key to the young end of the store. */
  predicate Touches(e: Event, k: Key) {
    e.key == k && (e.Failed? || (e.Probed? && e.locked))
  }

  function LastTouch(h: seq<Event>, k: Key): int
    ensures -1 <= LastTouch(h, k) < |h|
  {
    if h == [] then -1
    else if Touches(h[|h| - 1], k) then |h| - 1
    else LastTouch(h[..|h| - 1], k)
  }

  function KeysOf(h: seq<Event>): set<Key> {
    set i | 0 <= i < |h| :: h[i].key
  }

  /** The keys that were used at all. */
  function TouchedKeys(h: seq<Event>): set<Key> {
    set k | k in KeysOf(h) && LastTouch(h, k) >= 0
  }

  /** The keys used more recently than `k`. */
  function TouchedSince(h: seq<Event>, k: Key): set<Key> {
    set k' | k' in KeysOf(h) && LastTouch(h, k') > LastTouch(h, k)
  }

  /** Only a used key may be evicted, and only once `cap` other keys were used more recently. */
  ghost predicate Justified(h: seq<Event>, k: Key, cap: nat) {
    LastTouch(h, k) >= 0 && |TouchedSince(h, k)| >= cap
  }

  ghost predicate EvictionsJustified(h: seq<Event>, cap: nat) {
    forall i :: 0 <= i < |h| && h[i].Evicted? ==> Justified(h[..i], h[i].key, cap)
  }

  // ---------- Lemmas ----------

  lemma {:induction false} CountSinceConcat(a: seq<real>, b: seq<real>, t: real)
    ensures CountSince(a + b, t) == CountSince(a, t) + CountSince(b, t)
  {
    if b == [] {
      assert a + b == a;
    } else {
      assert (a + b)[..|a + b| - 1] == a + b[..|b| - 1];
      CountSinceConcat(a, b[..|b| - 1], t);
    }
  }

  lemma {:induction false} CountSinceNone(a: seq<real>, t: real)
    requires forall i :: 0 <= i < |a| ==> a[i] < t
    ensures CountSince(a, t) == 0
  {
    if a != [] { CountSinceNone(a[..|a| - 1], t); }
  }

  lemma {:induction false} CountSinceAll(a: seq<real>, t: real)
    requires forall i :: 0 <= i < |a| ==> a[i] >= t
    ensures CountSince(a, t) == |a|
  {
    if a != [] { CountSinceAll(a[..|a| - 1], t); }
  }

  lemma {:induction false} CountSinceMonotone(a: seq<real>, t: real, u: real)
    requires t <= u
    ensures CountSince(a, u) <= CountSince(a, t)
  {
    if a != [] { CountSinceMonotone(a[..|a| - 1], t, u); }
  }

  lemma ReplaySnoc(p: Policy, h: seq<Event>, e: Event, k: Key)
    ensures e.key != k ==> Replay(p, h + [e], k) == Replay(p, h, k)
    ensures e.Failed? && e.key == k ==> Replay(p, h + [e], k) == AfterFailure(p, Replay(p, h, k), e.at)
    ensures (e.Cleared? || e.Evicted?) && e.key == k ==> Replay(p, h + [e], k) == EMPTY_LOG
    ensures e.Probed? ==> Replay(p, h + [e], k) == Replay(p, h, k)
  {
    assert (h + [e])[..|h + [e]| - 1] == h;
  }

  lemma LastTouchSnoc(h: seq<Event>, e: Event, k: Key)
    ensures LastTouch(h + [e], k) == if Touches(e, k) then |h| else LastTouch(h, k)
  {
    assert (h + [e])[..|h + [e]| - 1] == h;
  }

  lemma {:induction false} TouchedOnlyIfSeen(h: seq<Event>, k: Key)
    ensures LastTouch(h, k) >= 0 ==> k in KeysOf(h)
  {
    if h != [] {
      var g := h[..|h| - 1];
      TouchedOnlyIfSeen(g, k);
      if Touches(h[|h| - 1], k) {
        assert h[|h| - 1].key == k;
      } else if k in KeysOf(g) {
        var i :| 0 <= i < |g| && g[i].key == k;
        assert h[i].key == k;
      }
    }
  }

  lemma {:induction false} TouchedStays(h: seq<Event>, n: nat, k: Key)
    requires n <= |h| && LastTouch(h[..n], k) >= 0
    ensures LastTouch(h, k) >= 0
    decreases |h|
  {
    if n == |h| {
      assert h[..n] == h;
    } else {
      assert h[..|h| - 1][..n] == h[..n];
      TouchedStays(h[..|h| - 1], n, k);
    }
  }

  lemma EvictionsJustifiedSnoc(h: seq<Event>, e: Event, cap: nat)
    requires EvictionsJustified(h, cap)
    requires e.Evicted? ==> Justified(h, e.key, cap)
    ensures EvictionsJustified(h + [e], cap)
  {
    var h' := h + [e];
    forall i | 0 <= i < |h'| && h'[i].Evicted?
      ensures Justified(h'[..i], h'[i].key, cap)
    {
      if i < |h| {
        assert h'[..i] == h[..i];
      } else {
        assert h'[..i] == h;
      }
    }
  }
}
