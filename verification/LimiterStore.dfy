/**
  The contents of the limiter's store as values: an ordered dictionary (keys from oldest use to
  youngest, and an entry for each), and what it means for such a store to stand for a history.
 */
module LimiterStore {
  import opened Collections
  import opened LimiterSpec

  datatype Entry = Entry(failures: seq<real>, cooldownUntil: real)

  predicate NoDuplicates(order: seq<Key>) {
    forall i, j :: 0 <= i < j < |order| ==> order[i] != order[j]
  }

  function KeySet(order: seq<Key>): set<Key> {
    set k | k in order
  }

  /** The dictionary order left when only `keys` remain. */
  function KeepOnly(order: seq<Key>, keys: set<Key>): (r: seq<Key>)
    ensures forall k :: k in r <==> k in order && k in keys
  {
    if order == [] then []
    else (if order[0] in keys then [order[0]] else []) + KeepOnly(order[1..], keys)
  }

  function DropOlder(times: seq<real>, threshold: real): seq<real> {
    if times == [] || times[0] >= threshold then times else DropOlder(times[1..], threshold)
  }

  function Pruned(p: Policy, e: Entry, now: real): Entry {
    e.(failures := DropOlder(e.failures, now - p.window))
  }

  predicate Dead(e: Entry, now: real) {
    e.failures == [] && e.cooldownUntil <= now
  }

  /** A sweep prunes every entry and forgets those with no failure and no lock left. */
  function Swept(p: Policy, store: map<Key, Entry>, now: real): map<Key, Entry> {
    map k | k in store && !Dead(Pruned(p, store[k], now), now) :: Pruned(p, store[k], now)
  }

  /** An entry after one more failure. */
  function Recorded(p: Policy, e: Entry, now: real): Entry {
    var fs := Pruned(p, e, now).failures + [now];
    if |fs| >= p.maxFailures then Entry([], now + p.cooldown) else e.(failures := fs)
  }

  const FRESH_ENTRY := Entry([], 0.0)

  // ---------- Standing for a history ----------

  /** What the limiter may still ask of a list of failures: how many lie at or after a threshold, from `from` on. */
  ghost predicate SameCounts(a: seq<real>, b: seq<real>, from: real) {
    forall t :: t >= from ==> CountSince(a, t) == CountSince(b, t)
  }

  /** The entry counts as the log does at every moment from `clock` on, and carries the same lock. */
  ghost predicate Tracks(p: Policy, clock: real, log: Log, e: Entry) {
    && SameCounts(e.failures, log.failures, clock - p.window)
    && (match log.lockedUntil
        case None => e.cooldownUntil <= clock
        case Some(u) => e.cooldownUntil == u || (u <= clock && e.cooldownUntil <= clock))
  }

  /** A key may be missing from the store exactly when an empty entry would do for it. */
  ghost predicate StandsFor(p: Policy, h: seq<Event>, clock: real, store: map<Key, Entry>) {
    forall k :: Tracks(p, clock, Replay(p, h, k), EntryOf(store, k))
  }

  function EntryOf(store: map<Key, Entry>, k: Key): Entry {
    if k in store then store[k] else FRESH_ENTRY
  }

  /** The keys lie in the store in the order of their last use. */
  ghost predicate InUseOrder(h: seq<Event>, order: seq<Key>) {
    && (forall i :: 0 <= i < |order| ==> LastTouch(h, order[i]) >= 0)
    && (forall i, j :: 0 <= i < j < |order| ==> LastTouch(h, order[i]) < LastTouch(h, order[j]))
  }

  predicate SortedUpTo(times: seq<real>, clock: real) {
    && (forall i, j :: 0 <= i < j < |times| ==> times[i] <= times[j])
    && (forall i :: 0 <= i < |times| ==> times[i] <= clock)
  }

  /** A deque between calls is sorted and strictly shorter than the maximum (empty when the maximum is not positive). */
  predicate TidyEntry(p: Policy, clock: real, e: Entry) {
    SortedUpTo(e.failures, clock) && |e.failures| < Max(1, p.maxFailures)
  }

  ghost predicate Tidy(p: Policy, clock: real, store: map<Key, Entry>) {
    forall k :: k in store ==> TidyEntry(p, clock, store[k])
  }

  /** Everything that holds of a store between calls. */
  ghost predicate Consistent(p: Policy, h: seq<Event>, clock: real, order: seq<Key>, store: map<Key, Entry>) {
    && (forall k :: k in order <==> k in store)
    && InUseOrder(h, order)
    && EvictionsJustified(h, p.keyCap)
    && |order| <= p.keyCap
    && 0.0 <= clock
    && StandsFor(p, h, clock, store)
    && Tidy(p, clock, store)
  }

  // ---------- What a sweep leaves ----------

  /** There is something to remember of the entry: a lock in force, or a failure in the window. */
  ghost predicate Alive(p: Policy, e: Entry, now: real) {
    e.cooldownUntil > now || exists i :: 0 <= i < |e.failures| && e.failures[i] >= now - p.window
  }

  lemma {:induction false} DropsAllIff(times: seq<real>, threshold: real)
    ensures DropOlder(times, threshold) == [] <==> forall i :: 0 <= i < |times| ==> times[i] < threshold
    ensures DropOlder(times, threshold) != [] ==> DropOlder(times, threshold)[0] >= threshold
  {
    if times != [] && times[0] < threshold { DropsAllIff(times[1..], threshold); }
  }

  /**
    Once a window has passed since the last sweep, the keys left are exactly those with something to
    remember, and the oldest failure left of each is in the window.
   */
  lemma SweptIff(p: Policy, store: map<Key, Entry>, lastSweep: real, now: real, k: Key)
    requires now - lastSweep >= p.window
    ensures var left := MaybeSwept(p, store, lastSweep, now);
            && (k in left <==> k in store && Alive(p, store[k], now))
            && (k in left && left[k].failures != [] ==> left[k].failures[0] >= now - p.window)
            && (k in left ==> left[k].cooldownUntil == store[k].cooldownUntil)
  {
    if k in store { DropsAllIff(store[k].failures, now - p.window); }
  }

  // ---------- Pruning and sweeping cannot be observed ----------

  lemma {:induction false} DropOlderCounts(times: seq<real>, threshold: real, t: real)
    requires t >= threshold
    ensures CountSince(DropOlder(times, threshold), t) == CountSince(times, t)
  {
    if times != [] && times[0] < threshold {
      DropOlderCounts(times[1..], threshold, t);
      assert times == [times[0]] + times[1..];
      CountSinceConcat([times[0]], times[1..], t);
      CountSinceNone([times[0]], t);
    }
  }

  lemma {:induction false} DropOlderTidies(times: seq<real>, clock: real, threshold: real)
    requires SortedUpTo(times, clock)
    ensures SortedUpTo(DropOlder(times, threshold), clock)
    ensures |DropOlder(times, threshold)| <= |times|
    ensures CountSince(DropOlder(times, threshold), threshold) == |DropOlder(times, threshold)|
  {
    if times != [] && times[0] < threshold {
      assert SortedUpTo(times[1..], clock);
      DropOlderTidies(times[1..], clock, threshold);
    } else {
      CountSinceAll(times, threshold);
    }
  }

  lemma PruneTracks(p: Policy, clock: real, now: real, log: Log, e: Entry)
    requires Tracks(p, clock, log, e) && clock <= now
    ensures Tracks(p, now, log, Pruned(p, e, now))
  {
    forall t | t >= now - p.window
      ensures CountSince(Pruned(p, e, now).failures, t) == CountSince(log.failures, t)
    {
      DropOlderCounts(e.failures, now - p.window, t);
    }
  }

  /** Time alone, without a sweep, keeps the store a faithful one. */
  lemma WaitingKeeps(p: Policy, h: seq<Event>, clock: real, now: real, store: map<Key, Entry>)
    requires StandsFor(p, h, clock, store) && Tidy(p, clock, store) && clock <= now
    ensures StandsFor(p, h, now, store) && Tidy(p, now, store)
  {
    forall k
      ensures Tracks(p, now, Replay(p, h, k), EntryOf(store, k))
    {
      assert Tracks(p, clock, Replay(p, h, k), EntryOf(store, k));
    }
  }

  /** A sweep at any moment leaves a store that stands for the very same history. */
  lemma SweepKeeps(p: Policy, h: seq<Event>, clock: real, now: real, store: map<Key, Entry>)
    requires StandsFor(p, h, clock, store) && Tidy(p, clock, store) && clock <= now && 0.0 <= now
    ensures StandsFor(p, h, now, Swept(p, store, now)) && Tidy(p, now, Swept(p, store, now))
  {
    var s' := Swept(p, store, now);
    forall k
      ensures Tracks(p, now, Replay(p, h, k), EntryOf(s', k))
      ensures k in s' ==> TidyEntry(p, now, s'[k])
    {
      assert Tracks(p, clock, Replay(p, h, k), EntryOf(store, k));
      PruneTracks(p, clock, now, Replay(p, h, k), EntryOf(store, k));
      if k in store {
        DropOlderTidies(store[k].failures, clock, now - p.window);
      }
    }
  }

  lemma {:induction false} KeepOnlyInUseOrder(h: seq<Event>, order: seq<Key>, keys: set<Key>)
    requires InUseOrder(h, order)
    ensures InUseOrder(h, KeepOnly(order, keys))
  {
    if order != [] {
      var rest := order[1..];
      assert InUseOrder(h, rest);
      KeepOnlyInUseOrder(h, rest, keys);
      forall k | k in rest
        ensures LastTouch(h, order[0]) < LastTouch(h, k)
      {
        var j :| 0 <= j < |rest| && rest[j] == k;
        assert order[j + 1] == k;
      }
      PrependInUseOrder(h, order[0], KeepOnly(rest, keys));
    }
  }

  lemma PrependInUseOrder(h: seq<Event>, key: Key, order: seq<Key>)
    requires InUseOrder(h, order) && LastTouch(h, key) >= 0
    requires forall k :: k in order ==> LastTouch(h, key) < LastTouch(h, k)
    ensures InUseOrder(h, [key] + order)
  {}

  lemma {:induction false} KeepOnlyTwice(order: seq<Key>, a: set<Key>, b: set<Key>)
    ensures KeepOnly(KeepOnly(order, a), b) == KeepOnly(order, a * b)
  {
    if order != [] {
      KeepOnlyTwice(order[1..], a, b);
      if order[0] in a {
        assert KeepOnly(order, a) == [order[0]] + KeepOnly(order[1..], a);
        assert KeepOnly(order, a)[1..] == KeepOnly(order[1..], a);
      } else {
        assert KeepOnly(order, a) == KeepOnly(order[1..], a);
      }
    }
  }

  lemma {:induction false} KeepOnlyShorter(order: seq<Key>, keys: set<Key>)
    ensures |KeepOnly(order, keys)| <= |order|
  {
    if order != [] { KeepOnlyShorter(order[1..], keys); }
  }

  lemma {:induction false} KeepOnlyAll(order: seq<Key>, keys: set<Key>)
    requires forall k :: k in order ==> k in keys
    ensures KeepOnly(order, keys) == order
  {
    if order != [] { KeepOnlyAll(order[1..], keys); }
  }

  // ---------- Recording, clearing, evicting ----------

  /** The failure just recorded locks the entry exactly when it locks the log. */
  lemma RecordTracks(p: Policy, clock: real, now: real, log: Log, e: Entry)
    requires Tracks(p, clock, log, e) && TidyEntry(p, clock, e) && clock <= now
    ensures Tracks(p, now, AfterFailure(p, log, now), Recorded(p, e, now))
  {
    var fs := DropOlder(e.failures, now - p.window);
    PruneTracks(p, clock, now, log, e);
    DropOlderTidies(e.failures, clock, now - p.window);
    assert |fs| == CountSince(log.failures, now - p.window);
    AppendSameCounts(fs, log.failures, now - p.window, now);
  }

  lemma RecordTidies(p: Policy, clock: real, now: real, e: Entry)
    requires TidyEntry(p, clock, e) && clock <= now
    ensures TidyEntry(p, now, Recorded(p, e, now))
  {
    DropOlderTidies(e.failures, clock, now - p.window);
    AppendSorted(DropOlder(e.failures, now - p.window), clock, now);
  }

  lemma AppendSorted(times: seq<real>, clock: real, now: real)
    requires SortedUpTo(times, clock) && clock <= now
    ensures SortedUpTo(times + [now], now)
  {}

  lemma AppendSameCounts(a: seq<real>, b: seq<real>, from: real, x: real)
    requires SameCounts(a, b, from)
    ensures SameCounts(a + [x], b + [x], from)
  {
    forall t | t >= from
      ensures CountSince(a + [x], t) == CountSince(b + [x], t)
    {
      CountSinceConcat(a, [x], t);
      CountSinceConcat(b, [x], t);
    }
  }

  lemma FailureKeeps(p: Policy, h: seq<Event>, clock: real, now: real, store: map<Key, Entry>, key: Key)
    requires StandsFor(p, h, clock, store) && Tidy(p, clock, store) && clock <= now
    ensures var store' := store[key := Recorded(p, EntryOf(store, key), now)];
            StandsFor(p, h + [Failed(key, now)], now, store') && Tidy(p, now, store')
  {
    var e := EntryOf(store, key);
    assert Tracks(p, clock, Replay(p, h, key), e);
    RecordTracks(p, clock, now, Replay(p, h, key), e);
    RecordTidies(p, clock, now, e);
    WaitingKeeps(p, h, clock, now, store);
    OtherKeysKeep(p, h, now, store, Failed(key, now), store[key := Recorded(p, e, now)]);
  }

  /** An event about one key, and a store changed at that key only, leave all other keys as they were. */
  lemma OtherKeysKeep(p: Policy, h: seq<Event>, clock: real, store: map<Key, Entry>, e: Event, store': map<Key, Entry>)
    requires StandsFor(p, h, clock, store)
    requires forall k :: k != e.key ==> EntryOf(store', k) == EntryOf(store, k)
    requires Tracks(p, clock, Replay(p, h + [e], e.key), EntryOf(store', e.key))
             || (e.Failed? && Tracks(p, clock, AfterFailure(p, Replay(p, h, e.key), e.at), EntryOf(store', e.key)))
    ensures StandsFor(p, h + [e], clock, store')
  {
    forall k
      ensures Tracks(p, clock, Replay(p, h + [e], k), EntryOf(store', k))
    {
      ReplaySnoc(p, h, e, k);
      assert Tracks(p, clock, Replay(p, h, k), EntryOf(store, k));
    }
  }

  lemma ForgetKeeps(p: Policy, h: seq<Event>, clock: real, store: map<Key, Entry>, e: Event)
    requires StandsFor(p, h, clock, store) && 0.0 <= clock
    requires e.Cleared? || e.Evicted?
    ensures StandsFor(p, h + [e], clock, store - {e.key})
  {
    ReplaySnoc(p, h, e, e.key);
    OtherKeysKeep(p, h, clock, store, e, store - {e.key});
  }

  lemma ProbeKeeps(p: Policy, h: seq<Event>, clock: real, store: map<Key, Entry>, e: Event)
    requires StandsFor(p, h, clock, store) && e.Probed?
    ensures StandsFor(p, h + [e], clock, store)
  {
    ReplaySnoc(p, h, e, e.key);
    assert Tracks(p, clock, Replay(p, h, e.key), EntryOf(store, e.key));
    OtherKeysKeep(p, h, clock, store, e, store);
  }

  /** An event that uses no key leaves the order of use as it is. */
  lemma UntouchedKeepsOrder(h: seq<Event>, order: seq<Key>, e: Event)
    requires InUseOrder(h, order) && !Touches(e, e.key)
    ensures InUseOrder(h + [e], order)
  {
    forall k
      ensures LastTouch(h + [e], k) == LastTouch(h, k)
    {
      LastTouchSnoc(h, e, k);
    }
  }

  /** The dictionary order after `move_to_end(key)`. */
  function MovedToEnd(order: seq<Key>, key: Key): seq<Key> {
    KeepOnly(order, KeySet(order) - {key}) + [key]
  }

  lemma MovedToEndLength(order: seq<Key>, key: Key)
    requires NoDuplicates(order)
    ensures |MovedToEnd(order, key)| == if key in order then |order| else |order| + 1
    ensures forall k :: k in MovedToEnd(order, key) <==> k in order || k == key
  {
    KeepOnlyLength(order, key);
  }

  lemma MovedToEndFirst(order: seq<Key>, key: Key)
    requires NoDuplicates(order) && order != [] && order[0] != key
    ensures MovedToEnd(order, key)[0] == order[0]
  {}

  lemma {:induction false} KeepOnlyLength(order: seq<Key>, key: Key)
    requires NoDuplicates(order)
    ensures |KeepOnly(order, KeySet(order) - {key})| == if key in order then |order| - 1 else |order|
  {
    if order != [] {
      var rest := order[1..];
      KeepOnlyLength(rest, key);
      KeepOnlySame(rest, KeySet(order) - {key}, KeySet(rest) - {key});
    }
  }

  lemma {:induction false} KeepOnlySame(order: seq<Key>, a: set<Key>, b: set<Key>)
    requires forall k :: k in order ==> (k in a <==> k in b)
    ensures KeepOnly(order, a) == KeepOnly(order, b)
  {
    if order != [] { KeepOnlySame(order[1..], a, b); }
  }

  /** Moving the used key to the young end restores the order of use. */
  lemma TouchKeepsOrder(h: seq<Event>, order: seq<Key>, e: Event)
    requires InUseOrder(h, order) && Touches(e, e.key)
    ensures InUseOrder(h + [e], MovedToEnd(order, e.key))
  {
    var older := KeepOnly(order, KeySet(order) - {e.key});
    KeepOnlyInUseOrder(h, order, KeySet(order) - {e.key});
    forall k
      ensures LastTouch(h + [e], k) == if k == e.key then |h| else LastTouch(h, k)
    {
      LastTouchSnoc(h, e, k);
    }
    AppendInUseOrder(h + [e], older, e.key);
  }

  lemma AppendInUseOrder(h: seq<Event>, order: seq<Key>, key: Key)
    requires InUseOrder(h, order) && LastTouch(h, key) >= 0
    requires forall i :: 0 <= i < |order| ==> LastTouch(h, order[i]) < LastTouch(h, key)
    ensures InUseOrder(h, order + [key])
  {}

  /** When the store overflows, every key but the oldest was used after it: the eviction is justified. */
  lemma OldestIsJustified(h: seq<Event>, order: seq<Key>)
    requires |order| >= 1 && InUseOrder(h, order)
    ensures Justified(h, order[0], |order| - 1)
  {
    var rest := order[1..];
    var s := KeySet(rest);
    forall k | k in s
      ensures k in TouchedSince(h, order[0])
    {
      TouchedOnlyIfSeen(h, k);
    }
    DistinctCardinality(rest);
    CardinalityMonotone(s, TouchedSince(h, order[0]));
  }

  lemma {:induction false} DistinctCardinality(order: seq<Key>)
    requires NoDuplicates(order)
    ensures |KeySet(order)| == |order|
  {
    if order != [] {
      DistinctCardinality(order[1..]);
      assert KeySet(order) == KeySet(order[1..]) + {order[0]};
    }
  }

  // ---------- The calls on a consistent store ----------

  lemma ConsistentShape(p: Policy, h: seq<Event>, clock: real, order: seq<Key>, store: map<Key, Entry>)
    requires Consistent(p, h, clock, order, store)
    ensures NoDuplicates(order) && (forall k :: k in order <==> k in store) && |order| <= p.keyCap
  {}

  /** The store after the sweep that a call at time `now` may start with. */
  function MaybeSwept(p: Policy, store: map<Key, Entry>, lastSweep: real, now: real): map<Key, Entry> {
    if now - lastSweep < p.window then store else Swept(p, store, now)
  }

  lemma MaybeSweptConsistent(p: Policy, h: seq<Event>, clock: real, now: real, order: seq<Key>,
      store: map<Key, Entry>, lastSweep: real)
    requires Consistent(p, h, clock, order, store) && clock <= now
    ensures var store' := MaybeSwept(p, store, lastSweep, now);
            Consistent(p, h, now, KeepOnly(order, store'.Keys), store')
  {
    var store' := MaybeSwept(p, store, lastSweep, now);
    WaitingKeeps(p, h, clock, now, store);
    SweepKeeps(p, h, clock, now, store);
    KeepOnlyInUseOrder(h, order, store'.Keys);
    KeepOnlyShorter(order, store'.Keys);
  }

  /** The dictionary order after an answer. */
  function ProbedOrder(order: seq<Key>, key: Key, locked: bool): seq<Key> {
    if locked then MovedToEnd(order, key) else order
  }

  lemma ProbeConsistent(p: Policy, h: seq<Event>, clock: real, order: seq<Key>, store: map<Key, Entry>, key: Key)
    requires Consistent(p, h, clock, order, store)
    ensures var locked := key in store && store[key].cooldownUntil > clock;
            && (locked <==> LockedAt(Replay(p, h, key), clock))
            && Consistent(p, h + [Probed(key, clock, locked)], clock, ProbedOrder(order, key, locked), store)
  {
    var locked := key in store && store[key].cooldownUntil > clock;
    var e := Probed(key, clock, locked);
    assert Tracks(p, clock, Replay(p, h, key), EntryOf(store, key));
    ProbeKeeps(p, h, clock, store, e);
    EvictionsJustifiedSnoc(h, e, p.keyCap);
    if locked {
      TouchKeepsOrder(h, order, e);
      MovedToEndLength(order, key);
    } else {
      UntouchedKeepsOrder(h, order, e);
    }
  }

  /** The dictionary order and entries after a recorded failure, before the cap is enforced. */
  lemma FailureConsistent(p: Policy, h: seq<Event>, clock: real, now: real, order: seq<Key>, store: map<Key, Entry>,
      key: Key)
    requires Consistent(p, h, clock, order, store) && clock <= now
    ensures var order' := MovedToEnd(order, key);
            var store' := store[key := Recorded(p, EntryOf(store, key), now)];
            var h' := h + [Failed(key, now)];
            && |order'| == (if key in store then |order| else |order| + 1)
            && (|order'| <= p.keyCap ==> Consistent(p, h', now, order', store'))
            && (|order'| > p.keyCap ==>
                  Consistent(p, h' + [Evicted(order'[0])], now, order'[1..], store' - {order'[0]}))
  {
    var order' := MovedToEnd(order, key);
    var store' := store[key := Recorded(p, EntryOf(store, key), now)];
    var h' := h + [Failed(key, now)];
    FailureKeeps(p, h, clock, now, store, key);
    TouchKeepsOrder(h, order, Failed(key, now));
    MovedToEndLength(order, key);
    EvictionsJustifiedSnoc(h, Failed(key, now), p.keyCap);
    if |order'| > p.keyCap {
      EvictConsistent(p, h', now, order', store');
    }
  }

  lemma EvictConsistent(p: Policy, h: seq<Event>, clock: real, order: seq<Key>, store: map<Key, Entry>)
    requires forall k :: k in order <==> k in store
    requires InUseOrder(h, order) && EvictionsJustified(h, p.keyCap)
    requires |order| == p.keyCap + 1 && 0.0 <= clock
    requires StandsFor(p, h, clock, store) && Tidy(p, clock, store)
    ensures Consistent(p, h + [Evicted(order[0])], clock, order[1..], store - {order[0]})
  {
    var e := Evicted(order[0]);
    OldestIsJustified(h, order);
    EvictionsJustifiedSnoc(h, e, p.keyCap);
    ForgetKeeps(p, h, clock, store, e);
    UntouchedKeepsOrder(h, order, e);
  }

  lemma SuccessConsistent(p: Policy, h: seq<Event>, clock: real, order: seq<Key>, store: map<Key, Entry>, key: Key)
    requires Consistent(p, h, clock, order, store)
    ensures var store' := store - {key};
            Consistent(p, h + [Cleared(key)], clock, KeepOnly(order, store'.Keys), store')
  {
    var store' := store - {key};
    ForgetKeeps(p, h, clock, store, Cleared(key));
    EvictionsJustifiedSnoc(h, Cleared(key), p.keyCap);
    KeepOnlyInUseOrder(h, order, store'.Keys);
    UntouchedKeepsOrder(h, KeepOnly(order, store'.Keys), Cleared(key));
    KeepOnlyShorter(order, store'.Keys);
  }

  // ---------- Memory bound ----------

  function TotalKept(order: seq<Key>, store: map<Key, Entry>): nat
    requires forall k :: k in order ==> k in store
  {
    if order == [] then 0 else |store[order[0]].failures| + TotalKept(order[1..], store)
  }

  lemma {:induction false} KeptPerKey(p: Policy, order: seq<Key>, store: map<Key, Entry>)
    requires forall k :: k in order ==> k in store
    requires forall k :: k in store ==> |store[k].failures| < Max(1, p.maxFailures)
    ensures TotalKept(order, store) <= |order| * (Max(1, p.maxFailures) - 1)
  {
    if order != [] {
      KeptPerKey(p, order[1..], store);
      var c := Max(1, p.maxFailures) - 1;
      assert |order| * c == |order[1..]| * c + c;
    }
  }

  /** The limiter never remembers more than `keyCap * (maxFailures - 1)` failures, whatever is recorded. */
  lemma MemoryBound(p: Policy, h: seq<Event>, clock: real, order: seq<Key>, store: map<Key, Entry>)
    requires Consistent(p, h, clock, order, store)
    ensures TotalKept(order, store) <= p.keyCap * (Max(1, p.maxFailures) - 1)
  {
    KeptPerKey(p, order, store);
    ProductsMonotone(|order|, Max(1, p.maxFailures) - 1, p.keyCap, Max(1, p.maxFailures) - 1);
  }

  // ---------- At most `keyCap` keys: no eviction at all ----------

  /** Only a key that overflowed the store is ever evicted: while at most `cap` keys have failed, none is forgotten. */
  lemma FewKeysNeverEvicted(h: seq<Event>, cap: nat)
    requires EvictionsJustified(h, cap)
    requires |TouchedKeys(h)| <= cap
    ensures forall i :: 0 <= i < |h| ==> !h[i].Evicted?
  {
    forall i | 0 <= i < |h| && h[i].Evicted?
      ensures false
    {
      var k := h[i].key;
      var t := TouchedSince(h[..i], k);
      forall x | x in t + {k}
        ensures x in TouchedKeys(h)
      {
        TouchedStays(h, i, x);
        TouchedOnlyIfSeen(h, x);
      }
      assert k !in t;
      assert |t + {k}| == |t| + 1;
      CardinalityMonotone(t + {k}, TouchedKeys(h));
    }
  }

  /** ... and the answers are those of the plain specification, which keeps every failure for ever. */
  lemma {:induction false} PlainWithFewKeys(p: Policy, h: seq<Event>, k: Key, now: real)
    requires EvictionsJustified(h, p.keyCap) && |TouchedKeys(h)| <= p.keyCap
    ensures LockedAt(Replay(p, h, k), now) <==> LockedAt(PlainReplay(p, h, k), now)
  {
    FewKeysNeverEvicted(h, p.keyCap);
    NothingEvicted(p, h, k);
  }

  lemma {:induction false} NothingEvicted(p: Policy, h: seq<Event>, k: Key)
    requires forall i :: 0 <= i < |h| ==> !h[i].Evicted?
    ensures Replay(p, h, k) == PlainReplay(p, h, k)
  {
    if h != [] { NothingEvicted(p, h[..|h| - 1], k); }
  }
}
