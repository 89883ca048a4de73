/**
  The limiter itself: an object whose dictionary of entries is pruned, swept and capped in place.
  The clock reading that each call starts with is a parameter, and never runs backwards.
 */
module RateLimiter {
  import opened LimiterSpec
  import opened LimiterStore

  /** Pops failures off the old end of a deque until the oldest is inside the window. */
  method PruneEntry(entry: Entry, threshold: real) returns (e: Entry)
    ensures e == entry.(failures := DropOlder(entry.failures, threshold))
  {
    e := entry;
    while e.failures != [] && e.failures[0] < threshold
      invariant e.cooldownUntil == entry.cooldownUntil
      invariant DropOlder(e.failures, threshold) == DropOlder(entry.failures, threshold)
      decreases |e.failures|
    {
      e := e.(failures := e.failures[1..]);
    }
  }

  /** Pruning every entry and then popping the dead keys is a sweep. */
  lemma SweptInTwoLoops(p: Policy, store: map<Key, Entry>, now: real, pruned: map<Key, Entry>, dead: seq<Key>,
      left: map<Key, Entry>)
    requires pruned.Keys == store.Keys && forall k :: k in pruned ==> pruned[k] == Pruned(p, store[k], now)
    requires forall k :: k in dead <==> k in pruned && Dead(pruned[k], now)
    requires forall k :: k in left <==> k in pruned && k !in dead
    requires forall k :: k in left ==> left[k] == pruned[k]
    ensures left == Swept(p, store, now)
  {
    hide Pruned, Dead;
  }

  /** The state of a sweep after the entries of `done`. */
  ghost predicate PrunedUpTo(p: Policy, store: map<Key, Entry>, left: map<Key, Entry>, done: seq<Key>,
      dead: seq<Key>, now: real) {
    && left.Keys == store.Keys
    && (forall k :: k in left ==> left[k] == if k in done then Pruned(p, store[k], now) else store[k])
    && (forall k :: k in dead <==> k in done && k in left && Dead(left[k], now))
  }

  lemma PruneOneMore(p: Policy, store: map<Key, Entry>, left: map<Key, Entry>, done: seq<Key>, dead: seq<Key>,
      now: real, key: Key)
    requires PrunedUpTo(p, store, left, done, dead, now) && key in left && key !in done
    ensures var e := Pruned(p, left[key], now);
            PrunedUpTo(p, store, left[key := e], done + [key],
                       if e.failures == [] && e.cooldownUntil <= now then dead + [key] else dead, now)
  {
    hide DropOlder;
    forall k | k in done
      ensures k != key
    {}
  }

  lemma PrunedIs(p: Policy, e: Entry, now: real)
    ensures Pruned(p, e, now) == e.(failures := DropOlder(e.failures, now - p.window))
  {}

  class Limiter {
    const policy: Policy
    var order: seq<Key>            // dictionary keys, oldest use first
    var entries: map<Key, Entry>
    var lastSweep: real
    ghost var history: seq<Event>  // everything that was ever recorded, answered or evicted
    ghost var clock: real          // the latest time seen

    ghost predicate Valid()
      reads this
    {
      Consistent(policy, history, clock, order, entries) && TimedUpTo(history, clock)
    }

    constructor (policy: Policy, now: real)
      requires 0.0 <= now
      ensures Valid()
      ensures this.policy == policy && history == [] && clock == now && order == [] && entries == map[] && lastSweep == now
    {
      this.policy := policy;
      order := [];
      entries := map[];
      lastSweep := now;
      history := [];
      clock := now;
    }

    /** `dict.pop(key, None)` */
    method Pop(key: Key)
      modifies `order, `entries
      ensures entries == old(entries) - {key}
      ensures order == KeepOnly(old(order), entries.Keys)
    {
      entries := entries - {key};
      order := KeepOnly(order, entries.Keys);
    }

    /** Prunes every entry and pops the dead ones, at most once per window. */
    method MaybeSweep(now: real)
      requires NoDuplicates(order) && forall k :: k in order <==> k in entries
      modifies `order, `entries, `lastSweep
      ensures entries == MaybeSwept(policy, old(entries), old(lastSweep), now)
      ensures order == KeepOnly(old(order), entries.Keys)
      ensures lastSweep == if now - old(lastSweep) < policy.window then old(lastSweep) else now
    {
      if now - lastSweep < policy.window {
        KeepOnlyAll(order, entries.Keys);
        return;
      }
      lastSweep := now;
      hide Pruned, Dead, Swept, KeepOnly;
      var dead := PruneAll(now);
      ghost var pruned := entries;
      PopAll(dead);
      SweptInTwoLoops(policy, old(entries), now, pruned, dead, entries);
    }

    /** The second loop of a sweep. */
    method PopAll(dead: seq<Key>)
      requires forall k :: k in order <==> k in entries
      modifies `order, `entries
      ensures forall k :: k in entries <==> k in old(entries) && k !in dead
      ensures forall k :: k in entries ==> entries[k] == old(entries)[k]
      ensures order == KeepOnly(old(order), entries.Keys)
    {
      KeepOnlyAll(order, entries.Keys);
      for i := 0 to |dead|
        invariant forall k :: k in entries <==> k in old(entries) && k !in dead[..i]
        invariant forall k :: k in entries ==> entries[k] == old(entries)[k]
        invariant order == KeepOnly(old(order), entries.Keys)
      {
        var key := dead[i];
        assert (entries - {key}).Keys == entries.Keys - {key} == entries.Keys * (entries.Keys - {key});
        KeepOnlyTwice(old(order), entries.Keys, entries.Keys - {key});
        assert dead[..i + 1] == dead[..i] + [key];
        Pop(key);
      }
      assert dead[..|dead|] == dead;
    }

    /** The first loop of a sweep. */
    method PruneAll(now: real) returns (dead: seq<Key>)
      requires NoDuplicates(order) && forall k :: k in order <==> k in entries
      modifies `entries
      ensures entries.Keys == old(entries).Keys
      ensures forall k :: k in entries ==> entries[k] == Pruned(policy, old(entries)[k], now)
      ensures forall k :: k in dead <==> k in entries && Dead(entries[k], now)
    {
      dead := [];
      ghost var store := entries;
      for i := 0 to |order|
        invariant PrunedUpTo(policy, store, entries, order[..i], dead, now)
      {
        hide PrunedUpTo, Dead, Pruned;
        var key := order[i];
        assert order[..i + 1] == order[..i] + [key] && key !in order[..i];
        PruneOneMore(policy, store, entries, order[..i], dead, now, key);
        var e := PruneEntry(entries[key], now - policy.window);
        assert e == Pruned(policy, entries[key], now) by { PrunedIs(policy, entries[key], now); }
        entries := entries[key := e];
        if e.failures == [] && e.cooldownUntil <= now {
          dead := dead + [key];
        }
      }
      assert order[..|order|] == order;
    }

    /** Drops keys from the old end while there are more than the cap allows. */
    method EvictIfNeeded()
      requires forall k :: k in order <==> k in entries
      modifies `order, `entries
      ensures var n := if |old(order)| > policy.keyCap then |old(order)| - policy.keyCap else 0;
              && order == old(order)[n..]
              && entries == old(entries) - KeySet(old(order)[..n])
              && (n == 0 ==> order == old(order) && entries == old(entries))
              && (n == 1 ==> entries == old(entries) - {old(order)[0]})
    {
      ghost var n := 0;
      while |order| > policy.keyCap
        invariant 0 <= n <= |old(order)| && (n > 0 ==> |order| >= policy.keyCap)
        invariant order == old(order)[n..]
        invariant entries == old(entries) - KeySet(old(order)[..n])
        decreases |order|
      {
        entries := entries - {order[0]};
        order := order[1..];
        n := n + 1;
      }
    }

    /** What a question does to the dictionary. */
    method Look(key: Key, now: real) returns (locked: bool)
      requires NoDuplicates(order) && forall k :: k in order <==> k in entries
      modifies `order, `entries, `lastSweep
      ensures entries == MaybeSwept(policy, old(entries), old(lastSweep), now)
      ensures locked <==> key in entries && entries[key].cooldownUntil > now
      ensures var kept := KeepOnly(old(order), entries.Keys); order == if locked then MovedToEnd(kept, key) else kept
      ensures lastSweep == if now - old(lastSweep) < policy.window then old(lastSweep) else now
    {
      MaybeSweep(now);
      if key !in entries {
        return false;
      }
      if entries[key].cooldownUntil > now {
        order := MovedToEnd(order, key);
        return true;
      }
      return false;
    }

    /** Does the key have to wait? Asked before any credential is looked at. */
    method IsLocked(key: Key, now: real) returns (locked: bool)
      requires Valid() && clock <= now
      modifies this
      ensures Valid() && clock == now
      ensures locked <==> LockedAt(Replay(policy, old(history), key), now)
      ensures locked <==> LockedOut(policy, old(history), key, now)
      ensures history == old(history) + [Probed(key, now, locked)]
      ensures entries == MaybeSwept(policy, old(entries), old(lastSweep), now)
      ensures var kept := KeepOnly(old(order), entries.Keys); order == if locked then MovedToEnd(kept, key) else kept
      ensures lastSweep == if now - old(lastSweep) < policy.window then old(lastSweep) else now
    {
      ghost var swept := MaybeSwept(policy, entries, lastSweep, now);
      ConsistentShape(policy, history, clock, order, entries);
      MaybeSweptConsistent(policy, history, clock, now, order, entries, lastSweep);
      ProbeConsistent(policy, history, now, KeepOnly(order, swept.Keys), swept, key);
      hide Consistent, MovedToEnd, KeepOnly, MaybeSwept, LockedAt, Replay, LockedOut, NoDuplicates, Timed;
      locked := Look(key, now);
      assert locked <==> LockedAt(Replay(policy, history, key), now);
      LockedIff(policy, history, key, now);
      TimedSnoc(history, Probed(key, now, locked), clock, now);
      history := history + [Probed(key, now, locked)];
      clock := now;
    }

    /** What a failure does to the dictionary. */
    method StoreFailure(key: Key, now: real)
      requires NoDuplicates(order) && (forall k :: k in order <==> k in entries) && |order| <= policy.keyCap
      modifies `order, `entries
      ensures var moved := MovedToEnd(old(order), key);
              var stored := old(entries)[key := Recorded(policy, EntryOf(old(entries), key), now)];
              if |moved| <= policy.keyCap
              then order == moved && entries == stored
              else order == moved[1..] && entries == stored - {moved[0]}
    {
      MovedToEndLength(order, key);
      var e := if key in entries then entries[key] else FRESH_ENTRY;
      order := MovedToEnd(order, key);
      e := PruneEntry(e, now - policy.window);
      e := e.(failures := e.failures + [now]);
      if |e.failures| >= policy.maxFailures {
        e := Entry([], now + policy.cooldown);
      }
      assert e == Recorded(policy, EntryOf(entries, key), now);
      entries := entries[key := e];
      hide MovedToEnd, Recorded;
      EvictIfNeeded();
    }

    /** One failed attempt. The only call that can evict: at most one key, and never its own unless the cap is zero. */
    method RecordFailure(key: Key, now: real)
      requires Valid() && clock <= now
      modifies this
      ensures Valid() && clock == now && lastSweep == old(lastSweep)
      ensures var moved := MovedToEnd(old(order), key);
              var stored := old(entries)[key := Recorded(policy, EntryOf(old(entries), key), now)];
              if |moved| <= policy.keyCap then
                && order == moved && entries == stored
                && history == old(history) + [Failed(key, now)]
              else
                && order == moved[1..] && entries == stored - {moved[0]}
                && history == old(history) + [Failed(key, now)] + [Evicted(moved[0])]
                && (policy.keyCap >= 1 ==> moved[0] == old(order)[0] != key)
    {
      hide Consistent, MovedToEnd, Recorded, EntryOf, NoDuplicates;
      ghost var moved := MovedToEnd(order, key);
      ConsistentShape(policy, history, clock, order, entries);
      FailureConsistent(policy, history, clock, now, order, entries, key);
      MovedToEndLength(order, key);
      if order != [] && order[0] != key { MovedToEndFirst(order, key); }
      StoreFailure(key, now);
      history := history + [Failed(key, now)];
      if |moved| > policy.keyCap {
        history := history + [Evicted(moved[0])];
      }
      clock := now;
    }

    method RecordSuccess(key: Key)
      requires Valid()
      modifies this
      ensures Valid() && clock == old(clock) && lastSweep == old(lastSweep)
      ensures history == old(history) + [Cleared(key)]
      ensures entries == old(entries) - {key} && order == KeepOnly(old(order), entries.Keys)
    {
      SuccessConsistent(policy, history, clock, order, entries, key);
      Pop(key);
      history := history + [Cleared(key)];
    }
  }
}
