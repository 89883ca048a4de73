/**
  The hook itself: refs, timer and handlers updated in place. Every callback is proved to do what the
  event of `PollingProtocol` says, so the theorems there hold of the hook.
 */
module UsePolling {
  import opened Wrappers
  import P = PollingProtocol

  class Hook {
    // Refs
    var abortRef: Option<nat>
    var mountedRef: bool

    // State of the reducer
    var shown: P.Shown

    // The effect: its timer, and whether its listener and clean-up are in place
    var timer: Option<nat>
    var attached: bool

    // The browser: controllers and intervals handed out, those aborted or cleared, and the tab
    var started: nat
    var aborted: set<nat>
    var created: nat
    var intervals: set<nat>
    var visible: bool

    ghost var settled: set<nat>
    ghost var log: seq<P.Dispatch>

    ghost function State(): P.State
      reads this
    {
      P.State(mountedRef, abortRef, aborted, started, settled, attached, timer, intervals, created, visible, shown, log)
    }

    constructor (visible: bool)
      ensures State() == P.Initial(visible)
    {
      abortRef, mountedRef, shown := None, true, P.INITIAL_SHOWN;
      timer, attached := None, false;
      started, aborted, created, intervals := 0, {}, 0, {};
      this.visible := visible;
      settled, log := {}, [];
    }

    method AbortCurrent()
      modifies this`aborted
      ensures State() == P.Abort(old(State()))
    {
      if abortRef.Some? { aborted := aborted + {abortRef.value}; }
    }

    /** The part of runFetch before its `await`; the answer comes to `OnResolved` or `OnRejected`. */
    method RunFetch() returns (controller: nat)
      modifies this`aborted, this`abortRef, this`started
      ensures State() == P.RunFetch(old(State())) && controller == old(started)
    {
      AbortCurrent();
      controller := started;
      started := started + 1;
      abortRef := Some(controller);
    }

    method Dispatch(controller: nat, res: Result<P.Payload, string>)
      modifies this`shown, this`log
      ensures State() == P.Dispatched(old(State()), controller, res)
    {
      match res {
        case Success(p) =>
          shown := P.Shown(Some(p.body), None, false, if p.serverTime.Some? then p.serverTime else shown.lastServerTime);
        case Failure(e) =>
          shown := shown.(error := Some(e), loading := false);
      }
      log := log + [P.Dispatch(controller, res)];
    }

    method OnResolved(controller: nat, data: P.Payload)
      requires P.Possible(State(), P.Settle(controller, Success(data), false))
      modifies this`shown, this`log, this`settled
      ensures State() == P.Next(old(State()), P.Settle(controller, Success(data), false))
    {
      settled := settled + {controller};
      if !mountedRef || controller in aborted { return; }
      Dispatch(controller, Success(data));
    }

    /** The observer of errors may call refetch before the error is dispatched. */
    method OnRejected(controller: nat, error: string, onErrorRefetches: bool)
      requires P.Possible(State(), P.Settle(controller, Failure(error), onErrorRefetches))
      modifies this
      ensures State() == P.Next(old(State()), P.Settle(controller, Failure(error), onErrorRefetches))
    {
      settled := settled + {controller};
      if !mountedRef || controller in aborted { return; }
      if onErrorRefetches { Refetch(); }
      Dispatch(controller, Failure(error));
    }

    method Refetch()
      modifies this`aborted, this`abortRef, this`started
      ensures State() == P.Next(old(State()), P.Refetch)
    {
      var _ := RunFetch();
    }

    method Start()
      modifies this`timer, this`intervals, this`created
      ensures State() == P.Start(old(State()))
    {
      if timer.Some? { return; }
      timer := Some(created);
      intervals := intervals + {created};
      created := created + 1;
    }

    method Stop()
      modifies this`timer, this`intervals
      ensures State() == P.Stop(old(State()))
    {
      if timer.Some? {
        intervals := intervals - {timer.value};
        timer := None;
      }
    }

    method OnTick(interval: nat)
      requires P.Possible(State(), P.Tick(interval))
      modifies this`aborted, this`abortRef, this`started
      ensures State() == P.Next(old(State()), P.Tick(interval))
    {
      var _ := RunFetch();
    }

    /** The tab is hidden or shown; without a listener nobody notices. */
    method OnVisibility(nowVisible: bool)
      modifies this
      ensures State() == P.Next(old(State()), P.Visibility(nowVisible))
    {
      visible := nowVisible;
      if !attached { return; }
      if visible {
        var _ := RunFetch();
        Start();
      } else {
        Stop();
        AbortCurrent();
      }
    }

    method SetUp(enabled: bool)
      requires P.Possible(State(), P.SetUp(enabled))
      modifies this
      ensures State() == P.Next(old(State()), P.SetUp(enabled))
    {
      mountedRef := true;
      if !enabled { return; }
      var _ := RunFetch();
      if visible { Start(); }
      attached := true;
    }

    method CleanUp()
      requires P.Possible(State(), P.CleanUp)
      modifies this
      ensures State() == P.Next(old(State()), P.CleanUp)
    {
      mountedRef := false;
      Stop();
      AbortCurrent();
      attached := false;
    }
  }
}
