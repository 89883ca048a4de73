/**
  The polling hook as a protocol: requests are started, aborted and answered; the effect is set up
  and cleaned up; the tab is hidden and shown. One step is one event.
 */
module PollingProtocol {
  import opened Wrappers

  datatype Payload = Payload(body: string, serverTime: Option<string>)

  /** What the component shows. */
  datatype Shown = Shown(data: Option<string>, error: Option<string>, loading: bool, lastServerTime: Option<string>)

  const INITIAL_SHOWN := Shown(None, None, true, None)

  function Reduce(s: Shown, res: Result<Payload, string>): Shown {
    match res
    case Success(p) => Shown(Some(p.body), None, false, if p.serverTime.Some? then p.serverTime else s.lastServerTime)
    case Failure(e) => s.(error := Some(e), loading := false)
  }

  /** A response that reached the component: the number of its request, and what it was. */
  datatype Dispatch = Dispatch(request: nat, res: Result<Payload, string>)

  /** Requests and intervals are numbered as they are created; a request's number stands for its controller too. */
  datatype State = State(
    mounted: bool, current: Option<nat>, aborted: set<nat>, started: nat, settled: set<nat>,
    attached: bool, timer: Option<nat>, intervals: set<nat>, created: nat,
    visible: bool, shown: Shown, log: seq<Dispatch>)

  function Initial(visible: bool): State {
    State(true, None, {}, 0, {}, false, None, {}, 0, visible, INITIAL_SHOWN, [])
  }

  // ---------- Parts of an event ----------

  function Abort(s: State): State {
    if s.current.Some? then s.(aborted := s.aborted + {s.current.value}) else s
  }

  function RunFetch(s: State): State {
    Abort(s).(current := Some(s.started), started := s.started + 1)
  }

  function Start(s: State): State {
    if s.timer.Some? then s else s.(timer := Some(s.created), intervals := s.intervals + {s.created}, created := s.created + 1)
  }

  function Stop(s: State): State {
    if s.timer.Some? then s.(timer := None, intervals := s.intervals - {s.timer.value}) else s
  }

  predicate Listening(s: State, k: nat) {
    s.mounted && k !in s.aborted
  }

  function Dispatched(s: State, k: nat, res: Result<Payload, string>): State {
    s.(shown := Reduce(s.shown, res), log := s.log + [Dispatch(k, res)])
  }

  // ---------- Events ----------

  datatype Event =
    | SetUp(enabled: bool)
    | CleanUp
    | Tick(interval: nat)
    | Visibility(visible: bool)
    | Refetch
    | Settle(request: nat, res: Result<Payload, string>, onErrorRefetches: bool)

  /**
    An effect is set up again only after its clean-up, if it has one; intervals tick while they exist; a
    request is answered once.
   */
  predicate Possible(s: State, e: Event) {
    match e
    case SetUp(_) => !s.attached
    case CleanUp => s.attached
    case Tick(i) => i in s.intervals
    case Settle(k, _, _) => k < s.started && k !in s.settled
    case _ => true
  }

  function SetUpEffect(s: State, enabled: bool): State {
    var s1 := s.(mounted := true);
    if !enabled then s1
    else
      var s2 := RunFetch(s1);
      (if s2.visible then Start(s2) else s2).(attached := true)
  }

  function CleanUpEffect(s: State): State {
    Abort(Stop(s.(mounted := false))).(attached := false)
  }

  function OnVisibility(s: State): State {
    if s.visible then Start(RunFetch(s)) else Abort(Stop(s))
  }

  function Answer(s: State, k: nat, res: Result<Payload, string>, onErrorRefetches: bool): State {
    var s1 := s.(settled := s.settled + {k});
    if !Listening(s1, k) then s1
    else
      var s2 := if res.Failure? && onErrorRefetches then RunFetch(s1) else s1;
      Dispatched(s2, k, res)
  }

  function Next(s: State, e: Event): State {
    match e
    case SetUp(enabled) => SetUpEffect(s, enabled)
    case CleanUp => CleanUpEffect(s)
    case Tick(_) => RunFetch(s)
    case Visibility(v) => if s.attached then OnVisibility(s.(visible := v)) else s.(visible := v)
    case Refetch => RunFetch(s)
    case Settle(k, res, refetches) => Answer(s, k, res, refetches)
  }

  predicate ValidRun(visible: bool, run: seq<Event>)
    decreases |run|, 0
  {
    run == [] || (ValidRun(visible, run[..|run| - 1]) && Possible(After(visible, run[..|run| - 1]), run[|run| - 1]))
  }

  function After(visible: bool, run: seq<Event>): State
    requires ValidRun(visible, run)
    decreases |run|, 1
  {
    if run == [] then Initial(visible) else Next(After(visible, run[..|run| - 1]), run[|run| - 1])
  }

  // ---------- The invariant ----------

  /** At most one request is not aborted, and that is the newest one. */
  ghost predicate OnlyNewest(s: State) {
    && (s.current == if s.started == 0 then None else Some(s.started - 1))
    && forall k :: 0 <= k < s.started && k !in s.aborted ==> k == s.started - 1
  }

  ghost predicate Increasing(log: seq<Dispatch>) {
    forall i, j :: 0 <= i < j < |log| ==> log[i].request < log[j].request
  }

  ghost predicate LogSound(s: State) {
    && Increasing(s.log)
    && forall i :: 0 <= i < |s.log| ==> s.log[i].request < s.started && s.log[i].request in s.settled
  }

  /** There is an interval exactly while the effect is set up and the tab visible, and never a second one. */
  ghost predicate OneInterval(s: State) {
    && (s.timer.Some? <==> s.attached && s.visible)
    && s.intervals == (if s.timer.Some? then {s.timer.value} else {})
    && (s.timer.Some? ==> s.timer.value < s.created)
  }

  function Reduced(log: seq<Dispatch>): Shown {
    if log == [] then INITIAL_SHOWN else Reduce(Reduced(log[..|log| - 1]), log[|log| - 1].res)
  }

  ghost predicate Inv(s: State) {
    OnlyNewest(s) && LogSound(s) && OneInterval(s) && s.shown == Reduced(s.log)
  }

  lemma RunFetchKeepsInv(s: State)
    requires Inv(s)
    ensures Inv(RunFetch(s))
  {
    hide Reduced, Increasing;
  }

  lemma StartKeepsInv(s: State)
    requires OnlyNewest(s) && LogSound(s) && s.shown == Reduced(s.log) && OneInterval(s.(attached := s.timer.Some?))
    requires s.visible
    ensures Inv(Start(s).(attached := true))
  {
    hide Reduced, Increasing;
  }

  lemma StopKeepsInv(s: State)
    requires Inv(s)
    ensures Inv(Abort(Stop(s)).(attached := false)) && Inv(Abort(Stop(s)).(visible := false))
  {
    hide Reduced, Increasing;
  }

  lemma SetUpKeepsInv(s: State, enabled: bool)
    requires Inv(s) && !s.attached
    ensures Inv(SetUpEffect(s, enabled))
  {
    hide LogSound, Reduced;
    var s1 := s.(mounted := true);
    assert Inv(s1) by { IgnoresMounted(s, true); }
    if enabled {
      RunFetchKeepsInv(s1);
      if s.visible { StartKeepsInv(RunFetch(s1)); } else { IgnoresAttached(RunFetch(s1)); }
    }
  }

  lemma IgnoresMounted(s: State, mounted: bool)
    requires Inv(s)
    ensures Inv(s.(mounted := mounted))
  {
    hide Reduced, Increasing;
  }

  lemma IgnoresAttached(s: State)
    requires Inv(s) && !s.visible
    ensures Inv(s.(attached := true))
  {
    hide Reduced, Increasing;
  }

  lemma VisibilityKeepsInv(s: State, visible: bool)
    requires Inv(s)
    ensures Inv(Next(s, Visibility(visible)))
  {
    hide Reduced, Increasing;
    if s.attached && visible {
      RunFetchKeepsInv(s);
      StartKeepsInv(RunFetch(s.(visible := true)));
    } else if s.attached {
      StopKeepsInv(s);
    }
  }

  lemma SettledKeepsInv(s: State, k: nat)
    requires Inv(s)
    ensures Inv(s.(settled := s.settled + {k}))
  {
    hide Reduced, Increasing;
  }

  /** Whatever was dispatched before belongs to an older request than one that is still listened to. */
  lemma LogIsOlder(s: State, k: nat)
    requires OnlyNewest(s) && LogSound(s) && k < s.started && k !in s.settled && k !in s.aborted
    ensures forall i :: 0 <= i < |s.log| ==> s.log[i].request < k
  {
    forall i | 0 <= i < |s.log|
      ensures s.log[i].request < k
    {
      assert s.log[i].request != k;
    }
  }

  lemma DispatchedKeepsInv(s: State, k: nat, res: Result<Payload, string>)
    requires Inv(s) && k < s.started && k in s.settled
    requires forall i :: 0 <= i < |s.log| ==> s.log[i].request < k
    ensures Inv(Dispatched(s, k, res))
  {
    hide OnlyNewest, OneInterval;
    var t := Dispatched(s, k, res);
    assert t.log[..|t.log| - 1] == s.log;
    assert OnlyNewest(t) && OneInterval(t) by { IgnoresShown(s, k, res); }
  }

  lemma IgnoresShown(s: State, k: nat, res: Result<Payload, string>)
    requires OnlyNewest(s) && OneInterval(s)
    ensures OnlyNewest(Dispatched(s, k, res)) && OneInterval(Dispatched(s, k, res))
  {}

  lemma AnswerKeepsInv(s: State, k: nat, res: Result<Payload, string>, refetches: bool)
    requires Inv(s) && k < s.started && k !in s.settled
    ensures Inv(Answer(s, k, res, refetches))
  {
    var s1 := s.(settled := s.settled + {k});
    SettledKeepsInv(s, k);
    if Listening(s, k) {
      LogIsOlder(s, k);
      hide Inv, Reduce;
      if res.Failure? && refetches { RunFetchKeepsInv(s1); }
      DispatchedKeepsInv(if res.Failure? && refetches then RunFetch(s1) else s1, k, res);
    }
  }

  lemma NextKeepsInv(s: State, e: Event)
    requires Inv(s) && Possible(s, e)
    ensures Inv(Next(s, e))
  {
    hide Inv, SetUpEffect, Answer, OnVisibility, RunFetch;
    match e
    case SetUp(enabled) => SetUpKeepsInv(s, enabled);
    case CleanUp =>
      IgnoresMounted(s, false);
      StopKeepsInv(s.(mounted := false));
    case Tick(_) => RunFetchKeepsInv(s);
    case Visibility(v) => VisibilityKeepsInv(s, v);
    case Refetch => RunFetchKeepsInv(s);
    case Settle(k, res, refetches) => AnswerKeepsInv(s, k, res, refetches);
  }

  lemma {:induction false} ReachableInv(visible: bool, run: seq<Event>)
    requires ValidRun(visible, run)
    ensures Inv(After(visible, run))
  {
    hide Inv, Next, Possible;
    if run == [] {
      InitialInv(visible);
    } else {
      ReachableInv(visible, run[..|run| - 1]);
      NextKeepsInv(After(visible, run[..|run| - 1]), run[|run| - 1]);
    }
  }

  lemma InitialInv(visible: bool)
    ensures Inv(Initial(visible))
  {}

  // ---------- A run, told by its events ----------

  /** The latest set-up, if it was not cleaned up since, was an enabled one. */
  predicate EnabledNow(run: seq<Event>) {
    run != [] &&
    match run[|run| - 1]
    case SetUp(enabled) => enabled
    case CleanUp => false
    case _ => EnabledNow(run[..|run| - 1])
  }

  /** The component counts as mounted: at first, and from a set-up, enabled or not, to the next clean-up. */
  predicate MountedNow(run: seq<Event>) {
    run == [] ||
    match run[|run| - 1]
    case SetUp(_) => true
    case CleanUp => false
    case _ => MountedNow(run[..|run| - 1])
  }

  predicate VisibleNow(atFirst: bool, run: seq<Event>) {
    if run == [] then atFirst
    else
      match run[|run| - 1]
      case Visibility(v) => v
      case _ => VisibleNow(atFirst, run[..|run| - 1])
  }

  /**
    After `run`, event `e` starts a request: an enabled set-up, a tick, a refetch, showing the tab while
    polling is enabled, and a failure that is heard if its observer refetches.
   */
  predicate StartsOne(run: seq<Event>, e: Event)
    decreases |run|, 2
  {
    match e
    case SetUp(enabled) => enabled
    case CleanUp => false
    case Tick(_) => true
    case Visibility(v) => v && EnabledNow(run)
    case Refetch => true
    case Settle(k, res, refetches) => res.Failure? && refetches && HeardBy(run, k)
  }

  /** How many requests were started. */
  function StartedBy(run: seq<Event>): nat
    decreases |run|, 0
  {
    if run == [] then 0
    else StartedBy(run[..|run| - 1]) + if StartsOne(run[..|run| - 1], run[|run| - 1]) then 1 else 0
  }

  /** A response to request `k` is heard: it is the newest, nothing silenced it, and the component counts as mounted. */
  predicate HeardBy(run: seq<Event>, k: nat)
    decreases |run|, 1
  {
    MountedNow(run) && k + 1 == StartedBy(run) && !SilencedSince(run)
  }

  /** The clean-up, or hiding the tab while polling is enabled, aborts everything started so far. */
  predicate Silences(run: seq<Event>, e: Event) {
    e.CleanUp? || (e.Visibility? && !e.visible && EnabledNow(run))
  }

  /** A clean-up, or hiding the tab, has come since the newest request was started. */
  predicate SilencedSince(run: seq<Event>)
    decreases |run|, 0
  {
    run != [] && !StartsOne(run[..|run| - 1], run[|run| - 1])
    && (Silences(run[..|run| - 1], run[|run| - 1]) || SilencedSince(run[..|run| - 1]))
  }

  /** The responses that were heard, in the order in which they came. */
  function LogBy(run: seq<Event>): seq<Dispatch> {
    if run == [] then []
    else
      var (front, last) := (run[..|run| - 1], run[|run| - 1]);
      LogBy(front) + if last.Settle? && HeardBy(front, last.request) then [Dispatch(last.request, last.res)] else []
  }

  ghost predicate AsTold(s: State, atFirst: bool, run: seq<Event>) {
    && s.attached == EnabledNow(run) && s.mounted == MountedNow(run) && s.visible == VisibleNow(atFirst, run)
    && s.started == StartedBy(run) && s.log == LogBy(run)
    && (forall k :: k in s.aborted ==> k < s.started)
    && (s.started > 0 ==> (s.started - 1 in s.aborted <==> SilencedSince(run)))
  }

  lemma OneMoreEvent(run: seq<Event>, e: Event)
    ensures StartedBy(run + [e]) == StartedBy(run) + if StartsOne(run, e) then 1 else 0
    ensures SilencedSince(run + [e]) <==> !StartsOne(run, e) && (Silences(run, e) || SilencedSince(run))
    ensures LogBy(run + [e]) == LogBy(run) + if e.Settle? && HeardBy(run, e.request) then [Dispatch(e.request, e.res)] else []
    ensures EnabledNow(run + [e]) == if e.SetUp? then e.enabled else !e.CleanUp? && EnabledNow(run)
    ensures MountedNow(run + [e]) == if e.SetUp? then true else !e.CleanUp? && MountedNow(run)
    ensures forall v :: VisibleNow(v, run + [e]) == if e.Visibility? then e.visible else VisibleNow(v, run)
  {
    assert (run + [e])[..|run|] == run;
  }

  lemma NextAsTold(s: State, atFirst: bool, run: seq<Event>, e: Event)
    requires OnlyNewest(s) && AsTold(s, atFirst, run) && Possible(s, e)
    ensures AsTold(Next(s, e), atFirst, run + [e])
  {
    OneMoreEvent(run, e);
    hide EnabledNow, MountedNow, VisibleNow, StartedBy, SilencedSince, LogBy, Reduce;
  }

  lemma InvNewest(s: State)
    requires Inv(s)
    ensures OnlyNewest(s)
  {}

  /** In every run: how many requests were started, which of them the component heard, and whether the newest is aborted. */
  lemma {:induction false} RunAsTold(visible: bool, run: seq<Event>)
    requires ValidRun(visible, run)
    ensures AsTold(After(visible, run), visible, run)
  {
    hide Next, Possible, Inv, OnlyNewest;
    if run != [] {
      var (front, last) := (run[..|run| - 1], run[|run| - 1]);
      RunAsTold(visible, front);
      ReachableInv(visible, front);
      InvNewest(After(visible, front));
      NextAsTold(After(visible, front), visible, front, last);
      assert front + [last] == run;
      hide AsTold;
    }
  }

  // ---------- Over whole runs ----------

  /**
    In every interleaving: only the newest request can be unaborted; responses reach the component in
    the order their requests were started; there is one interval while polling, and none otherwise.
   */
  lemma ProtocolSafe(visible: bool, run: seq<Event>)
    requires ValidRun(visible, run)
    ensures var s := After(visible, run);
            && (forall k :: 0 <= k < s.started && k !in s.aborted ==> k == s.started - 1)
            && (forall i, j :: 0 <= i < j < |s.log| ==> s.log[i].request < s.log[j].request)
            && |s.intervals| == (if EnabledNow(run) && VisibleNow(visible, run) then 1 else 0)
  {
    ReachableInv(visible, run);
    RunAsTold(visible, run);
    hide After, ValidRun, EnabledNow, VisibleNow, StartedBy, LogBy, SilencedSince, MountedNow;
  }

  /**
    Every event that calls for a request starts one, which is new, current and not aborted; no other
    event starts any. So there have always been as many requests as such events.
   */
  lemma EventStarts(visible: bool, run: seq<Event>, e: Event)
    requires ValidRun(visible, run) && Possible(After(visible, run), e)
    ensures var (s, t) := (After(visible, run), Next(After(visible, run), e));
            && s.started == StartedBy(run)
            && t.started == s.started + (if StartsOne(run, e) then 1 else 0)
            && (StartsOne(run, e) ==> t.current == Some(s.started) && s.started !in s.aborted && s.started !in t.aborted)
  {
    hide *;
    RunAsTold(visible, run);
    ReachableInv(visible, run);
    InvNewest(After(visible, run));
    StartsInState(After(visible, run), visible, run, e);
  }

  lemma StartsInState(s: State, atFirst: bool, run: seq<Event>, e: Event)
    requires OnlyNewest(s) && AsTold(s, atFirst, run) && Possible(s, e)
    ensures var t := Next(s, e);
            && s.started == StartedBy(run)
            && t.started == s.started + (if StartsOne(run, e) then 1 else 0)
            && (StartsOne(run, e) ==> t.current == Some(s.started) && s.started !in s.aborted && s.started !in t.aborted)
  {
    hide EnabledNow, MountedNow, VisibleNow, StartedBy, SilencedSince, LogBy, Reduce;
  }

  /** The newest request is aborted exactly if it was silenced since. */
  lemma NewestAbortedIff(visible: bool, run: seq<Event>)
    requires ValidRun(visible, run) && StartedBy(run) > 0
    ensures After(visible, run).started == StartedBy(run)
    ensures StartedBy(run) - 1 in After(visible, run).aborted <==> SilencedSince(run)
  {
    RunAsTold(visible, run);
    hide After, ValidRun, SilencedSince, StartedBy;
  }

  /**
    A response is heard exactly if it answers the newest request, no clean-up or hiding came since, and the
    component counts as mounted; and nothing else is ever heard.
   */
  lemma HeardIff(visible: bool, run: seq<Event>, k: nat, res: Result<Payload, string>, refetches: bool)
    requires ValidRun(visible, run) && Possible(After(visible, run), Settle(k, res, refetches))
    ensures var s := After(visible, run);
            Next(s, Settle(k, res, refetches)).log ==
            if MountedNow(run) && k == StartedBy(run) - 1 && !SilencedSince(run) then s.log + [Dispatch(k, res)] else s.log
    ensures After(visible, run).log == LogBy(run)
  {
    hide *;
    RunAsTold(visible, run);
    ReachableInv(visible, run);
    InvNewest(After(visible, run));
    HeardInState(After(visible, run), visible, run, k, res, refetches);
  }

  lemma HeardInState(s: State, atFirst: bool, run: seq<Event>, k: nat, res: Result<Payload, string>, refetches: bool)
    requires OnlyNewest(s) && AsTold(s, atFirst, run) && Possible(s, Settle(k, res, refetches))
    ensures Next(s, Settle(k, res, refetches)).log ==
            if MountedNow(run) && k == StartedBy(run) - 1 && !SilencedSince(run) then s.log + [Dispatch(k, res)] else s.log
    ensures s.log == LogBy(run)
  {
    hide EnabledNow, MountedNow, VisibleNow, StartedBy, SilencedSince, LogBy, Reduce;
  }

  // ---------- When the component goes ----------

  /** React runs the clean-up of the latest set-up, if that returned one. */
  function Unmount(s: State): State {
    if s.attached then CleanUpEffect(s) else s
  }

  lemma AttachedIffEnabled(visible: bool, run: seq<Event>)
    requires ValidRun(visible, run)
    ensures After(visible, run).attached <==> EnabledNow(run)
  {
    RunAsTold(visible, run);
    hide After, ValidRun, EnabledNow;
  }

  /**
    When the component goes, the request under way is aborted if polling is enabled, and otherwise
    only if it was aborted before. Disabling polling is the same clean-up, of an enabled effect.
   */
  lemma UnmountAbortsIff(visible: bool, run: seq<Event>)
    requires ValidRun(visible, run) && StartedBy(run) > 0
    ensures var s := After(visible, run);
            && (StartedBy(run) - 1 in Unmount(s).aborted <==> EnabledNow(run) || SilencedSince(run))
            && (EnabledNow(run) <==> Possible(s, CleanUp))
            && (Possible(s, CleanUp) ==> Unmount(s) == Next(s, CleanUp))
            && Unmount(s).intervals == {}
  {
    RunAsTold(visible, run);
    ReachableInv(visible, run);
    hide After, ValidRun, SilencedSince, EnabledNow, Reduced, LogSound, StartedBy, LogBy, MountedNow, VisibleNow;
  }

  /**
    A disabled effect has no clean-up: a refetch under way when the component goes is not aborted, and would
    be heard.
   */
  lemma DisabledIsNotCleanedUp(res: Result<Payload, string>)
    ensures ValidRun(true, [SetUp(false), Refetch])
    ensures var s := After(true, [SetUp(false), Refetch]);
            && !Possible(s, CleanUp) && 0 !in Unmount(s).aborted
            && Next(Unmount(s), Settle(0, res, false)).log == [Dispatch(0, res)]
  {
    var run := [SetUp(false), Refetch];
    assert run[..1] == [SetUp(false)] && run[..1][..0] == [];
    assert After(true, run[..1]) == Initial(true);
  }

  /** How a later state stands to an earlier one: aborted requests stay so, and only others are added to the log. */
  ghost predicate Later(s: State, t: State) {
    && s.started <= t.started && s.aborted <= t.aborted && s.settled <= t.settled
    && s.log <= t.log
    && forall i :: |s.log| <= i < |t.log| ==> t.log[i].request !in s.aborted && t.log[i].request !in s.settled
  }

  lemma NextLater(s: State, e: Event)
    requires Possible(s, e)
    ensures Later(s, Next(s, e))
  {
    match e
    case Settle(k, res, refetches) =>
      hide Reduce;
      assert Next(s, e).log == s.log || (Next(s, e).log == s.log + [Dispatch(k, res)] && k !in s.aborted);
    case _ => QuietLater(s, e);
  }

  ghost predicate Grows(s: State, t: State) {
    s.started <= t.started && s.aborted <= t.aborted && s.settled == t.settled && s.log == t.log
  }

  lemma PartsGrow(s: State)
    ensures Grows(s, Abort(s)) && Grows(s, RunFetch(s)) && Grows(s, Start(s)) && Grows(s, Stop(s))
  {}

  lemma QuietLater(s: State, e: Event)
    requires Possible(s, e) && !e.Settle?
    ensures Later(s, Next(s, e))
  {
    hide Abort, RunFetch, Start, Stop;
    match e
    case SetUp(_) =>
      var t := s.(mounted := true);
      PartsGrow(t);
      PartsGrow(RunFetch(t));
    case CleanUp =>
      var t := s.(mounted := false);
      PartsGrow(t);
      PartsGrow(Stop(t));
    case Visibility(v) =>
      var t := s.(visible := v);
      PartsGrow(t);
      PartsGrow(RunFetch(t));
      PartsGrow(Stop(t));
    case _ => PartsGrow(s);
  }

  lemma LaterTransitive(s: State, t: State, u: State)
    requires Later(s, t) && Later(t, u)
    ensures Later(s, u)
  {
    forall i | |s.log| <= i < |u.log|
      ensures u.log[i].request !in s.aborted && u.log[i].request !in s.settled
    {
      if i < |t.log| { assert u.log[i] == t.log[i]; }
    }
  }

  lemma {:induction false} RunLater(visible: bool, run: seq<Event>, n: nat)
    requires ValidRun(visible, run) && n <= |run|
    ensures ValidRun(visible, run[..n]) && Later(After(visible, run[..n]), After(visible, run))
    decreases |run|
  {
    hide Next, Possible, Later;
    if n == |run| {
      assert run[..n] == run;
      SameLater(After(visible, run));
    } else {
      var front := run[..|run| - 1];
      RunLater(visible, front, n);
      assert front[..n] == run[..n];
      NextLater(After(visible, front), run[|run| - 1]);
      LaterTransitive(After(visible, run[..n]), After(visible, front), After(visible, run));
    }
  }

  lemma SameLater(s: State)
    ensures Later(s, s)
  {}

  lemma SilencedAll(s: State, atFirst: bool, run: seq<Event>, e: Event)
    requires Inv(s) && AsTold(s, atFirst, run) && Possible(s, e) && Silences(run, e)
    ensures Next(s, e).started == s.started && Next(s, e).log == s.log
    ensures forall k :: 0 <= k < s.started ==> k in Next(s, e).aborted
  {
    hide EnabledNow, MountedNow, VisibleNow, StartedBy, SilencedSince, LogBy, Reduce;
  }

  /**
    Nothing started before a clean-up, or before the tab was hidden, ever reaches the component
    afterwards, even once the effect is set up again and the component counts as mounted.
   */
  lemma NothingFromBefore(visible: bool, run: seq<Event>, n: nat, i: nat)
    requires ValidRun(visible, run) && n < |run| && ValidRun(visible, run[..n]) && Silences(run[..n], run[n])
    requires |After(visible, run[..n]).log| <= i < |After(visible, run).log|
    ensures After(visible, run).log[i].request >= StartedBy(run[..n])
  {
    hide Next, Possible, Inv, Silences, StartedBy;
    RunLater(visible, run, n + 1);
    assert run[..n + 1][..n] == run[..n];
    ReachableInv(visible, run[..n]);
    RunAsTold(visible, run[..n]);
    SilencedAll(After(visible, run[..n]), visible, run[..n], run[n]);
  }

  /** Once there are data, there always are; errors leave them in place. */
  lemma DataStay(visible: bool, run: seq<Event>, n: nat)
    requires ValidRun(visible, run) && n <= |run| && ValidRun(visible, run[..n])
    requires After(visible, run[..n]).shown.data.Some?
    ensures After(visible, run).shown.data.Some?
  {
    hide Next, Possible, Later;
    RunLater(visible, run, n);
    ReachableInv(visible, run);
    ReachableInv(visible, run[..n]);
    DataIff(After(visible, run[..n]).log);
    DataIff(After(visible, run).log);
    var i :| 0 <= i < |After(visible, run[..n]).log| && After(visible, run[..n]).log[i].res.Success?;
    LogPrefix(After(visible, run[..n]), After(visible, run), i);
  }

  lemma LogPrefix(s: State, t: State, i: nat)
    requires Later(s, t) && i < |s.log|
    ensures i < |t.log| && t.log[i] == s.log[i]
  {}

  lemma {:induction false} DataIff(log: seq<Dispatch>)
    ensures Reduced(log).data.Some? <==> exists i :: 0 <= i < |log| && log[i].res.Success?
  {
    if log != [] {
      var front := log[..|log| - 1];
      DataIff(front);
      assert forall i :: 0 <= i < |front| ==> front[i] == log[i];
    }
  }

  /**
    What is shown, from the responses that came: the data of the last good one, an error exactly if
    the last one of all was bad, and `loading` exactly until the first.
   */
  lemma {:induction false} ShownMeans(log: seq<Dispatch>)
    ensures Reduced(log).loading <==> log == []
    ensures Reduced(log).error == if log != [] && log[|log| - 1].res.Failure? then Some(log[|log| - 1].res.error) else None
    ensures forall i :: LastGood(log, i) ==> Reduced(log).data == Some(log[i].res.value.body)
    ensures forall i :: LastTimed(log, i) ==> Reduced(log).lastServerTime == log[i].res.value.serverTime
    ensures (forall i :: 0 <= i < |log| ==> log[i].res.Failure?) ==> Reduced(log).data.None?
    ensures (forall i :: 0 <= i < |log| ==> !Timed(log[i])) ==> Reduced(log).lastServerTime.None?
  {
    if log != [] {
      var front := log[..|log| - 1];
      ShownMeans(front);
      assert forall i :: 0 <= i < |front| ==> front[i] == log[i];
      forall i | LastGood(log, i)
        ensures Reduced(log).data == Some(log[i].res.value.body)
      {
        if i < |front| { assert LastGood(front, i); }
      }
      forall i | LastTimed(log, i)
        ensures Reduced(log).lastServerTime == log[i].res.value.serverTime
      {
        if i < |front| { assert LastTimed(front, i); }
      }
    }
  }

  /**
    What the responses come to: loading until the first, the error of the last one if it was bad, and data
    and server time of the last that had any.
   */
  ghost predicate ShownFor(shown: Shown, heard: seq<Dispatch>) {
    && (shown.loading <==> heard == [])
    && shown.error == (if heard != [] && heard[|heard| - 1].res.Failure? then Some(heard[|heard| - 1].res.error) else None)
    && (shown.data.Some? <==> exists i :: 0 <= i < |heard| && heard[i].res.Success?)
    && (forall i :: LastGood(heard, i) ==> shown.data == Some(heard[i].res.value.body))
    && (forall i :: LastTimed(heard, i) ==> shown.lastServerTime == heard[i].res.value.serverTime)
    && ((forall i :: 0 <= i < |heard| ==> !Timed(heard[i])) ==> shown.lastServerTime.None?)
  }

  lemma ReducedShows(log: seq<Dispatch>)
    ensures ShownFor(Reduced(log), log)
  {
    ShownMeans(log);
    DataIff(log);
    hide Reduced, LastGood, LastTimed, Timed;
  }

  /** The component shows what the responses heard so far, as the run tells them, come to. */
  lemma ShownAfter(visible: bool, run: seq<Event>)
    requires ValidRun(visible, run)
    ensures ShownFor(After(visible, run).shown, LogBy(run))
  {
    hide *;
    ReachableInv(visible, run);
    RunAsTold(visible, run);
    ReducedShows(LogBy(run));
    InvShown(After(visible, run));
    ToldLog(After(visible, run), visible, run);
  }

  lemma InvShown(s: State)
    requires Inv(s)
    ensures s.shown == Reduced(s.log)
  {}

  lemma ToldLog(s: State, atFirst: bool, run: seq<Event>)
    requires AsTold(s, atFirst, run)
    ensures s.log == LogBy(run)
  {
    hide LogBy, StartedBy, SilencedSince;
  }

  predicate LastGood(log: seq<Dispatch>, i: int) {
    0 <= i < |log| && log[i].res.Success? && forall j :: i < j < |log| ==> log[j].res.Failure?
  }

  predicate Timed(d: Dispatch) {
    d.res.Success? && d.res.value.serverTime.Some?
  }

  predicate LastTimed(log: seq<Dispatch>, i: int) {
    0 <= i < |log| && Timed(log[i]) && forall j :: i < j < |log| ==> !Timed(log[j])
  }
}
