/** Startup, rollback, shutdown and restart of a set of apps (`LifecycleCoordinator` of
    aquilia/lifecycle.py). */
module Lifecycle {

  datatype Phase = Init | Starting | Ready | Stopping | Stopped | Error

  /** A configured hook that cannot be resolved to a callable is skipped. */
  datatype Hook = Absent | Unresolved | Callable

  datatype App = App(name: string, onStartup: Hook, onShutdown: Hook, hasContainer: bool)

  datatype Call = GlobalStart | ContainerStart(app: string) | AppStart(app: string) | AppStop(app: string) | GlobalStop

  /** A call and whether it raised. */
  datatype Event = Event(call: Call, raised: bool)

  /** `raises` says, for the n-th hook call of the whole run, whether it raises. */
  datatype Setup = Setup(apps: seq<App>, onStartup: Hook, onShutdown: Hook, raises: nat -> bool)

  /** What happened between two restarts. */
  datatype Epoch = Epoch(started: seq<string>, calls: seq<Event>)

  datatype State = State(phase: Phase, current: Epoch, ticks: nat, past: seq<Epoch>)

  const START := State(Init, Epoch([], []), 0, [])

  // ---- Specification -----------------------------------------------------------------------

  function Invoke(s: Setup, st: State, call: Call): (r: (State, bool)) {
    var raised := s.raises(st.ticks);
    (st.(current := st.current.(calls := st.current.calls + [Event(call, raised)]), ticks := st.ticks + 1), raised)
  }

  function MarkStarted(st: State, name: string): State {
    st.(current := st.current.(started := st.current.started + [name]))
  }

  /** The flag says whether the hook chain of the app raised. */
  function StartApp(s: Setup, st: State, app: App): (r: (State, bool)) {
    if app.onStartup.Absent? then (MarkStarted(st, app.name), false)
    else
      var (st1, bad) := if app.hasContainer then Invoke(s, st, ContainerStart(app.name)) else (st, false);
      if bad then (st1, true)
      else
        var (st2, bad') := if app.onStartup.Callable? then Invoke(s, st1, AppStart(app.name)) else (st1, false);
        if bad' then (st2, true) else (MarkStarted(st2, app.name), false)
  }

  function StartApps(s: Setup, st: State, apps: seq<App>): (r: (State, bool))
    decreases |apps|
  {
    if apps == [] then (st, false)
    else
      var (st', bad) := StartApp(s, st, apps[0]);
      if bad then (st', true) else StartApps(s, st', apps[1..])
  }

  /** The first app of that name, as `_shutdown_app` looks it up. */
  function HasStopHook(apps: seq<App>, name: string): bool {
    apps != [] && if apps[0].name == name then apps[0].onShutdown.Callable? else HasStopHook(apps[1..], name)
  }

  function StopApps(s: Setup, st: State, names: seq<string>): State
    decreases |names|
  {
    if names == [] then st
    else
      var last := names[|names| - 1];
      StopApps(s, if HasStopHook(s.apps, last) then Invoke(s, st, AppStop(last)).0 else st, names[..|names| - 1])
  }

  function Shutdown(s: Setup, st: State): State {
    if st.phase.Stopped? then st
    else
      var st1 := StopApps(s, st.(phase := Stopping), st.current.started);
      var st2 := if s.onShutdown.Callable? then Invoke(s, st1, GlobalStop).0 else st1;
      st2.(phase := Stopped)
  }

  /** The flag says whether `startup` returned without raising LifecycleError. */
  function Startup(s: Setup, st: State): (r: (State, bool)) {
    if !st.phase.Init? then (st, false)
    else
      var st0 := st.(phase := Starting);
      var (st1, bad) := if s.onStartup.Callable? then Invoke(s, st0, GlobalStart) else (st0, false);
      var (st2, bad') := if bad then (st1, true) else StartApps(s, st1, s.apps);
      if bad' then (Shutdown(s, st2.(phase := Error)), false) else (st2.(phase := Ready), true)
  }

  function NewEpoch(st: State): State {
    State(Init, Epoch([], []), st.ticks, st.past + [st.current])
  }

  function Restart(s: Setup, st: State): (r: (State, bool)) {
    Startup(s, NewEpoch(Shutdown(s, st)))
  }

  datatype Op = DoStartup | DoShutdown | DoRestart

  function Do(s: Setup, st: State, op: Op): State {
    match op
    case DoStartup => Startup(s, st).0
    case DoShutdown => Shutdown(s, st)
    case DoRestart => Restart(s, st).0
  }

  function DoAll(s: Setup, ops: seq<Op>): State {
    if ops == [] then START else Do(s, DoAll(s, ops[..|ops| - 1]), ops[|ops| - 1])
  }

  // ---- What every run keeps ----------------------------------------------------------------

  function Names(apps: seq<App>): (n: seq<string>)
    ensures |n| == |apps| && forall i :: 0 <= i < |apps| ==> n[i] == apps[i].name
  {
    seq(|apps|, i requires 0 <= i < |apps| => apps[i].name)
  }

  /** Names of the shutdown hooks called, in order. */
  function Stops(calls: seq<Event>): seq<string> {
    if calls == [] then []
    else
      var last := calls[|calls| - 1].call;
      Stops(calls[..|calls| - 1]) + (if last.AppStop? then [last.app] else [])
  }

  /** Names of the startup hooks that returned, in order. */
  function StartsOk(calls: seq<Event>): seq<string> {
    if calls == [] then []
    else
      var last := calls[|calls| - 1];
      StartsOk(calls[..|calls| - 1]) + (if last.call.AppStart? && !last.raised then [last.call.app] else [])
  }

  /** The started apps that have a shutdown hook, last started first. */
  function StopOrder(s: Setup, started: seq<string>): seq<string> {
    if started == [] then []
    else
      var last := started[|started| - 1];
      (if HasStopHook(s.apps, last) then [last] else []) + StopOrder(s, started[..|started| - 1])
  }

  /** The apps of a prefix whose startup hook was called. */
  function HookedNames(apps: seq<App>): seq<string> {
    if apps == [] then []
    else
      var last := apps[|apps| - 1];
      HookedNames(apps[..|apps| - 1]) + (if last.onStartup.Callable? then [last.name] else [])
  }

  /** The started apps are the first ones, and exactly their startup hooks returned. */
  ghost predicate StartedPrefix(s: Setup, e: Epoch) {
    && e.started <= Names(s.apps)
    && StartsOk(e.calls) == HookedNames(s.apps[..|e.started|])
  }

  ghost predicate Unstopped(s: Setup, e: Epoch) {
    StartedPrefix(s, e) && Stops(e.calls) == []
  }

  /** Every started app was stopped once, in reverse order, and no other. */
  ghost predicate Unwound(s: Setup, e: Epoch) {
    StartedPrefix(s, e) && Stops(e.calls) == StopOrder(s, e.started)
  }

  ghost predicate Inv(s: Setup, st: State) {
    && (forall i :: 0 <= i < |st.past| ==> Unwound(s, st.past[i]))
    && match st.phase
       case Init => st.current == Epoch([], [])
       case Ready => Unstopped(s, st.current) && st.current.started == Names(s.apps)
       case Stopped => Unwound(s, st.current)
       case _ => false
  }

  lemma LogAppend(calls: seq<Event>, e: Event)
    ensures Stops(calls + [e]) == Stops(calls) + if e.call.AppStop? then [e.call.app] else []
    ensures StartsOk(calls + [e]) == StartsOk(calls) + if e.call.AppStart? && !e.raised then [e.call.app] else []
  {
    assert (calls + [e])[..|calls|] == calls;
  }

  lemma HookedAppend(s: Setup, n: nat)
    requires n < |s.apps|
    ensures HookedNames(s.apps[..n + 1]) ==
            HookedNames(s.apps[..n]) + if s.apps[n].onStartup.Callable? then [s.apps[n].name] else []
  {
    assert s.apps[..n + 1][..n] == s.apps[..n];
  }

  lemma {:induction false} StopAppsStops(s: Setup, st: State, names: seq<string>)
    ensures var st' := StopApps(s, st, names);
      && Stops(st'.current.calls) == Stops(st.current.calls) + StopOrder(s, names)
      && StartsOk(st'.current.calls) == StartsOk(st.current.calls)
      && st'.current.started == st.current.started && st'.past == st.past
    decreases |names|
  {
    if names != [] {
      var last := names[|names| - 1];
      var st1 := if HasStopHook(s.apps, last) then Invoke(s, st, AppStop(last)).0 else st;
      LogAppend(st.current.calls, Event(AppStop(last), s.raises(st.ticks)));
      StopAppsStops(s, st1, names[..|names| - 1]);
    }
  }

  lemma ShutdownUnwinds(s: Setup, st: State)
    requires Unstopped(s, st.current) && !st.phase.Stopped?
    ensures var st' := Shutdown(s, st);
      st'.phase.Stopped? && Unwound(s, st'.current) && st'.past == st.past && st'.current.started == st.current.started
  {
    StopAppsStops(s, st.(phase := Stopping), st.current.started);
    var st1 := StopApps(s, st.(phase := Stopping), st.current.started);
    LogAppend(st1.current.calls, Event(GlobalStop, s.raises(st1.ticks)));
    hide StopApps, Stops, StartsOk, StopOrder, HookedNames, HasStopHook;
  }

  lemma StartAppKeeps(s: Setup, st: State, n: nat)
    requires n < |s.apps| && Unstopped(s, st.current) && |st.current.started| == n
    ensures var (st', bad) := StartApp(s, st, s.apps[n]);
      && Unstopped(s, st'.current) && st'.past == st.past && st'.phase == st.phase
      && |st'.current.started| == (if bad then n else n + 1)
  {
    hide Stops, StartsOk, HookedNames;
    var app := s.apps[n];
    HookedAppend(s, n);
    assert Names(s.apps)[n] == app.name;
    var c := st.current.calls;
    LogAppend(c, Event(ContainerStart(app.name), s.raises(st.ticks)));
    LogAppend(c, Event(AppStart(app.name), s.raises(st.ticks)));
    var c' := c + [Event(ContainerStart(app.name), s.raises(st.ticks))];
    LogAppend(c', Event(AppStart(app.name), s.raises(st.ticks + 1)));
    assert st.current.started + [app.name] <= Names(s.apps);
  }

  lemma {:induction false} StartAppsKeep(s: Setup, st: State, n: nat)
    requires n <= |s.apps| && Unstopped(s, st.current) && |st.current.started| == n
    ensures var (st', bad) := StartApps(s, st, s.apps[n..]);
      && Unstopped(s, st'.current) && st'.past == st.past && st'.phase == st.phase
      && (!bad ==> st'.current.started == Names(s.apps))
    decreases |s.apps| - n
  {
    if n < |s.apps| {
      StartAppKeeps(s, st, n);
      assert s.apps[n..][1..] == s.apps[n + 1..];
      var (st', bad) := StartApp(s, st, s.apps[n]);
      hide StartApp, Unstopped;
      if !bad {
        StartAppsKeep(s, st', n + 1);
      }
    }
  }

  /** Startup from INIT ends READY with all apps started, or raises and ends STOPPED with what was
      started unwound; from any other phase it raises and changes nothing. */
  lemma StartupOutcome(s: Setup, st: State)
    requires Inv(s, st)
    ensures var (st', ok) := Startup(s, st);
      && Inv(s, st')
      && (ok ==> st'.phase.Ready?)
      && (st.phase.Init? && !ok ==> st'.phase.Stopped?)
      && (!st.phase.Init? ==> !ok && st' == st)
      && st'.past == st.past
  {
    if st.phase.Init? {
      var st0 := st.(phase := Starting);
      LogAppend([], Event(GlobalStart, s.raises(st0.ticks)));
      assert [] + [Event(GlobalStart, s.raises(st0.ticks))] == [Event(GlobalStart, s.raises(st0.ticks))];
      assert s.apps[..0] == [] && s.apps[0..] == s.apps;
      var (st1, bad) := if s.onStartup.Callable? then Invoke(s, st0, GlobalStart) else (st0, false);
      assert Unstopped(s, st1.current);
      StartAppsKeep(s, st1, 0);
      var (st2, bad') := if bad then (st1, true) else StartApps(s, st1, s.apps);
      hide StartApps, Unstopped;
      if bad' {
        ShutdownUnwinds(s, st2.(phase := Error));
      }
      hide Shutdown, Unwound;
    }
  }

  lemma DoKeepsInv(s: Setup, st: State, op: Op)
    requires Inv(s, st)
    ensures Inv(s, Do(s, st, op))
  {
    if st.phase.Init? {
      assert s.apps[..0] == [];
    }
    if !st.phase.Stopped? {
      ShutdownUnwinds(s, st);
    }
    hide Shutdown, Unwound, Unstopped;
    StartupOutcome(s, st);
    StartupOutcome(s, NewEpoch(Shutdown(s, st)));
  }

  /** Over any sequence of startup, shutdown and restart calls with hooks raising at will: the phase
      between calls is INIT, READY or STOPPED, the started apps are a prefix of the app order (all of it
      when READY), and every finished epoch was unwound in exact reverse order. */
  lemma {:induction false} EveryRunKeepsInv(s: Setup, ops: seq<Op>)
    ensures Inv(s, DoAll(s, ops))
    decreases |ops|
  {
    if ops != [] {
      EveryRunKeepsInv(s, ops[..|ops| - 1]);
      DoKeepsInv(s, DoAll(s, ops[..|ops| - 1]), ops[|ops| - 1]);
    }
  }

  // ---- At most once ------------------------------------------------------------------------

  lemma {:induction false} StopOrderDistinct(s: Setup, started: seq<string>)
    requires forall i, j :: 0 <= i < j < |started| ==> started[i] != started[j]
    ensures var o := StopOrder(s, started);
      && (forall i, j :: 0 <= i < j < |o| ==> o[i] != o[j])
      && (forall n :: n in o <==> n in started && HasStopHook(s.apps, n))
    decreases |started|
  {
    if started != [] {
      var last, front := started[|started| - 1], started[..|started| - 1];
      StopOrderDistinct(s, front);
      assert started == front + [last];
      assert last !in front;
    }
  }

  /** With distinct app names, in every epoch of every run each shutdown hook runs at most once, and it
      runs exactly for started apps that have one once the epoch is over. */
  lemma StopHooksAtMostOnce(s: Setup, ops: seq<Op>, e: Epoch)
    requires forall i, j :: 0 <= i < j < |s.apps| ==> s.apps[i].name != s.apps[j].name
    requires e == DoAll(s, ops).current || e in DoAll(s, ops).past
    ensures var stops := Stops(e.calls);
      && (forall i, j :: 0 <= i < j < |stops| ==> stops[i] != stops[j])
      && (forall n :: n in stops ==> n in e.started && HasStopHook(s.apps, n))
      && (e in DoAll(s, ops).past || DoAll(s, ops).phase.Stopped? ==>
            forall n :: n in e.started && HasStopHook(s.apps, n) ==> n in stops)
  {
    EveryRunKeepsInv(s, ops);
    hide DoAll;
    var names := Names(s.apps);
    if e.started <= names {
      assert forall i :: 0 <= i < |e.started| ==> e.started[i] == names[i];
      StopOrderDistinct(s, e.started);
    }
    hide HasStopHook, StopOrder, StartsOk, HookedNames;
  }

  /** No hook call happens twice over: once STOPPED, further shutdowns do nothing. */
  lemma ShutdownIdempotent(s: Setup, st: State)
    ensures Shutdown(s, Shutdown(s, st)) == Shutdown(s, st)
  {
  }

  // ---- The whole log of an epoch -----------------------------------------------------------

  function CallsOf(events: seq<Event>): seq<Call> {
    if events == [] then [] else CallsOf(events[..|events| - 1]) + [events[|events| - 1].call]
  }

  lemma CallsOfAppend(events: seq<Event>, e: Event)
    ensures CallsOf(events + [e]) == CallsOf(events) + [e.call]
  {
    assert (events + [e])[..|events|] == events;
  }

  lemma {:induction false} CallsOfConcat(a: seq<Event>, b: seq<Event>)
    ensures CallsOf(a + b) == CallsOf(a) + CallsOf(b)
    decreases |b|
  {
    if b == [] {
      assert a + b == a;
    } else {
      var front, last := b[..|b| - 1], b[|b| - 1];
      CallsOfConcat(a, front);
      assert a + b == (a + front) + [last];
      CallsOfAppend(a + front, last);
      hide CallsOf;
      assert (CallsOf(a) + CallsOf(front)) + [last.call] == CallsOf(a) + (CallsOf(front) + [last.call]);
      assert b == front + [last];
      CallsOfAppend(front, last);
    }
  }

  /** The calls that start one app. */
  function AppPlan(app: App): seq<Call> {
    if app.onStartup.Absent? then []
    else
      (if app.hasContainer then [ContainerStart(app.name)] else [])
      + (if app.onStartup.Callable? then [AppStart(app.name)] else [])
  }

  /** The calls that start the workspace and its first `k` apps. */
  function Plan(s: Setup, k: nat): seq<Call>
    requires k <= |s.apps|
  {
    if k == 0 then (if s.onStartup.Callable? then [GlobalStart] else []) else Plan(s, k - 1) + AppPlan(s.apps[k - 1])
  }

  /** The first app of this name has a shutdown hook. */
  ghost predicate StopsFirst(apps: seq<App>, name: string) {
    exists i :: 0 <= i < |apps| && apps[i].name == name && apps[i].onShutdown.Callable? &&
      forall j :: 0 <= j < i ==> apps[j].name != name
  }

  /** The calls that stop the first `k` apps, last one first. */
  ghost function StopPlan(s: Setup, k: nat): seq<Call>
    requires k <= |s.apps|
  {
    if k == 0 then []
    else
      var name := s.apps[k - 1].name;
      (if StopsFirst(s.apps, name) then [AppStop(name)] else []) + StopPlan(s, k - 1)
  }

  ghost function ClosingPlan(s: Setup, k: nat): seq<Call>
    requires k <= |s.apps|
  {
    StopPlan(s, k) + if s.onShutdown.Callable? then [GlobalStop] else []
  }

  /** A startup that has started `k` apps and has seen no hook raise. */
  ghost predicate StartedLog(s: Setup, k: nat, calls: seq<Event>) {
    k <= |s.apps| && CallsOf(calls) == Plan(s, k) && Quiet(calls)
  }

  /** A startup cut short behind its first call that raised: the workspace hook, or a call for the app
      after the `k` started ones. */
  ghost predicate FailedLog(s: Setup, k: nat, calls: seq<Event>) {
    && k <= |s.apps| && LastRaised(calls)
    && (|| (k == 0 && s.onStartup.Callable? && CallsOf(calls) == [GlobalStart])
        || (k < |s.apps| && CutPlan(s, k, CallsOf(calls))))
  }

  ghost predicate CutPlan(s: Setup, k: nat, calls: seq<Call>)
    requires k < |s.apps|
  {
    exists j :: 0 < j <= |AppPlan(s.apps[k])| && calls == Plan(s, k) + AppPlan(s.apps[k])[..j]
  }

  /** The flags are the outcomes of the hooks from call `t` of the run on. */
  ghost predicate Told(s: Setup, calls: seq<Event>, t: nat) {
    forall i :: 0 <= i < |calls| ==> calls[i].raised == s.raises(t + i)
  }

  ghost predicate ToldSomewhere(s: Setup, calls: seq<Event>) {
    exists t: nat :: Told(s, calls, t)
  }

  ghost predicate ReadyLog(s: Setup, e: Epoch) {
    StartedLog(s, |s.apps|, e.calls) && e.started == Names(s.apps)
  }

  /** Startup (not at all, in full, or cut short), then the shutdown hooks of the `k` started apps in
      reverse, then the workspace hook, whatever raises. */
  ghost predicate ClosedLog(s: Setup, e: Epoch) {
    exists m, k :: ClosedAt(s, e, m, k)
  }

  ghost predicate ClosedAt(s: Setup, e: Epoch, m: int, k: int) {
    && 0 <= m <= |e.calls| && 0 <= k <= |s.apps|
    && e.started == Names(s.apps[..k])
    && CallsOf(e.calls[m..]) == ClosingPlan(s, k)
    && (m == k == 0 || (k == |s.apps| && StartedLog(s, k, e.calls[..m])) || FailedLog(s, k, e.calls[..m]))
  }

  ghost predicate TicksFit(s: Setup, st: State) {
    |st.current.calls| <= st.ticks && Told(s, st.current.calls, st.ticks - |st.current.calls|)
  }

  ghost predicate PastLogs(s: Setup, past: seq<Epoch>) {
    forall i :: 0 <= i < |past| ==> ClosedLog(s, past[i]) && ToldSomewhere(s, past[i].calls)
  }

  ghost predicate CurrentLog(s: Setup, phase: Phase, e: Epoch) {
    match phase
    case Init => e == Epoch([], [])
    case Ready => ReadyLog(s, e)
    case Stopped => ClosedLog(s, e)
    case _ => false
  }

  ghost predicate LogInv(s: Setup, st: State) {
    TicksFit(s, st) && PastLogs(s, st.past) && CurrentLog(s, st.phase, st.current)
  }

  lemma InvokeLogs(s: Setup, st: State, call: Call)
    requires TicksFit(s, st)
    ensures var (st', raised) := Invoke(s, st, call);
      && st'.current.calls == st.current.calls + [Event(call, raised)]
      && CallsOf(st'.current.calls) == CallsOf(st.current.calls) + [call]
      && TicksFit(s, st')
      && st'.current.started == st.current.started && st'.past == st.past && st'.phase == st.phase
  {
    CallsOfAppend(st.current.calls, Event(call, s.raises(st.ticks)));
    hide CallsOf;
  }

  ghost predicate Quiet(calls: seq<Event>) {
    forall i :: 0 <= i < |calls| ==> !calls[i].raised
  }

  ghost predicate LastRaised(calls: seq<Event>) {
    calls != [] && forall i :: 0 <= i < |calls| ==> (calls[i].raised <==> i == |calls| - 1)
  }

  lemma QuietAppend(calls: seq<Event>, e: Event)
    requires Quiet(calls)
    ensures if e.raised then LastRaised(calls + [e]) else Quiet(calls + [e])
  {
  }

  /** One call of the plan of an app, of which `j` calls are done. */
  lemma PlanStep(s: Setup, st: State, k: nat, j: nat)
    requires k < |s.apps| && TicksFit(s, st) && j < |AppPlan(s.apps[k])| && Quiet(st.current.calls)
    requires CallsOf(st.current.calls) == Plan(s, k) + AppPlan(s.apps[k])[..j]
    ensures var (st', raised) := Invoke(s, st, AppPlan(s.apps[k])[j]);
      && TicksFit(s, st') && st'.past == st.past && st'.phase == st.phase && st'.current.started == st.current.started
      && CallsOf(st'.current.calls) == Plan(s, k) + AppPlan(s.apps[k])[..j + 1]
      && (if raised then FailedLog(s, k, st'.current.calls) else Quiet(st'.current.calls))
  {
    hide CallsOf, TicksFit, Plan, AppPlan, Quiet;
    var plan := AppPlan(s.apps[k]);
    var call := plan[j];
    InvokeLogs(s, st, call);
    var (st', raised) := Invoke(s, st, call);
    QuietAppend(st.current.calls, Event(call, raised));
    hide Invoke;
    assert plan[..j + 1] == plan[..j] + [call];
    assert (Plan(s, k) + plan[..j]) + [call] == Plan(s, k) + plan[..j + 1];
    assert raised ==> CutPlan(s, k, CallsOf(st'.current.calls));
  }

  lemma StartAppLogs(s: Setup, st: State, k: nat)
    requires k < |s.apps| && TicksFit(s, st)
    requires StartedLog(s, k, st.current.calls) && st.current.started == Names(s.apps[..k])
    ensures var (st', bad) := StartApp(s, st, s.apps[k]);
      && TicksFit(s, st') && st'.past == st.past && st'.phase == st.phase
      && (if bad then FailedLog(s, k, st'.current.calls) && st'.current.started == st.current.started
          else StartedLog(s, k + 1, st'.current.calls) && st'.current.started == Names(s.apps[..k + 1]))
  {
    hide CallsOf, Invoke, FailedLog, Quiet, TicksFit, Plan, AppPlan, Names;
    var app := s.apps[k];
    var plan := AppPlan(app);
    AppPlanParts(app);
    PlanNext(s, k);
    NamesNext(s, k);
    if !app.onStartup.Absent? {
      if app.hasContainer {
        PlanStep(s, st, k, 0);
      }
      var (st1, bad) := if app.hasContainer then Invoke(s, st, ContainerStart(app.name)) else (st, false);
      if !bad && app.onStartup.Callable? {
        PlanStep(s, st1, k, |plan| - 1);
      }
      var (st2, bad') := if !bad && app.onStartup.Callable? then Invoke(s, st1, AppStart(app.name)) else (st1, bad);
      MarkFits(s, st2, app.name);
    } else {
      MarkFits(s, st, app.name);
    }
  }

  lemma MarkFits(s: Setup, st: State, name: string)
    ensures TicksFit(s, MarkStarted(st, name)) <==> TicksFit(s, st)
  {
  }

  lemma AppPlanParts(app: App)
    ensures var plan := AppPlan(app);
      var starts := !app.onStartup.Absent?;
      && |plan| == (if starts && app.hasContainer then 1 else 0) + (if app.onStartup.Callable? then 1 else 0)
      && (starts && app.hasContainer ==> plan[0] == ContainerStart(app.name))
      && (app.onStartup.Callable? ==> plan[|plan| - 1] == AppStart(app.name))
  {
  }

  lemma PlanNext(s: Setup, k: nat)
    requires k < |s.apps|
    ensures var plan := AppPlan(s.apps[k]);
      && Plan(s, k + 1) == Plan(s, k) + plan
      && Plan(s, k) + plan[..0] == Plan(s, k) && plan[..|plan|] == plan
  {
    hide AppPlan;
    assert AppPlan(s.apps[k])[..0] == [];
  }

  lemma NamesNext(s: Setup, k: nat)
    requires k < |s.apps|
    ensures Names(s.apps[..k + 1]) == Names(s.apps[..k]) + [s.apps[k].name]
  {
  }

  lemma {:induction false} StartAppsLog(s: Setup, st: State, k: nat)
    requires k <= |s.apps| && TicksFit(s, st)
    requires StartedLog(s, k, st.current.calls) && st.current.started == Names(s.apps[..k])
    ensures var (st', bad) := StartApps(s, st, s.apps[k..]);
      && TicksFit(s, st') && st'.past == st.past && st'.phase == st.phase
      && (if bad then
            exists n: nat ::
              n <= |s.apps| && FailedLog(s, n, st'.current.calls) && st'.current.started == Names(s.apps[..n])
          else ReadyLog(s, st'.current))
    decreases |s.apps| - k
  {
    if k < |s.apps| {
      StartAppLogs(s, st, k);
      assert s.apps[k..][1..] == s.apps[k + 1..];
      var (st', bad) := StartApp(s, st, s.apps[k]);
      hide StartApp, TicksFit, StartedLog, FailedLog, Names;
      if !bad {
        StartAppsLog(s, st', k + 1);
      } else {
        assert FailedLog(s, k, st'.current.calls) && st'.current.started == Names(s.apps[..k]);
      }
    } else {
      assert s.apps[..k] == s.apps;
    }
  }

  lemma {:induction false} StopHookIsFirst(apps: seq<App>, name: string)
    ensures HasStopHook(apps, name) <==> StopsFirst(apps, name)
  {
    if apps != [] {
      StopHookIsFirst(apps[1..], name);
      if apps[0].name == name {
        assert apps[0].onShutdown.Callable? ==> StopsFirst(apps, name);
      } else {
        if StopsFirst(apps[1..], name) {
          var i :| 0 <= i < |apps[1..]| && apps[1..][i].name == name && apps[1..][i].onShutdown.Callable? &&
            forall j :: 0 <= j < i ==> apps[1..][j].name != name;
          assert apps[i + 1] == apps[1..][i];
          assert forall j :: 0 < j < i + 1 ==> apps[j] == apps[1..][j - 1];
        }
        if StopsFirst(apps, name) {
          var i :| 0 <= i < |apps| && apps[i].name == name && apps[i].onShutdown.Callable? &&
            forall j :: 0 <= j < i ==> apps[j].name != name;
          assert apps[1..][i - 1] == apps[i];
          assert forall j :: 0 <= j < i - 1 ==> apps[1..][j] == apps[j + 1];
        }
      }
    }
  }

  lemma StopAppLogs(s: Setup, st: State, k: nat) returns (first: seq<Event>, st': State)
    requires 0 < k <= |s.apps| && TicksFit(s, st)
    ensures StopApps(s, st, Names(s.apps[..k])) == StopApps(s, st', Names(s.apps[..k - 1]))
    ensures TicksFit(s, st') && st'.past == st.past && st'.current.started == st.current.started
    ensures st'.current.calls == st.current.calls + first
    ensures StopPlan(s, k) == CallsOf(first) + StopPlan(s, k - 1)
  {
    var names := Names(s.apps[..k]);
    var name := s.apps[k - 1].name;
    assert names[..k - 1] == Names(s.apps[..k - 1]) && names[k - 1] == name;
    StopHookIsFirst(s.apps, name);
    InvokeLogs(s, st, AppStop(name));
    hide TicksFit, HasStopHook, StopsFirst;
    if HasStopHook(s.apps, name) {
      first, st' := [Event(AppStop(name), s.raises(st.ticks))], Invoke(s, st, AppStop(name)).0;
      CallsOfAppend([], first[0]);
      assert [] + first == first;
    } else {
      first, st' := [], st;
      assert CallsOf(first) == [];
    }
  }

  lemma Regroup(a: seq<Event>, b: seq<Event>, c: seq<Event>)
    ensures (a + b) + c == a + (b + c)
  {
  }

  lemma {:induction false} StopAppsLog(s: Setup, st: State, k: nat) returns (stops: seq<Event>)
    requires k <= |s.apps| && TicksFit(s, st)
    ensures var st' := StopApps(s, st, Names(s.apps[..k]));
      && TicksFit(s, st') && st'.past == st.past && st'.current.started == st.current.started
      && st'.current.calls == st.current.calls + stops && CallsOf(stops) == StopPlan(s, k)
    decreases k
  {
    if k == 0 {
      stops := [];
    } else {
      hide StopApps, TicksFit, StopPlan, CallsOf, Names;
      var first, st1 := StopAppLogs(s, st, k);
      var rest := StopAppsLog(s, st1, k - 1);
      stops := first + rest;
      Regroup(st.current.calls, first, rest);
      CallsOfConcat(first, rest);
    }
  }

  lemma PhaseFits(s: Setup, st: State, phase: Phase)
    ensures TicksFit(s, st.(phase := phase)) <==> TicksFit(s, st)
  {
  }

  lemma LastCall(events: seq<Event>)
    requires |events| <= 1
    ensures CallsOf(events) == if events == [] then [] else [events[0].call]
  {
  }

  lemma ShutdownLog(s: Setup, st: State, k: nat)
    requires !st.phase.Stopped? && k <= |s.apps| && TicksFit(s, st) && st.current.started == Names(s.apps[..k])
    requires (st.current.calls == [] && k == 0) || (k == |s.apps| && StartedLog(s, k, st.current.calls))
             || FailedLog(s, k, st.current.calls)
    ensures var st' := Shutdown(s, st);
      st'.phase.Stopped? && TicksFit(s, st') && st'.past == st.past && ClosedLog(s, st'.current)
  {
    var st0 := st.(phase := Stopping);
    hide CallsOf, TicksFit, Names, StartedLog, FailedLog, StopPlan, StopApps, Invoke;
    PhaseFits(s, st, Stopping);
    var stops := StopAppsLog(s, st0, k);
    var st1 := StopApps(s, st0, st.current.started);
    InvokeLogs(s, st1, GlobalStop);
    var (st2, raised) := if s.onShutdown.Callable? then Invoke(s, st1, GlobalStop) else (st1, false);
    var last := if s.onShutdown.Callable? then [Event(GlobalStop, raised)] else [];
    var m := |st.current.calls|;
    var all := st2.current.calls;
    assert all == st.current.calls + (stops + last);
    assert all[..m] == st.current.calls && all[m..] == stops + last;
    CallsOfConcat(stops, last);
    LastCall(last);
    assert ClosedAt(s, st2.current, m, k);
    PhaseFits(s, st2, Stopped);
  }

  lemma WorkspaceStartLog(s: Setup, st: State)
    requires TicksFit(s, st) && st.current == Epoch([], [])
    ensures var (st', bad) := if s.onStartup.Callable? then Invoke(s, st, GlobalStart) else (st, false);
      && TicksFit(s, st') && st'.past == st.past && st'.phase == st.phase
      && st'.current.started == Names(s.apps[..0])
      && if bad then FailedLog(s, 0, st'.current.calls) else StartedLog(s, 0, st'.current.calls)
  {
    InvokeLogs(s, st, GlobalStart);
    if s.onStartup.Callable? {
      assert Invoke(s, st, GlobalStart).0.current.calls == [Event(GlobalStart, s.raises(st.ticks))];
    }
  }

  lemma StartupLog(s: Setup, st: State)
    requires LogInv(s, st)
    ensures LogInv(s, Startup(s, st).0)
    ensures st.phase.Init? && !Startup(s, st).1 ==> Startup(s, st).0.phase.Stopped?
  {
    if st.phase.Init? {
      var st0 := st.(phase := Starting);
      PhaseFits(s, st, Starting);
      hide StartApps, Invoke, StartedLog, FailedLog, Shutdown, ClosedLog, ReadyLog, Names, TicksFit, PastLogs;
      WorkspaceStartLog(s, st0);
      var (st1, bad) := if s.onStartup.Callable? then Invoke(s, st0, GlobalStart) else (st0, false);
      if bad {
        PhaseFits(s, st1, Error);
        ShutdownLog(s, st1.(phase := Error), 0);
      } else {
        assert s.apps[0..] == s.apps;
        StartAppsLog(s, st1, 0);
        var (st2, bad') := StartApps(s, st1, s.apps);
        PhaseFits(s, st2, Ready);
        if bad' {
          PhaseFits(s, st2, Error);
          var n: nat :|
            n <= |s.apps| && FailedLog(s, n, st2.current.calls) && st2.current.started == Names(s.apps[..n]);
          ShutdownLog(s, st2.(phase := Error), n);
        }
      }
    }
  }

  lemma StopLog(s: Setup, st: State)
    requires LogInv(s, st)
    ensures LogInv(s, Shutdown(s, st)) && Shutdown(s, st).phase.Stopped?
  {
    if !st.phase.Stopped? {
      if st.phase.Init? {
        assert s.apps[..0] == [];
        ShutdownLog(s, st, 0);
      } else {
        assert s.apps[..|s.apps|] == s.apps;
        assert ReadyLog(s, st.current);
        ShutdownLog(s, st, |s.apps|);
      }
    }
  }

  /** A restart closes the epoch and starts a new one: it ends READY with the full startup, or raises and
      ends STOPPED with what was started unwound. */
  lemma RestartOutcome(s: Setup, st: State)
    requires LogInv(s, st)
    ensures var (st', ok) := Restart(s, st);
      && |st'.past| == |st.past| + 1 && st.past <= st'.past && ClosedLog(s, st'.past[|st.past|])
      && (if ok then st'.phase.Ready? && ReadyLog(s, st'.current) else st'.phase.Stopped? && ClosedLog(s, st'.current))
  {
    hide Shutdown, Startup, ClosedLog, ReadyLog, TicksFit, PastLogs;
    var closed := Shutdown(s, st);
    StopLog(s, st);
    StopKeepsPast(s, st);
    EpochLog(s, closed);
    var begun := NewEpoch(closed);
    StartupLog(s, begun);
    StartKeepsPast(s, begun);
    var (st', ok) := Startup(s, begun);
    assert CurrentLog(s, closed.phase, closed.current);
    assert CurrentLog(s, st'.phase, st'.current);
    assert st'.past == st.past + [closed.current];
  }

  lemma StopKeepsPast(s: Setup, st: State)
    ensures Shutdown(s, st).past == st.past
  {
    StopAppsStops(s, st.(phase := Stopping), st.current.started);
    hide Stops, StartsOk, StopOrder;
  }

  lemma {:induction false} StartAppsKeepPast(s: Setup, st: State, apps: seq<App>)
    ensures StartApps(s, st, apps).0.past == st.past
    ensures StartApps(s, st, apps).0.phase == st.phase
    decreases |apps|
  {
    if apps != [] {
      StartAppsKeepPast(s, StartApp(s, st, apps[0]).0, apps[1..]);
    }
  }

  lemma StartKeepsPast(s: Setup, st: State)
    requires st.phase.Init?
    ensures var (st', ok) := Startup(s, st);
      st'.past == st.past && (ok <==> st'.phase.Ready?)
  {
    var st0 := st.(phase := Starting);
    var (st1, bad) := if s.onStartup.Callable? then Invoke(s, st0, GlobalStart) else (st0, false);
    StartAppsKeepPast(s, st1, s.apps);
    var st2 := if bad then st1 else StartApps(s, st1, s.apps).0;
    StopKeepsPast(s, st2.(phase := Error));
    hide StartApps, StopApps;
  }

  lemma EpochLog(s: Setup, st: State)
    requires LogInv(s, st) && st.phase.Stopped?
    ensures LogInv(s, NewEpoch(st))
  {
    hide ClosedLog;
    var t: nat := st.ticks - |st.current.calls|;
    assert Told(s, st.current.calls, t);
    assert ClosedLog(s, st.current);
    hide Told, TicksFit, PastLogs;
    PastGrows(s, st.past, st.current, t);
    FreshFits(s, NewEpoch(st));
    assert NewEpoch(st).past == st.past + [st.current];
    assert CurrentLog(s, Init, NewEpoch(st).current);
  }

  lemma PastGrows(s: Setup, past: seq<Epoch>, e: Epoch, t: nat)
    requires PastLogs(s, past) && ClosedLog(s, e) && Told(s, e.calls, t)
    ensures PastLogs(s, past + [e])
  {
    assert ToldSomewhere(s, e.calls);
    hide ClosedLog, ToldSomewhere;
    forall i | 0 <= i < |past + [e]|
      ensures ClosedLog(s, (past + [e])[i]) && ToldSomewhere(s, (past + [e])[i].calls)
    {
      assert (past + [e])[i] == if i == |past| then e else past[i];
    }
  }

  lemma FreshFits(s: Setup, st: State)
    requires st.current.calls == []
    ensures TicksFit(s, st)
  {
  }

  /** The complete hook calls of every epoch, over any sequence of operations with hooks raising at will.
      Before startup there is none. A started epoch has called the workspace hook and, app by app, the
      container and the startup hook, as far as configured. A closed epoch (each past one, and the
      current one once STOPPED) is no startup, a full one, or one cut behind the first call that raised;
      then the shutdown hooks of the started apps in reverse; then the workspace shutdown hook, once, if
      it is callable. */
  lemma {:induction false} EveryEpochLog(s: Setup, ops: seq<Op>)
    ensures LogInv(s, DoAll(s, ops))
    decreases |ops|
  {
    if ops != [] {
      var st, op := DoAll(s, ops[..|ops| - 1]), ops[|ops| - 1];
      EveryEpochLog(s, ops[..|ops| - 1]);
      hide DoAll, LogInv, Shutdown, Startup, NewEpoch;
      StartupLog(s, st);
      StopLog(s, st);
      EpochLog(s, Shutdown(s, st));
      StartupLog(s, NewEpoch(Shutdown(s, st)));
      assert DoAll(s, ops) == Do(s, st, op) by {
        DoAllLast(s, ops);
      }
    }
  }

  lemma DoAllLast(s: Setup, ops: seq<Op>)
    requires ops != []
    ensures DoAll(s, ops) == Do(s, DoAll(s, ops[..|ops| - 1]), ops[|ops| - 1])
  {
  }

  // ---- The coordinator ---------------------------------------------------------------------

  class LifecycleCoordinator {
    const setup: Setup
    var phase: Phase
    var startedApps: seq<string>
    var ticks: nat
    var calls: seq<Event>
    ghost var past: seq<Epoch>

    ghost function Current(): State
      reads this
    {
      State(phase, Epoch(startedApps, calls), ticks, past)
    }

    constructor (setup: Setup)
      ensures this.setup == setup && Current() == START
    {
      this.setup, phase, startedApps, ticks, calls, past := setup, Init, [], 0, [], [];
    }

    method CallHook(call: Call) returns (raised: bool)
      modifies this
      ensures (Current(), raised) == Invoke(setup, old(Current()), call)
    {
      raised := setup.raises(ticks);
      calls := calls + [Event(call, raised)];
      ticks := ticks + 1;
    }

    method StartupApp(app: App) returns (raised: bool)
      modifies this
      ensures (Current(), raised) == StartApp(setup, old(Current()), app)
    {
      if app.onStartup.Absent? {
        startedApps := startedApps + [app.name];
        return false;
      }
      if app.hasContainer {
        raised := CallHook(ContainerStart(app.name));
        if raised {
          return true;
        }
      }
      if app.onStartup.Callable? {
        raised := CallHook(AppStart(app.name));
        if raised {
          return true;
        }
      }
      startedApps := startedApps + [app.name];
      return false;
    }

    method StartupApps() returns (raised: bool)
      modifies this
      ensures (Current(), raised) == StartApps(setup, old(Current()), setup.apps)
    {
      var i := 0;
      while i < |setup.apps|
        invariant 0 <= i <= |setup.apps|
        invariant StartApps(setup, Current(), setup.apps[i..]) == StartApps(setup, old(Current()), setup.apps)
      {
        assert setup.apps[i..][1..] == setup.apps[i + 1..];
        raised := StartupApp(setup.apps[i]);
        if raised {
          return true;
        }
        i := i + 1;
      }
      return false;
    }

    method DoStartup() returns (ok: bool)
      modifies this
      ensures (Current(), ok) == Startup(setup, old(Current()))
    {
      if phase != Init {
        return false;
      }
      phase := Starting;
      var raised := false;
      if setup.onStartup.Callable? {
        raised := CallHook(GlobalStart);
      }
      if !raised {
        raised := StartupApps();
      }
      if raised {
        phase := Error;
        DoShutdown();
        return false;
      }
      phase := Ready;
      return true;
    }

    method DoShutdown()
      modifies this
      ensures Current() == Shutdown(setup, old(Current()))
    {
      if phase == Stopped {
        return;
      }
      phase := Stopping;
      ghost var begin := Current();
      assert startedApps[..|startedApps|] == startedApps;
      var i := |startedApps|;
      while i > 0
        invariant 0 <= i <= |startedApps| && startedApps == old(startedApps)
        invariant StopApps(setup, Current(), startedApps[..i]) == StopApps(setup, begin, startedApps)
      {
        i := i - 1;
        var name := startedApps[i];
        assert startedApps[..i + 1][..i] == startedApps[..i];
        if HasStopHook(setup.apps, name) {
          var _ := CallHook(AppStop(name));
        }
      }
      if setup.onShutdown.Callable? {
        var _ := CallHook(GlobalStop);
      }
      phase := Stopped;
    }

    method DoRestart() returns (ok: bool)
      modifies this
      ensures (Current(), ok) == Restart(setup, old(Current()))
    {
      DoShutdown();
      phase := Init;
      past := past + [Epoch(startedApps, calls)];
      startedApps, calls := [], [];
      ok := DoStartup();
    }
  }
}
