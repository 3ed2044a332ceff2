/** One execution of a flow pipeline: effect acquisition, the five phases, and release in the
    `finally` block (`FlowPipeline.execute`, `_acquire_effects` and `_release_effects` of
    aquilia/flow.py), against an arbitrary registry and arbitrary nodes. */
module FlowRun {
  import opened Common
  import opened FlowOrder

  // ---- The environment ---------------------------------------------------------------------

  datatype Resource = PyNone | Handle(id: int)

  /** `FlowContext.effects`. */
  type Effects = map<string, Resource>

  datatype Value = VNone | VFalse | VResponse(id: int) | VContext(effects: Effects) | VOther(id: int)

  /** How an awaited call ends. `Exits` is an exception outside `Exception` other than a
      cancellation, such as SystemExit or KeyboardInterrupt. */
  datatype Outcome<+T> = Returns(value: T) | Raises | IsCancelled | Exits

  datatype ReleaseOutcome = Completes | ReleaseRaises | ReleaseCancelled

  datatype Condition = Holds | Fails | ConditionRaises

  /** Everything outside the pipeline. Node behaviour is indexed by position in the sorted node list:
      a run calls each position at most once. `after` is what a call leaves in the effects map of the
      context it was given. `order` is the iteration order of a set at acquisition (stage 0),
      rollback (stage 1) and final release (stage 2). */
  datatype Env = Env(
    hasRegistry: bool,
    registered: set<string>,
    acquire: string -> Outcome<Resource>,
    release: (string, Resource) -> ReleaseOutcome,
    condition: nat -> Condition,
    call: (nat, Effects) -> Outcome<Value>,
    after: (nat, Effects) -> Effects,
    order: (nat, set<string>) -> seq<string>)

  ghost predicate Enumerates(names: seq<string>, s: set<string>) {
    && (forall i, j :: 0 <= i < j < |names| ==> names[i] != names[j])
    && (forall n :: n in names <==> n in s)
  }

  ghost predicate WellFormed(env: Env) {
    forall stage, s :: Enumerates(env.order(stage, s), s)
  }

  datatype Event =
    | Acquired(name: string, resource: Resource)
    | Called(position: nat)
    | Released(name: string, resource: Resource, success: bool)

  datatype St = St(effects: Effects, log: seq<Event>)

  /** Why a run leaves its `try` block. */
  datatype Halt = Going | GuardRaised | GuardRejected(value: Value) | Crashed | Cancelled | Aborted

  /** `Escaped`: `execute` itself raised. */
  datatype Status = Success(value: Value) | Guarded(error: bool, value: Value) | Error | CancelledRun | Escaped

  // ---- Specification: release, acquire, one walk over the sorted nodes ---------------------

  /** Pops one name and, if it held a resource of a registered effect, makes the release call. The
      flag says whether that call was cancelled. */
  function ReleaseOne(name: string, success: bool, env: Env, st: St): (r: (St, bool)) {
    if name !in st.effects then (st, false)
    else
      var resource := st.effects[name];
      var popped := st.(effects := st.effects - {name});
      if resource == PyNone || name !in env.registered then (popped, false)
      else
        (popped.(log := st.log + [Released(name, resource, success)]), env.release(name, resource) == ReleaseCancelled)
  }

  function ReleaseAll(names: seq<string>, success: bool, env: Env, st: St): (r: (St, bool)) {
    if names == [] then (st, false)
    else
      var (st', cancelled) := ReleaseOne(names[0], success, env, st);
      if cancelled then (st', true) else ReleaseAll(names[1..], success, env, st')
  }

  function AcquireAll(names: seq<string>, env: Env, st: St): (r: (St, Halt)) {
    if names == [] then (st, Going)
    else
      var name := names[0];
      if name !in env.registered then AcquireAll(names[1..], env, st)
      else
        match env.acquire(name)
        case Returns(resource) =>
          AcquireAll(names[1..], env, St(st.effects[name := resource], st.log + [Acquired(name, resource)]))
        case Raises =>
          var (st', cancelled) := ReleaseAll(env.order(1, st.effects.Keys), false, env, st);
          (st', if cancelled then Cancelled else Crashed)
        case IsCancelled => (st, Cancelled)
        case Exits => (st, Aborted)
  }

  /** Progress through the nodes: whether the handler was called, and the result value so far. */
  datatype Walk = Walk(st: St, handled: bool, value: Value)

  /** What one node does when its turn comes. */
  function Visit(kind: NodeKind, i: nat, env: Env, w: Walk): (r: (Walk, Halt)) {
    if kind.Middleware? || (kind.Handler? && w.handled) || env.condition(i).Fails? then (w, Going)
    else if env.condition(i).ConditionRaises? then (w, Crashed)
    else
      var outcome := env.call(i, w.st.effects);
      var st := St(env.after(i, w.st.effects), w.st.log + [Called(i)]);
      var w' := w.(st := st, handled := w.handled || kind.Handler?);
      match outcome
      case IsCancelled => (w', Cancelled)
      case Exits => (w', Aborted)
      case Raises => (w', if kind.Guard? then GuardRaised else if kind.Hook? then Going else Crashed)
      case Returns(v) =>
        match kind
        case Guard => (w', if v.VFalse? then GuardRejected(VNone) else if v.VResponse? then GuardRejected(v) else Going)
        case Transform => (if v.VContext? then w'.(st := st.(effects := v.effects)) else w', Going)
        case Handler => (w'.(value := v), Going)
        case Hook => (if v.VNone? then w' else w'.(value := v), Going)
        case _ => (w', Going)
  }

  /** One pass over the sorted nodes from position `i`. */
  function WalkAll(nodes: seq<Node>, i: nat, env: Env, w: Walk): (r: (Walk, Halt))
    requires i <= |nodes|
    decreases |nodes| - i
  {
    if i == |nodes| then (w, Going)
    else
      var (w', halt) := Visit(nodes[i].kind, i, env, w);
      if halt.Going? then WalkAll(nodes, i + 1, env, w') else (w', halt)
  }

  function RequiredEffects(nodes: seq<Node>): set<string> {
    set n, e | n in nodes && e in n.effects + n.declared :: e
  }

  /** The flag given to releases: only the exception clauses clear it. */
  function SuccessFlag(halt: Halt): bool {
    halt.Going? || halt.GuardRejected? || halt.Aborted?
  }

  function StatusOf(halt: Halt, value: Value): Status {
    match halt
    case Going => Success(value)
    case GuardRaised => Guarded(true, VNone)
    case GuardRejected(v) => Guarded(false, v)
    case Crashed => Error
    case Cancelled => CancelledRun
    case Aborted => Escaped
  }

  datatype RunResult = RunResult(status: Status, st: St)

  /** The run up to the `finally` block. */
  function TryBlock(sorted: seq<Node>, env: Env, initial: Effects): (r: (Walk, Halt)) {
    var all := RequiredEffects(sorted);
    var (st, halt) := if env.hasRegistry && all != {} then AcquireAll(env.order(0, all), env, St(initial, []))
                      else (St(initial, []), Going);
    var w := Walk(st, false, VNone);
    if halt.Going? then WalkAll(sorted, 0, env, w) else (w, halt)
  }

  function Run(nodes: seq<Node>, env: Env, initial: Effects): (r: RunResult) {
    var sorted := SortNodes(nodes);
    var all := RequiredEffects(sorted);
    var (w, halt) := TryBlock(sorted, env, initial);
    var active := env.hasRegistry && all != {};
    var (st, cancelled) := if active then ReleaseAll(env.order(2, all), SuccessFlag(halt), env, w.st)
                           else (w.st, false);
    RunResult(if cancelled then Escaped else StatusOf(halt, w.value), st)
  }

  // ---- Five filtered scans are one walk ----------------------------------------------------

  /** A phase: visit only the nodes of one kind, stopping after the first handler call. */
  function Scan(nodes: seq<Node>, kind: NodeKind, i: nat, env: Env, w: Walk): (r: (Walk, Halt))
    requires i <= |nodes|
    decreases |nodes| - i
  {
    if i == |nodes| || (kind.Handler? && w.handled) then (w, Going)
    else if nodes[i].kind != kind then Scan(nodes, kind, i + 1, env, w)
    else
      var (w', halt) := Visit(kind, i, env, w);
      if halt.Going? then Scan(nodes, kind, i + 1, env, w') else (w', halt)
  }

  function KindOf(band: nat): NodeKind
    requires 1 <= band <= 5
  {
    [Guard, Transform, Effect, Handler, Hook][band - 1]
  }

  /** The phases from `band` on, each scanning from position `i`. */
  function Phases(nodes: seq<Node>, band: nat, i: nat, env: Env, w: Walk): (r: (Walk, Halt))
    requires i <= |nodes| && 1 <= band <= 6
    decreases 6 - band
  {
    if band == 6 then (w, Going)
    else
      var (w', halt) := Scan(nodes, KindOf(band), i, env, w);
      if halt.Going? then Phases(nodes, band + 1, i, env, w') else (w', halt)
  }

  lemma {:induction false} PhasesSkipEarlierNode(nodes: seq<Node>, band: nat, i: nat, env: Env, w: Walk)
    requires i < |nodes| && 1 <= band <= 6 && Band(nodes[i].kind) < band
    ensures Phases(nodes, band, i, env, w) == Phases(nodes, band, i + 1, env, w)
    decreases 6 - band
  {
    if band < 6 {
      var (w', halt) := Scan(nodes, KindOf(band), i, env, w);
      PhasesSkipEarlierNode(nodes, band + 1, i, env, w');
    }
  }

  lemma {:induction false} ScanFindsNothing(nodes: seq<Node>, kind: NodeKind, i: nat, env: Env, w: Walk)
    requires i <= |nodes| && forall j :: i <= j < |nodes| ==> nodes[j].kind != kind
    ensures Scan(nodes, kind, i, env, w) == (w, Going)
    decreases |nodes| - i
  {
    if i < |nodes| {
      ScanFindsNothing(nodes, kind, i + 1, env, w);
    }
  }

  /** On a band-sorted list the phases, each scanning everything, act as one walk. */
  lemma {:induction false} PhasesAreOneWalk(nodes: seq<Node>, band: nat, i: nat, env: Env, w: Walk)
    requires Sorted(nodes) && i <= |nodes| && 1 <= band <= 6
    requires forall j :: i <= j < |nodes| ==> nodes[j].kind.Middleware? || Band(nodes[j].kind) >= band
    ensures Phases(nodes, band, i, env, w) == WalkAll(nodes, i, env, w)
    decreases |nodes| - i, 6 - band
  {
    if band == 6 {
      assert forall j :: i <= j < |nodes| ==> nodes[j].kind.Middleware?;
      if i < |nodes| {
        PhasesAreOneWalk(nodes, band, i + 1, env, w);
      }
    } else if i == |nodes| {
      PhasesAreOneWalk(nodes, band + 1, i, env, w);
    } else if nodes[i].kind.Middleware? {
      PhasesSkipEarlierNode(nodes, band, i, env, w);
      PhasesAreOneWalk(nodes, band, i + 1, env, w);
    } else if nodes[i].kind != KindOf(band) {
      LaterNodesAreLater(nodes, i);
      ScanFindsNothing(nodes, KindOf(band), i, env, w);
      PhasesAreOneWalk(nodes, band + 1, i, env, w);
    } else {
      var (w', halt) := Visit(nodes[i].kind, i, env, w);
      if halt.Going? {
        PhasesAreOneWalk(nodes, band, i + 1, env, w');
        var (w'', halt') := Scan(nodes, KindOf(band), i + 1, env, w');
        assert Scan(nodes, KindOf(band), i, env, w) == (w'', halt') by {
          if nodes[i].kind.Handler? && w.handled {
            assert w' == w;
          }
        }
        PhasesSkipEarlierNode(nodes, band + 1, i, env, w'');
      }
    }
  }

  lemma LaterNodesAreLater(nodes: seq<Node>, i: nat)
    requires Sorted(nodes) && i < |nodes|
    ensures forall j :: i <= j < |nodes| ==> Band(nodes[j].kind) >= Band(nodes[i].kind)
  {
  }

  // ---- Order of calls ----------------------------------------------------------------------

  /** The positions called, in order. */
  function Calls(log: seq<Event>): seq<nat> {
    if log == [] then []
    else
      var last := log[|log| - 1];
      Calls(log[..|log| - 1]) + (if last.Called? then [last.position] else [])
  }

  /** Positions due to run: condition holds, no middleware, nothing but hooks and others after the
      first handler that is itself a handler. */
  function Eligible(nodes: seq<Node>, i: nat, env: Env, handled: bool): seq<nat>
    requires i <= |nodes|
    decreases |nodes| - i
  {
    if i == |nodes| then []
    else
      var kind := nodes[i].kind;
      if RunsAt(kind, i, env, handled) then [i] + Eligible(nodes, i + 1, env, handled || kind.Handler?)
      else Eligible(nodes, i + 1, env, handled)
  }

  /** Strictly increasing positions of nodes due to run, with at most one handler among them (none if
      one was already called). */
  ghost predicate Schedule(c: seq<nat>, nodes: seq<Node>, from: nat, env: Env, handled: bool) {
    && (forall p :: p in c ==> from <= p < |nodes| && !nodes[p].kind.Middleware? && env.condition(p).Holds?)
    && (forall a, b :: 0 <= a < b < |c| ==> c[a] < c[b])
    && (forall p, q :: p in c && q in c && nodes[p].kind.Handler? && nodes[q].kind.Handler? ==> p == q)
    && (handled ==> forall p :: p in c ==> !nodes[p].kind.Handler?)
  }

  /** A node whose condition holds is left out only as middleware or as a handler after a handler. */
  ghost predicate Complete(c: seq<nat>, nodes: seq<Node>, from: nat, env: Env, handled: bool) {
    forall p :: from <= p < |nodes| && env.condition(p).Holds? && !nodes[p].kind.Middleware? && p !in c ==>
      nodes[p].kind.Handler? && (handled || exists q :: q in c && q < p < |nodes| && nodes[q].kind.Handler?)
  }

  lemma {:induction false} EligibleShape(nodes: seq<Node>, i: nat, env: Env, handled: bool)
    requires i <= |nodes|
    ensures Schedule(Eligible(nodes, i, env, handled), nodes, i, env, handled)
    ensures Complete(Eligible(nodes, i, env, handled), nodes, i, env, handled)
    decreases |nodes| - i
  {
    if i < |nodes| {
      var kind := nodes[i].kind;
      var later := handled || (kind.Handler? && RunsAt(kind, i, env, handled));
      EligibleShape(nodes, i + 1, env, later);
      var rest := Eligible(nodes, i + 1, env, later);
      if RunsAt(kind, i, env, handled) {
        assert Eligible(nodes, i, env, handled) == [i] + rest;
        ScheduleFrom(rest, nodes, i, env, handled);
      }
      hide Eligible;
    }
  }

  /** A node due to run goes in front of the schedule of the later ones. */
  lemma ScheduleFrom(rest: seq<nat>, nodes: seq<Node>, i: nat, env: Env, handled: bool)
    requires i < |nodes| && RunsAt(nodes[i].kind, i, env, handled)
    requires Schedule(rest, nodes, i + 1, env, handled || nodes[i].kind.Handler?)
    requires Complete(rest, nodes, i + 1, env, handled || nodes[i].kind.Handler?)
    ensures Schedule([i] + rest, nodes, i, env, handled) && Complete([i] + rest, nodes, i, env, handled)
  {
    var c := [i] + rest;
    assert forall q :: q in c <==> q == i || q in rest;
    assert forall a :: 0 < a < |c| ==> c[a] == rest[a - 1] && c[a] in rest;
  }

  lemma CallsAppend(log: seq<Event>, e: Event)
    ensures Calls(log + [e]) == Calls(log) + if e.Called? then [e.position] else []
  {
    assert (log + [e])[..|log|] == log;
  }

  /** Whether a node is called when its turn comes. */
  predicate RunsAt(kind: NodeKind, i: nat, env: Env, handled: bool) {
    !kind.Middleware? && !(kind.Handler? && handled) && env.condition(i).Holds?
  }

  lemma VisitFacts(kind: NodeKind, i: nat, env: Env, w: Walk)
    ensures var (w', halt) := Visit(kind, i, env, w);
      && w'.st.log == (if RunsAt(kind, i, env, w.handled) then w.st.log + [Called(i)] else w.st.log)
      && w'.handled == (w.handled || (kind.Handler? && RunsAt(kind, i, env, w.handled)))
      && (Clean(env) ==> w'.st.effects == w.st.effects)
  {
  }

  lemma {:induction false} WalkCalls(nodes: seq<Node>, i: nat, env: Env, w: Walk)
    requires i <= |nodes|
    ensures var (w', halt) := WalkAll(nodes, i, env, w);
      && Calls(w'.st.log) <= Calls(w.st.log) + Eligible(nodes, i, env, w.handled)
      && (halt.Going? ==> Calls(w'.st.log) == Calls(w.st.log) + Eligible(nodes, i, env, w.handled))
    decreases |nodes| - i
  {
    if i < |nodes| {
      var (w', halt) := Visit(nodes[i].kind, i, env, w);
      VisitFacts(nodes[i].kind, i, env, w);
      CallsAppend(w.st.log, Called(i));
      EligibleFirst(nodes, i, env, w.handled);
      hide Visit, Calls, RunsAt, Clean, Eligible;
      var before, later := Calls(w.st.log), Eligible(nodes, i + 1, env, w'.handled);
      assert (before + [i]) + later == before + ([i] + later);
      assert before + ([] + later) == before + later;
      if halt.Going? {
        WalkCalls(nodes, i + 1, env, w');
      }
    }
  }

  lemma EligibleFirst(nodes: seq<Node>, i: nat, env: Env, handled: bool)
    requires i < |nodes|
    ensures var runs := RunsAt(nodes[i].kind, i, env, handled);
      Eligible(nodes, i, env, handled) ==
      (if runs then [i] else []) + Eligible(nodes, i + 1, env, handled || (nodes[i].kind.Handler? && runs))
  {
  }

  lemma {:induction false} AcquireCallsNothing(names: seq<string>, env: Env, st: St)
    ensures Calls(AcquireAll(names, env, st).0.log) == Calls(st.log)
  {
    if names != [] {
      var name := names[0];
      if name !in env.registered {
        AcquireCallsNothing(names[1..], env, st);
      } else {
        match env.acquire(name)
        case Returns(r) =>
          CallsAppend(st.log, Acquired(name, r));
          AcquireCallsNothing(names[1..], env, St(st.effects[name := r], st.log + [Acquired(name, r)]));
        case Raises => ReleaseCallsNothing(env.order(1, st.effects.Keys), false, env, st);
        case _ =>
      }
    }
  }

  lemma {:induction false} ReleaseCallsNothing(names: seq<string>, success: bool, env: Env, st: St)
    ensures Calls(ReleaseAll(names, success, env, st).0.log) == Calls(st.log)
  {
    if names != [] {
      var name := names[0];
      if name in st.effects {
        CallsAppend(st.log, Released(name, st.effects[name], success));
      }
      ReleaseCallsNothing(names[1..], success, env, ReleaseOne(name, success, env, st).0);
    }
  }

  lemma TryBlockCalls(sorted: seq<Node>, env: Env, initial: Effects)
    ensures var (w, halt) := TryBlock(sorted, env, initial);
      && Calls(w.st.log) <= Eligible(sorted, 0, env, false)
      && (halt.Going? ==> Calls(w.st.log) == Eligible(sorted, 0, env, false))
  {
    var all := RequiredEffects(sorted);
    var start := St(initial, []);
    AcquireCallsNothing(env.order(0, all), env, start);
    var (st, halt) := if env.hasRegistry && all != {} then AcquireAll(env.order(0, all), env, start)
                      else (start, Going);
    assert Calls(st.log) == [];
    hide AcquireAll, RequiredEffects, Calls;
    WalkCalls(sorted, 0, env, Walk(st, false, VNone));
    hide WalkAll, Eligible;
  }

  /** Any run calls a prefix of the eligible positions of the sorted list, a successful run all. */
  lemma CallsFollowSortedOrder(nodes: seq<Node>, env: Env, initial: Effects)
    ensures var r := Run(nodes, env, initial);
      && Calls(r.st.log) <= Eligible(SortNodes(nodes), 0, env, false)
      && (r.status.Success? ==> Calls(r.st.log) == Eligible(SortNodes(nodes), 0, env, false))
  {
    hide TryBlock, ReleaseAll, RequiredEffects, Calls, Eligible, SortNodes;
    var sorted := SortNodes(nodes);
    var (w, halt) := TryBlock(sorted, env, initial);
    TryBlockCalls(sorted, env, initial);
    ReleaseCallsNothing(env.order(2, RequiredEffects(sorted)), SuccessFlag(halt), env, w.st);
  }

  // ---- The resource protocol ---------------------------------------------------------------

  /** How often a log acquires resource `r` of effect `n`. */
  function Acquisitions(log: seq<Event>, n: string, r: Resource): nat {
    if log == [] then 0
    else Acquisitions(log[..|log| - 1], n, r) + if log[|log| - 1] == Acquired(n, r) then 1 else 0
  }

  /** How often a log releases resource `r` of effect `n` with the given success flag. */
  function Releases(log: seq<Event>, n: string, r: Resource, flag: bool): nat {
    if log == [] then 0
    else Releases(log[..|log| - 1], n, r, flag) + if log[|log| - 1] == Released(n, r, flag) then 1 else 0
  }

  function HeldCount(effects: Effects, n: string, r: Resource): nat {
    if n in effects && effects[n] == r then 1 else 0
  }

  lemma CountAppend(log: seq<Event>, e: Event, n: string, r: Resource, flag: bool)
    ensures Acquisitions(log + [e], n, r) == Acquisitions(log, n, r) + if e == Acquired(n, r) then 1 else 0
    ensures Releases(log + [e], n, r, flag) == Releases(log, n, r, flag) + if e == Released(n, r, flag) then 1 else 0
  {
    assert (log + [e])[..|log|] == log;
  }

  ghost function NameSet(names: seq<string>): set<string> {
    set n | n in names
  }

  ghost predicate NoReleaseCancelled(env: Env) {
    forall n, r :: env.release(n, r) != ReleaseCancelled
  }

  /** How often a release pass over `names` hands back `r` of effect `n`. */
  function HandedBack(names: seq<string>, env: Env, effects: Effects, n: string, r: Resource): nat {
    if n in names && r != PyNone && n in env.registered then HeldCount(effects, n, r) else 0
  }

  lemma ReleaseOneCounts(name: string, success: bool, env: Env, st: St, n: string, r: Resource)
    ensures var st' := ReleaseOne(name, success, env, st).0;
      && Acquisitions(st'.log, n, r) == Acquisitions(st.log, n, r)
      && Releases(st'.log, n, r, success) == Releases(st.log, n, r, success) + HandedBack([name], env, st.effects, n, r)
      && Releases(st'.log, n, r, !success) == Releases(st.log, n, r, !success)
      && st'.effects == st.effects - {name}
  {
    if name in st.effects {
      CountAppend(st.log, Released(name, st.effects[name], success), n, r, success);
      CountAppend(st.log, Released(name, st.effects[name], success), n, r, !success);
    }
    hide Acquisitions, Releases;
  }

  /** A release pass that is not cancelled hands back every listed resource that is not None and whose
      effect is registered, once, with the given flag. */
  lemma {:induction false} ReleaseAllCounts(names: seq<string>, success: bool, env: Env, st: St, n: string, r: Resource)
    requires NoReleaseCancelled(env)
    ensures var (st', cancelled) := ReleaseAll(names, success, env, st);
      && !cancelled
      && Acquisitions(st'.log, n, r) == Acquisitions(st.log, n, r)
      && Releases(st'.log, n, r, success) == Releases(st.log, n, r, success) + HandedBack(names, env, st.effects, n, r)
      && Releases(st'.log, n, r, !success) == Releases(st.log, n, r, !success)
  {
    if names != [] {
      var name, later := names[0], names[1..];
      var (st', cancelled) := ReleaseOne(name, success, env, st);
      ReleaseOneCounts(name, success, env, st, n, r);
      assert !cancelled;
      hide ReleaseOne, Acquisitions, Releases;
      ReleaseAllCounts(later, success, env, st', n, r);
      assert n in names <==> n in [name] || n in later;
    }
  }

  lemma {:induction false} ReleaseAllForgets(names: seq<string>, success: bool, env: Env, st: St)
    requires NoReleaseCancelled(env)
    ensures ReleaseAll(names, success, env, st).0.effects == st.effects - NameSet(names)
  {
    if names != [] {
      var name, later := names[0], names[1..];
      var st' := ReleaseOne(name, success, env, st).0;
      assert st'.effects == st.effects - {name};
      ReleaseAllForgets(later, success, env, st');
      assert NameSet(names) == {name} + NameSet(later);
    }
  }

  /** The stated assumptions: releases are not cancelled, providers do not return None, and no node
      changes the effects map, also not through a context returned by a transform. */
  ghost predicate Clean(env: Env) {
    && WellFormed(env)
    && NoReleaseCancelled(env)
    && (forall n :: env.acquire(n) != Returns(PyNone))
    && (forall i, e :: env.after(i, e) == e)
    && (forall i, e :: env.call(i, e).Returns? && env.call(i, e).value.VContext? ==> env.call(i, e).value.effects == e)
  }

  ghost predicate Releasable(env: Env, effects: Effects) {
    forall m :: m in effects ==> effects[m] != PyNone && m in env.registered
  }

  /** Every acquisition is either released, always with `flag`, or still held. */
  ghost predicate Accounted(st: St, n: string, r: Resource, flag: bool) {
    && Acquisitions(st.log, n, r) == Releases(st.log, n, r, flag) + HeldCount(st.effects, n, r)
    && Acquisitions(st.log, n, r) <= 1
    && Releases(st.log, n, r, !flag) == 0
  }

  lemma {:induction false} AcquireCounts(names: seq<string>, env: Env, st: St, n: string, r: Resource)
    requires Clean(env) && Releasable(env, st.effects)
    requires forall i, j :: 0 <= i < j < |names| ==> names[i] != names[j]
    requires forall i :: 0 <= i < |names| ==> names[i] !in st.effects
    requires Accounted(st, n, r, false) && Releases(st.log, n, r, false) == 0
    ensures var (st', halt) := AcquireAll(names, env, st);
      && Accounted(st', n, r, false)
      && Releasable(env, st'.effects)
      && (forall m :: m in st'.effects ==> m in st.effects || m in names)
      && (halt.Crashed? ==> st'.effects == map[])
      && (!halt.Crashed? ==> Releases(st'.log, n, r, false) == 0)
      && (halt.Going? || halt.Crashed? || halt.Cancelled? || halt.Aborted?)
  {
    if names != [] {
      var name, later := names[0], names[1..];
      if name !in env.registered {
        AcquireCounts(later, env, st, n, r);
      } else {
        match env.acquire(name)
        case Returns(resource) =>
          var next := St(st.effects[name := resource], st.log + [Acquired(name, resource)]);
          CountAppend(st.log, Acquired(name, resource), n, r, false);
          CountAppend(st.log, Acquired(name, resource), n, r, true);
          hide Acquisitions, Releases, ReleaseAll;
          AcquireCounts(later, env, next, n, r);
        case Raises =>
          RollbackCounts(env, st, n, r);
        case _ =>
      }
    }
  }

  /** The rollback releases all that is held, as failed. */
  lemma RollbackCounts(env: Env, st: St, n: string, r: Resource)
    requires Clean(env) && Releasable(env, st.effects) && Accounted(st, n, r, false)
    ensures var (st', cancelled) := ReleaseAll(env.order(1, st.effects.Keys), false, env, st);
      !cancelled && Accounted(st', n, r, false) && st'.effects == map[]
  {
    var order := env.order(1, st.effects.Keys);
    assert NameSet(order) == st.effects.Keys;
    ReleaseAllCounts(order, false, env, st, n, r);
    ReleaseAllForgets(order, false, env, st);
    assert st.effects - st.effects.Keys == map[];
  }

  lemma {:induction false} WalkKeepsEffects(nodes: seq<Node>, i: nat, env: Env, w: Walk, n: string, r: Resource,
                                            flag: bool)
    requires i <= |nodes|
    ensures var (w', halt) := WalkAll(nodes, i, env, w);
      && Acquisitions(w'.st.log, n, r) == Acquisitions(w.st.log, n, r)
      && Releases(w'.st.log, n, r, flag) == Releases(w.st.log, n, r, flag)
      && (Clean(env) ==> w'.st.effects == w.st.effects)
    decreases |nodes| - i
  {
    if i < |nodes| {
      var (w', halt) := Visit(nodes[i].kind, i, env, w);
      VisitFacts(nodes[i].kind, i, env, w);
      hide Visit;
      CountAppend(w.st.log, Called(i), n, r, flag);
      if halt.Going? {
        WalkKeepsEffects(nodes, i + 1, env, w', n, r, flag);
      }
    }
  }

  /** Whether releases are told the run succeeded: yes for a success, for a guard that rejects
      without raising, and also when an exception outside `Exception` escapes. */
  predicate ToldSuccess(status: Status) {
    status.Success? || (status.Guarded? && !status.error) || status.Escaped?
  }

  /** The account when the `finally` block is reached. */
  lemma TryBlockCounts(sorted: seq<Node>, env: Env, n: string, r: Resource)
    requires Clean(env)
    ensures var (w, halt) := TryBlock(sorted, env, map[]);
      && Accounted(w.st, n, r, SuccessFlag(halt))
      && Releasable(env, w.st.effects)
      && w.st.effects.Keys <= RequiredEffects(sorted)
      && (!(env.hasRegistry && RequiredEffects(sorted) != {}) ==> w.st.effects == map[])
  {
    var all := RequiredEffects(sorted);
    var start := St(map[], []);
    var first := env.order(0, all);
    AcquireCounts(first, env, start, n, r);
    var (st, acquired) := if env.hasRegistry && all != {} then AcquireAll(first, env, start) else (start, Going);
    WalkKeepsEffects(sorted, 0, env, Walk(st, false, VNone), n, r, true);
    WalkKeepsEffects(sorted, 0, env, Walk(st, false, VNone), n, r, false);
  }

  /** In every run from an empty effects map each resource is released exactly as often as it was
      acquired, that is at most once, always with the flag the outcome calls for and never with the
      other; and nothing stays in the map. */
  lemma EveryResourceReleasedExactlyOnce(nodes: seq<Node>, env: Env, n: string, r: Resource)
    requires Clean(env)
    ensures var run := Run(nodes, env, map[]);
      var flag := ToldSuccess(run.status);
      && Releases(run.st.log, n, r, flag) == Acquisitions(run.st.log, n, r) <= 1
      && Releases(run.st.log, n, r, !flag) == 0
      && run.st.effects == map[]
  {
    var sorted := SortNodes(nodes);
    var all := RequiredEffects(sorted);
    TryBlockCounts(sorted, env, n, r);
    var (w, halt) := TryBlock(sorted, env, map[]);
    hide TryBlock, RequiredEffects;
    if env.hasRegistry && all != {} {
      var last := env.order(2, all);
      assert NameSet(last) == all;
      ReleaseAllCounts(last, SuccessFlag(halt), env, w.st, n, r);
      ReleaseAllForgets(last, SuccessFlag(halt), env, w.st);
      assert w.st.effects - all == map[];
    }
  }

  // ---- What holds with no assumption at all ------------------------------------------------

  function Rank(e: Event): nat {
    if e.Acquired? then 0 else if e.Called? then 1 else 2
  }

  /** Acquisitions, then node calls, then releases; no name is released twice, and a released name is
      no longer in the effects map. */
  ghost predicate Protocol(st: St) {
    && (forall i, j :: 0 <= i < j < |st.log| ==> Rank(st.log[i]) <= Rank(st.log[j]))
    && (forall i, j :: 0 <= i < j < |st.log| && st.log[i].Released? && st.log[j].Released? ==>
          st.log[i].name != st.log[j].name)
    && (forall j :: 0 <= j < |st.log| && st.log[j].Released? ==> st.log[j].name !in st.effects)
  }

  ghost predicate AllAtMost(log: seq<Event>, rank: nat) {
    forall j :: 0 <= j < |log| ==> Rank(log[j]) <= rank
  }

  lemma {:induction false} ReleaseKeepsProtocol(names: seq<string>, success: bool, env: Env, st: St)
    requires Protocol(st)
    ensures Protocol(ReleaseAll(names, success, env, st).0)
  {
    if names != [] {
      var (st', cancelled) := ReleaseOne(names[0], success, env, st);
      ReleaseKeepsProtocol(names[1..], success, env, st');
    }
  }

  lemma {:induction false} AcquireKeepsProtocol(names: seq<string>, env: Env, st: St)
    requires Protocol(st) && AllAtMost(st.log, 0)
    ensures var (st', halt) := AcquireAll(names, env, st);
      Protocol(st') && (halt.Going? ==> AllAtMost(st'.log, 0))
  {
    if names != [] {
      var name := names[0];
      if name !in env.registered {
        AcquireKeepsProtocol(names[1..], env, st);
      } else {
        match env.acquire(name)
        case Returns(r) =>
          AcquireKeepsProtocol(names[1..], env, St(st.effects[name := r], st.log + [Acquired(name, r)]));
        case Raises => ReleaseKeepsProtocol(env.order(1, st.effects.Keys), false, env, st);
        case _ =>
      }
    }
  }

  lemma CallKeepsProtocol(before: St, after: St, i: nat)
    requires Protocol(before) && AllAtMost(before.log, 1)
    requires after.log == before.log || after.log == before.log + [Called(i)]
    ensures Protocol(after) && AllAtMost(after.log, 1)
  {
  }

  lemma {:induction false} WalkKeepsProtocol(nodes: seq<Node>, i: nat, env: Env, w: Walk)
    requires i <= |nodes| && Protocol(w.st) && AllAtMost(w.st.log, 1)
    ensures var w' := WalkAll(nodes, i, env, w).0;
      Protocol(w'.st) && AllAtMost(w'.st.log, 1)
    decreases |nodes| - i
  {
    if i < |nodes| {
      var (w', halt) := Visit(nodes[i].kind, i, env, w);
      VisitFacts(nodes[i].kind, i, env, w);
      hide Visit;
      CallKeepsProtocol(w.st, w'.st, i);
      hide Protocol;
      if halt.Going? {
        WalkKeepsProtocol(nodes, i + 1, env, w');
      }
    }
  }

  /** Whatever the nodes, providers, initial effects and iteration orders do: acquisitions precede all
      node calls, these precede all releases, and nothing is released twice. */
  lemma EveryRunKeepsProtocol(nodes: seq<Node>, env: Env, initial: Effects)
    ensures Protocol(Run(nodes, env, initial).st)
  {
    var sorted := SortNodes(nodes);
    var all := RequiredEffects(sorted);
    var start := St(initial, []);
    AcquireKeepsProtocol(env.order(0, all), env, start);
    var (st, halt) := if env.hasRegistry && all != {} then AcquireAll(env.order(0, all), env, start)
                      else (start, Going);
    if halt.Going? {
      WalkKeepsProtocol(sorted, 0, env, Walk(st, false, VNone));
    }
    var (w, end) := TryBlock(sorted, env, initial);
    ReleaseKeepsProtocol(env.order(2, all), SuccessFlag(end), env, w.st);
  }

  // ---- The executor ------------------------------------------------------------------------

  /** The outside world: fixed behaviour, plus a log of the calls it received. */
  class World {
    const env: Env
    var log: seq<Event>

    constructor (env: Env)
      ensures this.env == env && log == []
    {
      this.env, log := env, [];
    }
  }

  class FlowContext {
    var effects: Effects

    constructor (effects: Effects)
      ensures this.effects == effects
    {
      this.effects := effects;
    }
  }

  ghost function StateOf(ctx: FlowContext, world: World): St
    reads ctx, world
  {
    St(ctx.effects, world.log)
  }

  ghost function WalkOf(ctx: FlowContext, world: World, handled: bool, value: Value): Walk
    reads ctx, world
  {
    Walk(St(ctx.effects, world.log), handled, value)
  }

  lemma RequiredOneMore(nodes: seq<Node>, n: Node)
    ensures RequiredEffects(nodes + [n]) ==
            RequiredEffects(nodes) + (set e | e in n.effects) + (set e | e in n.declared)
  {
    forall e
      ensures e in RequiredEffects(nodes + [n]) <==> e in RequiredEffects(nodes) || e in n.effects || e in n.declared
    {
      if e in RequiredEffects(nodes) {
        var m :| m in nodes && e in m.effects + m.declared;
        assert m in nodes + [n];
      } else if e in n.effects || e in n.declared {
        assert n in nodes + [n] && e in n.effects + n.declared;
      }
    }
  }

  method CollectEffects(nodes: seq<Node>) returns (all: set<string>)
    ensures all == RequiredEffects(nodes)
  {
    all := {};
    for i := 0 to |nodes|
      invariant all == RequiredEffects(nodes[..i])
    {
      var own := set e | e in nodes[i].effects;
      var declared := set e | e in nodes[i].declared;
      all := all + own + declared;
      RequiredOneMore(nodes[..i], nodes[i]);
      assert nodes[..i + 1] == nodes[..i] + [nodes[i]];
    }
    assert nodes[..|nodes|] == nodes;
  }

  method ReleaseEffects(ctx: FlowContext, world: World, names: seq<string>, success: bool) returns (cancelled: bool)
    modifies ctx, world
    ensures (StateOf(ctx, world), cancelled) == ReleaseAll(names, success, world.env, old(StateOf(ctx, world)))
  {
    var i := 0;
    while i < |names|
      invariant 0 <= i <= |names|
      invariant ReleaseAll(names[i..], success, world.env, StateOf(ctx, world)) ==
                ReleaseAll(names, success, world.env, old(StateOf(ctx, world)))
    {
      var name := names[i];
      assert names[i..][1..] == names[i + 1..];
      i := i + 1;
      if name !in ctx.effects {
        continue;
      }
      var resource := ctx.effects[name];
      ctx.effects := ctx.effects - {name};
      if resource == PyNone || name !in world.env.registered {
        continue;
      }
      world.log := world.log + [Released(name, resource, success)];
      if world.env.release(name, resource) == ReleaseCancelled {
        return true;
      }
    }
    return false;
  }

  method AcquireEffects(ctx: FlowContext, world: World, names: seq<string>) returns (halt: Halt)
    modifies ctx, world
    ensures (StateOf(ctx, world), halt) == AcquireAll(names, world.env, old(StateOf(ctx, world)))
  {
    var i := 0;
    while i < |names|
      invariant 0 <= i <= |names|
      invariant AcquireAll(names[i..], world.env, StateOf(ctx, world)) ==
                AcquireAll(names, world.env, old(StateOf(ctx, world)))
    {
      var name := names[i];
      assert names[i..][1..] == names[i + 1..];
      i := i + 1;
      if name !in world.env.registered {
        continue;
      }
      match world.env.acquire(name) {
        case Returns(resource) =>
          ctx.effects := ctx.effects[name := resource];
          world.log := world.log + [Acquired(name, resource)];
        case Raises =>
          var cancelled := ReleaseEffects(ctx, world, world.env.order(1, ctx.effects.Keys), false);
          return if cancelled then Cancelled else Crashed;
        case IsCancelled => return Cancelled;
        case Exits => return Aborted;
      }
    }
    return Going;
  }

  method CallNode(ctx: FlowContext, world: World, i: nat) returns (outcome: Outcome<Value>)
    modifies ctx, world
    ensures outcome == world.env.call(i, old(ctx.effects))
    ensures StateOf(ctx, world) == St(world.env.after(i, old(ctx.effects)), old(world.log) + [Called(i)])
  {
    outcome := world.env.call(i, ctx.effects);
    world.log := world.log + [Called(i)];
    ctx.effects := world.env.after(i, ctx.effects);
  }

  method RunGuards(nodes: seq<Node>, ctx: FlowContext, world: World) returns (halt: Halt)
    modifies ctx, world
    ensures (WalkOf(ctx, world, false, VNone), halt) ==
            Scan(nodes, Guard, 0, world.env, old(WalkOf(ctx, world, false, VNone)))
  {
    for i := 0 to |nodes|
      invariant Scan(nodes, Guard, i, world.env, WalkOf(ctx, world, false, VNone)) ==
                Scan(nodes, Guard, 0, world.env, old(WalkOf(ctx, world, false, VNone)))
    {
      if nodes[i].kind != Guard || world.env.condition(i).Fails? {
        continue;
      }
      if world.env.condition(i).ConditionRaises? {
        return Crashed;
      }
      var outcome := CallNode(ctx, world, i);
      match outcome {
        case Raises => return GuardRaised;
        case IsCancelled => return Cancelled;
        case Exits => return Aborted;
        case Returns(v) =>
          if v.VFalse? {
            return GuardRejected(VNone);
          } else if v.VResponse? {
            return GuardRejected(v);
          }
      }
    }
    return Going;
  }

  /** A transform may rebind the context: the caller continues with the returned one. */
  method RunTransforms(nodes: seq<Node>, start: FlowContext, world: World) returns (halt: Halt, ctx: FlowContext)
    modifies start, world
    ensures ctx == start || fresh(ctx)
    ensures (WalkOf(ctx, world, false, VNone), halt) ==
            Scan(nodes, Transform, 0, world.env, old(WalkOf(start, world, false, VNone)))
  {
    ctx := start;
    for i := 0 to |nodes|
      invariant ctx == start || fresh(ctx)
      invariant Scan(nodes, Transform, i, world.env, WalkOf(ctx, world, false, VNone)) ==
                Scan(nodes, Transform, 0, world.env, old(WalkOf(start, world, false, VNone)))
    {
      if nodes[i].kind != Transform || world.env.condition(i).Fails? {
        continue;
      }
      if world.env.condition(i).ConditionRaises? {
        return Crashed, ctx;
      }
      var outcome := CallNode(ctx, world, i);
      match outcome {
        case Raises => return Crashed, ctx;
        case IsCancelled => return Cancelled, ctx;
        case Exits => return Aborted, ctx;
        case Returns(v) =>
          if v.VContext? {
            ctx := new FlowContext(v.effects);
          }
      }
    }
    return Going, ctx;
  }

  method RunEffectNodes(nodes: seq<Node>, ctx: FlowContext, world: World) returns (halt: Halt)
    modifies ctx, world
    ensures (WalkOf(ctx, world, false, VNone), halt) ==
            Scan(nodes, Effect, 0, world.env, old(WalkOf(ctx, world, false, VNone)))
  {
    for i := 0 to |nodes|
      invariant Scan(nodes, Effect, i, world.env, WalkOf(ctx, world, false, VNone)) ==
                Scan(nodes, Effect, 0, world.env, old(WalkOf(ctx, world, false, VNone)))
    {
      if nodes[i].kind != Effect || world.env.condition(i).Fails? {
        continue;
      }
      if world.env.condition(i).ConditionRaises? {
        return Crashed;
      }
      var outcome := CallNode(ctx, world, i);
      match outcome {
        case Raises => return Crashed;
        case IsCancelled => return Cancelled;
        case Exits => return Aborted;
        case Returns(_) =>
      }
    }
    return Going;
  }

  method RunHandler(nodes: seq<Node>, ctx: FlowContext, world: World)
    returns (halt: Halt, value: Value, ghost handled: bool)
    modifies ctx, world
    ensures (WalkOf(ctx, world, handled, value), halt) ==
            Scan(nodes, Handler, 0, world.env, old(WalkOf(ctx, world, false, VNone)))
  {
    value, handled := VNone, false;
    for i := 0 to |nodes|
      invariant Scan(nodes, Handler, i, world.env, WalkOf(ctx, world, false, VNone)) ==
                Scan(nodes, Handler, 0, world.env, old(WalkOf(ctx, world, false, VNone)))
    {
      if nodes[i].kind != Handler || world.env.condition(i).Fails? {
        continue;
      }
      if world.env.condition(i).ConditionRaises? {
        return Crashed, VNone, false;
      }
      var outcome := CallNode(ctx, world, i);
      match outcome {
        case Raises => return Crashed, VNone, true;
        case IsCancelled => return Cancelled, VNone, true;
        case Exits => return Aborted, VNone, true;
        case Returns(v) => return Going, v, true;
      }
    }
    return Going, VNone, false;
  }

  method RunHooks(nodes: seq<Node>, ctx: FlowContext, world: World, start: Value, ghost handled: bool)
    returns (halt: Halt, value: Value)
    modifies ctx, world
    ensures (WalkOf(ctx, world, handled, value), halt) ==
            Scan(nodes, Hook, 0, world.env, old(WalkOf(ctx, world, handled, start)))
  {
    value := start;
    for i := 0 to |nodes|
      invariant Scan(nodes, Hook, i, world.env, WalkOf(ctx, world, handled, value)) ==
                Scan(nodes, Hook, 0, world.env, old(WalkOf(ctx, world, handled, start)))
    {
      if nodes[i].kind != Hook || world.env.condition(i).Fails? {
        continue;
      }
      if world.env.condition(i).ConditionRaises? {
        return Crashed, value;
      }
      var outcome := CallNode(ctx, world, i);
      match outcome {
        case Raises =>
        case IsCancelled => return Cancelled, value;
        case Exits => return Aborted, value;
        case Returns(v) =>
          if !v.VNone? {
            value := v;
          }
      }
    }
    return Going, value;
  }

  /** The five phases in turn over a band-sorted list do what one walk does. */
  method RunPhases(nodes: seq<Node>, start: FlowContext, world: World)
    returns (halt: Halt, ctx: FlowContext, value: Value, ghost handled: bool)
    requires Sorted(nodes)
    modifies start, world
    ensures ctx == start || fresh(ctx)
    ensures (WalkOf(ctx, world, handled, value), halt) ==
            WalkAll(nodes, 0, world.env, old(WalkOf(start, world, false, VNone)))
  {
    ghost var w := WalkOf(start, world, false, VNone);
    PhasesAreOneWalk(nodes, 1, 0, world.env, w);
    value, ctx, handled := VNone, start, false;
    halt := RunGuards(nodes, start, world);
    ghost var w1 := WalkOf(start, world, false, VNone);
    assert halt.Going? ==> Phases(nodes, 1, 0, world.env, w) == Phases(nodes, 2, 0, world.env, w1);
    if !halt.Going? { return; }
    halt, ctx := RunTransforms(nodes, start, world);
    ghost var w2 := WalkOf(ctx, world, false, VNone);
    assert halt.Going? ==> Phases(nodes, 2, 0, world.env, w1) == Phases(nodes, 3, 0, world.env, w2);
    if !halt.Going? { return; }
    halt := RunEffectNodes(nodes, ctx, world);
    ghost var w3 := WalkOf(ctx, world, false, VNone);
    assert halt.Going? ==> Phases(nodes, 3, 0, world.env, w2) == Phases(nodes, 4, 0, world.env, w3);
    if !halt.Going? { return; }
    halt, value, handled := RunHandler(nodes, ctx, world);
    ghost var w4 := WalkOf(ctx, world, handled, value);
    assert halt.Going? ==> Phases(nodes, 4, 0, world.env, w3) == Phases(nodes, 5, 0, world.env, w4);
    if !halt.Going? { return; }
    halt, value := RunHooks(nodes, ctx, world, value, handled);
    assert Phases(nodes, 6, 0, world.env, WalkOf(ctx, world, handled, value)).1.Going?;
  }

  /** `execute` refines `Run`: same status, same calls in the same order, same remaining effects. */
  method Execute(nodes: seq<Node>, context: FlowContext, world: World) returns (status: Status, ctx: FlowContext)
    requires world.log == []
    modifies context, world
    ensures RunResult(status, StateOf(ctx, world)) == Run(nodes, world.env, old(context.effects))
  {
    SortIsStable(nodes);
    var sorted := SortNodes(nodes);
    var all := CollectEffects(sorted);
    var active := world.env.hasRegistry && all != {};
    var halt := Going;
    var value := VNone;
    ctx := context;
    if active {
      halt := AcquireEffects(ctx, world, world.env.order(0, all));
    }
    if halt.Going? {
      ghost var handled: bool;
      halt, ctx, value, handled := RunPhases(sorted, context, world);
    }
    var cancelled := false;
    if active {
      cancelled := ReleaseEffects(ctx, world, world.env.order(2, all), SuccessFlag(halt));
    }
    status := if cancelled then Escaped else StatusOf(halt, value);
  }
}
