/** How an execution of a flow pipeline (aquilia/flow.py) ends: its status and value, told from the
    calls it made and what they returned. */
module FlowOutcome {
  import opened Common
  import opened FlowOrder
  import opened FlowRun
  import opened FlowBalance

  // ---- The calls of a run and what they returned -------------------------------------------

  /** Outcome of the `j`-th of these calls; its argument is what the calls before it left. */
  function OutcomeAt(nodes: seq<Node>, env: Env, calls: seq<nat>, e: Effects, j: nat): Outcome<Value>
    requires Positions(calls, nodes) && j < |calls|
  {
    env.call(calls[j], Left(nodes, env, calls[..j], e))
  }

  function KindAt(nodes: seq<Node>, calls: seq<nat>, j: nat): NodeKind
    requires Positions(calls, nodes) && j < |calls|
  {
    nodes[calls[j]].kind
  }

  /** A call after which the run makes no further one. */
  predicate Final(kind: NodeKind, outcome: Outcome<Value>) {
    match outcome
    case IsCancelled => true
    case Exits => true
    case Raises => !kind.Hook?
    case Returns(v) => kind.Guard? && (v.VFalse? || v.VResponse?)
  }

  ghost predicate AllGoOn(nodes: seq<Node>, env: Env, calls: seq<nat>, e: Effects)
    requires Positions(calls, nodes)
  {
    forall j :: 0 <= j < |calls| ==> !Final(KindAt(nodes, calls, j), OutcomeAt(nodes, env, calls, e, j))
  }

  ghost predicate HandlerCalled(nodes: seq<Node>, calls: seq<nat>, before: nat)
    requires Positions(calls, nodes)
  {
    exists j :: 0 <= j < |calls| && calls[j] < before && KindAt(nodes, calls, j).Handler?
  }

  /** The condition at `p` is asked and raises: middleware is never asked, nor is a handler behind a
      called one. */
  ghost predicate RaisesAt(nodes: seq<Node>, env: Env, calls: seq<nat>, p: nat)
    requires Positions(calls, nodes) && p < |nodes|
  {
    && env.condition(p).ConditionRaises? && !nodes[p].kind.Middleware?
    && !(nodes[p].kind.Handler? && HandlerCalled(nodes, calls, p))
  }

  ghost predicate ConditionFails(nodes: seq<Node>, env: Env, calls: seq<nat>, upto: nat)
    requires Positions(calls, nodes) && upto <= |nodes|
  {
    exists p: nat :: p < upto && RaisesAt(nodes, env, calls, p)
  }

  /** The call returned something that becomes the result. */
  ghost predicate Tells(nodes: seq<Node>, env: Env, calls: seq<nat>, e: Effects, kind: NodeKind, j: nat)
    requires Positions(calls, nodes) && j < |calls|
  {
    && KindAt(nodes, calls, j) == kind && OutcomeAt(nodes, env, calls, e, j).Returns?
    && (kind.Hook? ==> !OutcomeAt(nodes, env, calls, e, j).value.VNone?)
  }

  ghost predicate LastTells(nodes: seq<Node>, env: Env, calls: seq<nat>, e: Effects, kind: NodeKind, j: nat)
    requires Positions(calls, nodes) && j < |calls|
  {
    Tells(nodes, env, calls, e, kind, j) && forall i :: j < i < |calls| ==> !Tells(nodes, env, calls, e, kind, i)
  }

  ghost predicate NoneTells(nodes: seq<Node>, env: Env, calls: seq<nat>, e: Effects, kind: NodeKind)
    requires Positions(calls, nodes)
  {
    forall j :: 0 <= j < |calls| ==> !Tells(nodes, env, calls, e, kind, j)
  }

  /** The value of the last hook that returned one, otherwise what the handler returned, otherwise
      None. */
  ghost predicate ResultIs(nodes: seq<Node>, env: Env, calls: seq<nat>, e: Effects, v: Value)
    requires Positions(calls, nodes)
  {
    && (forall j :: 0 <= j < |calls| && LastTells(nodes, env, calls, e, Hook, j) ==>
          v == OutcomeAt(nodes, env, calls, e, j).value)
    && (NoneTells(nodes, env, calls, e, Hook) ==>
          && (forall j :: 0 <= j < |calls| && LastTells(nodes, env, calls, e, Handler, j) ==>
                v == OutcomeAt(nodes, env, calls, e, j).value)
          && (NoneTells(nodes, env, calls, e, Handler) ==> v == VNone))
  }

  /** The status that a final call gives to its run. */
  ghost predicate EndsAs(kind: NodeKind, outcome: Outcome<Value>, status: Status) {
    match outcome
    case IsCancelled => status == CancelledRun
    case Exits => status == Escaped
    case Raises => status == if kind.Guard? then Guarded(true, VNone) else Error
    case Returns(v) => status == Guarded(false, if v.VResponse? then v else VNone)
  }

  /** `status` is right for a run that made exactly these calls, starting from effects `e`. */
  ghost predicate Explains(nodes: seq<Node>, env: Env, calls: seq<nat>, e: Effects, status: Status)
    requires Positions(calls, nodes)
  {
    if AllGoOn(nodes, env, calls, e) then
      if ConditionFails(nodes, env, calls, |nodes|) then status == Error
      else status.Success? && ResultIs(nodes, env, calls, e, status.value)
    else
      var last := |calls| - 1;
      && AllGoOn(nodes, env, calls[..last], e)
      && EndsAs(KindAt(nodes, calls, last), OutcomeAt(nodes, env, calls, e, last), status)
  }

  // ---- One more call -----------------------------------------------------------------------

  lemma OutcomesStay(nodes: seq<Node>, env: Env, calls: seq<nat>, e: Effects, p: nat)
    requires Positions(calls, nodes) && p < |nodes|
    ensures Positions(calls + [p], nodes)
    ensures forall j :: 0 <= j < |calls| ==>
      && OutcomeAt(nodes, env, calls + [p], e, j) == OutcomeAt(nodes, env, calls, e, j)
      && KindAt(nodes, calls + [p], j) == KindAt(nodes, calls, j)
    ensures OutcomeAt(nodes, env, calls + [p], e, |calls|) == env.call(p, Left(nodes, env, calls, e))
    ensures KindAt(nodes, calls + [p], |calls|) == nodes[p].kind
  {
    assert (calls + [p])[..|calls|] == calls;
    forall j | 0 <= j < |calls|
      ensures OutcomeAt(nodes, env, calls + [p], e, j) == OutcomeAt(nodes, env, calls, e, j)
    {
      assert (calls + [p])[..j] == calls[..j];
    }
  }

  lemma GoOnAppend(nodes: seq<Node>, env: Env, calls: seq<nat>, e: Effects, p: nat)
    requires Positions(calls, nodes) && p < |nodes| && AllGoOn(nodes, env, calls, e)
    ensures Positions(calls + [p], nodes)
    ensures AllGoOn(nodes, env, calls + [p], e) <==> !Final(nodes[p].kind, env.call(p, Left(nodes, env, calls, e)))
  {
    OutcomesStay(nodes, env, calls, e, p);
    hide OutcomeAt, KindAt, Final, Left;
    assert AllGoOn(nodes, env, calls + [p], e) ==> !Final(KindAt(nodes, calls + [p], |calls|),
                                                          OutcomeAt(nodes, env, calls + [p], e, |calls|));
  }

  /** A call of one kind leaves what the other kinds told. */
  lemma TellsAppend(nodes: seq<Node>, env: Env, calls: seq<nat>, e: Effects, p: nat, kind: NodeKind)
    requires Positions(calls, nodes) && p < |nodes|
    ensures Positions(calls + [p], nodes)
    ensures forall j :: 0 <= j < |calls| ==>
      (Tells(nodes, env, calls + [p], e, kind, j) <==> Tells(nodes, env, calls, e, kind, j))
    ensures var outcome := env.call(p, Left(nodes, env, calls, e));
      Tells(nodes, env, calls + [p], e, kind, |calls|) <==>
      nodes[p].kind == kind && outcome.Returns? && (kind.Hook? ==> !outcome.value.VNone?)
  {
    OutcomesStay(nodes, env, calls, e, p);
    hide OutcomeAt, KindAt, Left;
  }

  /** The result after one more call. */
  lemma ResultAppend(nodes: seq<Node>, env: Env, calls: seq<nat>, e: Effects, p: nat, v: Value, v': Value)
    requires Positions(calls, nodes) && p < |nodes| && ResultIs(nodes, env, calls, e, v)
    requires nodes[p].kind.Handler? ==> NoneTells(nodes, env, calls, e, Hook)
    requires var outcome := env.call(p, Left(nodes, env, calls, e));
      v' == if outcome.Returns? && (nodes[p].kind.Handler? || (nodes[p].kind.Hook? && !outcome.value.VNone?))
            then outcome.value else v
    ensures Positions(calls + [p], nodes) && ResultIs(nodes, env, calls + [p], e, v')
  {
    OutcomesStay(nodes, env, calls, e, p);
    TellsAppend(nodes, env, calls, e, p, Hook);
    TellsAppend(nodes, env, calls, e, p, Handler);
    hide OutcomeAt, KindAt, Left, Tells;
  }

  // ---- The walk ----------------------------------------------------------------------------

  /** Where a walk stands that has passed the positions below `i` without being stopped. */
  ghost predicate Steady(nodes: seq<Node>, i: nat, env: Env, w: Walk, e: Effects)
    requires i <= |nodes|
  {
    var calls := Calls(w.st.log);
    && (forall j :: 0 <= j < |calls| ==> calls[j] < i)
    && w.st.effects == Left(nodes, env, calls, e)
    && AllGoOn(nodes, env, calls, e)
    && !ConditionFails(nodes, env, calls, i)
    && (w.handled <==> HandlerCalled(nodes, calls, i))
    && ResultIs(nodes, env, calls, e, w.value)
  }

  lemma PositionsBelow(nodes: seq<Node>, calls: seq<nat>, i: nat)
    requires i <= |nodes| && forall j :: 0 <= j < |calls| ==> calls[j] < i
    ensures Positions(calls, nodes)
  {
  }

  /** A call at `i` says nothing about the conditions asked before. */
  lemma RaisesStay(nodes: seq<Node>, env: Env, calls: seq<nat>, i: nat)
    requires i < |nodes| && forall j :: 0 <= j < |calls| ==> calls[j] < i
    ensures Positions(calls + [i], nodes)
    ensures HandlerCalled(nodes, calls + [i], i + 1) <==> HandlerCalled(nodes, calls, i) || nodes[i].kind.Handler?
    ensures HandlerCalled(nodes, calls, i + 1) <==> HandlerCalled(nodes, calls, i)
    ensures forall p :: 0 <= p <= i ==> (RaisesAt(nodes, env, calls + [i], p) <==> RaisesAt(nodes, env, calls, p))
  {
    var more := calls + [i];
    assert KindAt(nodes, more, |calls|) == nodes[i].kind;
    assert forall j :: 0 <= j < |calls| ==> more[j] == calls[j] && KindAt(nodes, more, j) == KindAt(nodes, calls, j);
    hide KindAt;
    forall p | 0 <= p <= i
      ensures HandlerCalled(nodes, more, p) <==> HandlerCalled(nodes, calls, p)
    {
      if HandlerCalled(nodes, calls, p) {
        var j :| 0 <= j < |calls| && calls[j] < p && KindAt(nodes, calls, j).Handler?;
        assert more[j] < p && KindAt(nodes, more, j).Handler?;
      }
    }
    if HandlerCalled(nodes, calls, i) {
      var j :| 0 <= j < |calls| && calls[j] < i && KindAt(nodes, calls, j).Handler?;
      assert more[j] < i + 1 && KindAt(nodes, more, j).Handler?;
    }
  }

  /** A node that is passed over. */
  lemma SkipStep(nodes: seq<Node>, i: nat, env: Env, w: Walk, e: Effects)
    requires i < |nodes| && Steady(nodes, i, env, w, e)
    requires !RunsAt(nodes[i].kind, i, env, w.handled)
    ensures var (w', halt) := Visit(nodes[i].kind, i, env, w);
      var calls := Calls(w.st.log);
      && Positions(calls, nodes) && w' == w
      && if halt.Going? then Steady(nodes, i + 1, env, w, e)
         else halt.Crashed? && Explains(nodes, env, calls, e, Error)
  {
    var calls := Calls(w.st.log);
    hide Calls, Left, ResultIs, AllGoOn;
    RaisesStay(nodes, env, calls, i);
    var halt := Visit(nodes[i].kind, i, env, w).1;
    hide HandlerCalled;
    if !halt.Going? {
      assert RaisesAt(nodes, env, calls, i);
    }
  }

  lemma VisitMeans(kind: NodeKind, i: nat, env: Env, w: Walk)
    requires RunsAt(kind, i, env, w.handled)
    ensures var (w', halt) := Visit(kind, i, env, w);
      var outcome := env.call(i, w.st.effects);
      && (halt.Going? <==> !Final(kind, outcome))
      && (!halt.Going? ==> EndsAs(kind, outcome, StatusOf(halt, w'.value)))
      && w'.handled == (w.handled || kind.Handler?)
      && w'.value == if outcome.Returns? && (kind.Handler? || (kind.Hook? && !outcome.value.VNone?))
                     then outcome.value else w.value
  {
  }

  lemma StoppingCall(nodes: seq<Node>, env: Env, before: seq<nat>, e: Effects, i: nat, status: Status)
    requires Positions(before, nodes) && i < |nodes| && AllGoOn(nodes, env, before, e)
    requires var outcome := env.call(i, Left(nodes, env, before, e));
      Final(nodes[i].kind, outcome) && EndsAs(nodes[i].kind, outcome, status)
    ensures Positions(before + [i], nodes) && Explains(nodes, env, before + [i], e, status)
  {
    GoOnAppend(nodes, env, before, e, i);
    OutcomesStay(nodes, env, before, e, i);
    hide Left, AllGoOn, OutcomeAt, KindAt, Final, EndsAs;
    assert (before + [i])[..|before|] == before;
  }

  /** A node that is called. */
  lemma CallStep(nodes: seq<Node>, i: nat, env: Env, w: Walk, e: Effects)
    requires i < |nodes| && Sorted(nodes) && Steady(nodes, i, env, w, e)
    requires RunsAt(nodes[i].kind, i, env, w.handled)
    ensures var (w', halt) := Visit(nodes[i].kind, i, env, w);
      var calls := Calls(w'.st.log);
      && calls == Calls(w.st.log) + [i] && Positions(calls, nodes)
      && if halt.Going? then Steady(nodes, i + 1, env, w', e)
         else Explains(nodes, env, calls, e, StatusOf(halt, w'.value))
  {
    hide Calls, Left, AllGoOn, HandlerCalled, AfterCall, Sorted, RaisesAt, Visit, Explains, EndsAs, Final, ResultIs,
         StatusOf, NoneTells;
    var before := Calls(w.st.log);
    var (w', halt) := Visit(nodes[i].kind, i, env, w);
    CallsAppend(w.st.log, Called(i));
    VisitLeaves(nodes, i, env, w);
    VisitMeans(nodes[i].kind, i, env, w);
    hide RunsAt;
    if !halt.Going? {
      StoppingCall(nodes, env, before, e, i, StatusOf(halt, w'.value));
    } else {
      RaisesStay(nodes, env, before, i);
      GoOnAppend(nodes, env, before, e, i);
      LeftAppend(nodes, env, before, e, i);
      HooksComeLast(nodes, env, before, e, i);
      ResultAppend(nodes, env, before, e, i, w.value, w'.value);
      HoldsQuietly(nodes, env, before, i, w.handled);
    }
  }

  /** The condition of a called node did not raise. */
  lemma HoldsQuietly(nodes: seq<Node>, env: Env, calls: seq<nat>, i: nat, handled: bool)
    requires i < |nodes| && RunsAt(nodes[i].kind, i, env, handled) && forall j :: 0 <= j < |calls| ==> calls[j] < i
    requires !ConditionFails(nodes, env, calls, i)
    ensures Positions(calls + [i], nodes) && !ConditionFails(nodes, env, calls + [i], i + 1)
  {
    RaisesStay(nodes, env, calls, i);
    hide HandlerCalled;
  }

  lemma LeftAppend(nodes: seq<Node>, env: Env, calls: seq<nat>, e: Effects, p: nat)
    requires Positions(calls, nodes) && p < |nodes|
    ensures Positions(calls + [p], nodes)
    ensures Left(nodes, env, calls + [p], e) == AfterCall(nodes[p].kind, p, env, Left(nodes, env, calls, e))
  {
    assert (calls + [p])[..|calls|] == calls;
  }

  lemma HooksComeLast(nodes: seq<Node>, env: Env, calls: seq<nat>, e: Effects, i: nat)
    requires i < |nodes| && Sorted(nodes) && forall j :: 0 <= j < |calls| ==> calls[j] < i
    ensures nodes[i].kind.Handler? ==> NoneTells(nodes, env, calls, e, Hook)
  {
    forall j | 0 <= j < |calls| && nodes[i].kind.Handler?
      ensures !KindAt(nodes, calls, j).Hook?
    {
      assert KeyOf(nodes[calls[j]]).AtMost(KeyOf(nodes[i]));
    }
    hide OutcomeAt;
  }

  lemma {:induction false} WalkExplained(nodes: seq<Node>, i: nat, env: Env, w: Walk, e: Effects)
    requires i <= |nodes| && Sorted(nodes) && Steady(nodes, i, env, w, e)
    ensures var (w', halt) := WalkAll(nodes, i, env, w);
      var calls := Calls(w'.st.log);
      Positions(calls, nodes) && Explains(nodes, env, calls, e, StatusOf(halt, w'.value))
    decreases |nodes| - i
  {
    if i == |nodes| {
      PositionsBelow(nodes, Calls(w.st.log), i);
    } else {
      hide Steady, Visit, Calls, RunsAt, Explains, StatusOf;
      if RunsAt(nodes[i].kind, i, env, w.handled) {
        CallStep(nodes, i, env, w, e);
      } else {
        SkipStep(nodes, i, env, w, e);
      }
      var (w', halt) := Visit(nodes[i].kind, i, env, w);
      if halt.Going? {
        WalkExplained(nodes, i + 1, env, w', e);
      } else {
        assert StatusOf(Crashed, w'.value) == Error by {
          CrashedIsError(w'.value);
        }
      }
    }
  }

  lemma CrashedIsError(v: Value)
    ensures StatusOf(Crashed, v) == Error
  {
  }

  lemma StartsSteady(nodes: seq<Node>, env: Env, st: St)
    requires Calls(st.log) == []
    ensures Steady(nodes, 0, env, Walk(st, false, VNone), st.effects)
  {
  }

  // ---- Whole runs --------------------------------------------------------------------------

  /** A release pass over these names is cancelled. */
  ghost predicate Cut(names: set<string>, env: Env, effects: Effects) {
    exists n :: n in names && CutsRelease(n, env, effects)
  }

  lemma ReleaseOneEnds(name: string, success: bool, env: Env, st: St)
    ensures var (st', cancelled) := ReleaseOne(name, success, env, st);
      st'.effects == st.effects - {name} && (cancelled <==> CutsRelease(name, env, st.effects))
  {
  }

  lemma {:induction false} CancelledIff(names: seq<string>, success: bool, env: Env, st: St)
    requires Distinct(names)
    ensures ReleaseAll(names, success, env, st).1 <==> exists n :: n in names && CutsRelease(n, env, st.effects)
  {
    if names != [] {
      var name, later := names[0], names[1..];
      var (st', cancelled) := ReleaseOne(name, success, env, st);
      ReleaseOneEnds(name, success, env, st);
      hide ReleaseOne;
      CancelledIff(later, success, env, st');
      assert forall n :: n in names <==> n == name || n in later;
      assert forall n :: n in later ==> (CutsRelease(n, env, st'.effects) <==> CutsRelease(n, env, st.effects));
      hide CutsRelease;
    }
  }

  lemma {:induction false} ReleasedEffects(names: seq<string>, success: bool, env: Env, st: St)
    ensures ReleaseAll(names, success, env, st).0.effects ==
            st.effects - NameSet(names[..Reached(names, env, st.effects)])
  {
    if names != [] {
      var name, later := names[0], names[1..];
      var (st', cancelled) := ReleaseOne(name, success, env, st);
      ReleaseOneEnds(name, success, env, st);
      hide ReleaseOne, CutsRelease;
      ReleasedEffects(later, success, env, st');
      var k := Reached(names, env, st.effects);
      assert names[..k][0] == name && names[..k][1..] == later[..k - 1];
      assert NameSet(names[..k]) == {name} + NameSet(later[..k - 1]);
      assert cancelled ==> NameSet(later[..0]) == {};
    } else {
      assert NameSet(names[..0]) == {};
    }
  }

  lemma PassCut(names: seq<string>, given: set<string>, success: bool, env: Env, st: St)
    requires Enumerates(names, given)
    ensures ReleaseAll(names, success, env, st).1 <==> Cut(given, env, st.effects)
  {
    hide ReleaseAll, CutsRelease;
    CancelledIff(names, success, env, st);
  }

  /** The effects with which the nodes start. */
  ghost function StartEffects(sorted: seq<Node>, env: Env, initial: Effects): Effects {
    if Active(sorted, env) then Acquire(env.order(0, RequiredEffects(sorted)), env, St(initial, [])).effects
    else initial
  }

  /** Status and value of every run whose acquires return: told by its calls, unless a release in the
      `finally` block is cancelled. */
  lemma RunOutcome(nodes: seq<Node>, env: Env, initial: Effects)
    requires WellFormed(env)
    requires Active(SortNodes(nodes), env) ==> AllReturn(env.order(0, RequiredEffects(SortNodes(nodes))), env)
    ensures var sorted := SortNodes(nodes);
      var run := Run(nodes, env, initial);
      var calls, e := Calls(run.st.log), StartEffects(sorted, env, initial);
      Positions(calls, sorted) &&
      if Active(sorted, env) && Cut(RequiredEffects(sorted), env, Left(sorted, env, calls, e))
      then run.status == Escaped
      else Explains(sorted, env, calls, e, run.status)
  {
    SortIsStable(nodes);
    hide SortNodes, RequiredEffects, Calls, Left, AcquireAll, Acquire, WalkAll, ReleaseAll, StatusOf, Explains, Cut,
         Sorted, StableCopy, Steady;
    var sorted := SortNodes(nodes);
    var all := RequiredEffects(sorted);
    var names, last := env.order(0, all), env.order(2, all);
    var start := St(initial, []);
    var got := if Active(sorted, env) then Acquire(names, env, start) else start;
    EmptyAccount("", Handle(0));
    if Active(sorted, env) {
      assert FirstFailure(names, env) == |names|;
      assert names[..|names|] == names;
      AcquireStops(names, env, start);
      AcquireCallsNone(names, env, start);
    }
    hide FirstFailure;
    StartsSteady(sorted, env, got);
    WalkExplained(sorted, 0, env, Walk(got, false, VNone), got.effects);
    WalkLeaves(sorted, 0, env, Walk(got, false, VNone), got.effects) by {
      assert Positions([], sorted);
      LeftNothing(sorted, env, got.effects);
    }
    var (w, halt) := TryBlock(sorted, env, initial);
    PassCut(last, all, SuccessFlag(halt), env, w.st);
    ReleaseCallsNothing(last, SuccessFlag(halt), env, w.st);
  }

  lemma LeftNothing(nodes: seq<Node>, env: Env, e: Effects)
    ensures Left(nodes, env, [], e) == e
  {
  }

  /** The other runs call no node: an acquire that raises gives an error, one that is cancelled a
      cancelled run, and one that exits escapes, unless a release is cancelled on the way out. */
  lemma FailedAcquireOutcome(nodes: seq<Node>, env: Env, initial: Effects)
    requires WellFormed(env) && Active(SortNodes(nodes), env)
    requires var names := env.order(0, RequiredEffects(SortNodes(nodes)));
      FirstFailure(names, env) < |names|
    ensures var sorted := SortNodes(nodes);
      var all := RequiredEffects(sorted);
      var names := env.order(0, all);
      var k := FirstFailure(names, env);
      var held := Acquire(names[..k], env, St(initial, [])).effects;
      var run := Run(nodes, env, initial);
      && Calls(run.st.log) == []
      && match env.acquire(names[k])
         case IsCancelled => run.status == if Cut(all, env, held) then Escaped else CancelledRun
         case Exits => run.status == Escaped
         case _ =>
           var back := env.order(1, held.Keys);
           var rest := held - NameSet(back[..Reached(back, env, held)]);
           run.status ==
           if !Cut(held.Keys, env, held) then Error else if Cut(all, env, rest) then Escaped else CancelledRun
  {
    hide SortNodes, RequiredEffects, Calls, AcquireAll, Acquire, WalkAll, ReleaseAll, Cut, FirstFailure, NameSet,
         Reached;
    var sorted := SortNodes(nodes);
    var all := RequiredEffects(sorted);
    var names, last := env.order(0, all), env.order(2, all);
    var k := FirstFailure(names, env);
    var start := St(initial, []);
    var got := Acquire(names[..k], env, start);
    EmptyAccount("", Handle(0));
    AcquireStops(names, env, start);
    AcquireCallsNone(names[..k], env, start);
    var (w, halt) := TryBlock(sorted, env, initial);
    var back := env.order(1, got.effects.Keys);
    ReleaseCallsNothing(back, false, env, got);
    ReleasedEffects(back, false, env, got);
    PassCut(back, got.effects.Keys, false, env, got);
    ReleaseCallsNothing(last, SuccessFlag(halt), env, w.st);
    PassCut(last, all, SuccessFlag(halt), env, w.st);
    if env.acquire(names[k]).Raises? && !Cut(got.effects.Keys, env, got.effects) {
      AllReached(back, env, got.effects);
      assert w.st.effects == map[];
      NothingCut(all, env);
    }
  }

  /** A pass that is not cancelled gets to every name. */
  lemma AllReached(names: seq<string>, env: Env, effects: Effects)
    requires Enumerates(names, effects.Keys) && !Cut(effects.Keys, env, effects)
    ensures effects - NameSet(names[..Reached(names, env, effects)]) == map[]
  {
    forall n | n in names
      ensures !CutsRelease(n, env, effects)
    {
      assert n in effects.Keys;
    }
    hide CutsRelease, Enumerates;
    ReachesAll(names, env, effects);
    assert names[..|names|] == names;
    assert NameSet(names) == effects.Keys by {
      assert Enumerates(names, effects.Keys);
    }
  }

  lemma {:induction false} ReachesAll(names: seq<string>, env: Env, effects: Effects)
    requires forall n :: n in names ==> !CutsRelease(n, env, effects)
    ensures Reached(names, env, effects) == |names|
  {
    if names != [] {
      assert forall n :: CutsRelease(n, env, effects - {names[0]}) ==> CutsRelease(n, env, effects);
      ReachesAll(names[1..], env, effects - {names[0]});
    }
  }

  lemma NothingCut(names: set<string>, env: Env)
    ensures !Cut(names, env, map[])
  {
  }

  // ---- What this says ----------------------------------------------------------------------

  /** A run is guarded exactly when its last call is a guard that raised, returned False or returned a
      response; the error flag says that it raised, and the value is the response. */
  lemma GuardedIff(nodes: seq<Node>, env: Env, calls: seq<nat>, e: Effects, status: Status)
    requires Positions(calls, nodes) && Explains(nodes, env, calls, e, status)
    ensures status.Guarded? <==>
            calls != [] && KindAt(nodes, calls, |calls| - 1).Guard? &&
            match OutcomeAt(nodes, env, calls, e, |calls| - 1)
            case Raises => true
            case Returns(v) => v.VFalse? || v.VResponse?
            case _ => false
    ensures status.Guarded? ==>
      match OutcomeAt(nodes, env, calls, e, |calls| - 1)
      case Returns(v) => !status.error && status.value == if v.VResponse? then v else VNone
      case _ => status.error && status.value == VNone
  {
    hide OutcomeAt, KindAt, Left, ConditionFails, ResultIs;
    if AllGoOn(nodes, env, calls, e) && calls != [] {
      assert !Final(KindAt(nodes, calls, |calls| - 1), OutcomeAt(nodes, env, calls, e, |calls| - 1));
    }
    if !AllGoOn(nodes, env, calls, e) {
      LastIsFinal(nodes, env, calls, e);
    }
  }

  lemma LastIsFinal(nodes: seq<Node>, env: Env, calls: seq<nat>, e: Effects)
    requires Positions(calls, nodes) && !AllGoOn(nodes, env, calls, e)
    ensures calls != []
    ensures AllGoOn(nodes, env, calls[..|calls| - 1], e) ==>
      Final(KindAt(nodes, calls, |calls| - 1), OutcomeAt(nodes, env, calls, e, |calls| - 1))
  {
    var front := calls[..|calls| - 1];
    if AllGoOn(nodes, env, front, e) {
      GoOnAppend(nodes, env, front, e, calls[|calls| - 1]);
      assert front + [calls[|calls| - 1]] == calls;
    }
  }

  /** A run succeeds exactly when no call is final (each guard called returned neither False nor a
      response, and only hooks raised) and no condition raised. */
  lemma SuccessIff(nodes: seq<Node>, env: Env, calls: seq<nat>, e: Effects, status: Status)
    requires Positions(calls, nodes) && Explains(nodes, env, calls, e, status)
    ensures status.Success? <==> AllGoOn(nodes, env, calls, e) && !ConditionFails(nodes, env, calls, |nodes|)
    ensures status.Success? ==> ResultIs(nodes, env, calls, e, status.value)
  {
    hide OutcomeAt, KindAt, Left, ConditionFails, ResultIs;
    if !AllGoOn(nodes, env, calls, e) {
      LastIsFinal(nodes, env, calls, e);
      hide AllGoOn;
    }
  }

  // ---- Effects are there when a node is called ---------------------------------------------

  /** Every effect named by the node or declared by its callable is acquired before the call, if it is
      registered. */
  ghost predicate EffectsReady(log: seq<Event>, sorted: seq<Node>, env: Env) {
    forall i :: 0 <= i < |log| && log[i].Called? ==>
      log[i].position < |sorted| &&
      var node := sorted[log[i].position];
      forall n :: n in env.registered && (n in node.effects || n in node.declared) ==>
        exists j :: 0 <= j < i && log[j].Acquired? && log[j].name == n
  }

  lemma {:induction false} AcquireLogs(names: seq<string>, env: Env, st: St, n: string)
    requires AllReturn(names, env) && (n in names || AcquiredIn(st.log, n)) && n in env.registered
    ensures AcquiredIn(Acquire(names, env, st).log, n)
    decreases |names|
  {
    if names != [] {
      var name := names[0];
      if name in env.registered {
        var resource := env.acquire(name).value;
        var log := st.log + [Acquired(name, resource)];
        assert log[|st.log|].name == name;
        assert AcquiredIn(st.log, n) ==> AcquiredIn(log, n) by {
          if AcquiredIn(st.log, n) {
            var j :| 0 <= j < |st.log| && st.log[j].Acquired? && st.log[j].name == n;
            assert log[j] == st.log[j];
          }
        }
        AcquireLogs(names[1..], env, St(st.effects[name := resource], log), n);
      } else {
        AcquireLogs(names[1..], env, st, n);
      }
    }
  }

  ghost predicate AcquiredIn(log: seq<Event>, n: string) {
    exists j :: 0 <= j < |log| && log[j].Acquired? && log[j].name == n
  }

  /** A log continued by events that are no acquisitions, the calls among them at nodes of the list. */
  ghost predicate Continues(log: seq<Event>, more: seq<Event>, size: nat) {
    && log <= more
    && forall i :: |log| <= i < |more| ==> !more[i].Acquired? && (more[i].Called? ==> more[i].position < size)
  }

  lemma {:induction false} WalkContinues(nodes: seq<Node>, i: nat, env: Env, w: Walk)
    requires i <= |nodes|
    ensures Continues(w.st.log, WalkAll(nodes, i, env, w).0.st.log, |nodes|)
    decreases |nodes| - i
  {
    if i < |nodes| {
      var (w', halt) := Visit(nodes[i].kind, i, env, w);
      VisitFacts(nodes[i].kind, i, env, w);
      hide Visit, RunsAt, Clean;
      if halt.Going? {
        WalkContinues(nodes, i + 1, env, w');
      }
    }
  }

  lemma {:induction false} ReleaseContinues(names: seq<string>, success: bool, env: Env, st: St, size: nat)
    ensures Continues(st.log, ReleaseAll(names, success, env, st).0.log, size)
    ensures forall i :: |st.log| <= i < |ReleaseAll(names, success, env, st).0.log| ==>
      !ReleaseAll(names, success, env, st).0.log[i].Called?
  {
    if names != [] {
      ReleaseContinues(names[1..], success, env, ReleaseOne(names[0], success, env, st).0, size);
    }
  }

  lemma {:induction false} NoneCalled(log: seq<Event>)
    requires Calls(log) == []
    ensures forall i :: 0 <= i < |log| ==> !log[i].Called?
  {
    if log != [] {
      NoneCalled(log[..|log| - 1]);
    }
  }

  lemma ReadyAfterAcquiring(nodes: seq<Node>, env: Env, log: seq<Event>, more: seq<Event>)
    requires forall i :: 0 <= i < |log| ==> log[i].Acquired?
    requires forall n :: n in RequiredEffects(nodes) && n in env.registered ==> AcquiredIn(log, n)
    requires Continues(log, more, |nodes|)
    ensures EffectsReady(more, nodes, env)
  {
    forall i, n | 0 <= i < |more| && more[i].Called? && more[i].position < |nodes| && n in env.registered &&
                  (n in nodes[more[i].position].effects || n in nodes[more[i].position].declared)
      ensures exists j :: 0 <= j < i && more[j].Acquired? && more[j].name == n
    {
      var node := nodes[more[i].position];
      assert node in nodes && n in node.effects + node.declared;
      var j :| 0 <= j < |log| && log[j].Acquired? && log[j].name == n;
      assert more[j] == log[j];
    }
  }

  /** With a registry, no node is ever called before all its registered effects are acquired. */
  lemma CalledWithEffects(nodes: seq<Node>, env: Env, initial: Effects)
    requires WellFormed(env) && env.hasRegistry
    ensures EffectsReady(Run(nodes, env, initial).st.log, SortNodes(nodes), env)
  {
    hide SortNodes, AcquireAll, Acquire, WalkAll, ReleaseAll, Calls, FirstFailure, Continues, AcquiredIn,
         RequiredEffects;
    var sorted := SortNodes(nodes);
    var all := RequiredEffects(sorted);
    var names, last := env.order(0, all), env.order(2, all);
    assert Enumerates(names, all);
    var log := Run(nodes, env, initial).st.log;
    var start := St(initial, []);
    if Active(sorted, env) && FirstFailure(names, env) < |names| {
      FailedAcquireOutcome(nodes, env, initial);
      NoneCalled(log);
    } else {
      var got := if Active(sorted, env) then Acquire(names, env, start) else start;
      assert names[..|names|] == names;
      AcquireStops(names, env, start);
      assert Active(sorted, env) ==> AllReturn(names, env);
      forall n | n in all && n in env.registered
        ensures AcquiredIn(got.log, n)
      {
        AcquireLogs(names, env, start, n);
      }
      AcquiresNothingElse(names, env, start);
      WalkContinues(sorted, 0, env, Walk(got, false, VNone));
      var (w, halt) := TryBlock(sorted, env, initial);
      ReleaseContinues(last, SuccessFlag(halt), env, w.st, |sorted|);
      ContinuesOn(got.log, w.st.log, log, |sorted|);
      ReadyAfterAcquiring(sorted, env, got.log, log);
    }
  }

  lemma {:induction false} AcquiresNothingElse(names: seq<string>, env: Env, st: St)
    requires forall i :: 0 <= i < |st.log| ==> st.log[i].Acquired?
    ensures forall i :: 0 <= i < |Acquire(names, env, st).log| ==> Acquire(names, env, st).log[i].Acquired?
    decreases |names|
  {
    if names != [] {
      var name := names[0];
      if name in env.registered && env.acquire(name).Returns? {
        var resource := env.acquire(name).value;
        AcquiresNothingElse(names[1..], env, St(st.effects[name := resource], st.log + [Acquired(name, resource)]));
      } else {
        AcquiresNothingElse(names[1..], env, st);
      }
    }
  }

  lemma ContinuesOn(a: seq<Event>, b: seq<Event>, c: seq<Event>, size: nat)
    requires Continues(a, b, size) && (b == c || Continues(b, c, size))
    ensures Continues(a, c, size)
  {
  }
}
