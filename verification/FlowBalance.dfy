/** Exactly when an execution of a flow pipeline (aquilia/flow.py) releases what it acquires, whatever
    its nodes, its providers and the initial context do. */
module FlowBalance {
  import opened Common
  import opened FlowOrder
  import opened FlowRun

  // ---- Acquisition up to the first failure -------------------------------------------------

  /** The resource under a name, an absent name counting as None. */
  function HeldIn(effects: Effects, n: string): Resource {
    if n in effects then effects[n] else PyNone
  }

  /** Position of the first registered name whose acquire does not return; if there is none, the number
      of names. */
  function FirstFailure(names: seq<string>, env: Env): (k: nat)
    ensures k <= |names|
    ensures k < |names| ==> names[k] in env.registered && !env.acquire(names[k]).Returns?
    ensures forall j :: 0 <= j < k && names[j] in env.registered ==> env.acquire(names[j]).Returns?
  {
    if names == [] || (names[0] in env.registered && !env.acquire(names[0]).Returns?) then 0
    else 1 + FirstFailure(names[1..], env)
  }

  ghost predicate AllReturn(names: seq<string>, env: Env) {
    forall n :: n in names && n in env.registered ==> env.acquire(n).Returns?
  }

  /** The state after acquiring all of some names. */
  function Acquire(names: seq<string>, env: Env, st: St): St {
    if names == [] then st
    else
      var name := names[0];
      if name in env.registered && env.acquire(name).Returns? then
        var resource := env.acquire(name).value;
        Acquire(names[1..], env, St(st.effects[name := resource], st.log + [Acquired(name, resource)]))
      else Acquire(names[1..], env, st)
  }

  /** An acquisition acquires the names before the first failure and then does what that failure asks. */
  lemma {:induction false} AcquireStops(names: seq<string>, env: Env, st: St)
    ensures var k := FirstFailure(names, env);
      var got := Acquire(names[..k], env, st);
      AcquireAll(names, env, st) ==
      if k == |names| then (got, Going)
      else
        match env.acquire(names[k])
        case IsCancelled => (got, Cancelled)
        case Exits => (got, Aborted)
        case _ =>
          var (st', cancelled) := ReleaseAll(env.order(1, got.effects.Keys), false, env, got);
          (st', if cancelled then Cancelled else Crashed)
  {
    if names != [] {
      var k := FirstFailure(names, env);
      var name := names[0];
      if k == 0 {
        assert names[..0] == [];
      } else {
        assert names[..k][0] == name && names[..k][1..] == names[1..][..k - 1];
        var next := if name !in env.registered then st
                    else
                      var resource := env.acquire(name).value;
                      St(st.effects[name := resource], st.log + [Acquired(name, resource)]);
        AcquireStops(names[1..], env, next);
        hide ReleaseAll;
      }
    }
  }

  /** What a name's acquire returns, None if it is not acquired. */
  function Taken(names: seq<string>, env: Env, n: string): Resource {
    if n in names && n in env.registered && env.acquire(n).Returns? then env.acquire(n).value else PyNone
  }

  function Once(a: Resource, r: Resource): nat {
    if a == r then 1 else 0
  }

  lemma {:induction false} AcquireHolds(names: seq<string>, env: Env, st: St, n: string)
    requires Distinct(names) && AllReturn(names, env)
    ensures HeldIn(Acquire(names, env, st).effects, n) ==
            if n in names && n in env.registered then Taken(names, env, n) else HeldIn(st.effects, n)
  {
    if names != [] {
      var name, later := names[0], names[1..];
      assert forall m :: m in names <==> m == name || m in later;
      assert name !in later;
      if name in env.registered {
        var resource := env.acquire(name).value;
        AcquireHolds(later, env, St(st.effects[name := resource], st.log + [Acquired(name, resource)]), n);
      } else {
        AcquireHolds(later, env, st, n);
      }
    }
  }

  lemma {:induction false} AcquireTakes(names: seq<string>, env: Env, st: St, n: string, r: Resource, flag: bool)
    requires Distinct(names) && AllReturn(names, env) && r != PyNone
    ensures var log := Acquire(names, env, st).log;
      && Acquisitions(log, n, r) == Acquisitions(st.log, n, r) + Once(Taken(names, env, n), r)
      && Releases(log, n, r, flag) == Releases(st.log, n, r, flag)
  {
    if names != [] {
      var name, later := names[0], names[1..];
      assert forall m :: m in names <==> m == name || m in later;
      assert name !in later;
      if name in env.registered {
        var resource := env.acquire(name).value;
        CountAppend(st.log, Acquired(name, resource), n, r, flag);
        hide Acquisitions, Releases;
        AcquireTakes(later, env, St(st.effects[name := resource], st.log + [Acquired(name, resource)]), n, r, flag);
      } else {
        AcquireTakes(later, env, st, n, r, flag);
      }
    }
  }

  // ---- What the nodes leave behind --------------------------------------------------------

  ghost predicate Positions(calls: seq<nat>, nodes: seq<Node>) {
    forall j :: 0 <= j < |calls| ==> calls[j] < |nodes|
  }

  /** The effects map after one call: that of a context returned by a transform, which replaces the
      current context, and otherwise what the call leaves in the current one. */
  function AfterCall(kind: NodeKind, p: nat, env: Env, e: Effects): Effects {
    var outcome := env.call(p, e);
    if kind.Transform? && outcome.Returns? && outcome.value.VContext? then outcome.value.effects else env.after(p, e)
  }

  function Left(nodes: seq<Node>, env: Env, calls: seq<nat>, e: Effects): Effects
    requires Positions(calls, nodes)
  {
    if calls == [] then e
    else
      var p := calls[|calls| - 1];
      AfterCall(nodes[p].kind, p, env, Left(nodes, env, calls[..|calls| - 1], e))
  }

  /** The effects of the last context that one of these calls returned. */
  function LastContext(nodes: seq<Node>, env: Env, calls: seq<nat>, e: Effects): Option<Effects>
    requires Positions(calls, nodes)
  {
    if calls == [] then None
    else
      var p, front := calls[|calls| - 1], calls[..|calls| - 1];
      var outcome := env.call(p, Left(nodes, env, front, e));
      if nodes[p].kind.Transform? && outcome.Returns? && outcome.value.VContext? then Some(outcome.value.effects)
      else LastContext(nodes, env, front, e)
  }

  /** No node writes the effects map of the context it is given. */
  ghost predicate NoWrites(env: Env) {
    forall i, e :: env.after(i, e) == e
  }

  lemma {:induction false} LeftIsLastContext(nodes: seq<Node>, env: Env, calls: seq<nat>, e: Effects)
    requires Positions(calls, nodes) && NoWrites(env)
    ensures Left(nodes, env, calls, e) ==
            match LastContext(nodes, env, calls, e) { case None => e case Some(effects) => effects }
  {
    if calls != [] {
      LeftIsLastContext(nodes, env, calls[..|calls| - 1], e);
    }
  }

  lemma VisitLeaves(nodes: seq<Node>, i: nat, env: Env, w: Walk)
    requires i < |nodes|
    ensures var w' := Visit(nodes[i].kind, i, env, w).0;
      if RunsAt(nodes[i].kind, i, env, w.handled)
      then w'.st.log == w.st.log + [Called(i)] && w'.st.effects == AfterCall(nodes[i].kind, i, env, w.st.effects)
      else w'.st == w.st
  {
  }

  lemma {:induction false} WalkLeaves(nodes: seq<Node>, i: nat, env: Env, w: Walk, e: Effects)
    requires i <= |nodes|
    requires Positions(Calls(w.st.log), nodes) && w.st.effects == Left(nodes, env, Calls(w.st.log), e)
    ensures var st := WalkAll(nodes, i, env, w).0.st;
      Positions(Calls(st.log), nodes) && st.effects == Left(nodes, env, Calls(st.log), e)
    decreases |nodes| - i
  {
    if i < |nodes| {
      var (w', halt) := Visit(nodes[i].kind, i, env, w);
      VisitLeaves(nodes, i, env, w);
      CallsAppend(w.st.log, Called(i));
      hide Visit, AfterCall, RunsAt, Calls;
      var before := Calls(w.st.log);
      assert (before + [i])[..|before|] == before;
      if halt.Going? {
        WalkLeaves(nodes, i + 1, env, w', e);
      }
    }
  }

  // ---- The account of a whole run ---------------------------------------------------------

  /** Releases of a resource with either flag. */
  function AllReleases(log: seq<Event>, n: string, r: Resource): nat {
    Releases(log, n, r, true) + Releases(log, n, r, false)
  }

  /** Every resource is released as often as it was acquired; None needs no release. */
  ghost predicate Balanced(log: seq<Event>) {
    forall n :: BalancedAt(log, n)
  }

  ghost predicate BalancedAt(log: seq<Event>, n: string) {
    forall r | r != PyNone :: AllReleases(log, n, r) == Acquisitions(log, n, r)
  }

  /** Whether a run deals with effects at all. */
  ghost predicate Active(sorted: seq<Node>, env: Env) {
    env.hasRegistry && RequiredEffects(sorted) != {}
  }

  /** When a run balances under one name. If every acquire returns, the effects left by the calls made
      must hold what was acquired. If one raises, nothing registered may have been in the context before
      except under the names acquired by then; if one is cancelled or exits, this matters for the
      required names only. */
  ghost predicate BalancesAt(sorted: seq<Node>, env: Env, initial: Effects, calls: seq<nat>, n: string)
    requires Positions(calls, sorted)
  {
    var all := RequiredEffects(sorted);
    var names := env.order(0, all);
    var k := FirstFailure(names, env);
    n in env.registered ==>
      if k == |names| then
        var left := Left(sorted, env, calls, Acquire(names, env, St(initial, [])).effects);
        n in all ==> env.acquire(n) == Returns(HeldIn(left, n))
      else
        n !in names[..k] && (env.acquire(names[k]).Raises? || n in all) ==> HeldIn(initial, n) == PyNone
  }

  ghost predicate Balances(sorted: seq<Node>, env: Env, initial: Effects, calls: seq<nat>)
    requires Positions(calls, sorted)
  {
    Active(sorted, env) ==> forall n :: BalancesAt(sorted, env, initial, calls, n)
  }

  /** What a release of everything `held` gives back under one name. */
  function Back(given: bool, env: Env, held: Effects, n: string): Resource {
    if given && n in env.registered then HeldIn(held, n) else PyNone
  }

  lemma {:induction false} AcquiresOnly(names: seq<string>, env: Env, st: St, n: string, r: Resource)
    requires Acquisitions(st.log, n, r) == AllReleases(st.log, n, r) == 0
    requires Distinct(names) && AllReturn(names, env) && r != PyNone
    ensures var log := Acquire(names, env, st).log;
      Acquisitions(log, n, r) == Once(Taken(names, env, n), r) && AllReleases(log, n, r) == 0
  {
    AcquireTakes(names, env, st, n, r, true);
    AcquireTakes(names, env, st, n, r, false);
  }

  lemma ReleasePass(names: seq<string>, given: set<string>, success: bool, env: Env, st: St, n: string, r: Resource)
    requires NoReleaseCancelled(env) && Enumerates(names, given) && r != PyNone
    ensures var (st', cancelled) := ReleaseAll(names, success, env, st);
      && !cancelled
      && Acquisitions(st'.log, n, r) == Acquisitions(st.log, n, r)
      && AllReleases(st'.log, n, r) == AllReleases(st.log, n, r) + Once(Back(n in given, env, st.effects, n), r)
      && st'.effects == st.effects - given
      && Calls(st'.log) == Calls(st.log)
  {
    hide Acquisitions, Releases, ReleaseAll;
    ReleaseAllCounts(names, success, env, st, n, r);
    ReleaseAllForgets(names, success, env, st);
    ReleaseCallsNothing(names, success, env, st);
    assert NameSet(names) == given;
  }

  /** The state in which a run leaves its `try` block when every acquire returns. */
  lemma WalkAccount(sorted: seq<Node>, env: Env, got: St, n: string, r: Resource)
    requires Calls(got.log) == [] && AllReleases(got.log, n, r) == 0
    ensures var st := WalkAll(sorted, 0, env, Walk(got, false, VNone)).0.st;
      && Acquisitions(st.log, n, r) == Acquisitions(got.log, n, r) && AllReleases(st.log, n, r) == 0
      && Positions(Calls(st.log), sorted) && st.effects == Left(sorted, env, Calls(st.log), got.effects)
  {
    var w := Walk(got, false, VNone);
    WalkKeepsEffects(sorted, 0, env, w, n, r, true);
    WalkKeepsEffects(sorted, 0, env, w, n, r, false);
    WalkLeaves(sorted, 0, env, w, got.effects);
  }

  /** What a run releases under a name: the rollback gives back everything held, the `finally` block
      what is held under the required names. */
  function Returned(sorted: seq<Node>, env: Env, initial: Effects, calls: seq<nat>, n: string): Resource
    requires Positions(calls, sorted)
  {
    var all := RequiredEffects(sorted);
    var names := env.order(0, all);
    var k := FirstFailure(names, env);
    var held := Acquire(names[..k], env, St(initial, [])).effects;
    if k == |names| then Back(n in all, env, Left(sorted, env, calls, held), n)
    else Back(env.acquire(names[k]).Raises? || n in all, env, held, n)
  }

  lemma AcquireCallsNone(names: seq<string>, env: Env, st: St)
    ensures Calls(Acquire(names, env, st).log) == Calls(st.log)
    decreases |names|
  {
    if names != [] {
      var name := names[0];
      if name in env.registered && env.acquire(name).Returns? {
        var resource := env.acquire(name).value;
        CallsAppend(st.log, Acquired(name, resource));
        AcquireCallsNone(names[1..], env, St(st.effects[name := resource], st.log + [Acquired(name, resource)]));
      } else {
        AcquireCallsNone(names[1..], env, st);
      }
    }
  }

  /** The account when an acquire fails. */
  lemma FailedAccount(sorted: seq<Node>, env: Env, initial: Effects, n: string, r: Resource)
    requires WellFormed(env) && NoReleaseCancelled(env) && r != PyNone
    requires var all := RequiredEffects(sorted);
      Active(sorted, env) && FirstFailure(env.order(0, all), env) < |env.order(0, all)|
    ensures var all := RequiredEffects(sorted);
      var names := env.order(0, all);
      var (w, halt) := TryBlock(sorted, env, initial);
      var st := ReleaseAll(env.order(2, all), SuccessFlag(halt), env, w.st).0;
      && Acquisitions(st.log, n, r) == Once(Taken(names[..FirstFailure(names, env)], env, n), r)
      && AllReleases(st.log, n, r) == Once(Returned(sorted, env, initial, [], n), r)
      && Calls(st.log) == []
  {
    hide Acquisitions, Releases, ReleaseAll, AcquireAll, Acquire, WalkAll, Calls, RequiredEffects, FirstFailure;
    var all := RequiredEffects(sorted);
    var names := env.order(0, all);
    var k := FirstFailure(names, env);
    var start := St(initial, []);
    var got := Acquire(names[..k], env, start);
    AcquireStops(names, env, start);
    EmptyAccount(n, r);
    AcquiresOnly(names[..k], env, start, n, r);
    AcquireCallsNone(names[..k], env, start);
    var (w, halt) := TryBlock(sorted, env, initial);
    if env.acquire(names[k]).Raises? {
      ReleasePass(env.order(1, got.effects.Keys), got.effects.Keys, false, env, got, n, r);
      assert got.effects - got.effects.Keys == map[];
    }
    ReleasePass(env.order(2, all), all, SuccessFlag(halt), env, w.st, n, r);
  }

  lemma EmptyAccount(n: string, r: Resource)
    ensures Acquisitions([], n, r) == AllReleases([], n, r) == 0 && Calls([]) == []
  {
  }

  /** The account when every acquire returns. */
  lemma AcquiredAccount(sorted: seq<Node>, env: Env, initial: Effects, n: string, r: Resource)
    requires WellFormed(env) && NoReleaseCancelled(env) && r != PyNone
    requires var all := RequiredEffects(sorted);
      Active(sorted, env) && FirstFailure(env.order(0, all), env) == |env.order(0, all)|
    ensures var all := RequiredEffects(sorted);
      var names := env.order(0, all);
      var (w, halt) := TryBlock(sorted, env, initial);
      var st := ReleaseAll(env.order(2, all), SuccessFlag(halt), env, w.st).0;
      && Acquisitions(st.log, n, r) == Once(Taken(names, env, n), r)
      && Positions(Calls(st.log), sorted)
      && AllReleases(st.log, n, r) == Once(Returned(sorted, env, initial, Calls(st.log), n), r)
  {
    hide Acquisitions, Releases, ReleaseAll, AcquireAll, Acquire, WalkAll, Calls, RequiredEffects, FirstFailure, Left;
    var all := RequiredEffects(sorted);
    var names := env.order(0, all);
    var start := St(initial, []);
    var got := Acquire(names, env, start);
    assert names[..|names|] == names;
    AcquireStops(names, env, start);
    EmptyAccount(n, r);
    AcquiresOnly(names, env, start, n, r);
    AcquireCallsNone(names, env, start);
    WalkAccount(sorted, env, got, n, r);
    var (w, halt) := TryBlock(sorted, env, initial);
    ReleasePass(env.order(2, all), all, SuccessFlag(halt), env, w.st, n, r);
  }

  /** What a run acquires and releases under each name, whatever nodes, providers and the initial
      context do. */
  lemma RunAccount(nodes: seq<Node>, env: Env, initial: Effects, n: string, r: Resource)
    requires WellFormed(env) && NoReleaseCancelled(env) && r != PyNone
    ensures var sorted := SortNodes(nodes);
      var names := env.order(0, RequiredEffects(sorted));
      var log := Run(nodes, env, initial).st.log;
      && Positions(Calls(log), sorted)
      && Acquisitions(log, n, r) ==
         (if Active(sorted, env) then Once(Taken(names[..FirstFailure(names, env)], env, n), r) else 0)
      && AllReleases(log, n, r) ==
         (if Active(sorted, env) then Once(Returned(sorted, env, initial, Calls(log), n), r) else 0)
  {
    hide SortNodes, RequiredEffects, Acquisitions, Releases, ReleaseAll, AcquireAll, Acquire, WalkAll, Calls, Returned;
    hide Left, Taken;
    var sorted := SortNodes(nodes);
    var names := env.order(0, RequiredEffects(sorted));
    assert names[..|names|] == names;
    if !Active(sorted, env) {
      EmptyAccount(n, r);
      WalkAccount(sorted, env, St(initial, []), n, r);
    } else if FirstFailure(names, env) < |names| {
      FailedAccount(sorted, env, initial, n, r);
      hide TryBlock, FirstFailure;
      ReturnedUncalled(sorted, env, initial, Calls(Run(nodes, env, initial).st.log), n);
    } else {
      AcquiredAccount(sorted, env, initial, n, r);
      hide TryBlock, FirstFailure;
    }
  }

  lemma ReturnedUncalled(sorted: seq<Node>, env: Env, initial: Effects, calls: seq<nat>, n: string)
    requires calls == []
    ensures Returned(sorted, env, initial, calls, n) == Returned(sorted, env, initial, [], n)
  {
  }

  lemma ResourcesAgree(a: Resource, b: Resource)
    ensures a == b <==> forall r | r != PyNone :: Once(a, r) == Once(b, r)
  {
    assert a != PyNone ==> Once(a, a) == 1;
    assert b != PyNone ==> Once(b, b) == 1;
  }

  /** Name by name, what is acquired is returned exactly under this condition. */
  lemma ReturnedIsTaken(sorted: seq<Node>, env: Env, initial: Effects, calls: seq<nat>, n: string)
    requires WellFormed(env) && Positions(calls, sorted)
    ensures var names := env.order(0, RequiredEffects(sorted));
      BalancesAt(sorted, env, initial, calls, n) <==>
      Taken(names[..FirstFailure(names, env)], env, n) == Returned(sorted, env, initial, calls, n)
  {
    hide RequiredEffects, Left, Acquire, FirstFailure;
    var all := RequiredEffects(sorted);
    var names := env.order(0, all);
    var k := FirstFailure(names, env);
    assert Enumerates(names, all);
    if k == |names| {
      assert names[..k] == names;
      assert n in names && n in env.registered ==> env.acquire(n).Returns?;
    } else {
      AcquireHolds(names[..k], env, St(initial, []), n);
      assert n in names[..k] ==> n in all;
      assert n in names[..k] && n in env.registered ==> env.acquire(n).Returns?;
    }
  }

  lemma BalancedAtIff(nodes: seq<Node>, env: Env, initial: Effects, n: string)
    requires WellFormed(env) && NoReleaseCancelled(env)
    ensures var log := Run(nodes, env, initial).st.log;
      var sorted := SortNodes(nodes);
      Positions(Calls(log), sorted) &&
      (BalancedAt(log, n) <==> (Active(sorted, env) ==> BalancesAt(sorted, env, initial, Calls(log), n)))
  {
    hide Run, SortNodes, FirstFailure, Taken, Returned, Calls, Acquisitions, AllReleases, Active, Once, BalancesAt;
    var log := Run(nodes, env, initial).st.log;
    var sorted := SortNodes(nodes);
    var names := env.order(0, RequiredEffects(sorted));
    hide RequiredEffects;
    RunAccount(nodes, env, initial, n, Handle(0));
    ReturnedIsTaken(sorted, env, initial, Calls(log), n);
    var a, b := Taken(names[..FirstFailure(names, env)], env, n), Returned(sorted, env, initial, Calls(log), n);
    ResourcesAgree(a, b);
    forall r | r != PyNone
      ensures AllReleases(log, n, r) == Acquisitions(log, n, r) <==> (Active(sorted, env) ==> Once(a, r) == Once(b, r))
    {
      RunAccount(nodes, env, initial, n, r);
    }
  }

  /** A run releases every resource as often as it was acquired if and only if `Balances` holds. */
  lemma BalancedIff(nodes: seq<Node>, env: Env, initial: Effects)
    requires WellFormed(env) && NoReleaseCancelled(env)
    ensures var log := Run(nodes, env, initial).st.log;
      var sorted := SortNodes(nodes);
      Positions(Calls(log), sorted) && (Balanced(log) <==> Balances(sorted, env, initial, Calls(log)))
  {
    hide Run, SortNodes, BalancedAt, BalancesAt, Calls;
    BalancedAtIff(nodes, env, initial, "");
    forall n {
      BalancedAtIff(nodes, env, initial, n);
    }
  }

  /** When no node writes the effects map and every acquire returns, a run balances if and only if no
      called transform returned a context, or the last one returned still holds, under each required
      and registered name, the resource acquired for it. */
  lemma BalancedIffContextKept(nodes: seq<Node>, env: Env, initial: Effects)
    requires WellFormed(env) && NoReleaseCancelled(env) && NoWrites(env)
    requires Active(SortNodes(nodes), env) && AllReturn(env.order(0, RequiredEffects(SortNodes(nodes))), env)
    ensures var log := Run(nodes, env, initial).st.log;
      var sorted := SortNodes(nodes);
      var all := RequiredEffects(sorted);
      var acquired := Acquire(env.order(0, all), env, St(initial, [])).effects;
      Positions(Calls(log), sorted) &&
      (Balanced(log) <==>
       match LastContext(sorted, env, Calls(log), acquired)
       case None => true
       case Some(e) => forall n :: n in all && n in env.registered ==> env.acquire(n) == Returns(HeldIn(e, n)))
  {
    hide Run, SortNodes, RequiredEffects, Calls, Balanced, Left, LastContext, Acquire;
    var log := Run(nodes, env, initial).st.log;
    var sorted := SortNodes(nodes);
    var all := RequiredEffects(sorted);
    var names := env.order(0, all);
    assert Enumerates(names, all);
    BalancedIff(nodes, env, initial);
    LeftIsLastContext(sorted, env, Calls(log), Acquire(names, env, St(initial, [])).effects);
    assert FirstFailure(names, env) == |names|;
    hide FirstFailure;
    forall n | n in all && n in env.registered
      ensures env.acquire(n) == Returns(HeldIn(Acquire(names, env, St(initial, [])).effects, n))
    {
      AcquireHolds(names, env, St(initial, []), n);
    }
    var left := Left(sorted, env, Calls(log), Acquire(names, env, St(initial, [])).effects);
    assert forall n :: BalancesAt(sorted, env, initial, Calls(log), n) <==>
                       (n in env.registered && n in all ==> env.acquire(n) == Returns(HeldIn(left, n)));
    hide BalancesAt;
  }

  // ---- A cancelled release ----------------------------------------------------------------

  predicate CutsRelease(name: string, env: Env, effects: Effects) {
    && name in effects && effects[name] != PyNone && name in env.registered
    && env.release(name, effects[name]) == ReleaseCancelled
  }

  /** How many names a release pass gets to: a cancelled release is the last. */
  function Reached(names: seq<string>, env: Env, effects: Effects): (k: nat)
    ensures k <= |names|
  {
    if names == [] then 0
    else if CutsRelease(names[0], env, effects) then 1
    else 1 + Reached(names[1..], env, effects - {names[0]})
  }

  /** A release pass hands back what is held under the names it gets to, and nothing under the others. */
  lemma {:induction false} ReleaseReaches(names: seq<string>, success: bool, env: Env, st: St, n: string, r: Resource)
    ensures var (st', cancelled) := ReleaseAll(names, success, env, st);
      var k := Reached(names, env, st.effects);
      && Acquisitions(st'.log, n, r) == Acquisitions(st.log, n, r)
      && Releases(st'.log, n, r, success) ==
         Releases(st.log, n, r, success) + HandedBack(names[..k], env, st.effects, n, r)
      && Releases(st'.log, n, r, !success) == Releases(st.log, n, r, !success)
      && (!cancelled ==> k == |names|)
  {
    if names != [] {
      var name := names[0];
      var k := Reached(names, env, st.effects);
      var st' := ReleaseOne(name, success, env, st).0;
      ReleaseOneCounts(name, success, env, st, n, r);
      assert names[..k][1..] == names[1..][..k - 1] && names[..k] == [name] + names[1..][..k - 1];
      if CutsRelease(name, env, st.effects) {
        assert names[..1] == [name];
        hide Acquisitions, Releases;
      } else {
        hide Acquisitions, Releases;
        ReleaseReaches(names[1..], success, env, st', n, r);
      }
    }
  }

  /** Also when a release in the `finally` block is cancelled: of what is then held under the required
      names exactly that behind the cancelled release is never released. */
  lemma CancelledReleaseLeaksRest(nodes: seq<Node>, env: Env, initial: Effects, n: string, r: Resource)
    requires WellFormed(env) && r != PyNone
    requires Active(SortNodes(nodes), env) && AllReturn(env.order(0, RequiredEffects(SortNodes(nodes))), env)
    ensures var sorted := SortNodes(nodes);
      var names, last := env.order(0, RequiredEffects(sorted)), env.order(2, RequiredEffects(sorted));
      var log := Run(nodes, env, initial).st.log;
      Positions(Calls(log), sorted) &&
      var left := Left(sorted, env, Calls(log), Acquire(names, env, St(initial, [])).effects);
      && Acquisitions(log, n, r) == Once(Taken(names, env, n), r)
      && AllReleases(log, n, r) == Once(Back(n in last[..Reached(last, env, left)], env, left, n), r)
  {
    hide SortNodes, RequiredEffects, Acquisitions, Releases, ReleaseAll, AcquireAll, Acquire, WalkAll, Calls, Left;
    hide Reached;
    var sorted := SortNodes(nodes);
    var all := RequiredEffects(sorted);
    var names, last := env.order(0, all), env.order(2, all);
    var start := St(initial, []);
    var got := Acquire(names, env, start);
    assert Enumerates(names, all);
    assert FirstFailure(names, env) == |names|;
    hide FirstFailure;
    assert names[..|names|] == names;
    AcquireStops(names, env, start);
    EmptyAccount(n, r);
    AcquiresOnly(names, env, start, n, r);
    AcquireCallsNone(names, env, start);
    WalkAccount(sorted, env, got, n, r);
    var (w, halt) := TryBlock(sorted, env, initial);
    ReleaseReaches(last, SuccessFlag(halt), env, w.st, n, r);
    ReleaseCallsNothing(last, SuccessFlag(halt), env, w.st);
  }

  // ---- Runs that do not balance -----------------------------------------------------------

  lemma SingleOrder(env: Env, name: string)
    requires WellFormed(env)
    ensures forall stage :: env.order(stage, {name}) == [name]
  {
    forall stage
      ensures env.order(stage, {name}) == [name]
    {
      var o := env.order(stage, {name});
      assert Enumerates(o, {name});
      assert name in o;
      assert |o| <= 1 || o[0] != o[1];
      forall j | 0 <= j < |o|
        ensures o[j] == name
      {
        assert o[j] in o;
      }
    }
  }

  /** A transform that returns a new context with no effects makes the run succeed and leak. */
  lemma FreshContextLeaks(env: Env, n: Node)
    requires WellFormed(env) && env.hasRegistry && "db" in env.registered
    requires n.kind.Transform? && n.effects == ["db"] && n.declared == []
    requires env.acquire("db") == Returns(Handle(7)) && env.condition(0).Holds?
    requires forall e :: env.call(0, e) == Returns(VContext(map[]))
    ensures var r := Run([n], env, map[]);
      && r.status.Success?
      && Acquisitions(r.st.log, "db", Handle(7)) == 1
      && Releases(r.st.log, "db", Handle(7), true) + Releases(r.st.log, "db", Handle(7), false) == 0
  {
    assert SortNodes([n]) == [n] by {
      assert SortNodes([n]) == Insert(n, SortNodes([]));
    }
    assert n in [n] && "db" in n.effects + n.declared;
    assert RequiredEffects([n]) == {"db"};
    SingleOrder(env, "db");
    var start := St(map[], []);
    var st := St(map["db" := Handle(7)], [Acquired("db", Handle(7))]);
    assert AcquireAll(["db"], env, start) == (st, Going) by {
      assert start.log + [Acquired("db", Handle(7))] == st.log;
      assert start.effects["db" := Handle(7)] == st.effects;
      assert AcquireAll(["db"][1..], env, st) == (st, Going);
    }
    var w := Walk(St(map[], st.log + [Called(0)]), false, VNone);
    assert WalkAll([n], 1, env, w) == (w, Going);
    assert TryBlock([n], env, map[]) == (w, Going);
    assert ReleaseAll(["db"], true, env, w.st) == (w.st, false) by {
      assert ReleaseAll(["db"][1..], true, env, w.st) == (w.st, false);
    }
    forall flag: bool
      ensures Releases(w.st.log, "db", Handle(7), flag) == 0 && Acquisitions(w.st.log, "db", Handle(7)) == 1
    {
      CountAppend([], Acquired("db", Handle(7)), "db", Handle(7), flag);
      CountAppend(st.log, Called(0), "db", Handle(7), flag);
    }
  }

  /** A failing acquire releases, as failed, what was in the context before. */
  lemma PreacquiredIsReleased(env: Env, n: Node)
    requires WellFormed(env) && env.hasRegistry && env.registered == {"db", "pre"}
    requires n.effects == ["db"] && n.declared == []
    requires env.acquire("db").Raises? && env.release("pre", Handle(1)) == Completes
    ensures Run([n], env, map["pre" := Handle(1)]) == RunResult(Error, St(map[], [Released("pre", Handle(1), false)]))
  {
    assert SortNodes([n]) == [n] by {
      assert SortNodes([n]) == Insert(n, SortNodes([]));
    }
    assert n in [n] && "db" in n.effects + n.declared;
    assert RequiredEffects([n]) == {"db"};
    SingleOrder(env, "db");
    SingleOrder(env, "pre");
    var start := St(map["pre" := Handle(1)], []);
    var st := St(map[], [Released("pre", Handle(1), false)]);
    assert start.effects.Keys == {"pre"};
    assert ReleaseOne("pre", false, env, start) == (st, false) by {
      assert start.effects - {"pre"} == map[];
      assert start.log + [Released("pre", Handle(1), false)] == st.log;
    }
    assert ReleaseAll(["pre"], false, env, start) == (st, false) by {
      assert ReleaseAll(["pre"][1..], false, env, st) == (st, false);
    }
    hide ReleaseOne;
    assert AcquireAll(["db"], env, start) == (st, Crashed);
    assert ReleaseAll(["db"], false, env, st) == (st, false) by {
      assert ReleaseOne("db", false, env, st) == (st, false);
      assert ReleaseAll(["db"][1..], false, env, st) == (st, false);
    }
  }
}
