/** `EffectScope` of aquilia/flow.py: effects held for the body of an `async with` statement, released
    in the opposite order. */
module EffectScopes {
  import opened Common
  import opened FlowOrder
  import opened FlowRun

  /** The registry and its providers; provider calls are indexed by position in the list of names, each
      position being acquired and released at most once. `getProvider` failing at release is a release
      that raises. */
  datatype Registry = Registry(registered: set<string>, acquire: nat -> Outcome<Resource>,
                               release: nat -> ReleaseOutcome)

  /** What the scope holds, the effects of its context if it has one, and the provider calls made. */
  datatype Holding = Holding(acquired: Effects, context: Option<Effects>, log: seq<Event>)

  function Put(context: Option<Effects>, name: string, resource: Resource): Option<Effects> {
    if context.None? then None else Some(context.value[name := resource])
  }

  function Drop(context: Option<Effects>, name: string): Option<Effects> {
    if context.None? then None else Some(context.value - {name})
  }

  /** `__aenter__` from position `i` on; the flag says that it did not raise. */
  function Enter(names: seq<string>, i: nat, reg: Registry, h: Holding): (r: (Holding, bool))
    requires i <= |names|
    decreases |names| - i
  {
    if i == |names| then (h, true)
    else if names[i] !in reg.registered || !reg.acquire(i).Returns? then (h, false)
    else
      var resource := reg.acquire(i).value;
      Enter(names, i + 1, reg, Holding(h.acquired[names[i] := resource], Put(h.context, names[i], resource),
                                       h.log + [Acquired(names[i], resource)]))
  }

  function AfterRelease(h: Holding, name: string, success: bool): Holding
    requires name in h.acquired
  {
    Holding(h.acquired - {name}, Drop(h.context, name), h.log + [Released(name, h.acquired[name], success)])
  }

  /** `__aexit__` over the first `k` names, last first; the flag says that a release was cancelled. */
  function Leave(names: seq<string>, k: nat, success: bool, reg: Registry, h: Holding): (r: (Holding, bool))
    requires k <= |names|
  {
    if k == 0 then (h, false)
    else
      var name := names[k - 1];
      if name !in h.acquired then Leave(names, k - 1, success, reg, h)
      else if h.acquired[name] == PyNone then Leave(names, k - 1, success, reg, h.(acquired := h.acquired - {name}))
      else if reg.release(k - 1) == ReleaseCancelled then (AfterRelease(h, name, success), true)
      else Leave(names, k - 1, success, reg, AfterRelease(h, name, success))
  }

  /** The statement as a whole: the body runs, and the scope is left, only if entering succeeded. */
  function RunScope(names: seq<string>, bodyOk: bool, reg: Registry, context: Option<Effects>): (r: (Holding, bool)) {
    var (h, entered) := Enter(names, 0, reg, Holding(map[], context, []));
    if entered then (Leave(names, |names|, bodyOk, reg, h).0, true) else (h, false)
  }

  // ---- What a scope holds while it is entered -----------------------------------------------

  ghost predicate NoneAcquired(reg: Registry) {
    forall i :: reg.acquire(i) != Returns(PyNone)
  }

  ghost predicate NoneCancelled(reg: Registry) {
    forall i :: reg.release(i) != ReleaseCancelled
  }

  /** The log acquires a prefix of the names in order, and the scope holds the latest resource of each. */
  ghost predicate Acquiring(names: seq<string>, h: Holding) {
    && |h.log| <= |names|
    && (forall j :: 0 <= j < |h.log| ==> h.log[j].Acquired? && h.log[j].name == names[j] && h.log[j].resource != PyNone)
    && (forall n :: n in h.acquired <==> n in names[..|h.log|])
    && (forall n :: n in h.acquired ==>
      exists j :: 0 <= j < |h.log| && h.log[j] == Acquired(n, h.acquired[n]) && n !in names[j + 1..|h.log|])
  }

  lemma AcquireOneMore(names: seq<string>, h: Holding, resource: Resource, context: Option<Effects>)
    requires Acquiring(names, h) && |h.log| < |names| && resource != PyNone
    ensures var name := names[|h.log|];
      Acquiring(names, Holding(h.acquired[name := resource], context, h.log + [Acquired(name, resource)]))
  {
    var i := |h.log|;
    var name := names[i];
    var h' := Holding(h.acquired[name := resource], context, h.log + [Acquired(name, resource)]);
    assert names[..i + 1] == names[..i] + [name];
    forall n | n in h'.acquired
      ensures exists j :: 0 <= j < |h'.log| && h'.log[j] == Acquired(n, h'.acquired[n]) && n !in names[j + 1..|h'.log|]
    {
      if n == name {
        assert h'.log[i] == Acquired(n, h'.acquired[n]) && n !in names[i + 1..i + 1];
      } else {
        var j :| 0 <= j < i && h.log[j] == Acquired(n, h.acquired[n]) && n !in names[j + 1..i];
        assert h'.log[j] == h.log[j];
        assert names[j + 1..i + 1] == names[j + 1..i] + [name];
      }
    }
  }

  lemma {:induction false} EnterHolds(names: seq<string>, i: nat, reg: Registry, h: Holding)
    requires i <= |names| && |h.log| == i && Acquiring(names, h) && NoneAcquired(reg)
    ensures var (h', entered) := Enter(names, i, reg, h);
      Acquiring(names, h') && (entered <==> |h'.log| == |names|) && h.log <= h'.log
    decreases |names| - i
  {
    if i < |names| && names[i] in reg.registered && reg.acquire(i).Returns? {
      var resource := reg.acquire(i).value;
      assert reg.acquire(i) == Returns(resource);
      AcquireOneMore(names, h, resource, Put(h.context, names[i], resource));
      hide Acquiring;
      EnterHolds(names, i + 1, reg, Holding(h.acquired[names[i] := resource], Put(h.context, names[i], resource),
                                            h.log + [Acquired(names[i], resource)]));
    }
  }

  // ---- Nesting ------------------------------------------------------------------------------

  /** Releases of everything a log acquires, latest first. */
  function Mirror(log: seq<Event>, success: bool): seq<Event> {
    if log == [] then []
    else
      var e, rest := log[|log| - 1], Mirror(log[..|log| - 1], success);
      if e.Acquired? then [Released(e.name, e.resource, success)] + rest else rest
  }

  /** The scope holds exactly what the first `k` events acquired. */
  ghost predicate HoldsPrefix(names: seq<string>, k: nat, acquired: Effects, log: seq<Event>)
    requires k <= |names| && k <= |log|
  {
    && (forall n :: n in acquired ==> n in names[..k])
    && (forall j :: 0 <= j < k ==> names[j] in acquired && acquired[names[j]] != PyNone
                                   && log[j] == Acquired(names[j], acquired[names[j]]))
  }

  lemma HoldsOneLess(names: seq<string>, k: nat, acquired: Effects, log: seq<Event>)
    requires 0 < k <= |names| && k <= |log| && Distinct(names) && HoldsPrefix(names, k, acquired, log)
    ensures HoldsPrefix(names, k - 1, acquired - {names[k - 1]}, log)
    ensures names[k - 1] in acquired && acquired[names[k - 1]] != PyNone
    ensures log[k - 1] == Acquired(names[k - 1], acquired[names[k - 1]])
  {
    assert names[..k] == names[..k - 1] + [names[k - 1]];
  }

  lemma MirrorOneMore(log: seq<Event>, k: nat, success: bool)
    requires 0 < k <= |log| && log[k - 1].Acquired?
    ensures Mirror(log[..k], success) ==
      [Released(log[k - 1].name, log[k - 1].resource, success)] + Mirror(log[..k - 1], success)
  {
    assert log[..k][..k - 1] == log[..k - 1];
  }

  lemma LeaveOne(names: seq<string>, k: nat, success: bool, reg: Registry, h: Holding)
    requires 0 < k <= |names| && NoneCancelled(reg)
    requires names[k - 1] in h.acquired && h.acquired[names[k - 1]] != PyNone
    ensures Leave(names, k, success, reg, h) ==
            Leave(names, k - 1, success, reg, AfterRelease(h, names[k - 1], success))
  {
  }

  lemma LeaveNothing(names: seq<string>, success: bool, reg: Registry, h: Holding, log: seq<Event>)
    requires HoldsPrefix(names, 0, h.acquired, log)
    ensures Leave(names, 0, success, reg, h).0.log == h.log + Mirror(log[..0], success)
    ensures Leave(names, 0, success, reg, h).0.acquired == map[]
  {
    assert names[..0] == [] && log[..0] == [];
  }

  lemma {:induction false} LeaveMirrors(names: seq<string>, k: nat, success: bool, reg: Registry, h: Holding,
                                        log: seq<Event>)
    requires k <= |names| && k <= |log| && Distinct(names) && NoneCancelled(reg)
    requires HoldsPrefix(names, k, h.acquired, log)
    ensures Leave(names, k, success, reg, h).0.log == h.log + Mirror(log[..k], success)
    ensures Leave(names, k, success, reg, h).0.acquired == map[]
    decreases k
  {
    hide HoldsPrefix, Distinct, Mirror, Leave;
    if k == 0 {
      LeaveNothing(names, success, reg, h, log);
    } else {
      HoldsOneLess(names, k, h.acquired, log);
      MirrorOneMore(log, k, success);
      LeaveOne(names, k, success, reg, h);
      var name := names[k - 1];
      LeaveMirrors(names, k - 1, success, reg, AfterRelease(h, name, success), log);
      var e, rest := Released(name, h.acquired[name], success), Mirror(log[..k - 1], success);
      assert (h.log + [e]) + rest == h.log + ([e] + rest);
    }
  }

  /** Distinct effects are held strictly nested: the provider calls of an entered scope are its
      acquisitions followed by their exact mirror image. */
  lemma ScopeNests(names: seq<string>, bodyOk: bool, reg: Registry, context: Option<Effects>)
    requires Distinct(names) && NoneAcquired(reg) && NoneCancelled(reg)
    ensures var acquisitions := Enter(names, 0, reg, Holding(map[], context, [])).0.log;
      var (h, entered) := RunScope(names, bodyOk, reg, context);
      entered ==>
        && h.log == acquisitions + Mirror(acquisitions, bodyOk)
        && |acquisitions| == |names| && h.acquired == map[]
  {
    var start := Holding(map[], context, []);
    EnterHolds(names, 0, reg, start);
    var (h, entered) := Enter(names, 0, reg, start);
    if entered {
      assert names[..|names|] == names && h.log[..|h.log|] == h.log;
      LeaveMirrors(names, |names|, bodyOk, reg, h, h.log);
    }
  }

  // ---- Balance ------------------------------------------------------------------------------

  lemma {:induction false} LeaveCounts(names: seq<string>, k: nat, success: bool, reg: Registry, h: Holding,
                                       n: string, r: Resource)
    requires k <= |names| && NoneCancelled(reg) && r != PyNone
    ensures var h' := Leave(names, k, success, reg, h).0;
      && Acquisitions(h'.log, n, r) == Acquisitions(h.log, n, r)
      && Releases(h'.log, n, r, success) ==
         Releases(h.log, n, r, success) + (if n in names[..k] then HeldCount(h.acquired, n, r) else 0)
    decreases k
  {
    if k > 0 {
      var name := names[k - 1];
      assert names[..k] == names[..k - 1] + [name];
      if name !in h.acquired {
        LeaveCounts(names, k - 1, success, reg, h, n, r);
      } else {
        if h.acquired[name] == PyNone {
          LeaveCounts(names, k - 1, success, reg, h.(acquired := h.acquired - {name}), n, r);
        } else {
          CountAppend(h.log, Released(name, h.acquired[name], success), n, r, success);
          hide Acquisitions, Releases;
          LeaveCounts(names, k - 1, success, reg, AfterRelease(h, name, success), n, r);
        }
      }
    }
  }

  lemma {:induction false} NothingReleased(log: seq<Event>, n: string, r: Resource, flag: bool)
    requires forall j :: 0 <= j < |log| ==> log[j].Acquired?
    ensures Releases(log, n, r, flag) == 0
  {
    if log != [] {
      NothingReleased(log[..|log| - 1], n, r, flag);
    }
  }

  /** A position that acquires counts, and two of them count twice. */
  lemma {:induction false} CountAt(log: seq<Event>, j: nat, n: string, r: Resource)
    requires j < |log| && log[j] == Acquired(n, r)
    ensures Acquisitions(log, n, r) >= 1
  {
    if j < |log| - 1 {
      CountAt(log[..|log| - 1], j, n, r);
    }
  }

  lemma {:induction false} CountTwice(log: seq<Event>, i: nat, j: nat, n: string, r: Resource)
    requires i < j < |log| && log[i] == log[j] == Acquired(n, r)
    ensures Acquisitions(log, n, r) >= 2
  {
    if j < |log| - 1 {
      CountTwice(log[..|log| - 1], i, j, n, r);
    } else {
      CountAt(log[..|log| - 1], i, n, r);
    }
  }

  lemma {:induction false} CountNone(log: seq<Event>, n: string, r: Resource)
    requires forall j :: 0 <= j < |log| ==> log[j] != Acquired(n, r)
    ensures Acquisitions(log, n, r) == 0
  {
    if log != [] {
      CountNone(log[..|log| - 1], n, r);
    }
  }

  lemma {:induction false} CountOnce(log: seq<Event>, j: nat, n: string, r: Resource)
    requires j < |log| && log[j] == Acquired(n, r)
    requires forall i :: 0 <= i < |log| && i != j ==> log[i] != Acquired(n, r)
    ensures Acquisitions(log, n, r) == 1
  {
    if j < |log| - 1 {
      CountOnce(log[..|log| - 1], j, n, r);
    } else {
      CountNone(log[..|log| - 1], n, r);
    }
  }

  /** Every resource is released as often as it was acquired. */
  ghost predicate Balanced(log: seq<Event>, flag: bool) {
    forall n, r | r != PyNone :: Acquisitions(log, n, r) == Releases(log, n, r, flag)
  }

  lemma AcquiredOnce(names: seq<string>, h: Holding, n: string, r: Resource)
    requires Acquiring(names, h) && |h.log| == |names| && Distinct(names)
    ensures Acquisitions(h.log, n, r) == HeldCount(h.acquired, n, r)
  {
    if n in h.acquired && h.acquired[n] == r {
      var j :| 0 <= j < |h.log| && h.log[j] == Acquired(n, r);
      CountOnce(h.log, j, n, r);
    } else {
      forall j | 0 <= j < |h.log|
        ensures h.log[j] != Acquired(n, r)
      {
        assert names[j] in names[..|h.log|];
        var i :| 0 <= i < |h.log| && h.log[i] == Acquired(names[j], h.acquired[names[j]]);
        assert names[i] == names[j];
      }
      CountNone(h.log, n, r);
    }
  }

  lemma RepeatedIsLost(names: seq<string>, h: Holding, a: nat, b: nat)
    requires Acquiring(names, h) && |h.log| == |names| && a < b < |names| && names[a] == names[b]
    ensures exists r :: r != PyNone && Acquisitions(h.log, names[a], r) > HeldCount(h.acquired, names[a], r)
  {
    var n, r := names[a], h.log[a].resource;
    assert n in names[..|h.log|];
    CountAt(h.log, a, n, r);
    assert forall c :: 0 <= c <= b ==> names[c..|h.log|][b - c] == n;
    if h.acquired[n] == r {
      var j :| 0 <= j < |h.log| && h.log[j] == Acquired(n, r) && n !in names[j + 1..|h.log|];
      CountTwice(h.log, a, j, n, r);
    }
    assert Acquisitions(h.log, n, r) > HeldCount(h.acquired, n, r);
  }

  ghost predicate Obtainable(names: seq<string>, j: nat, reg: Registry)
    requires j < |names|
  {
    names[j] in reg.registered && reg.acquire(j).Returns?
  }

  lemma {:induction false} EntersIff(names: seq<string>, i: nat, reg: Registry, h: Holding)
    requires i <= |names|
    ensures Enter(names, i, reg, h).1 <==> forall j :: i <= j < |names| ==> Obtainable(names, j, reg)
    ensures Enter(names, i, reg, h).0.log == h.log <==> i == |names| || !Obtainable(names, i, reg)
    ensures h.log <= Enter(names, i, reg, h).0.log
    decreases |names| - i
  {
    if i < |names| && Obtainable(names, i, reg) {
      var resource := reg.acquire(i).value;
      EntersIff(names, i + 1, reg, Holding(h.acquired[names[i] := resource], Put(h.context, names[i], resource),
                                           h.log + [Acquired(names[i], resource)]));
    }
  }

  /** A scope hands back all it acquires if and only if every effect can be obtained and none is named
      twice, or not even the first one can be: a later failure while entering keeps the earlier effects
      for good. */
  lemma ScopeBalancedIff(names: seq<string>, bodyOk: bool, reg: Registry, context: Option<Effects>)
    requires NoneAcquired(reg) && NoneCancelled(reg)
    ensures Balanced(RunScope(names, bodyOk, reg, context).0.log, bodyOk) <==>
            if forall j :: 0 <= j < |names| ==> Obtainable(names, j, reg) then Distinct(names)
            else !Obtainable(names, 0, reg)
  {
    EntersIff(names, 0, reg, Holding(map[], context, []));
    RunBalancedIff(names, bodyOk, reg, context);
    EnterHolds(names, 0, reg, Holding(map[], context, []));
    hide Enter, Balanced, Leave;
  }

  /** When the second of two effects cannot be acquired, the first is never released. */
  lemma SecondFailureLeaksFirst(a: string, b: string, bodyOk: bool, reg: Registry, r: Resource)
    requires a in reg.registered && reg.acquire(0) == Returns(r) && reg.acquire(1).Raises?
    ensures RunScope([a, b], bodyOk, reg, None) == (Holding(map[a := r], None, [Acquired(a, r)]), false)
  {
    var h := Holding(map[a := r], None, [Acquired(a, r)]);
    assert Enter([a, b], 1, reg, h) == (h, false);
    assert map[][a := r] == h.acquired && [] + [Acquired(a, r)] == h.log;
  }

  lemma RunBalancedIff(names: seq<string>, bodyOk: bool, reg: Registry, context: Option<Effects>)
    requires NoneAcquired(reg) && NoneCancelled(reg)
    ensures var (h, entered) := RunScope(names, bodyOk, reg, context);
      Balanced(h.log, bodyOk) <==> if entered then Distinct(names) else h.log == []
  {
    var start := Holding(map[], context, []);
    EnterHolds(names, 0, reg, start);
    var (h, entered) := Enter(names, 0, reg, start);
    if entered {
      forall n, r | r != PyNone
        ensures var h' := RunScope(names, bodyOk, reg, context).0;
          && Acquisitions(h'.log, n, r) == Acquisitions(h.log, n, r)
          && Releases(h'.log, n, r, bodyOk) == HeldCount(h.acquired, n, r)
      {
        EnteredCounts(names, bodyOk, reg, h, n, r);
      }
      var h' := RunScope(names, bodyOk, reg, context).0;
      hide RunScope, Acquisitions, Releases;
      if Distinct(names) {
        forall n, r | r != PyNone
          ensures Acquisitions(h'.log, n, r) == Releases(h'.log, n, r, bodyOk)
        {
          AcquiredOnce(names, h, n, r);
        }
      } else {
        var a, b :| 0 <= a < b < |names| && names[a] == names[b];
        RepeatedIsLost(names, h, a, b);
      }
    } else if h.log != [] {
      var n, r := h.log[0].name, h.log[0].resource;
      CountAt(h.log, 0, n, r);
      NothingReleased(h.log, n, r, bodyOk);
    }
  }

  lemma EnteredCounts(names: seq<string>, bodyOk: bool, reg: Registry, h: Holding, n: string, r: Resource)
    requires Acquiring(names, h) && |h.log| == |names| && NoneCancelled(reg) && r != PyNone
    ensures var h' := Leave(names, |names|, bodyOk, reg, h).0;
      && Acquisitions(h'.log, n, r) == Acquisitions(h.log, n, r)
      && Releases(h'.log, n, r, bodyOk) == HeldCount(h.acquired, n, r)
  {
    assert names[..|names|] == names;
    NothingReleased(h.log, n, r, bodyOk);
    LeaveCounts(names, |names|, bodyOk, reg, h, n, r);
  }

  // ---- The context --------------------------------------------------------------------------

  ghost predicate SameAt(a: Option<Effects>, b: Option<Effects>, x: string) {
    a.Some? && b.Some? && (x in a.value <==> x in b.value) && (x in a.value ==> a.value[x] == b.value[x])
  }

  lemma {:induction false} EnterKeepsOthers(names: seq<string>, i: nat, reg: Registry, h: Holding, x: string)
    requires i <= |names| && h.context.Some? && x !in names
    ensures SameAt(Enter(names, i, reg, h).0.context, h.context, x)
    decreases |names| - i
  {
    if i < |names| && names[i] in reg.registered && reg.acquire(i).Returns? {
      var resource := reg.acquire(i).value;
      EnterKeepsOthers(names, i + 1, reg, Holding(h.acquired[names[i] := resource], Put(h.context, names[i], resource),
                                                  h.log + [Acquired(names[i], resource)]), x);
    }
  }

  lemma {:induction false} LeaveDrops(names: seq<string>, k: nat, success: bool, reg: Registry, h: Holding, x: string)
    requires k <= |names| && h.context.Some? && NoneCancelled(reg)
    requires forall n :: n in h.acquired ==> h.acquired[n] != PyNone
    ensures var context := Leave(names, k, success, reg, h).0.context;
      if x in names[..k] && x in h.acquired then context.Some? && x !in context.value else SameAt(context, h.context, x)
    decreases k
  {
    if k > 0 {
      var name := names[k - 1];
      assert names[..k] == names[..k - 1] + [name];
      LeaveDrops(names, k - 1, success, reg, if name in h.acquired then AfterRelease(h, name, success) else h, x);
    }
  }

  /** While the body runs the context holds what the scope holds, and under other names what it held
      before. */
  lemma {:induction false} BodySeesEffects(names: seq<string>, i: nat, reg: Registry, h: Holding)
    requires i <= |names| && h.context.Some?
    requires forall n :: n in h.acquired ==> n in h.context.value && h.context.value[n] == h.acquired[n]
    ensures var h' := Enter(names, i, reg, h).0;
      && h'.context.Some?
      && (forall n :: n in h'.acquired ==> n in h'.context.value && h'.context.value[n] == h'.acquired[n])
      && (forall n :: n !in names ==> SameAt(h'.context, h.context, n))
    decreases |names| - i
  {
    if i < |names| && names[i] in reg.registered && reg.acquire(i).Returns? {
      var resource := reg.acquire(i).value;
      BodySeesEffects(names, i + 1, reg, Holding(h.acquired[names[i] := resource], Put(h.context, names[i], resource),
                                                 h.log + [Acquired(names[i], resource)]));
    }
  }

  /** Leaving a scope removes its names from the context for good: the effects the context had before
      are back if and only if the scope shadowed none of them. */
  lemma ContextRestoredIff(names: seq<string>, bodyOk: bool, reg: Registry, before: Effects)
    requires NoneAcquired(reg) && NoneCancelled(reg)
    ensures var (h, entered) := RunScope(names, bodyOk, reg, Some(before));
      entered ==>
        && h.context == Some(before - NameSet(names))
        && (h.context == Some(before) <==> forall n :: n in names ==> n !in before)
  {
    var start := Holding(map[], Some(before), []);
    EnterHolds(names, 0, reg, start);
    var (held, entered) := Enter(names, 0, reg, start);
    if entered {
      var after := RunScope(names, bodyOk, reg, Some(before)).0.context;
      assert names[..|names|] == names;
      EntersContext(names, 0, reg, start);
      forall x
        ensures if x in names then after.Some? && x !in after.value else SameAt(after, Some(before), x)
      {
        LeaveDrops(names, |names|, bodyOk, reg, held, x);
        if x !in names {
          EnterKeepsOthers(names, 0, reg, start, x);
        }
      }
      hide RunScope, Enter;
      assert after.value == before - NameSet(names);
      if forall n :: n in names ==> n !in before {
        assert before - NameSet(names) == before;
      }
    }
  }

  lemma {:induction false} EntersContext(names: seq<string>, i: nat, reg: Registry, h: Holding)
    requires i <= |names| && h.context.Some?
    ensures Enter(names, i, reg, h).0.context.Some?
    decreases |names| - i
  {
    if i < |names| && names[i] in reg.registered && reg.acquire(i).Returns? {
      var resource := reg.acquire(i).value;
      EntersContext(names, i + 1, reg, Holding(h.acquired[names[i] := resource], Put(h.context, names[i], resource),
                                               h.log + [Acquired(names[i], resource)]));
    }
  }

  // ---- The scope itself ---------------------------------------------------------------------

  class EffectScope {
    const names: seq<string>
    const registry: Registry
    const context: FlowContext?
    var acquired: Effects
    var log: seq<Event>

    constructor (names: seq<string>, registry: Registry, context: FlowContext?)
      ensures this.names == names && this.registry == registry && this.context == context
      ensures acquired == map[] && log == []
    {
      this.names, this.registry, this.context := names, registry, context;
      acquired, log := map[], [];
    }

    ghost function State(): Holding
      reads this, context
    {
      Holding(acquired, if context == null then None else Some(context.effects), log)
    }

    method Aenter() returns (entered: bool)
      modifies this, context
      ensures (State(), entered) == Enter(names, 0, registry, old(State()))
    {
      for i := 0 to |names|
        invariant Enter(names, i, registry, State()) == Enter(names, 0, registry, old(State()))
      {
        var name := names[i];
        if name !in registry.registered {
          return false;
        }
        match registry.acquire(i) {
          case Returns(resource) =>
            acquired := acquired[name := resource];
            log := log + [Acquired(name, resource)];
            if context != null {
              context.effects := context.effects[name := resource];
            }
          case _ =>
            return false;
        }
      }
      return true;
    }

    method Aexit(success: bool) returns (cancelled: bool)
      modifies this, context
      ensures (State(), cancelled) == Leave(names, |names|, success, registry, old(State()))
    {
      var k := |names|;
      while k > 0
        invariant 0 <= k <= |names|
        invariant Leave(names, k, success, registry, State()) == Leave(names, |names|, success, registry, old(State()))
      {
        k := k - 1;
        var name := names[k];
        if name !in acquired {
          continue;
        }
        var resource := acquired[name];
        acquired := acquired - {name};
        if resource == PyNone {
          continue;
        }
        log := log + [Released(name, resource, success)];
        if context != null {
          context.effects := context.effects - {name};
        }
        if registry.release(k) == ReleaseCancelled {
          return true;
        }
      }
      return false;
    }
  }
}
