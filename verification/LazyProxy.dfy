/** Double-checked resolution of lazy proxies under one shared lock (`LazyModule.__resolve__` and
    `LazyObject.__resolve__` of aquilia/lazy.py), as interleaved steps of any number of threads. */
module LazyProxy {
  import opened Common

  type Proxy = nat
  type Object = nat
  type Thread = nat

  /** Where a thread is. `Entered` is before the unlocked read; `Waiting` has seen an unresolved slot;
      `Checking` holds the lock and is about to read again; `Importing` has seen the slot unresolved
      under the lock; `Storing` has the object and is about to write it; `Leaving` and `Failing` are
      about to release the lock. */
  datatype Pc =
    | Idle
    | Entered(p: Proxy)
    | Waiting(p: Proxy)
    | Checking(p: Proxy)
    | Importing(p: Proxy)
    | Storing(p: Proxy, v: Object)
    | Leaving(p: Proxy, v: Object)
    | Failing(p: Proxy)

  predicate HoldsLock(pc: Pc) {
    pc.Checking? || pc.Importing? || pc.Storing? || pc.Leaving? || pc.Failing?
  }

  /** An import attempt (failed ones have no object) or a completed call, raising or returning. */
  datatype Event =
    | Imported(t: Thread, p: Proxy, result: Option<Object>)
    | Returned(t: Thread, p: Proxy, v: Object)
    | Raised(t: Thread, p: Proxy)

  /** `slots` holds the resolved proxies; `threads` gives every thread's position. */
  datatype State = State(slots: map<Proxy, Object>, lock: Option<Thread>, threads: map<Thread, Pc>, log: seq<Event>)

  predicate Init(s: State) {
    && s.slots == map[] && s.lock.None? && s.log == []
    && forall t :: t in s.threads ==> s.threads[t].Idle?
  }

  function Move(s: State, t: Thread, pc: Pc): State {
    s.(threads := s.threads[t := pc])
  }

  function Log(s: State, e: Event): State {
    s.(log := s.log + [e])
  }

  /** One atomic step of thread `t`; the outcome of an import is not determined. */
  ghost predicate Step(s: State, s': State, t: Thread) {
    t in s.threads &&
    match s.threads[t]
    case Idle => exists p :: s' == Move(s, t, Entered(p))
    case Entered(p) =>
      if p in s.slots then s' == Log(Move(s, t, Idle), Returned(t, p, s.slots[p])) else s' == Move(s, t, Waiting(p))
    case Waiting(p) => s.lock.None? && s' == Move(s, t, Checking(p)).(lock := Some(t))
    case Checking(p) => s' == Move(s, t, if p in s.slots then Leaving(p, s.slots[p]) else Importing(p))
    case Importing(p) =>
      || s' == Log(Move(s, t, Failing(p)), Imported(t, p, None))
      || exists v :: s' == Log(Move(s, t, Storing(p, v)), Imported(t, p, Some(v)))
    case Storing(p, v) => s' == Move(s, t, Leaving(p, v)).(slots := s.slots[p := v])
    case Leaving(p, v) => s' == Log(Move(s, t, Idle), Returned(t, p, v)).(lock := None)
    case Failing(p) => s' == Log(Move(s, t, Idle), Raised(t, p)).(lock := None)
  }

  ghost predicate Next(s: State, s': State) {
    exists t :: Step(s, s', t)
  }

  /** A run: any number of threads, any interleaving, any import outcomes, any length. */
  ghost predicate Run(run: seq<State>) {
    run != [] && Init(run[0]) && forall i :: 0 < i < |run| ==> Next(run[i - 1], run[i])
  }

  // ---- Invariant ---------------------------------------------------------------------------

  ghost predicate Mutex(s: State) {
    && (forall t :: t in s.threads && HoldsLock(s.threads[t]) ==> s.lock == Some(t))
    && (s.lock.Some? ==> s.lock.value in s.threads && HoldsLock(s.threads[s.lock.value]))
  }

  /** The object a successful import of `p` produced and that is stored or about to be. */
  ghost predicate Settled(s: State, p: Proxy, v: Object) {
    (p in s.slots && s.slots[p] == v) || (exists t :: t in s.threads && s.threads[t] == Storing(p, v))
  }

  ghost predicate ThreadsAgree(s: State) {
    forall t :: t in s.threads ==>
      match s.threads[t]
      case Importing(p) => p !in s.slots
      case Storing(p, v) => p !in s.slots
      case Leaving(p, v) => p in s.slots && s.slots[p] == v
      case _ => true
  }

  ghost predicate LogAgrees(s: State) {
    forall i :: 0 <= i < |s.log| ==>
      match s.log[i]
      case Imported(_, p, Some(v)) => Settled(s, p, v)
      case Returned(_, p, v) => p in s.slots && s.slots[p] == v
      case _ => true
  }

  ghost predicate ImportedOnce(s: State) {
    forall i, j :: 0 <= i < j < |s.log| && s.log[i].Imported? && s.log[i].result.Some? && s.log[j].Imported?
                   ==> s.log[i].p != s.log[j].p
  }

  ghost predicate HasImport(log: seq<Event>, p: Proxy, v: Object) {
    exists i :: 0 <= i < |log| && IsImport(log[i], p, v)
  }

  predicate IsImport(e: Event, p: Proxy, v: Object) {
    e.Imported? && e.p == p && e.result == Some(v)
  }

  /** Every filled slot was filled by a logged import. */
  ghost predicate SlotsImported(s: State) {
    && (forall p :: p in s.slots ==> HasImport(s.log, p, s.slots[p]))
    && (forall t :: t in s.threads && s.threads[t].Storing? ==> HasImport(s.log, s.threads[t].p, s.threads[t].v))
  }

  /** Every object returned was imported before. */
  ghost predicate ImportedBefore(s: State) {
    forall i :: 0 <= i < |s.log| && s.log[i].Returned? ==> HasImport(s.log[..i], s.log[i].p, s.log[i].v)
  }

  ghost predicate Inv(s: State) {
    Mutex(s) && ThreadsAgree(s) && LogAgrees(s) && ImportedOnce(s) && SlotsImported(s) && ImportedBefore(s)
  }

  lemma StepKeepsMutex(s: State, s': State, t: Thread)
    requires Mutex(s) && Step(s, s', t)
    ensures Mutex(s')
  {
  }

  lemma StepKeepsThreads(s: State, s': State, t: Thread)
    requires Mutex(s) && ThreadsAgree(s) && Step(s, s', t)
    ensures ThreadsAgree(s')
  {
  }

  /** While one thread holds the lock no other thread is storing. */
  lemma StoringIsLocked(s: State, t: Thread, p: Proxy, v: Object)
    requires Mutex(s) && t in s.threads && HoldsLock(s.threads[t]) && !s.threads[t].Storing?
    ensures Settled(s, p, v) <==> p in s.slots && s.slots[p] == v
  {
  }

  lemma SettledSurvives(s: State, s': State, t: Thread, p: Proxy, v: Object)
    requires Mutex(s) && ThreadsAgree(s) && Step(s, s', t) && Settled(s, p, v)
    ensures Settled(s', p, v)
  {
    if !(p in s.slots && s.slots[p] == v) {
      var u :| u in s.threads && s.threads[u] == Storing(p, v);
      if u != t {
        assert s'.threads[u] == Storing(p, v);
      }
    }
  }

  lemma StepKeepsLog(s: State, s': State, t: Thread)
    requires Inv(s) && Step(s, s', t)
    ensures LogAgrees(s')
  {
    forall i | 0 <= i < |s'.log|
      ensures match s'.log[i]
              case Imported(_, p, Some(v)) => Settled(s', p, v)
              case Returned(_, p, v) => p in s'.slots && s'.slots[p] == v
              case _ => true
    {
      if i < |s.log| {
        match s.log[i]
        case Imported(_, p, Some(v)) => SettledSurvives(s, s', t, p, v);
        case _ =>
      } else if s'.log[i].Imported? && s'.log[i].result.Some? {
        assert s'.threads[t] == Storing(s'.log[i].p, s'.log[i].result.value);
      }
    }
  }

  /** An import that succeeds finds no earlier success: such a success would show in the slot. */
  lemma StepKeepsImportedOnce(s: State, s': State, t: Thread)
    requires Inv(s) && Step(s, s', t)
    ensures ImportedOnce(s')
  {
    if s.threads[t].Importing? {
      var p := s.threads[t].p;
      forall i | 0 <= i < |s.log| && s.log[i].Imported? && s.log[i].result.Some?
        ensures s.log[i].p != p
      {
        StoringIsLocked(s, t, p, s.log[i].result.value);
      }
    }
  }

  lemma LogGrows(s: State, s': State, t: Thread)
    requires Step(s, s', t)
    ensures s.log <= s'.log && |s'.log| <= |s.log| + 1
    ensures forall p, v :: HasImport(s.log, p, v) ==> HasImport(s'.log, p, v)
  {
  }

  /** A slot is written only by the thread that imported its object. */
  lemma SlotSource(s: State, s': State, t: Thread, p: Proxy)
    requires SlotsImported(s) && Step(s, s', t) && p in s'.slots
    ensures HasImport(s.log, p, s'.slots[p])
  {
  }

  lemma StoringSource(s: State, s': State, t: Thread, u: Thread)
    requires SlotsImported(s) && Step(s, s', t) && u in s'.threads && s'.threads[u].Storing?
    ensures HasImport(s'.log, s'.threads[u].p, s'.threads[u].v)
  {
    LogGrows(s, s', t);
    if u == t {
      assert IsImport(s'.log[|s.log|], s'.threads[u].p, s'.threads[u].v);
    } else {
      assert s'.threads[u] == s.threads[u];
    }
  }

  lemma StepKeepsSlots(s: State, s': State, t: Thread)
    requires Mutex(s) && SlotsImported(s) && Step(s, s', t)
    ensures SlotsImported(s')
  {
    LogGrows(s, s', t);
    hide Step, Mutex;
    forall p | p in s'.slots
      ensures HasImport(s'.log, p, s'.slots[p])
    {
      SlotSource(s, s', t, p);
    }
    forall u | u in s'.threads && s'.threads[u].Storing?
      ensures HasImport(s'.log, s'.threads[u].p, s'.threads[u].v)
    {
      StoringSource(s, s', t, u);
    }
  }

  /** A returning thread reads its object from the slot. */
  lemma ReturnReadsSlot(s: State, s': State, t: Thread, e: Event)
    requires ThreadsAgree(s) && Step(s, s', t) && s'.log == s.log + [e] && e.Returned?
    ensures e.p in s.slots && s.slots[e.p] == e.v
  {
    assert s'.log[|s.log|] == e;
    hide Settled;
  }

  lemma StepKeepsImportedBefore(s: State, s': State, t: Thread)
    requires Inv(s) && Step(s, s', t)
    ensures ImportedBefore(s')
  {
    LogGrows(s, s', t);
    hide Mutex, LogAgrees, ImportedOnce;
    forall i | 0 <= i < |s'.log| && s'.log[i].Returned?
      ensures HasImport(s'.log[..i], s'.log[i].p, s'.log[i].v)
    {
      if i < |s.log| {
        assert s'.log[..i] == s.log[..i];
      } else {
        assert s'.log == s.log + [s'.log[i]];
        ReturnReadsSlot(s, s', t, s'.log[i]);
        assert s'.log[..i] == s.log;
      }
    }
  }

  lemma StepKeepsInv(s: State, s': State, t: Thread)
    requires Inv(s) && Step(s, s', t)
    ensures Inv(s')
  {
    StepKeepsMutex(s, s', t);
    StepKeepsThreads(s, s', t);
    StepKeepsLog(s, s', t);
    StepKeepsImportedOnce(s, s', t);
    StepKeepsSlots(s, s', t);
    StepKeepsImportedBefore(s, s', t);
    hide Step, Mutex, ThreadsAgree, LogAgrees, ImportedOnce, SlotsImported, ImportedBefore;
  }

  lemma {:induction false} RunKeepsInv(run: seq<State>)
    requires Run(run)
    ensures Inv(run[|run| - 1])
  {
    if |run| > 1 {
      var front := run[..|run| - 1];
      assert forall i :: 0 <= i < |front| ==> front[i] == run[i];
      RunKeepsInv(front);
      assert Next(run[|run| - 2], run[|run| - 1]);
      var t :| Step(run[|run| - 2], run[|run| - 1], t);
      StepKeepsInv(run[|run| - 2], run[|run| - 1], t);
    }
  }

  // ---- What becomes of a thread's own import -----------------------------------------------

  /** The last event of thread `t`. */
  function Previous(log: seq<Event>, t: Thread): Option<Event> {
    if log == [] then None
    else if log[|log| - 1].t == t then Some(log[|log| - 1])
    else Previous(log[..|log| - 1], t)
  }

  predicate Pending(e: Option<Event>) {
    e.Some? && e.value.Imported?
  }

  /** What may follow in one thread: after its own import only the matching end of the call. */
  predicate Allowed(before: Option<Event>, e: Event) {
    match e
    case Imported(_, _, _) => !Pending(before)
    case Returned(t, p, v) => !Pending(before) || before == Some(Imported(t, p, Some(v)))
    case Raised(t, p) => before == Some(Imported(t, p, None))
  }

  ghost predicate HistoryFits(log: seq<Event>) {
    forall j :: 0 <= j < |log| ==> Allowed(Previous(log[..j], log[j].t), log[j])
  }

  predicate PcFits(before: Option<Event>, t: Thread, pc: Pc) {
    match pc
    case Storing(p, v) => before == Some(Imported(t, p, Some(v)))
    case Failing(p) => before == Some(Imported(t, p, None))
    case Leaving(p, v) => !Pending(before) || before == Some(Imported(t, p, Some(v)))
    case _ => !Pending(before)
  }

  ghost predicate HistoryInv(s: State) {
    HistoryFits(s.log) && forall t :: t in s.threads ==> PcFits(Previous(s.log, t), t, s.threads[t])
  }

  lemma PreviousAppend(log: seq<Event>, e: Event, t: Thread)
    ensures Previous(log + [e], t) == if e.t == t then Some(e) else Previous(log, t)
  {
    assert (log + [e])[..|log|] == log;
  }

  lemma HistoryAppend(log: seq<Event>, e: Event)
    requires HistoryFits(log) && Allowed(Previous(log, e.t), e)
    ensures HistoryFits(log + [e])
  {
    hide Previous, Allowed;
    forall j | 0 <= j < |log + [e]|
      ensures Allowed(Previous((log + [e])[..j], (log + [e])[j].t), (log + [e])[j])
    {
      if j < |log| {
        assert (log + [e])[..j] == log[..j];
      } else {
        assert (log + [e])[..j] == log;
      }
    }
  }

  lemma StepIsOwn(s: State, s': State, t: Thread)
    requires Step(s, s', t)
    ensures t in s.threads && s'.threads.Keys == s.threads.Keys
    ensures forall u :: u in s.threads && u != t ==> s'.threads[u] == s.threads[u]
    ensures s'.log == s.log || (|s'.log| == |s.log| + 1 && s'.log == s.log + [s'.log[|s.log|]] && s'.log[|s.log|].t == t)
  {
  }

  lemma QuietStep(s: State, s': State, t: Thread)
    requires t in s.threads && PcFits(Previous(s.log, t), t, s.threads[t]) && Step(s, s', t) && s'.log == s.log
    ensures PcFits(Previous(s.log, t), t, s'.threads[t])
  {
    hide Previous;
  }

  lemma LoudStep(s: State, s': State, t: Thread, e: Event)
    requires t in s.threads && PcFits(Previous(s.log, t), t, s.threads[t]) && Step(s, s', t) && s'.log == s.log + [e]
    ensures Allowed(Previous(s.log, t), e) && PcFits(Some(e), t, s'.threads[t])
  {
    assert s'.log[|s.log|] == e;
    hide Previous;
  }

  /** A step logs nothing, or one allowed event of its own thread; the other threads stay where they
      are. */
  lemma StepEvent(s: State, s': State, t: Thread)
    requires HistoryInv(s) && Step(s, s', t)
    ensures s'.threads.Keys == s.threads.Keys && forall u :: u in s.threads && u != t ==> s'.threads[u] == s.threads[u]
    ensures
      || (s'.log == s.log && PcFits(Previous(s.log, t), t, s'.threads[t]))
      || (exists e: Event :: e.t == t && s'.log == s.log + [e] && Allowed(Previous(s.log, t), e)
                             && PcFits(Some(e), t, s'.threads[t]))
  {
    StepIsOwn(s, s', t);
    hide HistoryFits, Previous, Step, PcFits, Allowed;
    if s'.log == s.log {
      QuietStep(s, s', t);
    } else {
      LoudStep(s, s', t, s'.log[|s.log|]);
    }
  }

  lemma StepKeepsHistory(s: State, s': State, t: Thread)
    requires HistoryInv(s) && Step(s, s', t)
    ensures HistoryInv(s')
  {
    StepEvent(s, s', t);
    hide Step, Allowed, PcFits;
    if s'.log != s.log {
      var e: Event :| e.t == t && s'.log == s.log + [e] && Allowed(Previous(s.log, t), e)
                      && PcFits(Some(e), t, s'.threads[t]);
      HistoryAppend(s.log, e);
      forall u | u in s'.threads
        ensures PcFits(Previous(s'.log, u), u, s'.threads[u])
      {
        PreviousAppend(s.log, e, u);
        hide Previous;
      }
    }
  }

  lemma {:induction false} RunKeepsHistory(run: seq<State>)
    requires Run(run)
    ensures HistoryInv(run[|run| - 1])
  {
    if |run| > 1 {
      var front := run[..|run| - 1];
      assert forall i :: 0 <= i < |front| ==> front[i] == run[i];
      RunKeepsHistory(front);
      assert Next(run[|run| - 2], run[|run| - 1]);
      var t :| Step(run[|run| - 2], run[|run| - 1], t);
      hide Step;
      StepKeepsHistory(run[|run| - 2], run[|run| - 1], t);
    }
  }

  /** Event `i` is the last one of its thread before event `j`. */
  ghost predicate LastBefore(log: seq<Event>, i: int, j: int, t: Thread)
    requires 0 <= j <= |log|
  {
    0 <= i < j && log[i].t == t && forall k :: i < k < j ==> log[k].t != t
  }

  lemma {:induction false} PreviousIsLast(log: seq<Event>, j: nat, t: Thread)
    requires j <= |log|
    ensures match Previous(log[..j], t)
            case Some(e) => exists i :: LastBefore(log, i, j, t) && log[i] == e
            case None => forall i :: !LastBefore(log, i, j, t)
  {
    if j > 0 {
      assert log[..j][..j - 1] == log[..j - 1];
      if log[j - 1].t == t {
        assert LastBefore(log, j - 1, j, t);
      } else {
        PreviousIsLast(log, j - 1, t);
        assert forall i :: LastBefore(log, i, j, t) <==> LastBefore(log, i, j - 1, t);
      }
    }
  }

  lemma LastIsPrevious(log: seq<Event>, i: int, j: nat, t: Thread)
    requires j <= |log| && LastBefore(log, i, j, t)
    ensures Previous(log[..j], t) == Some(log[i])
  {
    PreviousIsLast(log, j, t);
    hide Previous;
    assert forall k :: LastBefore(log, k, j, t) ==> k == i;
  }

  // ---- The guarantees ----------------------------------------------------------------------

  /** In every run, also when earlier imports failed: once an import of a proxy succeeds there is no
      further import of it, and every call that returns, in whatever thread, returns the object of
      that one import, which happened before. */
  lemma OneImportOneObject(run: seq<State>)
    requires Run(run)
    ensures var log := run[|run| - 1].log;
      && (forall i, j :: 0 <= i < j < |log| && log[i].Imported? && log[i].result.Some? && log[j].Imported? ==>
            log[i].p != log[j].p)
      && (forall j :: 0 <= j < |log| && log[j].Returned? ==>
            exists i :: 0 <= i < j && IsImport(log[i], log[j].p, log[j].v))
      && (forall i, j :: 0 <= i < j < |log| && log[i].Returned? && log[j].Returned? && log[i].p == log[j].p ==>
            log[i].v == log[j].v)
  {
    RunKeepsInv(run);
    var s := run[|run| - 1];
    forall j | 0 <= j < |s.log| && s.log[j].Returned?
      ensures exists i :: 0 <= i < j && IsImport(s.log[i], s.log[j].p, s.log[j].v)
    {
      var i :| 0 <= i < j && IsImport(s.log[..j][i], s.log[j].p, s.log[j].v);
      assert s.log[..j][i] == s.log[i];
    }
  }

  /** In every run a call whose own import succeeded returns the object of that import and does not
      raise, and a call raises only because its own import, the last thing its thread did, failed. */
  lemma OwnImportDecides(run: seq<State>)
    requires Run(run)
    ensures var log := run[|run| - 1].log;
      && (forall i, j :: 0 <= i < j < |log| && LastBefore(log, i, j, log[j].t) && log[i].Imported? ==>
            log[j] == match log[i].result
                      case Some(v) => Returned(log[i].t, log[i].p, v)
                      case None => Raised(log[i].t, log[i].p))
      && (forall j :: 0 <= j < |log| && log[j].Raised? ==>
            exists i :: LastBefore(log, i, j, log[j].t) && log[i] == Imported(log[j].t, log[j].p, None))
  {
    RunKeepsHistory(run);
    var log := run[|run| - 1].log;
    forall i, j | 0 <= i < j < |log| && LastBefore(log, i, j, log[j].t) && log[i].Imported?
      ensures log[j] == match log[i].result
                        case Some(v) => Returned(log[i].t, log[i].p, v)
                        case None => Raised(log[i].t, log[i].p)
    {
      LastIsPrevious(log, i, j, log[j].t);
      assert Allowed(Previous(log[..j], log[j].t), log[j]);
    }
    forall j | 0 <= j < |log| && log[j].Raised?
      ensures exists i :: LastBefore(log, i, j, log[j].t) && log[i] == Imported(log[j].t, log[j].p, None)
    {
      PreviousIsLast(log, j, log[j].t);
      assert Allowed(Previous(log[..j], log[j].t), log[j]);
    }
  }

  /** The thread that can go on: the lock holder if there is one, otherwise any thread. */
  ghost predicate CanStep(s: State, t: Thread) {
    exists s' :: Step(s, s', t)
  }

  /** No run deadlocks: a thread that is not waiting for a lock held by another can always move, and
      whenever somebody waits, the lock holder (or, if the lock is free, the waiting thread) can. */
  lemma NeverStuck(run: seq<State>, t: Thread)
    requires Run(run)
    requires t in run[|run| - 1].threads
    ensures var s := run[|run| - 1];
      if s.threads[t].Waiting? && s.lock.Some? then s.lock.value != t && CanStep(s, s.lock.value) else CanStep(s, t)
  {
    RunKeepsInv(run);
    var s := run[|run| - 1];
    var u := if s.threads[t].Waiting? && s.lock.Some? then s.lock.value else t;
    var s' := match s.threads[u]
      case Idle => Move(s, u, Entered(0))
      case Entered(p) =>
        if p in s.slots then Log(Move(s, u, Idle), Returned(u, p, s.slots[p])) else Move(s, u, Waiting(p))
      case Waiting(p) => Move(s, u, Checking(p)).(lock := Some(u))
      case Checking(p) => Move(s, u, if p in s.slots then Leaving(p, s.slots[p]) else Importing(p))
      case Importing(p) => Log(Move(s, u, Failing(p)), Imported(u, p, None))
      case Storing(p, v) => Move(s, u, Leaving(p, v)).(slots := s.slots[p := v])
      case Leaving(p, v) => Log(Move(s, u, Idle), Returned(u, p, v)).(lock := None)
      case Failing(p) => Log(Move(s, u, Idle), Raised(u, p)).(lock := None);
    assert Step(s, s', u);
  }
}
