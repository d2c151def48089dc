/** The reference-count protocol (epSmartObject.h) as a transition system. Every access to the
    counter or its lock is a step of its own, so threads interleave between taking the lock,
    changing the counter and giving the lock back. */
module EpSmartObject {
  import opened EpAlgorithm

  type Thread = nat
  type Ref = nat

  /** Where a thread stands. A thread inside RetainObj or ReleaseObj uses the reference r it holds. */
  datatype PC =
    | Idle
    | RetainCall(r: Ref) | RetainLocked(r: Ref) | RetainCounted(r: Ref)
    | ReleaseCall(r: Ref) | ReleaseLocked(r: Ref) | ReleaseCounted
    | ReleaseDummy            // the counter was 0: dummy increment made, lock still held
    | DeleteCall              // lock given back, the destructor not yet entered
    | DtorLocked | DtorCounted | DtorUnlocked

  /** refs says which thread holds which reference; alive until the memory is freed; dtorRuns
      counts destructor entries. */
  datatype State = State(count: int, owner: Option<Thread>, refs: map<Ref, Thread>, pc: map<Thread, PC>,
                         alive: bool, dtorRuns: nat)

  datatype Step =
    | Give(t: Thread, r: Ref, u: Thread)
    | RetainBegin(t: Thread, r: Ref) | RetainLock(t: Thread)
    | RetainCount(t: Thread, added: Ref) | RetainUnlock(t: Thread)
    | ReleaseBegin(t: Thread, r: Ref) | ReleaseLock(t: Thread) | ReleaseCount(t: Thread)
    | ReleaseUnlock(t: Thread) | ReleaseDummyCount(t: Thread) | ReleaseDummyUnlock(t: Thread)
    | DtorLock(t: Thread) | DtorCount(t: Thread) | DtorUnlock(t: Thread) | DtorFree(t: Thread)

  predicate Locked(p: PC) {
    p.RetainLocked? || p.RetainCounted? || p.ReleaseLocked? || p.ReleaseCounted? || p.ReleaseDummy?
    || p.DtorLocked? || p.DtorCounted?
  }

  /** Between the dummy increment and the destructor's decrement. */
  predicate DummyPending(p: PC) {
    p.ReleaseDummy? || p.DeleteCall? || p.DtorLocked?
  }

  predicate InDtor(p: PC) {
    p.DtorLocked? || p.DtorCounted? || p.DtorUnlocked?
  }

  predicate Deleting(p: PC) {
    DummyPending(p) || InDtor(p)
  }

  predicate HasRef(p: PC) {
    p.RetainCall? || p.RetainLocked? || p.RetainCounted? || p.ReleaseCall? || p.ReleaseLocked?
  }

  /** A thread calls RetainObj and ReleaseObj only through a reference it holds, and hands a
      reference on only between calls. */
  predicate Enabled(s: State, a: Step) {
    && a.t in s.pc
    && var p := s.pc[a.t];
       match a
       case Give(t, r, u) => p.Idle? && r in s.refs && s.refs[r] == t && u in s.pc
       case RetainBegin(t, r) => p.Idle? && r in s.refs && s.refs[r] == t
       case RetainLock(t) => p.RetainCall? && s.owner == None
       case RetainCount(t, added) => p.RetainLocked? && added !in s.refs
       case RetainUnlock(t) => p.RetainCounted?
       case ReleaseBegin(t, r) => p.Idle? && r in s.refs && s.refs[r] == t
       case ReleaseLock(t) => p.ReleaseCall? && s.owner == None
       case ReleaseCount(t) => p.ReleaseLocked?
       case ReleaseUnlock(t) => p.ReleaseCounted? && s.count != 0
       case ReleaseDummyCount(t) => p.ReleaseCounted? && s.count == 0
       case ReleaseDummyUnlock(t) => p.ReleaseDummy?
       case DtorLock(t) => p.DeleteCall? && s.owner == None
       case DtorCount(t) => p.DtorLocked?
       case DtorUnlock(t) => p.DtorCounted?
       case DtorFree(t) => p.DtorUnlocked?
  }

  function Apply(s: State, a: Step): State
    requires Enabled(s, a)
  {
    var t := a.t;
    var p := s.pc[t];
    match a
    case Give(_, r, u) => s.(refs := s.refs[r := u])
    case RetainBegin(_, r) => s.(pc := s.pc[t := RetainCall(r)])
    case RetainLock(_) => s.(owner := Some(t), pc := s.pc[t := RetainLocked(p.r)])
    case RetainCount(_, added) =>
      s.(count := s.count + 1, refs := s.refs[added := t], pc := s.pc[t := RetainCounted(p.r)])
    case RetainUnlock(_) => s.(owner := None, pc := s.pc[t := Idle])
    case ReleaseBegin(_, r) => s.(pc := s.pc[t := ReleaseCall(r)])
    case ReleaseLock(_) => s.(owner := Some(t), pc := s.pc[t := ReleaseLocked(p.r)])
    case ReleaseCount(_) => s.(count := s.count - 1, refs := s.refs - {p.r}, pc := s.pc[t := ReleaseCounted])
    case ReleaseUnlock(_) => s.(owner := None, pc := s.pc[t := Idle])
    case ReleaseDummyCount(_) => s.(count := s.count + 1, pc := s.pc[t := ReleaseDummy])
    case ReleaseDummyUnlock(_) => s.(owner := None, pc := s.pc[t := DeleteCall])
    case DtorLock(_) => s.(owner := Some(t), pc := s.pc[t := DtorLocked], dtorRuns := s.dtorRuns + 1)
    case DtorCount(_) => s.(count := s.count - 1, pc := s.pc[t := DtorCounted])
    case DtorUnlock(_) => s.(owner := None, pc := s.pc[t := DtorUnlocked])
    case DtorFree(_) => s.(pc := s.pc[t := Idle], alive := false)
  }

  /** Construction: count 1, one reference, held by the constructing thread. */
  function Init(threads: set<Thread>, t: Thread, r: Ref): State
    requires t in threads
  {
    State(1, None, map[r := t], map u | u in threads :: Idle, true, 0)
  }

  // ---------- the invariant ----------

  ghost predicate LockInv(s: State) {
    && (s.owner != None ==> s.owner.value in s.pc)
    && forall t :: t in s.pc ==> (Locked(s.pc[t]) <==> s.owner == Some(t))
  }

  ghost predicate RefInv(s: State) {
    forall t :: t in s.pc && HasRef(s.pc[t]) ==> s.pc[t].r in s.refs && s.refs[s.pc[t].r] == t
  }

  /** A deleting thread is alone: no references are left and every other thread is idle. */
  ghost predicate DeleteInv(s: State) {
    forall t :: t in s.pc && Deleting(s.pc[t]) ==>
      && s.refs == map[]
      && s.alive
      && s.dtorRuns == (if InDtor(s.pc[t]) then 1 else 0)
      && forall u :: u in s.pc && u != t ==> s.pc[u] == Idle
  }

  ghost predicate Pending(s: State) {
    exists t :: t in s.pc && DummyPending(s.pc[t])
  }

  /** The counter is the number of references, plus one while a dummy increment is pending. */
  ghost predicate CountInv(s: State) {
    s.count == |s.refs| + if Pending(s) then 1 else 0
  }

  /** A freed object has no references and no thread inside it; an object without references is
      being deleted, or is about to be. */
  ghost predicate LifeInv(s: State) {
    && (!s.alive ==> s.refs == map[] && s.dtorRuns == 1 && forall t :: t in s.pc ==> s.pc[t] == Idle)
    && (s.alive && s.refs == map[] ==> exists t :: t in s.pc && (s.pc[t].ReleaseCounted? || Deleting(s.pc[t])))
    && (s.alive && (forall t :: t in s.pc ==> !Deleting(s.pc[t])) ==> s.dtorRuns == 0)
  }

  ghost predicate Inv(s: State) {
    LockInv(s) && RefInv(s) && DeleteInv(s) && CountInv(s) && LifeInv(s)
  }

  lemma InitInv(threads: set<Thread>, t: Thread, r: Ref)
    requires t in threads
    ensures Inv(Init(threads, t, r))
  {
  }

  /** A thread that is not idle excludes every other deleting thread. */
  lemma OnlyDeleter(s: State, t: Thread, u: Thread)
    requires DeleteInv(s) && t in s.pc && u in s.pc
    requires s.pc[t] != Idle && Deleting(s.pc[u])
    ensures u == t
  {
  }

  lemma PendingOf(s: State, t: Thread)
    requires t in s.pc && DeleteInv(s) && s.pc[t] != Idle
    ensures Pending(s) <==> DummyPending(s.pc[t])
  {
    if u :| u in s.pc && DummyPending(s.pc[u]) {
      OnlyDeleter(s, t, u);
    }
  }

  lemma NoDeleter(s: State, t: Thread)
    requires t in s.pc && DeleteInv(s) && s.pc[t] != Idle && !Deleting(s.pc[t])
    ensures forall u :: u in s.pc ==> !Deleting(s.pc[u])
  {
    forall u | u in s.pc ensures !Deleting(s.pc[u]) {
      if Deleting(s.pc[u]) {
        OnlyDeleter(s, t, u);
      }
    }
  }

  /** A live reference means that the object is alive and nobody is deleting it. */
  lemma HeldMeansAlive(s: State, r: Ref)
    requires Inv(s) && r in s.refs
    ensures s.alive && s.dtorRuns == 0 && s.refs != map[]
    ensures forall u :: u in s.pc ==> !Deleting(s.pc[u])
  {
  }

  lemma AddedRef(m: map<Ref, Thread>, r: Ref, t: Thread)
    ensures |m[r := t]| == if r in m then |m| else |m| + 1
  {
    assert m[r := t].Keys == m.Keys + {r};
    assert |m[r := t]| == |m[r := t].Keys| && |m| == |m.Keys|;
  }

  lemma RemovedRef(m: map<Ref, Thread>, r: Ref)
    requires r in m
    ensures |m - {r}| == |m| - 1
  {
    assert (m - {r}).Keys == m.Keys - {r};
    assert |m - {r}| == |(m - {r}).Keys| && |m| == |m.Keys|;
  }

  lemma GiveKeepsInv(s: State, t: Thread, r: Ref, u: Thread)
    requires Inv(s) && Enabled(s, Give(t, r, u))
    ensures Inv(Apply(s, Give(t, r, u)))
  {
    HeldMeansAlive(s, r);
    AddedRef(s.refs, r, u);
  }

  lemma RetainCountKeepsInv(s: State, t: Thread, added: Ref)
    requires Inv(s) && Enabled(s, RetainCount(t, added))
    ensures Inv(Apply(s, RetainCount(t, added)))
  {
    var s' := Apply(s, RetainCount(t, added));
    HeldMeansAlive(s, s.pc[t].r);
    AddedRef(s.refs, added, t);
    assert forall u :: u in s'.pc ==> !Deleting(s'.pc[u]);
    assert s'.refs != map[] by { assert added in s'.refs; }
  }

  lemma BeginKeepsInv(s: State, a: Step)
    requires Inv(s) && Enabled(s, a)
    requires a.RetainBegin? || a.ReleaseBegin?
    ensures Inv(Apply(s, a))
  {
    var s' := Apply(s, a);
    HeldMeansAlive(s, a.r);
    assert forall u :: u in s'.pc ==> !Deleting(s'.pc[u]);
  }

  lemma LockKeepsInv(s: State, a: Step)
    requires Inv(s) && Enabled(s, a)
    requires a.RetainLock? || a.ReleaseLock?
    ensures Inv(Apply(s, a))
  {
    var s' := Apply(s, a);
    HeldMeansAlive(s, s.pc[a.t].r);
    assert forall u :: u in s'.pc ==> !Deleting(s'.pc[u]);
  }

  lemma RetainUnlockKeepsInv(s: State, t: Thread)
    requires Inv(s) && Enabled(s, RetainUnlock(t))
    ensures Inv(Apply(s, RetainUnlock(t)))
  {
    var s' := Apply(s, RetainUnlock(t));
    HeldMeansAlive(s, s.pc[t].r);
    assert forall u :: u in s'.pc ==> !Deleting(s'.pc[u]);
  }

  lemma ReleaseCountKeepsInv(s: State, t: Thread)
    requires Inv(s) && Enabled(s, ReleaseCount(t))
    ensures Inv(Apply(s, ReleaseCount(t)))
  {
    var s' := Apply(s, ReleaseCount(t));
    var r := s.pc[t].r;
    HeldMeansAlive(s, r);
    RemovedRef(s.refs, r);
    assert forall u :: u in s'.pc ==> !Deleting(s'.pc[u]);
    forall u | u in s'.pc && HasRef(s'.pc[u]) ensures s'.pc[u].r in s'.refs && s'.refs[s'.pc[u].r] == u {
      assert s'.pc[u] == s.pc[u] && s.refs[s.pc[u].r] == u;
    }
    assert s'.pc[t].ReleaseCounted?;
  }

  lemma ReleaseUnlockKeepsInv(s: State, t: Thread)
    requires Inv(s) && Enabled(s, ReleaseUnlock(t))
    ensures Inv(Apply(s, ReleaseUnlock(t)))
  {
    var s' := Apply(s, ReleaseUnlock(t));
    NoDeleter(s, t);
    assert !Pending(s) && s.refs != map[];
    assert forall u :: u in s'.pc ==> !Deleting(s'.pc[u]);
  }

  lemma DummyCountKeepsInv(s: State, t: Thread)
    requires Inv(s) && Enabled(s, ReleaseDummyCount(t))
    ensures Inv(Apply(s, ReleaseDummyCount(t)))
  {
    var s' := Apply(s, ReleaseDummyCount(t));
    NoDeleter(s, t);
    assert !Pending(s) && |s.refs| == 0;
    assert s.refs == map[];
    forall u | u in s.pc && u != t ensures s'.pc[u] == Idle {
      assert !HasRef(s.pc[u]) && !Locked(s.pc[u]) && !Deleting(s.pc[u]);
    }
    assert DummyPending(s'.pc[t]);
  }

  /** The steps of the deleting thread outside and inside the destructor, but the last. */
  lemma DeleterLockKeepsInv(s: State, a: Step)
    requires Inv(s) && Enabled(s, a)
    requires a.ReleaseDummyUnlock? || a.DtorLock?
    ensures Inv(Apply(s, a))
  {
    var s' := Apply(s, a);
    PendingOf(s, a.t);
    assert forall u :: u in s'.pc && u != a.t ==> s'.pc[u] == Idle;
    assert DummyPending(s'.pc[a.t]);
  }

  lemma DtorStepKeepsInv(s: State, a: Step)
    requires Inv(s) && Enabled(s, a)
    requires a.DtorCount? || a.DtorUnlock?
    ensures Inv(Apply(s, a))
  {
    var s' := Apply(s, a);
    PendingOf(s, a.t);
    assert forall u :: u in s'.pc && u != a.t ==> s'.pc[u] == Idle;
    assert Deleting(s'.pc[a.t]) && !Pending(s');
  }

  lemma DtorFreeKeepsInv(s: State, t: Thread)
    requires Inv(s) && Enabled(s, DtorFree(t))
    ensures Inv(Apply(s, DtorFree(t)))
  {
    var s' := Apply(s, DtorFree(t));
    PendingOf(s, t);
    assert forall u :: u in s'.pc ==> s'.pc[u] == Idle;
  }

  lemma ApplyKeepsInv(s: State, a: Step)
    requires Inv(s) && Enabled(s, a)
    ensures Inv(Apply(s, a))
  {
    hide Inv, Enabled, Apply;
    if a.Give? {
      GiveKeepsInv(s, a.t, a.r, a.u);
    } else if a.RetainCount? {
      RetainCountKeepsInv(s, a.t, a.added);
    } else if a.ReleaseCount? {
      ReleaseCountKeepsInv(s, a.t);
    } else if a.ReleaseUnlock? {
      ReleaseUnlockKeepsInv(s, a.t);
    } else if a.ReleaseDummyCount? {
      DummyCountKeepsInv(s, a.t);
    } else if a.DtorFree? {
      DtorFreeKeepsInv(s, a.t);
    } else if a.ReleaseDummyUnlock? || a.DtorLock? {
      DeleterLockKeepsInv(s, a);
    } else if a.DtorCount? || a.DtorUnlock? {
      DtorStepKeepsInv(s, a);
    } else if a.RetainUnlock? {
      RetainUnlockKeepsInv(s, a.t);
    } else if a.RetainLock? || a.ReleaseLock? {
      LockKeepsInv(s, a);
    } else {
      BeginKeepsInv(s, a);
    }
  }

  // ---------- every run ----------

  /** The state after a run, if every step of it was enabled. */
  ghost function Exec(s: State, run: seq<Step>): Option<State>
    decreases |run|
  {
    if run == [] then Some(s)
    else
      match Exec(s, run[..|run| - 1])
      case None => None
      case Some(last) =>
        var a := run[|run| - 1];
        if Enabled(last, a) then Some(Apply(last, a)) else None
  }

  lemma {:induction false} EveryRunKeepsInv(s: State, run: seq<Step>)
    requires Inv(s) && Exec(s, run).Some?
    ensures Inv(Exec(s, run).value)
    decreases |run|
  {
    hide Inv, Enabled, Apply;
    if run != [] {
      EveryRunKeepsInv(s, run[..|run| - 1]);
      ApplyKeepsInv(Exec(s, run[..|run| - 1]).value, run[|run| - 1]);
    }
  }

  /** Every step but handing a reference over, or entering a call, reads or writes the object. */
  predicate Touches(a: Step) {
    !a.Give? && !a.RetainBegin? && !a.ReleaseBegin?
  }

  /** Safety of every run: an enabled step that touches the object finds it alive; the two
      assertions of the source hold where they are evaluated; the destructor is entered at most
      once; the counter counts the references, plus one while a dummy increment is pending. */
  lemma EveryRunIsSafe(threads: set<Thread>, t: Thread, r: Ref, run: seq<Step>, a: Step)
    requires t in threads
    requires var end := Exec(Init(threads, t, r), run); end.Some? && Enabled(end.value, a)
    ensures var s := Exec(Init(threads, t, r), run).value;
      && (Touches(a) ==> s.alive)
      && (a.ReleaseUnlock? ==> s.count >= 0)
      && (a.DtorFree? ==> s.count == 0)
      && (a.DtorLock? ==> s.dtorRuns == 0)
      && s.dtorRuns <= 1
      && s.count == |s.refs| + (if Pending(s) then 1 else 0)
      && (s.refs != map[] ==> s.alive && s.dtorRuns == 0)
  {
    InitInv(threads, t, r);
    EveryRunKeepsInv(Init(threads, t, r), run);
    var s := Exec(Init(threads, t, r), run).value;
    hide Exec;
    if s.pc[a.t] != Idle {
      PendingOf(s, a.t);
    }
    if u :| u in s.pc && Deleting(s.pc[u]) {
      assert s.dtorRuns <= 1;
    }
  }

  /** No run leaks the object: once no reference is left and no call is in progress, the
      destructor has run and the memory is freed. */
  lemma NoReferenceNoObject(threads: set<Thread>, t: Thread, r: Ref, run: seq<Step>)
    requires t in threads && Exec(Init(threads, t, r), run).Some?
    ensures var s := Exec(Init(threads, t, r), run).value;
      (forall u :: u in s.pc ==> s.pc[u] == Idle) ==>
        (s.refs == map[] <==> !s.alive) && s.dtorRuns == (if s.alive then 0 else 1)
  {
    InitInv(threads, t, r);
    EveryRunKeepsInv(Init(threads, t, r), run);
  }

  // ---------- what the steps add up to ----------

  /** What a step adds to the counter. */
  function Added(a: Step): int {
    match a
    case RetainCount(_, _) => 1
    case ReleaseDummyCount(_) => 1
    case ReleaseCount(_) => -1
    case DtorCount(_) => -1
    case _ => 0
  }

  ghost function AddedBy(run: seq<Step>): int {
    if run == [] then 0 else AddedBy(run[..|run| - 1]) + Added(run[|run| - 1])
  }

  /** The references a run leaves: each retain adds the one it says, each release takes the one its
      thread came with. */
  ghost predicate Refs(s: State, a: Step, refs: map<Ref, Thread>)
    requires Enabled(s, a)
  {
    match a
    case Give(_, r, u) => refs == s.refs[r := u]
    case RetainCount(t, added) => added !in s.refs && refs == s.refs[added := t]
    case ReleaseCount(t) => s.pc[t].r in s.refs && s.refs[s.pc[t].r] == t && refs == s.refs - {s.pc[t].r}
    case _ => refs == s.refs
  }

  /** On every run from the construction the counter is 1, and what the steps of the run added and took;
      every further step changes the references exactly as its call asks. */
  lemma EveryStepCounts(threads: set<Thread>, t: Thread, r: Ref, run: seq<Step>, a: Step)
    requires t in threads
    requires var end := Exec(Init(threads, t, r), run); end.Some? && Enabled(end.value, a)
    ensures var s := Exec(Init(threads, t, r), run).value;
      && s.count == 1 + AddedBy(run)
      && Apply(s, a).count == s.count + Added(a)
      && Refs(s, a, Apply(s, a).refs)
  {
    InitInv(threads, t, r);
    EveryRunKeepsInv(Init(threads, t, r), run);
    RunCounts(Init(threads, t, r), run);
  }

  lemma {:induction false} RunCounts(s: State, run: seq<Step>)
    requires Exec(s, run).Some?
    ensures Exec(s, run).value.count == s.count + AddedBy(run)
    decreases |run|
  {
    if run != [] {
      RunCounts(s, run[..|run| - 1]);
    }
  }

  // ---------- whole calls ----------

  /** RetainObj without interruption. */
  function WholeRetain(t: Thread, r: Ref, added: Ref): seq<Step> {
    [RetainBegin(t, r)] + [RetainLock(t)] + [RetainCount(t, added)] + [RetainUnlock(t)]
  }

  /** ReleaseObj without interruption, when it is not the last reference. */
  function WholeRelease(t: Thread, r: Ref): seq<Step> {
    [ReleaseBegin(t, r)] + [ReleaseLock(t)] + [ReleaseCount(t)] + [ReleaseUnlock(t)]
  }

  /** RetainObj adds exactly one reference and one to the counter. */
  lemma RetainAddsOne(s: State, t: Thread, r: Ref, added: Ref)
    requires Inv(s) && s.owner == None && t in s.pc && s.pc[t] == Idle
    requires r in s.refs && s.refs[r] == t && added !in s.refs
    ensures Exec(s, WholeRetain(t, r, added)) == Some(s.(count := s.count + 1, refs := s.refs[added := t]))
  {
    hide Exec, Inv;
    ExecNothing(s);
    ExecMore(s, [], RetainBegin(t, r));
    assert [] + [RetainBegin(t, r)] == [RetainBegin(t, r)];
    ExecMore(s, [RetainBegin(t, r)], RetainLock(t));
    ExecMore(s, [RetainBegin(t, r)] + [RetainLock(t)], RetainCount(t, added));
    ExecMore(s, [RetainBegin(t, r)] + [RetainLock(t)] + [RetainCount(t, added)], RetainUnlock(t));
    assert s.pc[t := RetainCall(r)][t := RetainLocked(r)][t := RetainCounted(r)][t := Idle] == s.pc;
  }

  /** ReleaseObj takes exactly its reference and one from the counter; with the last reference it leaves
      a pending delete. */
  lemma ReleaseTakesOne(s: State, t: Thread, r: Ref)
    requires Inv(s) && s.owner == None && t in s.pc && s.pc[t] == Idle && r in s.refs && s.refs[r] == t
    ensures s.count == |s.refs| >= 1
    ensures s.count > 1 ==> Exec(s, WholeRelease(t, r)) == Some(s.(count := s.count - 1, refs := s.refs - {r}))
    ensures s.count == 1 ==>
      Exec(s, LastRelease(t, r)) == Some(s.(count := 1, refs := map[], pc := s.pc[t := DeleteCall]))
  {
    HeldCount(s, r);
    hide Inv;
    if s.count > 1 {
      ReleaseOfMany(s, t, r);
    } else {
      RemovedRef(s.refs, r);
      assert s.refs - {r} == map[];
      ReleaseOfLast(s, t, r);
    }
  }

  lemma ReleaseOfMany(s: State, t: Thread, r: Ref)
    requires s.owner == None && t in s.pc && s.pc[t] == Idle && r in s.refs && s.refs[r] == t && s.count > 1
    ensures Exec(s, WholeRelease(t, r)) == Some(s.(count := s.count - 1, refs := s.refs - {r}))
  {
    hide Exec;
    ReleaseCounts(s, t, r);
    ExecMore(s, [ReleaseBegin(t, r)] + [ReleaseLock(t)] + [ReleaseCount(t)], ReleaseUnlock(t));
    assert s.pc[t := ReleaseCounted][t := Idle] == s.pc;
  }

  lemma ReleaseOfLast(s: State, t: Thread, r: Ref)
    requires s.owner == None && t in s.pc && s.pc[t] == Idle && r in s.refs && s.refs[r] == t && s.count == 1
    ensures Exec(s, LastRelease(t, r)) == Some(s.(count := 1, refs := s.refs - {r}, pc := s.pc[t := DeleteCall]))
  {
    hide Exec;
    var run := [ReleaseBegin(t, r)] + [ReleaseLock(t)] + [ReleaseCount(t)];
    ReleaseCounts(s, t, r);
    ExecMore(s, run, ReleaseDummyCount(t));
    ExecMore(s, run + [ReleaseDummyCount(t)], ReleaseDummyUnlock(t));
    assert s.pc[t := ReleaseCounted][t := ReleaseDummy][t := DeleteCall] == s.pc[t := DeleteCall];
  }

  lemma HeldCount(s: State, r: Ref)
    requires Inv(s) && r in s.refs
    ensures s.count == |s.refs| >= 1
  {
    HeldMeansAlive(s, r);
    RemovedRef(s.refs, r);
  }

  lemma ReleaseCounts(s: State, t: Thread, r: Ref)
    requires s.owner == None && t in s.pc && s.pc[t] == Idle && r in s.refs && s.refs[r] == t
    ensures Exec(s, [ReleaseBegin(t, r)] + [ReleaseLock(t)] + [ReleaseCount(t)])
            == Some(s.(count := s.count - 1, owner := Some(t), refs := s.refs - {r}, pc := s.pc[t := ReleaseCounted]))
  {
    hide Exec;
    ExecNothing(s);
    ExecMore(s, [], ReleaseBegin(t, r));
    assert [] + [ReleaseBegin(t, r)] == [ReleaseBegin(t, r)];
    ExecMore(s, [ReleaseBegin(t, r)], ReleaseLock(t));
    ExecMore(s, [ReleaseBegin(t, r)] + [ReleaseLock(t)], ReleaseCount(t));
    assert s.pc[t := ReleaseCall(r)][t := ReleaseLocked(r)][t := ReleaseCounted] == s.pc[t := ReleaseCounted];
  }

  /** The delete that follows frees the object with a count of 0. */
  lemma DeleteFrees(s: State, t: Thread)
    requires t in s.pc && s.pc[t].DeleteCall? && s.owner == None
    ensures Exec(s, Destroy(t) + [DtorFree(t)])
            == Some(s.(count := s.count - 1, pc := s.pc[t := Idle], alive := false, dtorRuns := s.dtorRuns + 1))
  {
    Destroys(s, t);
    hide Exec;
    ExecMore(s, Destroy(t), DtorFree(t));
    assert s.pc[t := DtorUnlocked][t := Idle] == s.pc[t := Idle];
  }

  /** No run gets stuck: while some call is in progress, some thread inside a call can take its next step. */
  lemma EveryRunCanGoOn(threads: set<Thread>, t: Thread, r: Ref, run: seq<Step>)
    requires t in threads && Exec(Init(threads, t, r), run).Some?
    ensures var s := Exec(Init(threads, t, r), run).value;
      (exists u :: u in s.pc && s.pc[u] != Idle) ==> exists a: Step :: Enabled(s, a) && s.pc[a.t] != Idle
  {
    hide Exec, Inv;
    InitInv(threads, t, r);
    EveryRunKeepsInv(Init(threads, t, r), run);
    var s := Exec(Init(threads, t, r), run).value;
    if u :| u in s.pc && s.pc[u] != Idle {
      var a := NextStep(s, u);
    }
  }

  /** The owner of the lock can go on; when the lock is free, so can every thread inside a call. */
  lemma NextStep(s: State, u: Thread) returns (a: Step)
    requires Inv(s) && u in s.pc && s.pc[u] != Idle
    ensures Enabled(s, a) && s.pc[a.t] != Idle
  {
    var t := if s.owner == None then u else s.owner.value;
    match s.pc[t]
    case RetainCall(_) => a := RetainLock(t);
    case RetainLocked(_) =>
      var added := UnusedRef(s.refs.Keys);
      a := RetainCount(t, added);
    case RetainCounted(_) => a := RetainUnlock(t);
    case ReleaseCall(_) => a := ReleaseLock(t);
    case ReleaseLocked(_) => a := ReleaseCount(t);
    case ReleaseCounted => a := if s.count == 0 then ReleaseDummyCount(t) else ReleaseUnlock(t);
    case ReleaseDummy => a := ReleaseDummyUnlock(t);
    case DeleteCall => a := DtorLock(t);
    case DtorLocked => a := DtorCount(t);
    case DtorCounted => a := DtorUnlock(t);
    case DtorUnlocked => a := DtorFree(t);
  }

  lemma {:induction false} UnusedRef(refs: set<Ref>) returns (r: Ref)
    ensures forall x :: x in refs ==> x < r
    decreases refs
  {
    if refs == {} {
      r := 0;
    } else {
      var x :| x in refs;
      var above := UnusedRef(refs - {x});
      r := if x < above then above else x + 1;
      assert forall y :: y in refs ==> y == x || y in refs - {x};
    }
  }

  lemma ExecMore(s: State, run: seq<Step>, a: Step)
    requires Exec(s, run).Some? && Enabled(Exec(s, run).value, a)
    ensures Exec(s, run + [a]) == Some(Apply(Exec(s, run).value, a))
  {
    assert (run + [a])[..|run|] == run;
  }

  /** Releasing the only reference. */
  function LastRelease(t: Thread, r: Ref): seq<Step> {
    [ReleaseBegin(t, r)] + [ReleaseLock(t)] + [ReleaseCount(t)] + [ReleaseDummyCount(t)] + [ReleaseDummyUnlock(t)]
  }

  /** It leads to a pending delete with the lock given back. */
  lemma LastReleaseDeletes(threads: set<Thread>, t: Thread, r: Ref)
    requires t in threads
    ensures var idle: map<Thread, PC> := map u | u in threads :: Idle;
      Exec(Init(threads, t, r), LastRelease(t, r)) == Some(State(1, None, map[], idle[t := DeleteCall], true, 0))
  {
    InitInv(threads, t, r);
    ReleaseTakesOne(Init(threads, t, r), t, r);
  }

  lemma ExecNothing(s: State)
    ensures Exec(s, []) == Some(s)
  {
  }

  /** The state after a thread without a reference has entered RetainObj all the same. */
  function Intruded(s: State, u: Thread, r: Ref): State {
    s.(pc := s.pc[u := RetainCall(r)])
  }

  function Retain(u: Thread, added: Ref): seq<Step> {
    [RetainLock(u)] + [RetainCount(u, added)] + [RetainUnlock(u)]
  }

  lemma IntruderRetains(s: State, u: Thread, r: Ref, added: Ref)
    requires u in s.pc && s.pc[u] == Idle && s.owner == None && s.refs == map[]
    ensures Exec(Intruded(s, u, r), Retain(u, added)) == Some(s.(count := s.count + 1, refs := map[added := u]))
  {
    hide Exec;
    var s' := Intruded(s, u, r);
    ExecNothing(s');
    ExecMore(s', [], RetainLock(u));
    assert [] + [RetainLock(u)] == [RetainLock(u)];
    ExecMore(s', [RetainLock(u)], RetainCount(u, added));
    ExecMore(s', [RetainLock(u)] + [RetainCount(u, added)], RetainUnlock(u));
    assert s'.pc[u := RetainLocked(r)][u := RetainCounted(r)][u := Idle] == s.pc;
  }

  function Destroy(t: Thread): seq<Step> {
    [DtorLock(t)] + [DtorCount(t)] + [DtorUnlock(t)]
  }

  lemma Destroys(s: State, t: Thread)
    requires t in s.pc && s.pc[t].DeleteCall? && s.owner == None
    ensures var end := Exec(s, Destroy(t));
      && end.Some? && Enabled(end.value, DtorFree(t))
      && end.value == s.(count := s.count - 1, pc := s.pc[t := DtorUnlocked], dtorRuns := s.dtorRuns + 1)
  {
    hide Exec;
    ExecNothing(s);
    ExecMore(s, [], DtorLock(t));
    assert [] + [DtorLock(t)] == [DtorLock(t)];
    ExecMore(s, [DtorLock(t)], DtorCount(t));
    ExecMore(s, [DtorLock(t)] + [DtorCount(t)], DtorUnlock(t));
    assert s.pc[t := DtorLocked][t := DtorCounted][t := DtorUnlocked] == s.pc[t := DtorUnlocked];
  }

  /** From every state with a pending delete: an intruder that retains before the destructor gets the
      lock makes the destructor's assertion find 1, with a reference held on what is to be freed. */
  lemma IntruderFails(s: State, t: Thread, u: Thread, r: Ref, added: Ref)
    requires Inv(s) && t in s.pc && s.pc[t].DeleteCall? && s.owner == None && u in s.pc && u != t
    ensures var mid := Exec(Intruded(s, u, r), Retain(u, added));
      && mid.Some?
      && var end := Exec(mid.value, Destroy(t));
         && end.Some? && Enabled(end.value, DtorFree(t))
         && end.value.count == 1 && end.value.refs == map[added := u]
  {
    PendingOf(s, t);
    assert s.refs == map[] && s.count == 1;
    IntruderRetains(s, u, r, added);
    Destroys(Exec(Intruded(s, u, r), Retain(u, added)).value, t);
  }

  /** What the rule "retain only through a held reference" is for: a run from the construction, a
      thread that breaks the rule, and the destructor's assertion finds 1. */
  lemma RetainWithoutReferenceFails(threads: set<Thread>, t: Thread, r: Ref, u: Thread, added: Ref)
    requires t in threads && u in threads && t != u
    ensures var start := Exec(Init(threads, t, r), LastRelease(t, r));
      && start.Some?
      && var mid := Exec(Intruded(start.value, u, r), Retain(u, added));
         && mid.Some?
         && var end := Exec(mid.value, Destroy(t));
            && end.Some? && Enabled(end.value, DtorFree(t))
            && end.value.count == 1 && end.value.refs == map[added := u]
  {
    hide Exec, Inv;
    LastReleaseDeletes(threads, t, r);
    InitInv(threads, t, r);
    EveryRunKeepsInv(Init(threads, t, r), LastRelease(t, r));
    IntruderFails(Exec(Init(threads, t, r), LastRelease(t, r)).value, t, u, r, added);
  }
}
