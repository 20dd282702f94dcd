/** What whole runs of the library guarantee, for every program the threads execute. */
module ThreadRuns {
  import opened Wrappers
  import opened ThreadState
  import opened ThreadInvariant

  // ---------------------------------------------------------------- runs

  /** The calls can be made one after the other, and none follows the exit.  That the
      invariant holds when the next call is made is proved (StepKeeps), not demanded. */
  ghost predicate Legal(s: State, ops: seq<Op>)
    requires Inv(s)
    decreases |ops|
  {
    ops == [] ||
    (Enabled(s, ops[0]) &&
     (StepKeeps(s, ops[0]);
      var s' := Step(s, ops[0]).0;
      if s'.exited then |ops| == 1 else Legal(s', ops[1..])))
  }

  ghost function Run(s: State, ops: seq<Op>): State
    requires Inv(s) && Legal(s, ops)
    decreases |ops|
  {
    if ops == [] then s
    else
      StepKeeps(s, ops[0]);
      var s' := Step(s, ops[0]).0;
      if s'.exited then s' else Run(s', ops[1..])
  }

  lemma InitialInv()
    ensures Inv(INITIAL)
  {
    assert At(INITIAL, 0, Running);
    forall t: Tid, k: nat | 1 <= k ensures Chain(INITIAL.observer, t, k).None? {
      NoLinks(t, k);
    }
  }

  lemma {:induction false} NoLinks(t: Tid, k: nat)
    requires 1 <= k
    ensures Chain(map[], t, k).None?
  {
    if k > 1 { NoLinks(t, k - 1); }
  }

  ghost predicate AllBlocked(s: State) {
    forall t :: t in s.status ==> s.status[t] != Working
  }

  /** The call reaches thread_yield. */
  ghost predicate Yields(s: State, op: Op)
    requires Enabled(s, op)
  {
    match op
    case Yield => true
    case Join(id) =>
      && id != s.current && id in s.status
      && (s.status[id] == Done || (id !in s.observer && !Cyclic(s.observer[id := s.current])))
    case Lock(Some(m)) => s.mutexes[m].locked && s.mutexes[m].owner != s.current
    case Wait(Some(c), Some(m)) => Holds(s, m, s.current)
    case Terminate => true
    case _ => false
  }

  /** The state in which a call has reached thread_yield: consistent, and with the ready
      list of before the call in front. */
  lemma YieldPoint(s: State, op: Op) returns (b: State)
    requires Inv(s) && Enabled(s, op) && Yields(s, op)
    ensures Consistent(b) && !b.exited && Refs(b) && Step(s, op).0 == DoYield(b)
    ensures s.ready <= b.ready
  {
    ReadyInTable(s);
    match op
    case Yield => b := s;
    case Join(id) =>
      if s.status[id] == Done { b := s; } else { JoinBlockKeeps(s, id); b := JoinBlock(s, id); }
    case Lock(Some(m)) =>
      LockBlockKeeps(s, m);
      b := LockBlock(s, m);
    case Wait(Some(c), Some(m)) =>
      ReleaseKeeps(s, m);
      WaitBlockKeeps(Release(s, m), c, m);
      b := WaitBlock(Release(s, m), c, m);
    case Terminate =>
      BuryKeeps(s);
      b := Bury(s);
    ReadyInTable(b);
  }

  lemma OnlyYieldsSwitch(s: State, op: Op)
    requires Inv(s) && Enabled(s, op) && !Yields(s, op)
    ensures Step(s, op).0.current == s.current && s.ready <= Step(s, op).0.ready && !Step(s, op).0.exited
  {
    ReadyInTable(s);
  }

  /** The deadlock exit happens exactly when no thread is left that could work. */
  lemma ExitIffAllBlocked(s: State, op: Op)
    requires Inv(s) && Enabled(s, op)
    ensures Step(s, op).0.exited <==> AllBlocked(Step(s, op).0)
  {
    StepKeeps(s, op);
    if Step(s, op).0.exited {
      if !Yields(s, op) { OnlyYieldsSwitch(s, op); }
      var b := YieldPoint(s, op);
      YieldKeeps(b);
      NobodyWorks(b);
    }
  }

  lemma NobodyWorks(b: State)
    requires ExactlyOnePlace(b) && b.current in b.status && b.ready == [] && b.status[b.current] != Working
    ensures AllBlocked(b)
  {
    forall t | t in b.status && b.status[t] != Done ensures b.status[t] != Working {
      var p :| At(b, t, p);
      assert !p.Running? && !p.InReady?;
    }
  }

  /** Every reachable state has the invariant, or is the exit with every thread blocked. */
  lemma {:induction false} RunKeeps(s: State, ops: seq<Op>)
    requires Inv(s) && Legal(s, ops)
    ensures !Run(s, ops).exited ==> Inv(Run(s, ops))
    ensures Run(s, ops).exited ==> AllBlocked(Run(s, ops))
    decreases |ops|
  {
    if ops != [] {
      StepKeeps(s, ops[0]);
      ExitIffAllBlocked(s, ops[0]);
      if !Step(s, ops[0]).0.exited {
        RunKeeps(Step(s, ops[0]).0, ops[1..]);
      }
    }
  }

  // ---------------------------------------------------------------- no dangling pointer

  /** Every TCB pointer the library keeps is to a thread still in the table. */
  ghost predicate NoDangling(s: State) {
    && s.current in s.status
    && (forall t :: t in s.ready ==> t in s.status)
    && (forall m, t :: m in s.mutexes && t in s.mutexes[m].q ==> t in s.status)
    && (forall c, i :: c in s.conds && 0 <= i < |s.conds[c]| ==> s.conds[c][i].thread in s.status)
    && (forall u :: u in s.observer ==> u in s.status && s.observer[u] in s.status)
    && (s.nextToDestroy.Some? ==> s.nextToDestroy.value in s.status)
  }

  lemma ReferencesAreLive(s: State)
    requires Inv(s)
    ensures NoDangling(s)
  {
    ReadyInTable(s);
    forall m, t | m in s.mutexes && t in s.mutexes[m].q ensures t in s.status {
      assert At(s, t, InMutex(m));
    }
    forall c, i | c in s.conds && 0 <= i < |s.conds[c]| ensures s.conds[c][i].thread in s.status {
      assert At(s, s.conds[c][i].thread, InCond(c));
    }
    forall u | u in s.observer ensures s.observer[u] in s.status {
      assert At(s, s.observer[u], Joining(u));
    }
  }

  /** The thread that a terminating thread frees is not itself, is nowhere in the library,
      and is the only thread that leaves the table. */
  lemma DestroyedThreadIsUnreferenced(s: State)
    requires Inv(s)
    ensures s.nextToDestroy.Some? ==>
      && s.nextToDestroy.value != s.current
      && s.nextToDestroy.value !in s.observer
      && (forall p :: !At(s, s.nextToDestroy.value, p))
      && Bury(s).status.Keys == s.status.Keys - {s.nextToDestroy.value}
    ensures s.nextToDestroy.None? ==> Bury(s).status.Keys == s.status.Keys
  {
    if s.current in s.observer {
      assert At(s, s.observer[s.current], Joining(s.current));
    }
  }

  // ---------------------------------------------------------------- what a run does to one mutex or condition

  datatype Hold = Acquired(t: Tid) | Released(t: Tid)

  /** What calls do to the mutex k and to the condition k: the acquisitions and releases,
      who joins the mutex's queue and who is handed the mutex from it, who joins the
      condition's queue and whom a signal takes from it; each in order. */
  datatype Trace = Trace(holds: seq<Hold>, queued: seq<Tid>, handed: seq<Tid>,
                         waited: seq<Waiter>, served: seq<Waiter>)
  {
    function Then(b: Trace): Trace {
      Trace(holds + b.holds, queued + b.queued, handed + b.handed, waited + b.waited, served + b.served)
    }
  }

  const NOTHING := Trace([], [], [], [], [])

  function ReleaseTrace(s: State, m: MutexId): Trace
    requires m in s.mutexes
  {
    if s.mutexes[m].q == [] then NOTHING.(holds := [Released(s.current)])
    else NOTHING.(holds := [Released(s.current), Acquired(s.mutexes[m].q[0])], handed := [s.mutexes[m].q[0]])
  }

  function StepTrace(s: State, op: Op, k: nat): Trace
    requires Enabled(s, op)
  {
    match op
    case Lock(Some(m)) =>
      if m != k then NOTHING
      else if !s.mutexes[m].locked then NOTHING.(holds := [Acquired(s.current)])
      else if s.mutexes[m].owner == s.current then NOTHING
      else NOTHING.(queued := [s.current])
    case Unlock(Some(m)) =>
      if m == k && Holds(s, m, s.current) then ReleaseTrace(s, m) else NOTHING
    case Wait(Some(c), Some(m)) =>
      if !Holds(s, m, s.current) then NOTHING
      else (if m == k then ReleaseTrace(s, m) else NOTHING).(waited := if c == k then [Waiter(s.current, m)] else [])
    case Signal(Some(c)) =>
      if s.conds[c] == [] then NOTHING
      else
        var w := s.conds[c][0];
        (if w.mutex != k then NOTHING
         else if w.mutex in s.mutexes && !s.mutexes[w.mutex].locked then NOTHING.(holds := [Acquired(w.thread)])
         else NOTHING.(queued := [w.thread])).(served := if c == k then [w] else [])
    case _ => NOTHING
  }

  ghost function RunTrace(s: State, ops: seq<Op>, k: nat): Trace
    requires Inv(s) && Legal(s, ops)
    decreases |ops|
  {
    if ops == [] then NOTHING
    else
      StepKeeps(s, ops[0]);
      var s' := Step(s, ops[0]).0;
      StepTrace(s, ops[0], k).Then(if s'.exited then NOTHING else RunTrace(s', ops[1..], k))
  }

  function Holder(s: State, m: MutexId): Option<Tid> {
    if m in s.mutexes && s.mutexes[m].locked && s.mutexes[m].owner >= 0 then Some(s.mutexes[m].owner) else None
  }

  /** Replays acquisitions and releases.  The result is None as soon as a held mutex is
      acquired, or a mutex is released by a thread that does not hold it. */
  function Replay(h: Option<Tid>, log: seq<Hold>): Option<Option<Tid>>
    decreases log
  {
    if log == [] then Some(h)
    else match log[0]
      case Acquired(t) => if h.None? then Replay(Some(t), log[1..]) else None
      case Released(t) => if h == Some(t) then Replay(None, log[1..]) else None
  }

  lemma {:induction false} ReplayConcat(h: Option<Tid>, a: seq<Hold>, b: seq<Hold>)
    requires Replay(h, a).Some?
    ensures Replay(h, a + b) == Replay(Replay(h, a).value, b)
    decreases a
  {
    if a == [] {
      assert a + b == b;
    } else {
      assert (a + b)[0] == a[0] && (a + b)[1..] == a[1..] + b;
      ReplayConcat(if a[0].Acquired? then Some(a[0].t) else None, a[1..], b);
    }
  }

  function QueueOf(s: State, m: MutexId): seq<Tid> {
    if m in s.mutexes then s.mutexes[m].q else []
  }

  function CondQueueOf(s: State, c: CondId): seq<Waiter> {
    if c in s.conds then s.conds[c] else []
  }

  /** thread_yield touches nothing but the current thread and the ready list. */
  lemma {:induction false} YieldFrame(s: State)
    requires Refs(s)
    ensures var r := DoYield(s);
      && r.mutexes == s.mutexes && r.conds == s.conds && r.status == s.status && r.observer == s.observer
    decreases |s.ready|
  {
    if s.ready != [] && s.status[s.ready[0]] != Working {
      YieldFrame(s.(ready := s.ready[1..]));
    }
  }

  /** The mutexes and conditions of s' are those that the call leaves, whether or not a
      yield ends it. */
  ghost predicate Effect(s: State, op: Op, s': State)
    requires Enabled(s, op)
  {
    match op
    case MutexInit(Some(m)) => s'.mutexes == s.mutexes[m := Mutex(false, -1, [])] && s'.conds == s.conds
    case CondInit(Some(c)) => s'.mutexes == s.mutexes && s'.conds == s.conds[c := []]
    case Lock(Some(m)) =>
      && s'.conds == s.conds
      && s'.mutexes == (if !s.mutexes[m].locked then SetOwner(s, m, s.current).mutexes
                        else if s.mutexes[m].owner == s.current then s.mutexes
                        else LockBlock(s, m).mutexes)
    case Unlock(Some(m)) =>
      && s'.conds == s.conds
      && s'.mutexes == (if Holds(s, m, s.current) then Release(s, m).mutexes else s.mutexes)
    case Wait(Some(c), Some(m)) =>
      if Holds(s, m, s.current)
      then s'.mutexes == Release(s, m).mutexes && s'.conds == s.conds[c := s.conds[c] + [Waiter(s.current, m)]]
      else s'.mutexes == s.mutexes && s'.conds == s.conds
    case Signal(Some(c)) =>
      if s.conds[c] == [] then s'.mutexes == s.mutexes && s'.conds == s.conds
      else
        var w := s.conds[c][0];
        && w.mutex in s.mutexes
        && s'.conds == s.conds[c := s.conds[c][1..]]
        && s'.mutexes == (if !s.mutexes[w.mutex].locked then SetOwner(s, w.mutex, w.thread).mutexes
                          else s.mutexes[w.mutex := s.mutexes[w.mutex].(q := s.mutexes[w.mutex].q + [w.thread])])
    case _ => s'.mutexes == s.mutexes && s'.conds == s.conds
  }

  lemma StepEffect(s: State, op: Op)
    requires Inv(s) && Enabled(s, op)
    ensures Effect(s, op, Step(s, op).0)
  {
    ReadyInTable(s);
    match op
    case Yield => YieldFrame(s);
    case Join(id) => JoinEffect(s, id);
    case Lock(Some(m)) => LockEffect(s, m);
    case Wait(Some(c), Some(m)) => WaitEffect(s, c, m);
    case Terminate => BuryKeepsRefs(s); YieldFrame(Bury(s));
    case Signal(Some(c)) => SignalEffect(s, c);
    case _ =>
  }

  lemma JoinEffect(s: State, id: int)
    requires Refs(s)
    ensures Effect(s, Join(id), DoJoin(s, id).0)
  {
    YieldFrame(s);
    if id in s.status { YieldFrame(JoinBlock(s, id)); }
  }

  lemma LockEffect(s: State, m: MutexId)
    requires Refs(s) && m in s.mutexes
    ensures Effect(s, Lock(Some(m)), DoLock(s, Some(m)).0)
  {
    YieldFrame(LockBlock(s, m));
  }

  lemma WaitEffect(s: State, c: CondId, m: MutexId)
    requires Refs(s) && c in s.conds && m in s.mutexes
    ensures Effect(s, Wait(Some(c), Some(m)), DoWait(s, Some(c), Some(m)).0)
  {
    YieldFrame(WaitBlock(Release(s, m), c, m));
  }

  lemma SignalEffect(s: State, c: CondId)
    requires c in s.conds && WaitersConsistent(s)
    ensures s.conds[c] != [] ==> s.conds[c][0].mutex in s.mutexes
    ensures Effect(s, Signal(Some(c)), DoSignal(s, Some(c)).0)
  {}

  lemma EffectReplays(s: State, op: Op, s': State, m: MutexId)
    requires Enabled(s, op) && Effect(s, op, s') && MutexesConsistent(s)
    ensures Replay(Holder(s, m), StepTrace(s, op, m).holds) == Some(Holder(s', m))
  {
    if op.Unlock? || op.Wait? {
      ReleaseReplays(s, op, s', m);
    } else if m in s.mutexes {
      assert m in s'.mutexes;
    }
  }

  /** The release of m, seen from any mutex k. */
  lemma ReleaseAt(s: State, m: MutexId, k: MutexId)
    requires m in s.mutexes && s.mutexes[m].locked
    ensures k != m ==> QueueOf(Release(s, m), k) == QueueOf(s, k) && Holder(Release(s, m), k) == Holder(s, k)
    ensures QueueOf(s, m) == ReleaseTrace(s, m).handed + QueueOf(Release(s, m), m)
    ensures s.mutexes[m].owner == s.current ==>
      Replay(Holder(s, m), ReleaseTrace(s, m).holds) == Some(Holder(Release(s, m), m))
  {
    var q, log := s.mutexes[m].q, ReleaseTrace(s, m).holds;
    if q != [] {
      assert q == [q[0]] + q[1..];
      assert log[1..] == [Acquired(q[0])];
      assert Replay(None, log[1..]) == Some(Some(q[0]));
    }
  }

  lemma ReleaseReplays(s: State, op: Op, s': State, k: MutexId)
    requires Enabled(s, op) && Effect(s, op, s') && (op.Unlock? || op.Wait?)
    ensures Replay(Holder(s, k), StepTrace(s, op, k).holds) == Some(Holder(s', k))
  {
    var m := if op.Unlock? then op.unlock else if op.cond.Some? then op.held else None;
    if m.Some? && Holds(s, m.value, s.current) {
      ReleaseAt(s, m.value, k);
    }
  }

  lemma EffectQueues(s: State, op: Op, s': State, k: nat)
    requires Enabled(s, op) && Effect(s, op, s')
    ensures QueueOf(s, k) + StepTrace(s, op, k).queued == StepTrace(s, op, k).handed + QueueOf(s', k)
    ensures CondQueueOf(s, k) + StepTrace(s, op, k).waited == StepTrace(s, op, k).served + CondQueueOf(s', k)
  {
    if op.Unlock? {
      UnlockQueues(s, op.unlock, s', k);
    } else if op.Wait? {
      WaitQueues(s, op.cond, op.held, s', k);
    }
  }

  lemma UnlockQueues(s: State, m: Option<MutexId>, s': State, k: nat)
    requires Enabled(s, Unlock(m)) && Effect(s, Unlock(m), s')
    ensures QueueOf(s, k) == StepTrace(s, Unlock(m), k).handed + QueueOf(s', k)
    ensures CondQueueOf(s, k) == CondQueueOf(s', k)
  {
    if m.Some? && Holds(s, m.value, s.current) { ReleaseAt(s, m.value, k); }
  }

  lemma WaitQueues(s: State, c: Option<CondId>, m: Option<MutexId>, s': State, k: nat)
    requires Enabled(s, Wait(c, m)) && Effect(s, Wait(c, m), s')
    ensures QueueOf(s, k) == StepTrace(s, Wait(c, m), k).handed + QueueOf(s', k)
    ensures CondQueueOf(s, k) + StepTrace(s, Wait(c, m), k).waited == CondQueueOf(s', k)
  {
    if c.Some? && m.Some? && Holds(s, m.value, s.current) { ReleaseAt(s, m.value, k); }
  }

  /** The laws of one call, for the mutex and the condition k. */
  lemma StepLaws(s: State, op: Op, k: nat)
    requires Inv(s) && Enabled(s, op)
    ensures Replay(Holder(s, k), StepTrace(s, op, k).holds) == Some(Holder(Step(s, op).0, k))
    ensures QueueOf(s, k) + StepTrace(s, op, k).queued == StepTrace(s, op, k).handed + QueueOf(Step(s, op).0, k)
    ensures CondQueueOf(s, k) + StepTrace(s, op, k).waited == StepTrace(s, op, k).served + CondQueueOf(Step(s, op).0, k)
  {
    StepEffect(s, op);
    EffectReplays(s, op, Step(s, op).0, k);
    EffectQueues(s, op, Step(s, op).0, k);
  }

  /** Over any run, the acquisitions and releases of a mutex alternate, each release is by
      the thread that acquired it last, and that thread is the recorded owner. */
  lemma {:induction false} AcquisitionsAlternate(s: State, ops: seq<Op>, m: MutexId)
    requires Inv(s) && Legal(s, ops)
    ensures Replay(Holder(s, m), RunTrace(s, ops, m).holds) == Some(Holder(Run(s, ops), m))
    decreases |ops|
  {
    if ops != [] {
      StepKeeps(s, ops[0]);
      var s' := Step(s, ops[0]).0;
      StepLaws(s, ops[0], m);
      var now, rest := StepTrace(s, ops[0], m), if s'.exited then NOTHING else RunTrace(s', ops[1..], m);
      if !s'.exited {
        AcquisitionsAlternate(s', ops[1..], m);
      }
      ReplayConcat(Holder(s, m), now.holds, rest.holds);
    }
  }

  /** Two first-in first-out stretches make one. */
  lemma QueueLawsCompose<T>(q0: seq<T>, in1: seq<T>, out1: seq<T>, q1: seq<T>, in2: seq<T>, out2: seq<T>, q2: seq<T>)
    requires q0 + in1 == out1 + q1 && q1 + in2 == out2 + q2
    ensures q0 + (in1 + in2) == (out1 + out2) + q2
  {
    assert q0 + (in1 + in2) == (q0 + in1) + in2;
    assert (out1 + q1) + in2 == out1 + (q1 + in2);
    assert out1 + (out2 + q2) == (out1 + out2) + q2;
  }

  /** Over any run, the queue of a mutex holds exactly those that queued and were not yet
      handed the mutex, in order: hand-overs follow the order of queueing. */
  lemma {:induction false} MutexQueueIsFifo(s: State, ops: seq<Op>, m: MutexId)
    requires Inv(s) && Legal(s, ops)
    ensures QueueOf(s, m) + RunTrace(s, ops, m).queued == RunTrace(s, ops, m).handed + QueueOf(Run(s, ops), m)
    decreases |ops|
  {
    if ops != [] {
      StepKeeps(s, ops[0]);
      var s' := Step(s, ops[0]).0;
      StepLaws(s, ops[0], m);
      var now, rest := StepTrace(s, ops[0], m), if s'.exited then NOTHING else RunTrace(s', ops[1..], m);
      if !s'.exited {
        MutexQueueIsFifo(s', ops[1..], m);
      }
      QueueLawsCompose(QueueOf(s, m), now.queued, now.handed, QueueOf(s', m),
                       rest.queued, rest.handed, QueueOf(Run(s, ops), m));
    }
  }

  /** The same for a condition: signals take the waiters in the order in which they waited. */
  lemma {:induction false} CondQueueIsFifo(s: State, ops: seq<Op>, c: CondId)
    requires Inv(s) && Legal(s, ops)
    ensures CondQueueOf(s, c) + RunTrace(s, ops, c).waited == RunTrace(s, ops, c).served + CondQueueOf(Run(s, ops), c)
    decreases |ops|
  {
    if ops != [] {
      StepKeeps(s, ops[0]);
      var s' := Step(s, ops[0]).0;
      StepLaws(s, ops[0], c);
      var now, rest := StepTrace(s, ops[0], c), if s'.exited then NOTHING else RunTrace(s', ops[1..], c);
      if !s'.exited {
        CondQueueIsFifo(s', ops[1..], c);
      }
      QueueLawsCompose(CondQueueOf(s, c), now.waited, now.served, CondQueueOf(s', c),
                       rest.waited, rest.served, CondQueueOf(Run(s, ops), c));
    }
  }

  // ---------------------------------------------------------------- waiting for a mutex

  /** Only the owner's own call takes a mutex away from it. */
  lemma OwnerKeepsMutex(s: State, op: Op, m: MutexId, t: Tid)
    requires Inv(s) && Enabled(s, op) && Holds(s, m, t) && t != s.current
    ensures Holds(Step(s, op).0, m, t)
  {
    StepEffect(s, op);
  }

  ghost predicate WaitsAt(s: State, c: CondId, t: Tid, m: MutexId) {
    c in s.conds && Waiter(t, m) in s.conds[c]
  }

  /** t has asked for m and is not running: it is still on a condition queue, or on the
      queue of m, or it has been given m and is ready. */
  ghost predicate Pending(s: State, t: Tid, m: MutexId) {
    || (exists c :: WaitsAt(s, c, t, m))
    || (m in s.mutexes && t in s.mutexes[m].q)
    || (Holds(s, m, t) && t in s.ready)
  }

  lemma PendingIsNotRunning(s: State, t: Tid, m: MutexId)
    requires Inv(s) && Pending(s, t, m)
    ensures t != s.current
  {
    assert At(s, s.current, Running);
    if c :| WaitsAt(s, c, t, m) {
      assert At(s, t, InCond(c));
    } else if m in s.mutexes && t in s.mutexes[m].q {
      assert At(s, t, InMutex(m));
    } else {
      assert At(s, t, InReady);
    }
  }

  /** A ready thread stays ready, at the same or an earlier index, until it runs. */
  lemma ReadyAdvances(s: State, op: Op, k: nat)
    requires Inv(s) && Enabled(s, op) && k < |s.ready|
    ensures var s' := Step(s, op).0;
      && !s'.exited
      && (!Yields(s, op) ==> s'.current == s.current && k < |s'.ready| && s'.ready[k] == s.ready[k])
      && (Yields(s, op) && k == 0 ==> s'.current == s.ready[0])
      && (Yields(s, op) && k > 0 ==> k - 1 < |s'.ready| && s'.ready[k - 1] == s.ready[k])
  {
    if Yields(s, op) {
      var b := YieldPoint(s, op);
      YieldKeeps(b);
    } else {
      OnlyYieldsSwitch(s, op);
    }
  }

  lemma StepKeepsPending(s: State, op: Op, t: Tid, m: MutexId)
    requires Inv(s) && Enabled(s, op) && Pending(s, t, m) && !Step(s, op).0.exited
    ensures var s' := Step(s, op).0; Pending(s', t, m) || (s'.current == t && Holds(s', m, t))
  {
    var s' := Step(s, op).0;
    PendingIsNotRunning(s, t, m);
    if c :| WaitsAt(s, c, t, m) {
      WaiterKeepsPending(s, op, c, t, m);
    } else if m in s.mutexes && t in s.mutexes[m].q {
      QueuedKeepsPending(s, op, t, m);
    } else {
      var k :| 0 <= k < |s.ready| && s.ready[k] == t;
      OwnerKeepsMutex(s, op, m, t);
      ReadyAdvances(s, op, k);
    }
  }

  lemma WaiterKeepsPending(s: State, op: Op, c: CondId, t: Tid, m: MutexId)
    requires Inv(s) && Enabled(s, op) && WaitsAt(s, c, t, m)
    ensures Pending(Step(s, op).0, t, m)
  {
    var s' := Step(s, op).0;
    StepEffect(s, op);
    if op == Signal(Some(c)) && s.conds[c][0] == Waiter(t, m) {
      assert s'.ready == (if s.mutexes[m].locked then s.ready else s.ready + [t]);
      assert s.mutexes[m].locked ==> s'.mutexes[m].q == s.mutexes[m].q + [t];
    } else {
      assert WaitsAt(s', c, t, m) by {
        var i :| 0 <= i < |s.conds[c]| && s.conds[c][i] == Waiter(t, m);
        if op == Signal(Some(c)) {
          assert s'.conds[c][i - 1] == Waiter(t, m);
        } else {
          assert s'.conds[c][i] == Waiter(t, m);
        }
      }
    }
  }

  lemma QueuedKeepsPending(s: State, op: Op, t: Tid, m: MutexId)
    requires Inv(s) && Enabled(s, op) && m in s.mutexes && t in s.mutexes[m].q
    requires !Step(s, op).0.exited
    ensures var s' := Step(s, op).0; Pending(s', t, m) || (s'.current == t && Holds(s', m, t))
  {
    var s' := Step(s, op).0;
    StepEffect(s, op);
    EffectOnQueued(s, op, s', t, m);
    if t !in s'.mutexes[m].q {
      ReleaseKeeps(s, m);
      if op.Wait? {
        WaitBlockKeeps(Release(s, m), op.cond.value, m);
        YieldFindsHandedThread(WaitBlock(Release(s, m), op.cond.value, m), t);
      }
    }
  }

  /** A thread leaves the queue of a mutex only at its head, when the owner lets go. */
  lemma EffectOnQueued(s: State, op: Op, s': State, t: Tid, m: MutexId)
    requires Enabled(s, op) && Effect(s, op, s') && MutexesConsistent(s) && m in s.mutexes && t in s.mutexes[m].q
    ensures m in s'.mutexes
    ensures t !in s'.mutexes[m].q ==>
      && t == s.mutexes[m].q[0] && Holds(s, m, s.current) && Holds(s', m, t)
      && (op == Unlock(Some(m)) || (op.Wait? && op.cond.Some? && op.held == Some(m)))
  {
    var q := s.mutexes[m].q;
    assert q == [q[0]] + q[1..];
  }

  lemma YieldFindsHandedThread(b: State, t: Tid)
    requires Consistent(b) && !b.exited && t in b.ready
    ensures Refs(b) && (DoYield(b).current == t || t in DoYield(b).ready)
  {
    YieldKeeps(b);
    DispatchFinds(b, t);
  }

  lemma DispatchFinds(b: State, t: Tid)
    requires t in b.ready && b.current in b.status
    ensures Dispatch(b).current == t || t in Dispatch(b).ready
  {
    assert b.ready == [b.ready[0]] + b.ready[1..];
  }

  /** Whoever waits for a mutex - in thread_mutex_lock, or in thread_cond_wait whether the
      signaller found the mutex free or held - owns it when it next runs. */
  lemma {:induction false} WaiterResumesAsOwner(s: State, ops: seq<Op>, t: Tid, m: MutexId)
    requires Inv(s) && Legal(s, ops) && Pending(s, t, m) && AsleepUntilEnd(s, ops, t)
    ensures Run(s, ops).exited || Pending(Run(s, ops), t, m)
            || (Run(s, ops).current == t && Holds(Run(s, ops), m, t))
    decreases |ops|
  {
    if ops != [] {
      StepKeeps(s, ops[0]);
      var s' := Step(s, ops[0]).0;
      if !s'.exited {
        StepKeepsPending(s, ops[0], t, m);
        if |ops| > 1 {
          WaiterResumesAsOwner(s', ops[1..], t, m);
        }
      }
    }
  }

  /** t is not the running thread between the calls of the run. */
  ghost predicate AsleepUntilEnd(s: State, ops: seq<Op>, t: Tid)
    requires Inv(s) && Legal(s, ops)
    decreases |ops|
  {
    |ops| <= 1 ||
    (StepKeeps(s, ops[0]);
     var s' := Step(s, ops[0]).0;
     s'.current != t && AsleepUntilEnd(s', ops[1..], t))
  }

  /** A thread leaves a condition queue only at its head and only by a signal of that
      condition; every other call leaves the queue alone or extends it. */
  lemma OnlySignalsTakeWaiters(s: State, op: Op, c: CondId)
    requires Inv(s) && Enabled(s, op) && c in s.conds
    ensures var q, q' := s.conds[c], CondQueueOf(Step(s, op).0, c);
      if op == Signal(Some(c)) && q != [] then q' == q[1..] else q <= q'
  {
    StepEffect(s, op);
    EffectOnWaiters(s, op, Step(s, op).0, c);
  }

  lemma EffectOnWaiters(s: State, op: Op, s': State, c: CondId)
    requires Enabled(s, op) && Effect(s, op, s') && c in s.conds
    ensures var q, q' := s.conds[c], CondQueueOf(s', c);
      if op == Signal(Some(c)) && q != [] then q' == q[1..] else q <= q'
  {}

  // ---------------------------------------------------------------- round robin

  ghost function YieldCount(s: State, ops: seq<Op>): nat
    requires Inv(s) && Legal(s, ops)
    decreases |ops|
  {
    if ops == [] then 0
    else
      StepKeeps(s, ops[0]);
      (if Yields(s, ops[0]) then 1 else 0) +
      if Step(s, ops[0]).0.exited then 0 else YieldCount(Step(s, ops[0]).0, ops[1..])
  }

  /** Each yield, by whichever thread and call, brings a ready thread one place forward;
      creations, wake-ups and terminations in between do not delay it. */
  lemma {:induction false} ReadyIndexCountsYields(s: State, ops: seq<Op>, k: nat)
    requires Inv(s) && Legal(s, ops) && k < |s.ready| && YieldCount(s, ops) <= k
    ensures var r, n := Run(s, ops), YieldCount(s, ops);
      Inv(r) && k - n < |r.ready| && r.ready[k - n] == s.ready[k]
    decreases |ops|
  {
    if ops != [] {
      StepKeeps(s, ops[0]);
      ReadyAdvances(s, ops[0], k);
      ReadyIndexCountsYields(Step(s, ops[0]).0, ops[1..], if Yields(s, ops[0]) then k - 1 else k);
    }
  }

  /** Round robin: the thread at index k of the ready list runs after exactly k + 1 yields. */
  lemma RoundRobin(s: State, ops: seq<Op>, op: Op, k: nat)
    requires Inv(s) && Legal(s, ops) && k < |s.ready| && YieldCount(s, ops) == k
    requires Inv(Run(s, ops)) && Enabled(Run(s, ops), op) && Yields(Run(s, ops), op)
    ensures Step(Run(s, ops), op).0.current == s.ready[k]
  {
    ReadyIndexCountsYields(s, ops, k);
    FirstIsNext(Run(s, ops), op);
  }

  lemma FirstIsNext(s: State, op: Op)
    requires Inv(s) && Enabled(s, op) && Yields(s, op) && s.ready != []
    ensures Step(s, op).0.current == s.ready[0]
  {
    ReadyAdvances(s, op, 0);
  }
}
