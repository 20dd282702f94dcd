/** What each call returns and does, as its caller sees it. */
module ThreadCalls {
  import opened Wrappers
  import opened ThreadState
  import opened ThreadInvariant
  import opened ThreadJoin
  import opened ThreadRuns

  /** The caller is blocked or gone, and the first thread of the list runs; with nobody on it
      the process exits. */
  predicate HandsOver(s': State, list: seq<Tid>) {
    if list == [] then s'.exited else !s'.exited && s'.current == list[0] && s'.ready == list[1..]
  }

  /** The caller goes to the end of the list, and the first thread runs. */
  predicate GivesWay(s: State, s': State) {
    if s.ready == [] then s' == s
    else s' == s.(current := s.ready[0], ready := s.ready[1..] + [s.current])
  }

  /** A blocked thread yields. */
  lemma BlockedYield(b: State)
    requires Consistent(b) && !b.exited && b.status[b.current] != Working
    ensures Refs(b)
    ensures var r := DoYield(b);
      && HandsOver(r, b.ready) && r.status == b.status && r.observer == b.observer && r.mutexes == b.mutexes
      && r.conds == b.conds && r.nextToDestroy == b.nextToDestroy && r.maxId == b.maxId
  {
    YieldKeeps(b);
  }

  // ---------------------------------------------------------------- threads

  /** The returned id is that of the one new thread, which waits for its turn behind all others. */
  lemma CreateCall(s: State)
    requires Inv(s)
    ensures var (s', id) := Step(s, Create);
      && id >= 0 && id !in s.status && s'.status == s.status[id := Working] && s'.ready == s.ready + [id]
      && s'.current == s.current && s'.observer == s.observer && s'.mutexes == s.mutexes && s'.conds == s.conds
  {}

  lemma YieldCall(s: State)
    requires Inv(s)
    ensures GivesWay(s, Step(s, Yield).0)
  {
    YieldKeeps(s);
  }

  predicate Joinable(s: State, id: int) {
    id != s.current && id in s.status && s.status[id] != Done && id !in s.observer
  }

  /** The four results of thread_join; -1 also when the target waits, through one or more joins,
      for the caller. */
  lemma JoinResult(s: State, id: int)
    requires Inv(s)
    ensures var (s', r) := Step(s, Join(id));
      && (r == -1 <==> id == s.current || (Joinable(s, id) && (exists k: nat :: Chain(s.observer, s.current, k) == Some(id))))
      && (r == -3 <==> id !in s.status)
      && (r == -2 <==> id != s.current && id in s.status && s.status[id] != Done && id in s.observer)
      && (r == 0 <==> id != s.current && id in s.status
                      && (s.status[id] == Done || (id !in s.observer && !(exists k: nat :: Chain(s.observer, s.current, k) == Some(id)))))
      && (r != 0 ==> s' == s)
  {
    ReadyInTable(s);
    if Joinable(s, id) { JoinRefusesExactlyDeadlocks(s, id); }
  }

  /** Joining with a thread that is done is a yield; with one that is not, it blocks the caller. */
  lemma JoinCall(s: State, id: int)
    requires Inv(s) && Step(s, Join(id)).1 == 0
    ensures var s' := Step(s, Join(id)).0;
      && id in s.status
      && (s.status[id] == Done ==> GivesWay(s, s'))
      && (s.status[id] != Done ==>
            && HandsOver(s', s.ready) && s'.observer == s.observer[id := s.current]
            && s'.status == s.status[s.current := Waiting] && s'.mutexes == s.mutexes && s'.conds == s.conds)
  {
    ReadyInTable(s);
    YieldKeeps(s);
    if s.status[id] != Done {
      JoinBlockKeeps(s, id);
      BlockedYield(JoinBlock(s, id));
    }
  }

  /** The caller is done and will be destroyed by the next thread that terminates; the one before
      it is destroyed now, and whoever waits for the caller gets ready. */
  lemma TerminateCall(s: State)
    requires Inv(s)
    ensures var s' := Step(s, Terminate).0;
      HandsOver(s', s.ready + Joiner(s)) && Retired(s, s')
  {
    BuryKeeps(s);
    BuryRetires(s);
    BlockedYield(Bury(s));
  }

  /** The thread that waits to join with the caller, if there is one. */
  function Joiner(s: State): seq<Tid> {
    if s.current in s.observer then [s.observer[s.current]] else []
  }

  ghost predicate Retired(s: State, s': State) {
    var t := s.current;
    && t in s'.status && s'.status[t] == Done && s'.nextToDestroy == Some(t) && t !in s'.observer
    && (forall u :: u in s.observer && u != t ==> u in s'.observer && s'.observer[u] == s.observer[u])
    && (forall u :: u in s'.observer ==> u in s.observer)
    && (forall j :: j in Joiner(s) ==> j in s'.status && s'.status[j] == Working)
    && (forall u :: u in s'.status <==> u in s.status && s.nextToDestroy != Some(u))
  }

  lemma BuryRetires(s: State)
    requires Inv(s)
    ensures Retired(s, Bury(s)) && Bury(s).ready == s.ready + Joiner(s)
  {
    if s.current in s.observer { assert At(s, s.observer[s.current], Joining(s.current)); }
  }

  // ---------------------------------------------------------------- mutexes

  /** Only a null mutex is refused; the new one is free and nobody waits for it. */
  lemma MutexInitCall(s: State, m: Option<MutexId>)
    requires Inv(s) && Enabled(s, MutexInit(m))
    ensures var (s', r) := Step(s, MutexInit(m));
      && (r == 1 <==> m.Some?) && (r == 0 <==> m.None?) && (r == 0 ==> s' == s)
      && (r == 1 ==> m.value in s'.mutexes && !s'.mutexes[m.value].locked && s'.mutexes[m.value].q == []
                     && forall k :: k != m.value ==> (k in s'.mutexes <==> k in s.mutexes))
  {}

  /** A lock is refused when there is no mutex or the caller has it already.  Otherwise the caller
      owns the mutex and goes on, or queues last for it and blocks. */
  lemma LockCall(s: State, m: Option<MutexId>)
    requires Inv(s) && Enabled(s, Lock(m))
    ensures var (s', r) := Step(s, Lock(m));
      && (r == 0 <==> m.None? || Holds(s, m.value, s.current)) && (r == 1 <==> r != 0) && (r == 0 ==> s' == s)
      && (r == 1 && !s.mutexes[m.value].locked ==>
            Holds(s', m.value, s.current) && s'.current == s.current && s'.ready == s.ready && s'.status == s.status)
      && (r == 1 && s.mutexes[m.value].locked ==>
            && HandsOver(s', s.ready) && s'.status == s.status[s.current := Waiting]
            && s'.mutexes == s.mutexes[m.value := s.mutexes[m.value].(q := s.mutexes[m.value].q + [s.current])])
  {
    ReadyInTable(s);
    if m.Some? && s.mutexes[m.value].locked && s.mutexes[m.value].owner != s.current {
      LockBlockKeeps(s, m.value);
      BlockedYield(LockBlock(s, m.value));
    }
  }

  /** From s to r the caller has given up mutex m: to the first that waits for it, who gets ready
      behind all others, or to nobody. */
  predicate GivenUp(s: State, r: State, m: MutexId) {
    && m in s.mutexes && m in r.mutexes
    && var q := s.mutexes[m].q;
       if q == [] then !r.mutexes[m].locked && r.mutexes[m].q == []
       else Holds(r, m, q[0]) && r.mutexes[m].q == q[1..] && q[0] in r.status && r.status[q[0]] == Working
  }

  /** The threads that get ready when the caller gives up mutex m. */
  function Woken(s: State, m: MutexId): seq<Tid> {
    if m in s.mutexes && s.mutexes[m].q != [] then [s.mutexes[m].q[0]] else []
  }

  /** Exactly the owner can unlock. */
  lemma UnlockCall(s: State, m: Option<MutexId>)
    requires Inv(s) && Enabled(s, Unlock(m))
    ensures var (s', r) := Step(s, Unlock(m));
      && (r == 1 <==> m.Some? && Holds(s, m.value, s.current)) && (r == 0 <==> r != 1) && (r == 0 ==> s' == s)
      && (r == 1 ==> GivenUp(s, s', m.value) && s'.ready == s.ready + Woken(s, m.value) && s'.current == s.current)
  {}

  // ---------------------------------------------------------------- conditions

  lemma CondInitCall(s: State, c: Option<CondId>)
    requires Inv(s) && Enabled(s, CondInit(c))
    ensures var (s', r) := Step(s, CondInit(c));
      && (r == 1 <==> c.Some?) && (r == 0 <==> c.None?) && (r == 0 ==> s' == s)
      && (r == 1 ==> s'.conds == s.conds[c.value := []])
  {}

  /** Exactly the owner of the mutex can wait: it gives the mutex up, queues last and blocks. */
  lemma WaitCall(s: State, c: Option<CondId>, m: Option<MutexId>)
    requires Inv(s) && Enabled(s, Wait(c, m))
    ensures var (s', r) := Step(s, Wait(c, m));
      && (r == 1 <==> c.Some? && m.Some? && Holds(s, m.value, s.current)) && (r == 0 <==> r != 1) && (r == 0 ==> s' == s)
      && (r == 1 ==>
            && GivenUp(s, s', m.value) && HandsOver(s', s.ready + Woken(s, m.value))
            && s'.conds == s.conds[c.value := s.conds[c.value] + [Waiter(s.current, m.value)]]
            && s.current in s'.status && s'.status[s.current] == Waiting)
  {
    ReadyInTable(s);
    if c.Some? && m.Some? && Holds(s, m.value, s.current) {
      ReleaseKeeps(s, m.value);
      WaitBlockKeeps(Release(s, m.value), c.value, m.value);
      BlockedYield(WaitBlock(Release(s, m.value), c.value, m.value));
    }
  }

  /** The first waiter, if there is one, leaves the condition.  It owns its mutex and gets ready,
      or queues last for it and stays blocked. */
  lemma SignalCall(s: State, c: Option<CondId>)
    requires Inv(s) && Enabled(s, Signal(c))
    ensures var (s', r) := Step(s, Signal(c));
      && (r == 1 <==> c.Some?) && (r == 0 <==> c.None?) && s'.current == s.current && !s'.exited
      && (c.None? || s.conds[c.value] == [] ==> s' == s)
      && (c.Some? && s.conds[c.value] != [] ==>
            var w := s.conds[c.value][0];
            && s'.conds == s.conds[c.value := s.conds[c.value][1..]] && w.mutex in s.mutexes
            && if s.mutexes[w.mutex].locked
               then s'.ready == s.ready && s'.status == s.status && w.mutex in s'.mutexes
                    && s'.mutexes[w.mutex] == s.mutexes[w.mutex].(q := s.mutexes[w.mutex].q + [w.thread])
               else Holds(s', w.mutex, w.thread) && s'.ready == s.ready + [w.thread]
                    && s'.status == s.status[w.thread := Working])
  {}

  // ---------------------------------------------------------------- ids over a run

  /** The ids that the create calls of a run return, in order. */
  ghost function Created(s: State, ops: seq<Op>): seq<int>
    requires Inv(s) && Legal(s, ops)
    decreases |ops|
  {
    if ops == [] then []
    else
      StepKeeps(s, ops[0]);
      (if ops[0].Create? then [Step(s, ops[0]).1] else []) +
      if Step(s, ops[0]).0.exited then [] else Created(Step(s, ops[0]).0, ops[1..])
  }

  lemma MaxIdGrows(s: State, op: Op)
    requires Inv(s) && Enabled(s, op)
    ensures Step(s, op).0.maxId == s.maxId + if op.Create? then 1 else 0
    ensures op.Create? ==> Step(s, op).1 == s.maxId
  {
    ReadyInTable(s);
    if Yields(s, op) {
      MaxIdAtYield(s, op);
    }
  }

  lemma MaxIdAtYield(s: State, op: Op)
    requires Inv(s) && Enabled(s, op) && Yields(s, op)
    ensures Step(s, op).0.maxId == s.maxId
  {
    ReadyInTable(s);
    match op
    case Yield => YieldKeeps(s);
    case Join(id) =>
      YieldKeeps(s);
      if s.status[id] != Done { JoinBlockKeeps(s, id); YieldKeeps(JoinBlock(s, id)); }
    case Lock(Some(m)) =>
      LockBlockKeeps(s, m);
      YieldKeeps(LockBlock(s, m));
    case Wait(Some(c), Some(m)) =>
      ReleaseKeeps(s, m);
      WaitBlockKeeps(Release(s, m), c, m);
      YieldKeeps(WaitBlock(Release(s, m), c, m));
    case Terminate =>
      BuryKeeps(s);
      YieldKeeps(Bury(s));
  }

  lemma {:induction false} CreatedFrom(s: State, ops: seq<Op>)
    requires Inv(s) && Legal(s, ops)
    ensures forall i :: 0 <= i < |Created(s, ops)| ==> Created(s, ops)[i] == s.maxId + i
    decreases |ops|
  {
    if ops != [] {
      StepKeeps(s, ops[0]);
      MaxIdGrows(s, ops[0]);
      if !Step(s, ops[0]).0.exited { CreatedFrom(Step(s, ops[0]).0, ops[1..]); }
    }
  }

  /** Over any run no two create calls return the same id, and none returns that of a thread
      that was there before. */
  lemma CreatedIdsAreFresh(s: State, ops: seq<Op>)
    requires Inv(s) && Legal(s, ops)
    ensures forall i, j :: 0 <= i < j < |Created(s, ops)| ==> Created(s, ops)[i] != Created(s, ops)[j]
    ensures forall i :: 0 <= i < |Created(s, ops)| ==> Created(s, ops)[i] !in s.status
  {
    CreatedFrom(s, ops);
  }

  /** The parent is thread 0; the program's create calls return 1, 2, 3 and so on. */
  lemma IdsCountFromOne(ops: seq<Op>, i: nat)
    requires Inv(INITIAL) && Legal(INITIAL, ops) && i < |Created(INITIAL, ops)|
    ensures INITIAL.current == 0 && Created(INITIAL, ops)[i] == i + 1
  {
    CreatedFrom(INITIAL, ops);
  }
}
