/** Every call keeps the invariant. */
module ThreadInvariant {
  import opened Wrappers
  import opened ThreadState

  // ---------------------------------------------------------------- moving one thread

  /** From s to s', thread t goes to place q and every other thread stays where it is. */
  ghost predicate Moves(s: State, s': State, t: Tid, q: Place) {
    forall x, p :: At(s', x, p) <==> if x == t then p == q else At(s, x, p)
  }

  lemma MoveKeepsPlaces(s: State, s': State, t: Tid, q: Place)
    requires StatusMatches(s) && AtMostOnePlace(s) && SomePlace(s)
    requires Moves(s, s', t, q)
    requires t in s'.status && s'.status[t] == StatusAt(q)
    requires forall x :: x != t ==> (x in s.status <==> x in s'.status)
    requires forall x :: x != t && x in s.status ==> s'.status[x] == s.status[x]
    requires QueuesDistinct(s')
    ensures ExactlyOnePlace(s')
  {
    forall x | x in s'.status && s'.status[x] != Done ensures exists p :: At(s', x, p) {
      if x == t {
        assert At(s', x, q);
      } else {
        var p :| At(s, x, p);
        assert At(s', x, p);
      }
    }
  }

  lemma StayKeepsPlaces(s: State, s': State)
    requires StatusMatches(s) && AtMostOnePlace(s) && SomePlace(s)
    requires forall x, p :: At(s', x, p) <==> At(s, x, p)
    requires s'.status == s.status && QueuesDistinct(s')
    ensures ExactlyOnePlace(s')
  {
    forall x | x in s'.status && s'.status[x] != Done ensures exists p :: At(s', x, p) {
      var p :| At(s, x, p);
      assert At(s', x, p);
    }
  }

  // ---------------------------------------------------------------- the join graph

  /** Chains only shrink when links are removed. */
  lemma {:induction false} ChainOfSubmap(small: map<Tid, Tid>, big: map<Tid, Tid>, t: Tid, k: nat)
    requires forall u :: u in small ==> u in big && big[u] == small[u]
    ensures Chain(small, t, k).Some? ==> Chain(big, t, k) == Chain(small, t, k)
  {
    if k > 0 {
      ChainOfSubmap(small, big, t, k - 1);
    }
  }

  lemma RemovingLinksKeepsAcyclic(small: map<Tid, Tid>, big: map<Tid, Tid>)
    requires forall u :: u in small ==> u in big && big[u] == small[u]
    requires !Cyclic(big)
    ensures !Cyclic(small)
  {
    if Cyclic(small) {
      var t: Tid, k: nat :| 1 <= k && Chain(small, t, k) == Some(t);
      ChainOfSubmap(small, big, t, k);
    }
  }

  // ---------------------------------------------------------------- yield

  function Dispatch(s: State): State
    requires s.ready != [] && s.current in s.status
  {
    s.(current := s.ready[0],
       ready := s.ready[1..] + if s.status[s.current] == Working then [s.current] else [])
  }

  /** The branch of thread_yield for a ready thread that is not WORKING is never taken,
      and the exit happens exactly when the caller is blocked and nobody is ready. */
  lemma YieldKeeps(s: State)
    requires Consistent(s) && !s.exited
    ensures Refs(s)
    ensures s.ready != [] ==> DoYield(s) == Dispatch(s)
    ensures DoYield(s).exited <==> s.ready == [] && s.status[s.current] != Working
    ensures DoYield(s).exited ==> DoYield(s) == s.(exited := true)
    ensures !DoYield(s).exited ==> Inv(DoYield(s))
  {
    ReadyInTable(s);
    if s.ready != [] {
      DispatchKeeps(s);
    }
  }

  lemma DispatchKeeps(s: State)
    requires Consistent(s) && !s.exited && s.ready != []
    ensures Inv(Dispatch(s))
  {
    ReadyInTable(s);
    assert s.ready[0] in s.ready;
    DispatchKeepsPlaces(s);
  }

  lemma DispatchKeepsPlaces(s: State)
    requires ExactlyOnePlace(s) && s.current in s.status && s.ready != []
    ensures ExactlyOnePlace(Dispatch(s))
  {
    var s' := Dispatch(s);
    assert At(s, s.ready[0], InReady);
    assert s.status[s.current] == Working ==> At(s, s.current, Running);
    forall x, p ensures At(s', x, p) <==> DispatchedAt(s, x, p) {
      DispatchMoves(s, x, p);
    }
    DispatchKeepsDistinct(s);
    forall x | x in s'.status && s'.status[x] != Done ensures exists p :: At(s', x, p) {
      var p :| At(s, x, p);
      var p' := if x == s.ready[0] then Running
                else if x == s.current && s.status[x] == Working then InReady else p;
      assert DispatchedAt(s, x, p');
    }
  }

  ghost predicate DispatchedAt(s: State, x: Tid, p: Place)
    requires s.ready != [] && s.current in s.status
  {
    if x == s.ready[0] then p == Running
    else if x == s.current && s.status[x] == Working then p == InReady
    else At(s, x, p)
  }

  lemma DispatchKeepsDistinct(s: State)
    requires ExactlyOnePlace(s) && s.current in s.status && s.ready != []
    ensures s.status[s.current] == Working ==> s.current !in s.ready
    ensures Distinct(Dispatch(s).ready)
  {
    if s.status[s.current] == Working {
      assert At(s, s.current, Running);
      assert !At(s, s.current, InReady);
    }
  }

  lemma DispatchMoves(s: State, x: Tid, p: Place)
    requires ExactlyOnePlace(s) && s.current in s.status && s.ready != []
    ensures At(Dispatch(s), x, p) <==> DispatchedAt(s, x, p)
  {
    DispatchKeepsDistinct(s);
    assert At(s, s.ready[0], InReady);
    assert s.status[s.current] == Working ==> At(s, s.current, Running);
    assert s.ready == [s.ready[0]] + s.ready[1..];
    assert At(s, x, p) && x == s.ready[0] ==> p == InReady;
    assert At(s, x, p) && x == s.current && s.status[x] == Working ==> p == Running;
    match p {
      case Running =>
      case InReady =>
      case InMutex(_) =>
      case InCond(_) =>
      case Joining(_) =>
    }
  }

  // ---------------------------------------------------------------- calls that block

  lemma LockBlockKeeps(s: State, m: MutexId)
    requires Inv(s) && m in s.mutexes && s.mutexes[m].locked && s.mutexes[m].owner != s.current
    ensures Consistent(LockBlock(s, m))
  {
    var s' := LockBlock(s, m);
    assert At(s, s.current, Running);
    forall x, p ensures At(s', x, p) <==> if x == s.current then p == InMutex(m) else At(s, x, p) {
      LockBlockMoves(s, m, x, p);
    }
    LockBlockMoves(s, m, s.current, InMutex(m));
    MoveKeepsPlaces(s, s', s.current, InMutex(m));
  }

  lemma LockBlockMoves(s: State, m: MutexId, x: Tid, p: Place)
    requires ExactlyOnePlace(s) && At(s, s.current, Running) && m in s.mutexes
    ensures At(LockBlock(s, m), x, p) <==> if x == s.current then p == InMutex(m) else At(s, x, p)
    ensures QueuesDistinct(LockBlock(s, m))
  {
    assert !At(s, s.current, InMutex(m));
    assert At(s, x, p) && x == s.current ==> p == Running;
    match p {
      case Running =>
      case InReady =>
      case InMutex(_) =>
      case InCond(_) =>
      case Joining(_) =>
    }
  }

  lemma JoinBlockKeeps(s: State, u: Tid)
    requires Inv(s) && u in s.status && s.status[u] != Done && u !in s.observer
    requires !Cyclic(s.observer[u := s.current])
    ensures Consistent(JoinBlock(s, u))
  {
    var s' := JoinBlock(s, u);
    assert At(s, s.current, Running);
    forall x, p ensures At(s', x, p) <==> if x == s.current then p == Joining(u) else At(s, x, p) {
      JoinBlockMoves(s, u, x, p);
    }
    JoinBlockMoves(s, u, s.current, Joining(u));
    MoveKeepsPlaces(s, s', s.current, Joining(u));
  }

  lemma JoinBlockMoves(s: State, u: Tid, x: Tid, p: Place)
    requires ExactlyOnePlace(s) && At(s, s.current, Running) && u !in s.observer
    ensures At(JoinBlock(s, u), x, p) <==> if x == s.current then p == Joining(u) else At(s, x, p)
    ensures QueuesDistinct(JoinBlock(s, u))
  {
    assert At(s, x, p) && x == s.current ==> p == Running;
    match p {
      case Running =>
      case InReady =>
      case InMutex(_) =>
      case InCond(_) =>
      case Joining(_) =>
    }
  }

  lemma WaitBlockKeeps(s: State, c: CondId, m: MutexId)
    requires Inv(s) && c in s.conds && m in s.mutexes && !Holds(s, m, s.current)
    ensures Consistent(WaitBlock(s, c, m))
  {
    var s' := WaitBlock(s, c, m);
    assert At(s, s.current, Running);
    forall x, p ensures At(s', x, p) <==> if x == s.current then p == InCond(c) else At(s, x, p) {
      WaitBlockMoves(s, c, m, x, p);
    }
    WaitBlockMoves(s, c, m, s.current, InCond(c));
    MoveKeepsPlaces(s, s', s.current, InCond(c));
  }

  lemma WaitBlockMoves(s: State, c: CondId, m: MutexId, x: Tid, p: Place)
    requires ExactlyOnePlace(s) && At(s, s.current, Running) && c in s.conds
    ensures At(WaitBlock(s, c, m), x, p) <==> if x == s.current then p == InCond(c) else At(s, x, p)
    ensures QueuesDistinct(WaitBlock(s, c, m))
  {
    var q, q' := s.conds[c], WaitBlock(s, c, m).conds[c];
    assert !At(s, s.current, InCond(c));
    if InCondQueue(q, x) {
      var i :| 0 <= i < |q| && q[i].thread == x;
      assert q'[i].thread == x;
    }
    assert q'[|q|].thread == s.current;
    assert At(s, x, p) && x == s.current ==> p == Running;
    match p {
      case Running =>
      case InReady =>
      case InMutex(_) =>
      case InCond(_) =>
      case Joining(_) =>
    }
  }

  // ---------------------------------------------------------------- calls that wake

  lemma ReleaseKeeps(s: State, m: MutexId)
    requires Inv(s) && Holds(s, m, s.current)
    ensures Inv(Release(s, m))
    ensures Release(s, m).current == s.current
    ensures !Holds(Release(s, m), m, s.current)
  {
    ReleaseKeepsPlaces(s, m);
    assert At(s, s.current, Running);
    if s.mutexes[m].q != [] {
      assert At(s, s.mutexes[m].q[0], InMutex(m));
      HandOffKeepsWaiters(s, m);
    }
  }

  lemma ReleaseKeepsPlaces(s: State, m: MutexId)
    requires ExactlyOnePlace(s) && At(s, s.current, Running) && Holds(s, m, s.current)
    ensures ExactlyOnePlace(Release(s, m))
  {
    var s' := Release(s, m);
    if s.mutexes[m].q == [] {
      StayKeepsPlaces(s, s');
    } else {
      var t := s.mutexes[m].q[0];
      HandOffMoves(s, m, t, InReady);
      forall x, p ensures At(s', x, p) <==> if x == t then p == InReady else At(s, x, p) {
        HandOffMoves(s, m, x, p);
      }
      MoveKeepsPlaces(s, s', t, InReady);
    }
  }

  lemma HandOffMoves(s: State, m: MutexId, x: Tid, p: Place)
    requires ExactlyOnePlace(s) && At(s, s.current, Running) && Holds(s, m, s.current) && s.mutexes[m].q != []
    ensures At(Release(s, m), x, p) <==> if x == s.mutexes[m].q[0] then p == InReady else At(s, x, p)
    ensures QueuesDistinct(Release(s, m))
  {
    var q := s.mutexes[m].q;
    assert At(s, q[0], InMutex(m));
    assert At(s, s.current, Running);
    assert q == [q[0]] + q[1..];
    assert !At(s, q[0], InReady);
    assert At(s, x, p) && x == q[0] ==> p == InMutex(m);
    match p {
      case Running =>
      case InReady =>
      case InMutex(_) =>
      case InCond(_) =>
      case Joining(_) =>
    }
  }

  lemma HandOffKeepsWaiters(s: State, m: MutexId)
    requires Inv(s) && Holds(s, m, s.current) && s.mutexes[m].q != []
    ensures WaitersConsistent(Release(s, m)) && MutexesConsistent(Release(s, m))
  {
    var s' := Release(s, m);
    assert At(s, s.mutexes[m].q[0], InMutex(m));
    forall c, i | c in s'.conds && 0 <= i < |s'.conds[c]|
      ensures !Holds(s', s'.conds[c][i].mutex, s'.conds[c][i].thread)
    {
      assert At(s, s.conds[c][i].thread, InCond(c));
    }
  }

  /** The condition queue without its first waiter. */
  lemma DropFirst(q: seq<Waiter>, x: Tid)
    requires q != [] && DistinctWaiters(q)
    ensures InCondQueue(q[1..], x) <==> InCondQueue(q, x) && x != q[0].thread
    ensures DistinctWaiters(q[1..])
  {
    if InCondQueue(q, x) && x != q[0].thread {
      var i :| 0 <= i < |q| && q[i].thread == x;
      assert q[1..][i - 1].thread == x;
    }
  }

  lemma SignalKeeps(s: State, c: CondId)
    requires Inv(s) && c in s.conds && s.conds[c] != []
    ensures s.conds[c][0].mutex in s.mutexes
    ensures Inv(DoSignal(s, Some(c)).0)
  {
    var s' := DoSignal(s, Some(c)).0;
    var t, m := s.conds[c][0].thread, s.conds[c][0].mutex;
    assert At(s, t, InCond(c));
    assert At(s, s.current, Running);
    var place := if s.mutexes[m].locked then InMutex(m) else InReady;
    SignalKeepsDistinct(s, c);
    forall x, p ensures At(s', x, p) <==> if x == t then p == place else At(s, x, p) {
      SignalMoves(s, c, x, p);
    }
    MoveKeepsPlaces(s, s', t, place);
    SignalKeepsWaiters(s, c);
  }

  lemma SignalMoves(s: State, c: CondId, x: Tid, p: Place)
    requires ExactlyOnePlace(s) && At(s, s.current, Running)
    requires c in s.conds && s.conds[c] != [] && s.conds[c][0].mutex in s.mutexes
    ensures At(DoSignal(s, Some(c)).0, x, p) <==>
      if x == s.conds[c][0].thread
      then p == (if s.mutexes[s.conds[c][0].mutex].locked then InMutex(s.conds[c][0].mutex) else InReady)
      else At(s, x, p)
  {
    var t := s.conds[c][0].thread;
    assert At(s, t, InCond(c));
    DropFirst(s.conds[c], x);
    assert At(s, x, p) && x == t ==> p == InCond(c);
    match p {
      case Running =>
      case InReady =>
      case InMutex(_) =>
      case InCond(_) =>
      case Joining(_) =>
    }
  }

  lemma SignalKeepsDistinct(s: State, c: CondId)
    requires ExactlyOnePlace(s)
    requires c in s.conds && s.conds[c] != [] && s.conds[c][0].mutex in s.mutexes
    ensures QueuesDistinct(DoSignal(s, Some(c)).0)
  {
    var t, m := s.conds[c][0].thread, s.conds[c][0].mutex;
    assert At(s, t, InCond(c));
    assert !At(s, t, if s.mutexes[m].locked then InMutex(m) else InReady);
    DropFirst(s.conds[c], t);
  }

  lemma SignalKeepsWaiters(s: State, c: CondId)
    requires Inv(s) && c in s.conds && s.conds[c] != []
    ensures WaitersConsistent(DoSignal(s, Some(c)).0) && MutexesConsistent(DoSignal(s, Some(c)).0)
  {
    var s' := DoSignal(s, Some(c)).0;
    var t := s.conds[c][0].thread;
    assert At(s, t, InCond(c));
    forall d, i | d in s'.conds && 0 <= i < |s'.conds[d]|
      ensures s'.conds[d][i].mutex in s'.mutexes && !Holds(s', s'.conds[d][i].mutex, s'.conds[d][i].thread)
    {
      var k := if d == c then i + 1 else i;
      assert s'.conds[d][i] == s.conds[d][k];
      assert At(s, s.conds[d][k].thread, InCond(d));
    }
  }

  // ---------------------------------------------------------------- creation and death

  lemma CreateKeeps(s: State)
    requires Inv(s)
    ensures Inv(DoCreate(s).0)
  {
    var s' := DoCreate(s).0;
    assert At(s, s.current, Running);
    assert forall p :: !At(s, s.maxId, p);
    assert !At(s, s.maxId, InReady);
    forall x, p ensures At(s', x, p) <==> if x == s.maxId then p == InReady else At(s, x, p) {
      assert At(s, x, p) ==> x != s.maxId;
      match p {
        case Running =>
        case InReady =>
        case InMutex(_) =>
        case InCond(_) =>
        case Joining(_) =>
      }
    }
    MoveKeepsPlaces(s, s', s.maxId, InReady);
    forall m | m in s'.mutexes
      ensures s'.mutexes[m].locked ==> s'.mutexes[m].owner !in s'.mutexes[m].q
    {}
  }

  lemma MutexInitKeeps(s: State, m: Option<MutexId>)
    requires Inv(s) && (m.Some? ==> m.value !in s.mutexes)
    ensures Inv(DoMutexInit(s, m).0)
  {
    StayKeepsPlaces(s, DoMutexInit(s, m).0);
  }

  lemma CondInitKeeps(s: State, c: Option<CondId>)
    requires Inv(s) && (c.Some? ==> c.value !in s.conds)
    ensures Inv(DoCondInit(s, c).0)
  {
    var s' := DoCondInit(s, c).0;
    forall x, p ensures At(s', x, p) <==> At(s, x, p) { CondInitMoves(s, c, x, p); }
    StayKeepsPlaces(s, s');
  }

  lemma CondInitMoves(s: State, c: Option<CondId>, x: Tid, p: Place)
    requires c.Some? ==> c.value !in s.conds
    ensures At(DoCondInit(s, c).0, x, p) <==> At(s, x, p)
  {
    match p {
      case Running =>
      case InReady =>
      case InMutex(_) =>
      case InCond(_) =>
      case Joining(_) =>
    }
  }

  lemma BuryKeeps(s: State)
    requires Inv(s)
    ensures Consistent(Bury(s)) && !Bury(s).exited
    ensures Bury(s).nextToDestroy == Some(s.current) && Bury(s).current == s.current
    ensures Bury(s).status[s.current] == Done
  {
    assert At(s, s.current, Running);
    BuryKeepsPlaces(s);
    BuryKeepsTable(s);
    RemovingLinksKeepsAcyclic(Bury(s).observer, s.observer);
  }

  lemma BuryKeepsTable(s: State)
    requires Inv(s)
    ensures TableIsLivePlusOne(Bury(s))
    ensures MutexesConsistent(Bury(s)) && WaitersConsistent(Bury(s))
  {
    if s.current in s.observer {
      assert At(s, s.observer[s.current], Joining(s.current));
    }
  }

  lemma BuryKeepsPlaces(s: State)
    requires ExactlyOnePlace(s) && At(s, s.current, Running)
    requires s.nextToDestroy.Some? ==> s.nextToDestroy.value in s.status && s.status[s.nextToDestroy.value] == Done
    ensures ExactlyOnePlace(Bury(s))
  {
    var s' := Bury(s);
    var t := s.current;
    assert At(s, t, Running);
    forall x, p ensures At(s', x, p) <==> BuriedAt(s, x, p) {
      BuryMoves(s, x, p);
    }
    BuryKeepsDistinct(s);
    BuryKeepsStatus(s);
    forall x | x in s'.status && s'.status[x] != Done ensures exists p :: At(s', x, p) {
      var p :| At(s, x, p);
      assert BuriedAt(s, x, if t in s.observer && x == s.observer[t] then InReady else p);
    }
  }

  lemma BuryKeepsStatus(s: State)
    requires StatusMatches(s) && AtMostOnePlace(s) && At(s, s.current, Running)
    requires s.nextToDestroy.Some? ==> s.nextToDestroy.value in s.status && s.status[s.nextToDestroy.value] == Done
    requires forall x, p :: At(Bury(s), x, p) <==> BuriedAt(s, x, p)
    ensures StatusMatches(Bury(s))
    ensures forall x :: x in Bury(s).status && Bury(s).status[x] != Done ==> x in s.status && s.status[x] != Done && x != s.current
  {
    if s.current in s.observer {
      assert At(s, s.observer[s.current], Joining(s.current));
    }
  }

  ghost predicate BuriedAt(s: State, x: Tid, p: Place) {
    if s.current in s.observer && x == s.observer[s.current] then p == InReady
    else x != s.current && At(s, x, p)
  }

  lemma BuryMoves(s: State, x: Tid, p: Place)
    requires ExactlyOnePlace(s) && At(s, s.current, Running)
    requires s.nextToDestroy.Some? ==> s.nextToDestroy.value in s.status && s.status[s.nextToDestroy.value] == Done
    ensures At(Bury(s), x, p) <==> BuriedAt(s, x, p)
  {
    var t := s.current;
    assert At(s, t, Running);
    if t in s.observer {
      var o := s.observer[t];
      assert At(s, o, Joining(t));
      assert !At(s, o, InReady);
      assert At(s, x, p) && x == o ==> p == Joining(t);
    }
    assert At(s, x, p) && x == t ==> p == Running;
    match p {
      case Running =>
      case InReady =>
      case InMutex(_) =>
      case InCond(_) =>
      case Joining(_) =>
    }
  }

  lemma BuryKeepsDistinct(s: State)
    requires AtMostOnePlace(s) && QueuesDistinct(s) && s.current in s.status
    ensures QueuesDistinct(Bury(s))
  {
    var t := s.current;
    if t in s.observer {
      assert At(s, s.observer[t], Joining(t));
      assert !At(s, s.observer[t], InReady);
    }
  }

  // ---------------------------------------------------------------- every call

  lemma JoinKeeps(s: State, id: int)
    requires Inv(s) && Refs(s)
    ensures !DoJoin(s, id).0.exited ==> Inv(DoJoin(s, id).0)
  {
    YieldKeeps(s);
    if id != s.current && id in s.status && s.status[id] != Done && id !in s.observer
       && !Cyclic(s.observer[id := s.current]) {
      JoinBlockKeeps(s, id);
      YieldKeeps(JoinBlock(s, id));
    }
  }

  /** A call either exits the process or leads to a state with the invariant. */
  lemma StepKeeps(s: State, op: Op)
    requires Inv(s) && Enabled(s, op)
    ensures !Step(s, op).0.exited ==> Inv(Step(s, op).0)
  {
    ReadyInTable(s);
    match op
    case Create => CreateKeeps(s);
    case Yield => YieldKeeps(s);
    case Join(id) => JoinKeeps(s, id);
    case MutexInit(m) => MutexInitKeeps(s, m);
    case CondInit(c) => CondInitKeeps(s, c);
    case Lock(m) =>
      if m.Some? {
        if !s.mutexes[m.value].locked {
          AcquireKeeps(s, m.value);
        } else if s.mutexes[m.value].owner != s.current {
          LockBlockKeeps(s, m.value);
          YieldKeeps(LockBlock(s, m.value));
        }
      }
    case Unlock(m) =>
      if m.Some? && Holds(s, m.value, s.current) {
        ReleaseKeeps(s, m.value);
      }
    case Wait(c, m) =>
      if c.Some? && m.Some? && Holds(s, m.value, s.current) {
        ReleaseKeeps(s, m.value);
        WaitBlockKeeps(Release(s, m.value), c.value, m.value);
        YieldKeeps(WaitBlock(Release(s, m.value), c.value, m.value));
      }
    case Signal(c) =>
      if c.Some? && s.conds[c.value] != [] {
        SignalKeeps(s, c.value);
      }
    case Terminate =>
      BuryKeeps(s);
      YieldKeeps(Bury(s));
  }

  lemma AcquireKeeps(s: State, m: MutexId)
    requires Inv(s) && m in s.mutexes && !s.mutexes[m].locked
    ensures Inv(SetOwner(s, m, s.current))
  {
    var s' := SetOwner(s, m, s.current);
    assert At(s, s.current, Running);
    StayKeepsPlaces(s, s');
    forall c, i | c in s'.conds && 0 <= i < |s'.conds[c]|
      ensures !Holds(s', s'.conds[c][i].mutex, s'.conds[c][i].thread)
    {
      assert At(s, s.conds[c][i].thread, InCond(c));
    }
  }
}
