/** The cooperative thread library as a state machine.

    A state holds the library's globals and the fields of every TCB, mutex and
    condition variable.  A TCB pointer is the thread's id, a NULL `observer` is a
    missing key, and a destroyed TCB is a key missing from `status`, so "the pointer
    is dangling" is "the id is not in the table".  A step is one library call by the
    current thread; a call that blocks does nothing after it is resumed except return.
 */
module ThreadState {
  import opened Wrappers

  type Tid = nat
  type MutexId = nat
  type CondId = nat

  datatype Status = Working | Waiting | Done

  datatype Mutex = Mutex(locked: bool, owner: int, q: seq<Tid>)

  datatype Waiter = Waiter(thread: Tid, mutex: MutexId)

  datatype State = State(
    exited: bool,                     // the process left through exit(-1)
    current: Tid,
    ready: seq<Tid>,
    status: map<Tid, Status>,         // its keys are the thread table
    observer: map<Tid, Tid>,          // who waits to join with the key
    maxId: nat,
    nextToDestroy: Option<Tid>,
    mutexes: map<MutexId, Mutex>,
    conds: map<CondId, seq<Waiter>>)

  /** A library call; a `None` argument is a NULL pointer. */
  datatype Op =
    | Create
    | Yield
    | Join(id: int)
    | MutexInit(newMutex: Option<MutexId>)
    | Lock(lock: Option<MutexId>)
    | Unlock(unlock: Option<MutexId>)
    | CondInit(newCond: Option<CondId>)
    | Wait(cond: Option<CondId>, held: Option<MutexId>)
    | Signal(signalled: Option<CondId>)
    | Terminate

  /** What `init` leaves: the parent is thread 0 and runs. */
  const INITIAL: State :=
    State(false, 0, [], map[0 := Working], map[], 1, None, map[], map[])

  // ---------------------------------------------------------------- calls

  /** Every TCB that a call dereferences is still allocated. */
  predicate Refs(s: State) {
    && s.current in s.status
    && (forall t :: t in s.ready ==> t in s.status)
  }

  function DoCreate(s: State): (State, int) {
    (s.(status := s.status[s.maxId := Working], ready := s.ready + [s.maxId], maxId := s.maxId + 1),
     s.maxId)
  }

  /** thread_yield, with its branch for a ready thread that is not WORKING. */
  function DoYield(s: State): State
    requires Refs(s)
    decreases |s.ready|
  {
    if s.ready == [] then
      if s.status[s.current] != Working then s.(exited := true) else s
    else if s.status[s.ready[0]] != Working then
      DoYield(s.(ready := s.ready[1..]))
    else
      s.(current := s.ready[0],
         ready := s.ready[1..] + if s.status[s.current] == Working then [s.current] else [])
  }

  /** The k-th thread on the chain of `observer` links that starts at t. */
  function Chain(observer: map<Tid, Tid>, t: Tid, k: nat): Option<Tid> {
    if k == 0 then Some(t)
    else
      var u := Chain(observer, t, k - 1);
      if u.Some? && u.value in observer then Some(observer[u.value]) else None
  }

  /** Some thread waits, through one or more joins, for itself. */
  ghost predicate Cyclic(observer: map<Tid, Tid>) {
    exists t: Tid, k: nat :: 1 <= k && Chain(observer, t, k) == Some(t)
  }

  /** thread_join; the deadlock test is stated as "the new edge closes a cycle". */
  ghost function DoJoin(s: State, id: int): (State, int)
    requires Refs(s)
  {
    if id == s.current then (s, -1)
    else if id !in s.status then (s, -3)
    else if s.status[id] == Done then (DoYield(s), 0)
    else if id in s.observer then (s, -2)
    else if Cyclic(s.observer[id := s.current]) then (s, -1)
    else (DoYield(JoinBlock(s, id)), 0)
  }

  function JoinBlock(s: State, target: Tid): State {
    s.(status := s.status[s.current := Waiting], observer := s.observer[target := s.current])
  }

  function DoMutexInit(s: State, m: Option<MutexId>): (State, int) {
    if m.None? then (s, 0) else (s.(mutexes := s.mutexes[m.value := Mutex(false, -1, [])]), 1)
  }

  function DoLock(s: State, m: Option<MutexId>): (State, int)
    requires Refs(s)
    requires m.Some? ==> m.value in s.mutexes
  {
    if m.None? then (s, 0)
    else if !s.mutexes[m.value].locked then (SetOwner(s, m.value, s.current), 1)
    else if s.mutexes[m.value].owner == s.current then (s, 0)
    else (DoYield(LockBlock(s, m.value)), 1)
  }

  function SetOwner(s: State, m: MutexId, t: Tid): State
    requires m in s.mutexes
  {
    s.(mutexes := s.mutexes[m := s.mutexes[m].(locked := true, owner := t)])
  }

  function LockBlock(s: State, m: MutexId): State
    requires m in s.mutexes
  {
    s.(status := s.status[s.current := Waiting],
       mutexes := s.mutexes[m := s.mutexes[m].(q := s.mutexes[m].q + [s.current])])
  }

  function DoUnlock(s: State, m: Option<MutexId>): (State, int)
    requires m.Some? ==> m.value in s.mutexes
  {
    if m.None? || !s.mutexes[m.value].locked || s.mutexes[m.value].owner != s.current then (s, 0)
    else (Release(s, m.value), 1)
  }

  /** Gives a held mutex to the first thread of its queue, or unlocks it. */
  function Release(s: State, m: MutexId): State
    requires m in s.mutexes
  {
    var x := s.mutexes[m];
    if x.q == [] then s.(mutexes := s.mutexes[m := x.(locked := false)])
    else s.(mutexes := s.mutexes[m := x.(owner := x.q[0], q := x.q[1..])],
            status := s.status[x.q[0] := Working],
            ready := s.ready + [x.q[0]])
  }

  function DoCondInit(s: State, c: Option<CondId>): (State, int) {
    if c.None? then (s, 0) else (s.(conds := s.conds[c.value := []]), 1)
  }

  function DoWait(s: State, c: Option<CondId>, m: Option<MutexId>): (State, int)
    requires Refs(s)
    requires c.Some? ==> c.value in s.conds
    requires m.Some? ==> m.value in s.mutexes
  {
    if c.None? || m.None? then (s, 0)
    else if !s.mutexes[m.value].locked || s.mutexes[m.value].owner != s.current then (s, 0)
    else (DoYield(WaitBlock(Release(s, m.value), c.value, m.value)), 1)
  }

  function WaitBlock(s: State, c: CondId, m: MutexId): State
    requires c in s.conds
  {
    s.(status := s.status[s.current := Waiting],
       conds := s.conds[c := s.conds[c] + [Waiter(s.current, m)]])
  }

  function DoSignal(s: State, c: Option<CondId>): (State, int)
    requires c.Some? ==> c.value in s.conds
    requires c.Some? && s.conds[c.value] != [] ==> s.conds[c.value][0].mutex in s.mutexes
  {
    if c.None? then (s, 0)
    else if s.conds[c.value] == [] then (s, 1)
    else
      var w := s.conds[c.value][0];
      var s1 := s.(conds := s.conds[c.value := s.conds[c.value][1..]]);
      var x := s.mutexes[w.mutex];
      if !x.locked then
        (SetOwner(s1, w.mutex, w.thread).(status := s.status[w.thread := Working],
                                          ready := s.ready + [w.thread]), 1)
      else
        (s1.(mutexes := s.mutexes[w.mutex := x.(q := x.q + [w.thread])]), 1)
  }

  /** thread_terminate up to its call of thread_yield. */
  function Bury(s: State): State
    requires s.current in s.status
  {
    var t := s.current;
    var s1 := s.(status := s.status[t := Done]);
    var s2 := if t in s.observer then
        s1.(status := s1.status[s.observer[t] := Working],
            ready := s.ready + [s.observer[t]],
            observer := s.observer - {t})
      else s1;
    var dead := if s.nextToDestroy.Some? then {s.nextToDestroy.value} else {};
    s2.(status := s2.status - dead, nextToDestroy := Some(t))
  }

  // ---------------------------------------------------------------- places

  /** Where a live thread can be. */
  datatype Place = Running | InReady | InMutex(m: MutexId) | InCond(c: CondId) | Joining(target: Tid)

  ghost predicate At(s: State, t: Tid, p: Place) {
    match p
    case Running => t == s.current && t in s.status && s.status[t] == Working
    case InReady => t in s.ready
    case InMutex(m) => m in s.mutexes && t in s.mutexes[m].q
    case InCond(c) => c in s.conds && InCondQueue(s.conds[c], t)
    case Joining(u) => u in s.observer && s.observer[u] == t
  }

  ghost predicate InCondQueue(q: seq<Waiter>, t: Tid) {
    exists i :: 0 <= i < |q| && q[i].thread == t
  }

  function StatusAt(p: Place): Status {
    if p.Running? || p.InReady? then Working else Waiting
  }

  ghost predicate StatusMatches(s: State) {
    forall t, p :: At(s, t, p) ==> t in s.status && s.status[t] == StatusAt(p)
  }

  ghost predicate AtMostOnePlace(s: State) {
    forall t, p, q :: At(s, t, p) && At(s, t, q) ==> p == q
  }

  ghost predicate SomePlace(s: State) {
    forall t :: t in s.status && s.status[t] != Done ==> exists p :: At(s, t, p)
  }

  predicate Distinct(q: seq<Tid>) {
    forall i, j :: 0 <= i < j < |q| ==> q[i] != q[j]
  }

  predicate DistinctWaiters(q: seq<Waiter>) {
    forall i, j :: 0 <= i < j < |q| ==> q[i].thread != q[j].thread
  }

  ghost predicate QueuesDistinct(s: State) {
    && Distinct(s.ready)
    && (forall m :: m in s.mutexes ==> Distinct(s.mutexes[m].q))
    && (forall c :: c in s.conds ==> DistinctWaiters(s.conds[c]))
  }

  /** Every live thread is in exactly one place, once, and its status says which kind. */
  ghost predicate ExactlyOnePlace(s: State) {
    StatusMatches(s) && AtMostOnePlace(s) && SomePlace(s) && QueuesDistinct(s)
  }

  // ---------------------------------------------------------------- invariant

  /** The table is the live threads and at most one DONE thread, which awaits destruction. */
  ghost predicate TableIsLivePlusOne(s: State) {
    && (forall t :: t in s.status ==> t < s.maxId)
    && (forall t :: t in s.status && s.status[t] == Done ==> s.nextToDestroy == Some(t))
    && (s.nextToDestroy.Some? ==>
          s.nextToDestroy.value in s.status && s.status[s.nextToDestroy.value] == Done)
    && (forall u :: u in s.observer ==> u in s.status && s.status[u] != Done)
  }

  ghost predicate MutexesConsistent(s: State) {
    forall m :: m in s.mutexes ==>
      && (!s.mutexes[m].locked ==> s.mutexes[m].q == [])
      && (s.mutexes[m].locked ==> 0 <= s.mutexes[m].owner < s.maxId && s.mutexes[m].owner !in s.mutexes[m].q)
  }

  /** A thread on a condition queue does not hold the mutex it gave up. */
  ghost predicate WaitersConsistent(s: State) {
    forall c, i :: c in s.conds && 0 <= i < |s.conds[c]| ==>
      && s.conds[c][i].mutex in s.mutexes
      && !Holds(s, s.conds[c][i].mutex, s.conds[c][i].thread)
  }

  predicate Holds(s: State, m: MutexId, t: int) {
    m in s.mutexes && s.mutexes[m].locked && s.mutexes[m].owner == t
  }

  /** Holds also between the point where a call blocks its caller and the yield that follows. */
  ghost predicate Consistent(s: State) {
    && s.current in s.status
    && ExactlyOnePlace(s)
    && TableIsLivePlusOne(s)
    && MutexesConsistent(s)
    && WaitersConsistent(s)
    && !Cyclic(s.observer)
  }

  /** The invariant of every state in which the program runs. */
  ghost predicate Inv(s: State) {
    Consistent(s) && !s.exited && s.status[s.current] == Working
  }

  lemma ReadyInTable(s: State)
    requires Consistent(s)
    ensures Refs(s)
    ensures forall t :: t in s.ready ==> s.status[t] == Working
  {
    forall t | t in s.ready ensures t in s.status && s.status[t] == Working {
      assert At(s, t, InReady);
    }
  }

  // ---------------------------------------------------------------- runs

  /** What a caller must pass: initialised mutexes and conditions, and new ones to the init calls. */
  predicate Enabled(s: State, op: Op) {
    match op
    case MutexInit(m) => m.Some? ==> m.value !in s.mutexes
    case Lock(m) => m.Some? ==> m.value in s.mutexes
    case Unlock(m) => m.Some? ==> m.value in s.mutexes
    case CondInit(c) => c.Some? ==> c.value !in s.conds
    case Wait(c, m) => (c.Some? ==> c.value in s.conds) && (m.Some? ==> m.value in s.mutexes)
    case Signal(c) => c.Some? ==> c.value in s.conds
    case _ => true
  }

  /** One call by the current thread: the next state and the value the call returns. */
  ghost function Step(s: State, op: Op): (State, int)
    requires Inv(s) && Enabled(s, op)
  {
    ReadyInTable(s);
    match op
    case Create => DoCreate(s)
    case Yield => (DoYield(s), 0)
    case Join(id) => DoJoin(s, id)
    case MutexInit(m) => DoMutexInit(s, m)
    case Lock(m) => DoLock(s, m)
    case Unlock(m) => DoUnlock(s, m)
    case CondInit(c) => DoCondInit(s, c)
    case Wait(c, m) => DoWait(s, c, m)
    case Signal(c) => DoSignal(s, c)
    case Terminate => BuryKeepsRefs(s); (DoYield(Bury(s)), 0)
  }

  lemma BuryKeepsRefs(s: State)
    requires Inv(s)
    ensures Refs(Bury(s))
  {
    ReadyInTable(s);
    if s.current in s.observer {
      assert At(s, s.observer[s.current], Joining(s.current));
    }
  }
}
