/** The library's own form: globals and TCB fields updated in place, over the linked ready
    list.  Each call is proved to take the library to the state that the state machine of
    ThreadState names; the deadlock detector's loop is proved to decide what the state machine
    only states. */
module ThreadLibrary {
  import opened Wrappers
  import opened ThreadState
  import opened ThreadInvariant
  import opened ThreadJoin
  import opened LinkedQueue

  class Threads {
    var exited: bool
    var currentThread: Tid
    const readyList: Queue<Tid>
    var status: map<Tid, Status>
    var observer: map<Tid, Tid>
    var maxId: nat
    var nextToDestroy: Option<Tid>
    var mutexes: map<MutexId, Mutex>
    var conds: map<CondId, seq<Waiter>>

    ghost predicate Valid()
      reads this, readyList, readyList.nodes
    {
      readyList.Valid()
    }

    /** A call's whole effect: the queue's nodes are the old ones and new ones. */
    twostate predicate Keeps()
      reads this, readyList, readyList.nodes
    {
      Valid() && fresh(readyList.nodes - old(readyList.nodes))
    }

    ghost function View(): State
      reads this, readyList, readyList.items
    {
      State(exited, currentThread, readyList.Contents(), status, observer, maxId, nextToDestroy, mutexes, conds)
    }

    constructor ()
      ensures Valid() && View() == INITIAL && fresh(readyList) && readyList.nodes == {}
    {
      readyList := new Queue();
      exited, currentThread, maxId := false, 0, 1;
      status, observer := map[0 := Working], map[];
      nextToDestroy, mutexes, conds := None, map[], map[];
    }

    method Create() returns (tid: int)
      requires Valid()
      modifies this, readyList, readyList.nodes
      ensures Keeps() && (View(), tid) == DoCreate(old(View()))
    {
      status := status[maxId := Working];
      readyList.Push(maxId);
      tid := maxId;
      maxId := maxId + 1;
    }

    method Yield()
      requires Valid() && Refs(View())
      modifies this, readyList, readyList.nodes
      ensures Keeps() && View() == DoYield(old(View()))
      decreases |readyList.Contents()|
    {
      var ready := readyList.NotEmpty();
      if !ready {
        if status[currentThread] != Working {
          exited := true;
        }
        return;
      }
      var former := currentThread;
      var front := readyList.Pop();
      var next := front.value;
      if status[next] != Working {
        assert View() == old(View()).(ready := old(View()).ready[1..]);
        Yield();
        return;
      }
      currentThread := next;
      if status[former] == Working {
        readyList.Push(former);
      }
    }

    /** Follows the observers of the current thread with a slow and a fast walker. */
    method DetectDeadlock() returns (deadlock: bool)
      ensures deadlock <==> Endless(observer, currentThread)
    {
      var slow, fast := Some(currentThread), Some(currentThread);
      ghost var i: nat := 0;
      while slow.Some? && fast.Some? && fast.value in observer
        invariant slow == Chain(observer, currentThread, i)
        invariant fast == Chain(observer, currentThread, 2 * i)
        invariant forall m: nat :: 1 <= m <= i ==> !Met(observer, currentThread, m)
        decreases |observer| - i
      {
        assert Chain(observer, currentThread, 2 * i + 1).Some?;
        if i >= |observer| {
          TooFar(observer, currentThread, i);
        }
        slow := Observer(slow.value);
        fast := Observer(observer[fast.value]);
        assert fast == Chain(observer, currentThread, 2 * i + 1 + 1);
        i := i + 1;
        if slow.Some? && fast.Some? && slow.value == fast.value {
          assert Met(observer, currentThread, i);
          MeetIffEndless(observer, currentThread);
          return true;
        }
      }
      if slow.None? {
        ChainEnds(observer, currentThread, i, i + 1);
      }
      assert Chain(observer, currentThread, 2 * i + 1).None?;
      return false;
    }

    function Observer(t: Tid): Option<Tid>
      reads this`observer
    {
      if t in observer then Some(observer[t]) else None
    }

    /** Marks the caller as waiting for the thread, and takes that back on a deadlock. */
    method TryBlock(id: Tid) returns (deadlock: bool)
      requires !Cyclic(observer) && id !in observer
      requires currentThread in status && status[currentThread] == Working
      modifies this`status, this`observer
      ensures deadlock <==> Cyclic(old(observer)[id := currentThread])
      ensures deadlock ==> status == old(status) && observer == old(observer)
      ensures !deadlock ==> status == old(status)[currentThread := Waiting] && observer == old(observer)[id := currentThread]
    {
      status := status[currentThread := Waiting];
      observer := observer[id := currentThread];
      EndlessIffEdgeClosesCycle(old(observer), id, currentThread);
      deadlock := DetectDeadlock();
      if deadlock {
        status := status[currentThread := Working];
        observer := observer - {id};
        assert status == old(status) && observer == old(observer);
      }
    }

    method Join(id: int) returns (result: int)
      requires Valid() && Inv(View()) && Refs(View())
      modifies this, readyList, readyList.nodes
      ensures Keeps() && (View(), result) == DoJoin(old(View()), id)
    {
      if currentThread == id { return -1; }
      if id !in status { return -3; }
      if status[id] == Done {
        Yield();
        return 0;
      }
      if id in observer { return -2; }
      var deadlock := TryBlock(id);
      if deadlock { return -1; }
      assert View() == JoinBlock(old(View()), id);
      Yield();
      return 0;
    }

    method MutexInit(m: Option<MutexId>) returns (ok: int)
      requires Valid()
      modifies this, readyList, readyList.nodes
      ensures Keeps() && (View(), ok) == DoMutexInit(old(View()), m)
    {
      if m.None? { return 0; }
      mutexes := mutexes[m.value := Mutex(false, -1, [])];
      return 1;
    }

    method MutexLock(m: Option<MutexId>) returns (ok: int)
      requires Valid()
      requires Refs(View()) && (m.Some? ==> m.value in mutexes)
      modifies this, readyList, readyList.nodes
      ensures Keeps() && (View(), ok) == DoLock(old(View()), m)
    {
      if m.None? { return 0; }
      var mutex := mutexes[m.value];
      if !mutex.locked {
        mutexes := mutexes[m.value := mutex.(locked := true, owner := currentThread)];
        return 1;
      }
      if mutex.owner == currentThread { return 0; }
      status := status[currentThread := Waiting];
      mutexes := mutexes[m.value := mutex.(q := mutex.q + [currentThread])];
      Yield();
      return 1;
    }

    method MutexUnlock(m: Option<MutexId>) returns (ok: int)
      requires Valid()
      requires m.Some? ==> m.value in mutexes
      modifies this, readyList, readyList.nodes
      ensures Keeps() && (View(), ok) == DoUnlock(old(View()), m)
    {
      if m.None? { return 0; }
      var mutex := mutexes[m.value];
      if !mutex.locked || mutex.owner != currentThread { return 0; }
      if mutex.q == [] {
        mutexes := mutexes[m.value := mutex.(locked := false)];
      } else {
        var next := mutex.q[0];
        status := status[next := Working];
        mutexes := mutexes[m.value := mutex.(owner := next, q := mutex.q[1..])];
        readyList.Push(next);
      }
      return 1;
    }

    method CondInit(c: Option<CondId>) returns (ok: int)
      requires Valid()
      modifies this, readyList, readyList.nodes
      ensures Keeps() && (View(), ok) == DoCondInit(old(View()), c)
    {
      if c.None? { return 0; }
      conds := conds[c.value := []];
      return 1;
    }

    method CondWait(c: Option<CondId>, m: Option<MutexId>) returns (ok: int)
      requires Valid() && Refs(View())
      requires c.Some? ==> c.value in conds
      requires m.Some? ==> m.value in mutexes
      modifies this, readyList, readyList.nodes
      ensures Keeps() && (View(), ok) == DoWait(old(View()), c, m)
    {
      if c.None? || m.None? { return 0; }
      if !mutexes[m.value].locked || mutexes[m.value].owner != currentThread { return 0; }
      var released := MutexUnlock(m);
      if released == 0 { return 0; }
      status := status[currentThread := Waiting];
      conds := conds[c.value := conds[c.value] + [Waiter(currentThread, m.value)]];
      Yield();
      return 1;
    }

    method CondSignal(c: Option<CondId>) returns (ok: int)
      requires Valid()
      requires c.Some? ==> c.value in conds
      requires c.Some? && conds[c.value] != [] ==> conds[c.value][0].mutex in mutexes
      modifies this, readyList, readyList.nodes
      ensures Keeps() && (View(), ok) == DoSignal(old(View()), c)
    {
      if c.None? { return 0; }
      if conds[c.value] == [] { return 1; }
      var info := conds[c.value][0];
      conds := conds[c.value := conds[c.value][1..]];
      var mutex := mutexes[info.mutex];
      if !mutex.locked {
        mutexes := mutexes[info.mutex := mutex.(locked := true, owner := info.thread)];
        status := status[info.thread := Working];
        readyList.Push(info.thread);
      } else {
        mutexes := mutexes[info.mutex := mutex.(q := mutex.q + [info.thread])];
      }
      return 1;
    }

    /** The caller is done: its observer wakes, and the thread that was done before is destroyed. */
    method Retire()
      requires Valid() && currentThread in status
      modifies this, readyList, readyList.nodes
      ensures Keeps() && View() == Bury(old(View()))
    {
      status := status[currentThread := Done];
      WakeObserver();
      DestroyPrevious();
      nextToDestroy := Some(currentThread);
    }

    method DestroyPrevious()
      modifies this`status
      ensures status == old(status) - if nextToDestroy.Some? then {nextToDestroy.value} else {}
    {
      if nextToDestroy.Some? {
        status := status - {nextToDestroy.value};
      }
    }

    method WakeObserver()
      requires Valid()
      modifies this`status, this`observer, readyList, readyList.nodes
      ensures Keeps()
      ensures View() ==
        if currentThread !in old(observer) then old(View())
        else
          var joiner := old(observer)[currentThread];
          old(View()).(status := old(status)[joiner := Working], ready := old(readyList.Contents()) + [joiner],
                       observer := old(observer) - {currentThread})
    {
      if currentThread in observer {
        status := status[observer[currentThread] := Working];
        readyList.Push(observer[currentThread]);
        observer := observer - {currentThread};
      }
    }

    /** thread_terminate, with destroy_thread of the thread that terminated before. */
    method Terminate()
      requires Valid() && currentThread in status && Refs(Bury(View()))
      modifies this, readyList, readyList.nodes
      ensures Keeps() && View() == DoYield(Bury(old(View())))
    {
      Retire();
      Yield();
    }
  }

  /** The walkers cannot pass |observer| rounds without having met. */
  lemma TooFar(observer: map<Tid, Tid>, t: Tid, i: nat)
    requires i >= |observer| && Chain(observer, t, 2 * i + 1).Some?
    ensures exists m: nat :: 1 <= m <= i && Met(observer, t, m)
  {
    if Chain(observer, t, |observer| + 1).None? {
      ChainEnds(observer, t, |observer| + 1, 2 * i - |observer|);
    }
    var m := WalkersMeet(observer, t);
  }
}
