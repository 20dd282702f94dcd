/** The theory of the join graph: following `observer` links from a thread either ends
    or runs into a cycle, and two walkers at different speeds tell which. */
module ThreadJoin {
  import opened Wrappers
  import opened ThreadState
  import opened Finite
  import opened ThreadInvariant

  /** The chain of observers that starts at t never reaches a thread nobody waits for. */
  ghost predicate Endless(observer: map<Tid, Tid>, t: Tid) {
    forall k: nat :: Chain(observer, t, k).Some?
  }

  lemma {:induction false} ChainSplit(observer: map<Tid, Tid>, t: Tid, a: nat, b: nat)
    requires Chain(observer, t, a).Some?
    ensures Chain(observer, t, a + b) == Chain(observer, Chain(observer, t, a).value, b)
  {
    if b > 0 {
      ChainSplit(observer, t, a, b - 1);
    }
  }

  lemma {:induction false} ChainEnds(observer: map<Tid, Tid>, t: Tid, a: nat, b: nat)
    requires Chain(observer, t, a).None?
    ensures Chain(observer, t, a + b).None?
  {
    if b > 0 {
      ChainEnds(observer, t, a, b - 1);
    }
  }

  /** A chain that comes back to x after p links is at x after every multiple of p. */
  lemma {:induction false} ChainPeriod(observer: map<Tid, Tid>, x: Tid, p: nat, n: nat)
    requires Chain(observer, x, p) == Some(x)
    ensures Chain(observer, x, n * p) == Some(x)
  {
    if n > 0 {
      ChainPeriod(observer, x, p, n - 1);
      ChainSplit(observer, x, (n - 1) * p, p);
      assert (n - 1) * p + p == n * p;
    }
  }

  lemma CycleIsEndless(observer: map<Tid, Tid>, t: Tid, a: nat, p: nat)
    requires 1 <= p && Chain(observer, t, a).Some?
    requires Chain(observer, t, a + p) == Chain(observer, t, a)
    ensures Endless(observer, t)
  {
    var x := Chain(observer, t, a).value;
    ChainSplit(observer, t, a, p);
    forall k: nat ensures Chain(observer, t, k).Some? {
      if Chain(observer, t, k).None? {
        ChainPeriod(observer, x, p, k);
        ChainSplit(observer, t, a, k * p);
        assert k * p >= k;
        ChainEnds(observer, t, k, a + k * p - k);
      }
    }
  }

  /** A chain longer than the graph has a repeated thread among its first |observer| + 1. */
  lemma LongChainRepeats(observer: map<Tid, Tid>, t: Tid) returns (i: nat, j: nat)
    requires Chain(observer, t, |observer| + 1).Some?
    ensures i < j <= |observer|
    ensures Chain(observer, t, i).Some? && Chain(observer, t, i) == Chain(observer, t, j)
  {
    var n := |observer| + 1;
    forall k | 0 <= k < n ensures Chain(observer, t, k).Some? && Chain(observer, t, k).value in observer {
      if Chain(observer, t, k + 1).None? { ChainEnds(observer, t, k + 1, n - (k + 1)); }
    }
    var walk := seq(n, k requires 0 <= k < n => Chain(observer, t, k).value);
    i, j := Pigeonhole(walk, observer.Keys);
    assert walk[i] == walk[j];
  }

  /** After m rounds the slow and the fast walker are at the same thread. */
  ghost predicate Met(observer: map<Tid, Tid>, t: Tid, m: nat) {
    Chain(observer, t, m).Some? && Chain(observer, t, m) == Chain(observer, t, 2 * m)
  }

  /** The first positive multiple of p at or after i. */
  lemma MultipleAfter(i: nat, p: nat) returns (c: nat, m: nat)
    requires p >= 1
    ensures m == c * p && i <= m <= i + p && 1 <= m
  {
    c := if i == 0 then 1 else (i - 1) / p + 1;
    m := c * p;
    if i > 0 {
      assert (i - 1) / p * p + (i - 1) % p == i - 1;
      assert m == (i - 1) / p * p + p;
    }
  }

  /** If the chain is long, the slow and the fast walker have met within |observer| rounds. */
  lemma WalkersMeet(observer: map<Tid, Tid>, t: Tid) returns (m: nat)
    requires Chain(observer, t, |observer| + 1).Some?
    ensures 1 <= m <= |observer| && Met(observer, t, m)
  {
    var i, j := LongChainRepeats(observer, t);
    var p := j - i;
    var c: nat;
    c, m := MultipleAfter(i, p);
    var x := Chain(observer, t, i).value;
    ChainSplit(observer, t, i, p);
    CycleIsEndless(observer, t, i, p);
    assert Chain(observer, t, m).Some?;
    // position m is on the cycle, so going round it c more times changes nothing
    ChainSplit(observer, t, i, m - i);
    ChainPeriod(observer, x, p, c);
    ChainSplit(observer, x, m, m - i);
    ChainSplit(observer, t, i, m + (m - i));
  }

  /** The theorem behind detect_deadlock: the walk is endless exactly when the walkers meet. */
  lemma MeetIffEndless(observer: map<Tid, Tid>, t: Tid)
    ensures Endless(observer, t) <==> exists m: nat :: 1 <= m && Met(observer, t, m)
  {
    if Endless(observer, t) {
      var m := WalkersMeet(observer, t);
    }
    if m: nat :| 1 <= m && Met(observer, t, m) {
      CycleIsEndless(observer, t, m, m);
    }
  }

  // ---------------------------------------------------------------- one new edge

  /** Links of a thread that the chain does not pass do not matter. */
  lemma {:induction false} ChainAvoids(observer: map<Tid, Tid>, after: map<Tid, Tid>, u: Tid, v: Tid, t: Tid, k: nat)
    requires u !in observer && after == observer[u := v]
    requires forall j: nat :: j < k ==> Chain(after, t, j) != Some(u)
    ensures Chain(observer, t, k) == Chain(after, t, k)
  {
    if k > 0 {
      ChainAvoids(observer, after, u, v, t, k - 1);
      assert Chain(after, t, k - 1) != Some(u);
    }
  }

  /** The first visit of the chain to u. */
  lemma {:induction false} FirstVisit(observer: map<Tid, Tid>, t: Tid, u: Tid, k: nat) returns (f: nat)
    requires Chain(observer, t, k) == Some(u)
    ensures f <= k && Chain(observer, t, f) == Some(u)
    ensures forall j: nat :: j < f ==> Chain(observer, t, j) != Some(u)
  {
    if j: nat :| j < k && Chain(observer, t, j) == Some(u) {
      f := FirstVisit(observer, t, u, j);
    } else {
      f := k;
    }
  }

  /** The edge "v waits for u" closes a cycle exactly when u already waits for v,
      directly or through other joins. */
  lemma EdgeClosesCycle(observer: map<Tid, Tid>, u: Tid, v: Tid)
    requires !Cyclic(observer) && u !in observer
    ensures Cyclic(observer[u := v]) <==> exists k: nat :: Chain(observer, v, k) == Some(u)
  {
    var after := observer[u := v];
    if k: nat :| Chain(observer, v, k) == Some(u) {
      ChainOfSubmap(observer, after, v, k);
      assert Chain(after, v, k + 1) == Some(v);
    }
    if Cyclic(after) {
      var t: Tid, p: nat :| 1 <= p && Chain(after, t, p) == Some(t);
      if forall j: nat :: j < p ==> Chain(after, t, j) != Some(u) {
        ChainAvoids(observer, after, u, v, t, p);
      } else {
        var j: nat :| j < p && Chain(after, t, j) == Some(u);
        ChainSplit(after, t, j, 1);
        assert Chain(after, u, 0 + 1) == Some(v);
        assert Chain(after, t, j + 1) == Some(v);
        ChainSplit(after, t, j + 1, p - (j + 1));
        ChainSplit(after, t, p, j);
        ChainSplit(after, v, p - (j + 1), j);
        var f := FirstVisit(after, v, u, p - 1);
        ChainAvoids(observer, after, u, v, v, f);
      }
    }
  }

  /** Walking from the caller is enough: after the new edge, the walk from v is endless
      exactly when the graph has a cycle at all. */
  lemma EndlessIffEdgeClosesCycle(observer: map<Tid, Tid>, u: Tid, v: Tid)
    requires !Cyclic(observer) && u !in observer
    ensures Endless(observer[u := v], v) <==> Cyclic(observer[u := v])
  {
    var after := observer[u := v];
    if Cyclic(after) {
      EdgeClosesCycle(observer, u, v);
      var k: nat :| Chain(observer, v, k) == Some(u);
      ChainOfSubmap(observer, after, v, k);
      assert Chain(after, v, 0 + (k + 1)) == Chain(after, v, 0);
      CycleIsEndless(after, v, 0, k + 1);
    }
    if Endless(after, v) { EndlessHasCycle(after, v); }
  }

  lemma EndlessHasCycle(observer: map<Tid, Tid>, t: Tid)
    requires Endless(observer, t)
    ensures Cyclic(observer)
  {
    var i, j := LongChainRepeats(observer, t);
    ChainSplit(observer, t, i, j - i);
    var x := Chain(observer, t, i).value;
    assert Chain(observer, x, j - i) == Some(x);
  }

  /** For a live, unobserved, other target, thread_join returns -1 exactly when the target
      already waits for the caller, and then nothing has changed. */
  lemma JoinRefusesExactlyDeadlocks(s: State, id: Tid)
    requires Inv(s) && Refs(s)
    requires id != s.current && id in s.status && s.status[id] != Done && id !in s.observer
    ensures DoJoin(s, id).1 == -1 <==> exists k: nat :: Chain(s.observer, s.current, k) == Some(id)
    ensures DoJoin(s, id).1 == -1 ==> DoJoin(s, id).0 == s
    ensures DoJoin(s, id).1 != -1 ==> DoJoin(s, id).1 == 0 && DoJoin(s, id).0.observer == s.observer[id := s.current]
  {
    EdgeClosesCycle(s.observer, id, s.current);
    if !Cyclic(s.observer[id := s.current]) {
      JoinBlockKeeps(s, id);
      YieldKeeps(JoinBlock(s, id));
    }
  }

  /** No thread waits to join with two threads, in any state with the invariant. */
  lemma JoinGraphInjective(s: State, u: Tid, v: Tid)
    requires Inv(s) && u in s.observer && v in s.observer && s.observer[u] == s.observer[v]
    ensures u == v
  {
    assert At(s, s.observer[u], Joining(u));
    assert At(s, s.observer[u], Joining(v));
  }
}
