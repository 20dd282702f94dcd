/** The sweep's count is returned as an int.  When does a call that gives up on a zero count
    tell the truth?  The heap variable is itself among the roots, and that decides it. */
module AllocCount {
  import opened AllocBlocks
  import opened AllocHeap
  import opened AllocMarking
  import opened AllocSpace
  import opened AllocRuns

  // ---------------------------------------------------------------- the first block

  /** The heap variable is a global word that holds the heap's address, so the first block, once
      allocated, is marked by every collection and never freed. */
  lemma FirstBlockStays(world: World, roots: Roots, mem: Memory, bs: seq<Block>, marked: seq<Block>)
    requires Apart(world, |mem|) && |mem| > 0 && Tiles(bs, 0, |mem|) && Clean(bs) && bs[0].alloc
    requires world.base in RootWords(roots) && Collected(world, roots, mem, bs, marked) && MoreMarks(bs, marked)
    ensures marked[0].mark && Sweep(marked) != [] && Sweep(marked)[0] == bs[0]
  {
    RootsAreMarked(world, mem, bs, RootWords(roots), world.base);
    LocateMeaning(bs, |mem|, 0, 0);
    MarkedAreAllocated(bs, marked);
    SweepFirst(marked);
  }

  /** The first block has been allocated, for a request of at least a header's size, or it is
      the only block. */
  predicate FirstHeld(bs: seq<Block>) {
    bs != [] && ((bs[0].alloc && bs[0].size >= BLOCK_SIZE) || (|bs| == 1 && !bs[0].alloc))
  }

  lemma TriesKeepsFirst(base: Word, h: Heap, size: Word, fin: Word, h': Heap, reply: Reply)
    requires FirstHeld(h.blocks) && Rep(h.mem, base, h.blocks)
    requires Tries(base, h, size, fin, h', reply) && !reply.Overrun?
    ensures FirstHeld(h'.blocks)
  {
    if size < BLOCK_SIZE { SmallRequestsNeverFit(h.blocks, size, |h.mem|); }
    if reply.Granted? {
      GrantIsRoomy(base, h, size, fin, h', reply.ptr);
      assert FirstFit(h.blocks, Need(size)) > 0 ==> h'.blocks[0] == h.blocks[0];
    }
  }

  lemma CollectsKeepsFirst(world: World, roots: Roots, h: Heap, marked: seq<Block>, h1: Heap)
    requires Apart(world, |h.mem|) && Good(world.base, h) && FirstHeld(h.blocks) && world.base in RootWords(roots)
    requires Collects(world, roots, h, marked, h1)
    ensures FirstHeld(h1.blocks) && FirstStays(marked, BLOCK_SIZE)
  {
    if h.blocks[0].alloc {
      FirstBlockStays(world, roots, h.mem, h.blocks, marked);
    } else {
      assert marked == h.blocks && marked[..0] == [];
      assert Sweep(marked) == Append(Sweep(marked[..0]), Released(marked[0]));
    }
  }

  // ---------------------------------------------------------------- honest runs

  /** The step is no call, or a call with the heap variable among its roots. */
  predicate HeapIsRoot(base: Word, e: Event) {
    e.Call? ==> base in RootWords(e.roots)
  }

  lemma StepKeepsFirst(base: Word, h: Heap, e: Event, h': Heap)
    requires Good(base, h) && FirstHeld(h.blocks) && Step(base, h, e, h') && HeapIsRoot(base, e)
    ensures FirstHeld(h'.blocks)
  {
    if e.Call? {
      if FirstFit(h.blocks, Need(e.size)) < |h.blocks| {
        TriesKeepsFirst(base, h, e.size, e.fin, h', e.reply);
      } else {
        var marked, h1 :| Collects(e.world, e.roots, h, marked, h1) && AfterSweep(base, marked, h1, e.size, e.fin, h', e.reply);
        CollectsKeepsFirst(e.world, e.roots, h, marked, h1);
        if AsInt(Freed(marked)) != 0 { TriesKeepsFirst(base, h1, e.size, e.fin, h', e.reply); }
      }
    }
  }

  lemma {:induction false} RunKeepsFirst(base: Word, hs: seq<Heap>, es: seq<Event>, k: nat)
    requires Run(base, hs, es) && Good(base, hs[0]) && FirstHeld(hs[0].blocks) && k < |hs|
    requires forall e :: e in es ==> HeapIsRoot(base, e)
    ensures FirstHeld(hs[k].blocks)
  {
    if k > 0 {
      RunKeepsFirst(base, hs, es, k - 1);
      RunKeepsGood(base, hs, es, k - 1);
      StepKeepsFirst(base, hs[k - 1], es[k - 1], hs[k]);
    }
  }

  lemma NullIsTrue(h: Heap, e: Event, h': Heap)
    requires e.Call? && e.reply == Null && Good(e.world.base, h) && FirstHeld(h.blocks)
    requires Step(e.world.base, h, e, h') && HeapIsRoot(e.world.base, e) && |h.mem| < TWO32 + 3 * BLOCK_SIZE
    ensures FirstFit(h'.blocks, Need(e.size)) == |h'.blocks|
  {
    if FirstFit(h.blocks, Need(e.size)) == |h.blocks| {
      var marked, h1 :| Collects(e.world, e.roots, h, marked, h1)
        && AfterSweep(e.world.base, marked, h1, e.size, e.fin, h', Null);
      CollectsKeepsFirst(e.world, e.roots, h, marked, h1);
      NullAfterSweep(e.world, e.roots, h, marked, h1, e.size, e.fin, h', BLOCK_SIZE);
    }
  }

  /** From a fresh heap of fewer than 2^32 words and three headers' worth, no run ever gives up
      while a block would do. */
  lemma RunIsHonest(base: Word, hs: seq<Heap>, es: seq<Event>, k: nat)
    requires Run(base, hs, es) && Good(base, hs[0]) && FirstHeld(hs[0].blocks) && |hs[0].mem| < TWO32 + 3 * BLOCK_SIZE
    requires forall e :: e in es ==> HeapIsRoot(base, e)
    requires k < |es| && es[k].Call? && es[k].reply == Null
    ensures FirstFit(hs[k + 1].blocks, Need(es[k].size)) == |hs[k + 1].blocks|
  {
    RunKeepsFirst(base, hs, es, k);
    RunKeepsGood(base, hs, es, k);
    NullIsTrue(hs[k], es[k], hs[k + 1]);
  }

  // ---------------------------------------------------------------- a run that is not

  /** A fresh heap. */
  function Fresh(hi: nat): Heap
    requires TWO32 + 3 * BLOCK_SIZE <= hi < TWO62 / 2 - BASE
  {
    var b := Block(0, hi - BLOCK_SIZE, false, false, 0);
    Heap(seq(hi, _ => 0)[0 := Info(b)], [b])
  }

  /** The heap with a first block that leaves 2^32 words to the second, all words null. */
  function Two(hi: nat, alloc: bool): Heap
    requires TWO32 + 3 * BLOCK_SIZE <= hi < TWO62 / 2 - BASE
  {
    var bs := TwoBlocks(hi, alloc);
    Heap(seq(hi, _ => 0)[0 := Info(bs[0])][1 := BASE + bs[1].start][bs[1].start := Info(bs[1])], bs)
  }

  lemma FreshIsGood(hi: nat)
    requires TWO32 + 3 * BLOCK_SIZE <= hi < TWO62 / 2 - BASE
    ensures Good(BASE, Fresh(hi)) && FirstHeld(Fresh(hi).blocks)
  {
    InfoIs(Fresh(hi).blocks[0]);
    OneBlock(Fresh(hi).mem, BASE, Fresh(hi).blocks[0]);
  }

  lemma TwoIsGood(hi: nat, alloc: bool)
    requires TWO32 + 3 * BLOCK_SIZE <= hi < TWO62 / 2 - BASE
    ensures Good(BASE, Two(hi, alloc)) && FirstHeld(Two(hi, alloc).blocks)
  {
    var h := Two(hi, alloc);
    var bs := h.blocks;
    assert bs[1..] == [bs[1]] && [bs[1]][1..] == [];
    assert Tiles([bs[1]], bs[1].start, hi) && Tiles(bs, 0, hi);
    forall i | 0 <= i < 2 ensures HeaderAt(h.mem, bs[i], Next(BASE, bs, i)) {}
  }

  lemma TwoWords(hi: nat, alloc: bool, j: nat, k: nat)
    requires TWO32 + 3 * BLOCK_SIZE <= hi < TWO62 / 2 - BASE && j < 2 && k < Two(hi, alloc).blocks[j].size
    ensures WordAt(Two(hi, alloc).mem, Two(hi, alloc).blocks[j], k) == 0
  {}

  /** The first call: the first block. */
  lemma FirstCall(hi: nat)
    requires TWO32 + 3 * BLOCK_SIZE <= hi < TWO62 / 2 - BASE
    ensures Grants(BASE, Fresh(hi), hi - TWO32 - 2 * BLOCK_SIZE, 0, Two(hi, false), BASE + BLOCK_SIZE)
  {
    var h, size: Word := Fresh(hi), hi - TWO32 - 2 * BLOCK_SIZE;
    TwoIsGood(hi, false);
    assert FirstFit(h.blocks, Need(size)) == 0;
    PiecesOf(BASE, h.blocks, 0, size, 0);
    assert Carve(h.blocks, 0, size, 0) == TwoBlocks(hi, false);
  }

  /** The second call: all 2^32 words of the second. */
  lemma SecondCall(hi: nat)
    requires TWO32 + 3 * BLOCK_SIZE <= hi < TWO62 / 2 - BASE
    ensures Grants(BASE, Two(hi, false), TWO32, 0, Two(hi, true), BASE + hi - TWO32)
  {
    var h, h' := Two(hi, false), Two(hi, true);
    TwoIsGood(hi, true);
    assert h.blocks[1..] == [h.blocks[1]];
    assert FirstFit(h.blocks[1..], Need(TWO32)) == 0;
    PiecesOf(BASE, h.blocks, 1, TWO32, 0);
    assert Carve(h.blocks, 1, TWO32, 0) == TwoBlocks(hi, true);
  }

  lemma TwoRoots(hi: nat)
    requires TWO32 + 3 * BLOCK_SIZE <= hi < TWO62 / 2 - BASE
    ensures RootWords(ROOTS) == [BASE] && Apart(WORLD, hi)
    ensures MarkRoots(WORLD, Two(hi, true).mem, Two(hi, true).blocks, [BASE]) == Marked(Mark(Two(hi, true).blocks, 0))
  {
    var h := Two(hi, true);
    assert [BASE][1..] == [] && Scanned([BASE], HEAP_VAR) == [BASE];
    assert Seek(h.blocks, 0) == 0;
    assert Search(WORLD, h.mem, h.blocks, BASE, ITERATIONS) == Found(0);
  }

  /** The collection: the second block is not in use. */
  lemma TwoCollected(hi: nat)
    requires TWO32 + 3 * BLOCK_SIZE <= hi < TWO62 / 2 - BASE
    ensures Collected(WORLD, ROOTS, Two(hi, true).mem, Two(hi, true).blocks, Mark(Two(hi, true).blocks, 0))
  {
    var h := Two(hi, true);
    var rs := Mark(h.blocks, 0);
    TwoRoots(hi);
    forall j, k | 0 <= j < |rs| && 0 <= k < rs[j].size ensures WordAt(h.mem, rs[j], k) == 0 {
      TwoWords(hi, true, j, k);
    }
    NullChain(WORLD, h.mem, rs, 0, -1);
    NullChain(WORLD, h.mem, rs, 0, 1);
    assert Scannable(WORLD, h.mem, rs) && !Referenced(WORLD, h.mem, rs, 1);
  }

  /** The third call gives up, although it has freed 2^32 words. */
  lemma ThirdCall(hi: nat)
    requires TWO32 + 3 * BLOCK_SIZE <= hi < TWO62 / 2 - BASE
    ensures Allocates(WORLD, ROOTS, Two(hi, true), 100, 0, Two(hi, false), Null)
    ensures FirstFit(Two(hi, false).blocks, Need(100)) == 1
  {
    var h, h1 := Two(hi, true), Two(hi, false);
    var marked := Mark(h.blocks, 0);
    LargeCountIsLost(hi, BLOCK_SIZE);
    assert h.blocks == TwoBlocks(hi, true) && FirstFit(h.blocks, Need(100)) == 2 by {
      assert h.blocks[1..] == [h.blocks[1]];
      assert FirstFit([h.blocks[1]], Need(100)) == 1;
    }
    TwoCollected(hi);
    TwoIsGood(hi, false);
    assert Collects(WORLD, ROOTS, h, marked, h1);
    assert AfterSweep(BASE, marked, h1, 100, 0, h1, Null);
  }

  function Calls(hi: nat): seq<Event>
    requires TWO32 + 3 * BLOCK_SIZE <= hi < TWO62 / 2 - BASE
  {
    [Call(WORLD, ROOTS, hi - TWO32 - 2 * BLOCK_SIZE, 0, Granted(BASE + BLOCK_SIZE)),
     Call(WORLD, ROOTS, TWO32, 0, Granted(BASE + hi - TWO32)),
     Call(WORLD, ROOTS, 100, 0, Null)]
  }

  function Heaps(hi: nat): seq<Heap>
    requires TWO32 + 3 * BLOCK_SIZE <= hi < TWO62 / 2 - BASE
  {
    [Fresh(hi), Two(hi, false), Two(hi, true), Two(hi, false)]
  }

  lemma CallsAreSteps(hi: nat, k: nat)
    requires TWO32 + 3 * BLOCK_SIZE <= hi < TWO62 / 2 - BASE && k < 3
    ensures Step(BASE, Heaps(hi)[k], Calls(hi)[k], Heaps(hi)[k + 1])
  {
    TwoRoots(hi);
    if k == 0 { FirstCall(hi); } else if k == 1 { SecondCall(hi); } else { ThirdCall(hi); }
  }

  /** On every fresh heap that is larger there is a run of three calls whose last one gives up
      while a block would do.  So the heap's size is the exact condition. */
  lemma LargeRunIsNotHonest(hi: nat)
    requires TWO32 + 3 * BLOCK_SIZE <= hi < TWO62 / 2 - BASE
    ensures var hs, es := Heaps(hi), Calls(hi);
      && Run(BASE, hs, es) && |hs[0].mem| == hi && Good(BASE, hs[0]) && FirstHeld(hs[0].blocks)
      && (forall e :: e in es ==> HeapIsRoot(BASE, e))
      && es[2].Call? && es[2].reply == Null && FirstFit(hs[3].blocks, Need(es[2].size)) < |hs[3].blocks|
  {
    FreshIsGood(hi);
    TwoRoots(hi);
    ThirdCall(hi);
    forall k, l | 0 <= k < 3 && l == k + 1 ensures Step(BASE, Heaps(hi)[k], Calls(hi)[k], Heaps(hi)[l]) {
      CallsAreSteps(hi, k);
    }
  }
}
