/** memAllocate as a step of a program that also writes to its live blocks, and what every run
    of such steps keeps. */
module AllocRuns {
  import opened AllocBlocks
  import opened AllocHeap
  import opened AllocMarking
  import opened AllocSpace

  datatype Heap = Heap(mem: Memory, blocks: seq<Block>)

  ghost predicate Good(base: Word, h: Heap) {
    Rep(h.mem, base, h.blocks) && Clean(h.blocks)
  }

  // ---------------------------------------------------------------- one call

  /** A null pointer, a pointer, a pointer to a block that is too small, or no answer: the
      collector crashes, exits or does not come back. */
  datatype Reply = Null | Granted(ptr: int) | Overrun(ptr: int) | Lost

  ghost predicate Grants(base: Word, h: Heap, size: Word, fin: Word, h': Heap, ptr: int) {
    var i := FirstFit(h.blocks, Need(size));
    && i < |h.blocks| && size <= h.blocks[i].size && ptr == base + h.blocks[i].start + BLOCK_SIZE
    && h'.blocks == Carve(h.blocks, i, size, fin) && Rep(h'.mem, base, h'.blocks)
    && SameOutside(h.mem, h'.mem, h.blocks[i].start, h.blocks[i].End())
  }

  /** The first fit is too small.  The list is split all the same, with both headers written;
      the second one may lie past the heap, and then memory is not specified. */
  ghost predicate Overruns(base: Word, h: Heap, size: Word, fin: Word, h': Heap, ptr: int) {
    var i := FirstFit(h.blocks, Need(size));
    && i < |h.blocks| && h.blocks[i].size < size && ptr == base + h.blocks[i].start + BLOCK_SIZE
    && h'.blocks == Carve(h.blocks, i, size, fin)
    && (h.blocks[i].start + BLOCK_SIZE + size + 2 < |h.mem| ==> h'.mem == Overwritten(h.mem, base, h.blocks, i, size, fin))
  }

  /** A search, and the grant of what it finds. */
  ghost predicate Tries(base: Word, h: Heap, size: Word, fin: Word, h': Heap, reply: Reply) {
    var i := FirstFit(h.blocks, Need(size));
    if i == |h.blocks| then reply == Null && h' == h
    else if h.blocks[i].size < size then reply.Overrun? && Overruns(base, h, size, fin, h', reply.ptr)
    else reply.Granted? && Grants(base, h, size, fin, h', reply.ptr)
  }

  ghost predicate Collects(world: World, roots: Roots, h: Heap, marked: seq<Block>, h': Heap) {
    && Collected(world, roots, h.mem, h.blocks, marked) && MoreMarks(h.blocks, marked)
    && h'.blocks == Sweep(marked) && Rep(h'.mem, world.base, h'.blocks) && SamePayload(h.mem, h.blocks, h'.mem)
    && |h'.mem| == |h.mem|
  }

  ghost predicate Allocates(world: World, roots: Roots, h: Heap, size: Word, fin: Word, h': Heap, reply: Reply) {
    if FirstFit(h.blocks, Need(size)) < |h.blocks| then Tries(world.base, h, size, fin, h', reply)
    else if !Collectable(world, roots, h.mem, h.blocks) then reply == Lost
    else exists marked, h1 :: Collects(world, roots, h, marked, h1) && AfterSweep(world.base, marked, h1, size, fin, h', reply)
  }

  ghost predicate AfterSweep(base: Word, marked: seq<Block>, h1: Heap, size: Word, fin: Word, h': Heap, reply: Reply) {
    if AsInt(Freed(marked)) == 0 then reply == Null && h' == h1 else Tries(base, h1, size, fin, h', reply)
  }

  // ---------------------------------------------------------------- steps

  datatype Event =
    | Write(at: nat, w: Word)
    | Call(world: World, roots: Roots, size: Word, fin: Word, reply: Reply)

  /** The program writes only to payloads of allocated blocks, and goes on only after a call
      that came back with a good heap. */
  ghost predicate Step(base: Word, h: Heap, e: Event, h': Heap) {
    match e
    case Write(at, w) =>
      && at < |h.mem| && h' == h.(mem := h.mem[at := w])
      && exists i :: 0 <= i < |h.blocks| && InPayload(h.blocks[i], at) && h.blocks[i].alloc
    case Call(world, roots, size, fin, reply) =>
      && world.base == base && Apart(world, |h.mem|)
      && Allocates(world, roots, h, size, fin, h', reply) && (reply.Null? || reply.Granted?)
  }

  predicate InPayload(b: Block, at: nat) { b.start + BLOCK_SIZE <= at < b.End() }

  // ---------------------------------------------------------------- what a grant does

  lemma CarveIsClean(bs: seq<Block>, i: nat, size: Word, fin: Word)
    requires Clean(bs) && i < |bs|
    ensures Clean(Carve(bs, i, size, fin))
  {}

  /** The new block has room for the request, and less than a header and a word too much: what is
      more becomes a free block right behind it.  What it is made of was free. */
  lemma GrantIsRoomy(base: Word, h: Heap, size: Word, fin: Word, h': Heap, ptr: int)
    requires Rep(h.mem, base, h.blocks) && Grants(base, h, size, fin, h', ptr)
    ensures var i := FirstFit(h.blocks, Need(size));
      && i < |h.blocks| && i < |h'.blocks| && !h.blocks[i].alloc
      && var old_, b := h.blocks[i], h'.blocks[i];
         && b.alloc && b.fin == fin && size <= b.size < size + 4 && b.start == old_.start && ptr == base + b.start + 3
         && if old_.size < size + 4 then b.size == old_.size
            else b.size == size && i + 1 < |h'.blocks|
                 && h'.blocks[i + 1] == Block(b.start + 3 + size, old_.size - size - 3, false, false, 0)
  {
    var i := FirstFit(h.blocks, Need(size));
    RepBounds(h.mem, base, h.blocks, i);
    PiecesOf(base, h.blocks, i, size, fin);
  }

  /** An overrun breaks the heap: the list does not tile it any more, and the block that is
      granted reaches over the next block's header, or past the end of the heap. */
  lemma OverrunBreaks(base: Word, h: Heap, size: Word, fin: Word, h': Heap, ptr: int)
    requires Rep(h.mem, base, h.blocks) && Overruns(base, h, size, fin, h', ptr)
    ensures var i := FirstFit(h.blocks, Need(size));
      && i < |h.blocks| && !Tiles(h'.blocks, 0, |h.mem|)
      && (if i + 1 < |h.blocks| then base + h.blocks[i + 1].start else base + |h.mem|) < ptr + size
  {
    var i := FirstFit(h.blocks, Need(size));
    CarveTilesIffBigEnough(h.blocks, i, size, fin, |h.mem|);
    TilesNext(h.blocks, i, 0, |h.mem|);
  }

  lemma OtherPayload(mem: Memory, mem': Memory, bs: seq<Block>, i: nat, j: nat, k: nat)
    requires Tiles(bs, 0, |mem|) && i < |bs| && j < |bs| && i != j && k < bs[j].size
    requires SameOutside(mem, mem', bs[i].start, bs[i].End())
    ensures WordAt(mem', bs[j], k) == WordAt(mem, bs[j], k)
  {
    if j < i { TilesApart(bs, j, i, 0, |mem|); } else { TilesApart(bs, i, j, 0, |mem|); }
  }

  /** Block b is in the heap, allocated, with the words ws. */
  ghost predicate Holds(h: Heap, b: Block, ws: seq<Word>) {
    b in h.blocks && b.alloc && |ws| == b.size && forall k :: 0 <= k < |ws| ==> WordAt(h.mem, b, k) == ws[k]
  }

  lemma GrantKeepsBlocks(base: Word, h: Heap, size: Word, fin: Word, h': Heap, ptr: int, b: Block, ws: seq<Word>)
    requires Rep(h.mem, base, h.blocks) && Grants(base, h, size, fin, h', ptr) && Holds(h, b, ws)
    ensures Holds(h', b, ws)
  {
    var i := FirstFit(h.blocks, Need(size));
    var j :| 0 <= j < |h.blocks| && h.blocks[j] == b;
    SplicedMember(h.blocks, i, Pieces(h.blocks[i], size, fin), j);
    forall k | 0 <= k < |ws| ensures WordAt(h'.mem, b, k) == ws[k] {
      OtherPayload(h.mem, h'.mem, h.blocks, i, j, k);
    }
  }

  lemma SplicedMember(bs: seq<Block>, i: nat, ps: seq<Block>, j: nat)
    requires i < |bs| && j < |bs| && i != j
    ensures bs[j] in bs[..i] + ps + bs[i + 1..]
  {
    if j < i { assert bs[j] in bs[..i]; } else { assert bs[i + 1..][j - i - 1] == bs[j]; }
  }

  // ---------------------------------------------------------------- what a collection does

  lemma {:induction false} SurvivorIn(bs: seq<Block>, i: nat)
    requires i < |bs| && bs[i].mark
    ensures bs[i].(mark := false) in Survivors(bs)
  {
    if i < |bs| - 1 { SurvivorIn(bs[..|bs| - 1], i); }
  }

  lemma {:induction false} AllocatedIn(bs: seq<Block>, b: Block)
    requires b in Allocated(bs)
    ensures b in bs && b.alloc
  {
    var n := |bs| - 1;
    if b in Allocated(bs[..n]) { AllocatedIn(bs[..n], b); }
  }

  /** The program can get to block b from a word of its stack or its global data, other than one
      that holds the address of the heap variable. */
  ghost predicate Reachable(world: World, roots: Roots, h: Heap, b: Block) {
    exists r, path :: (r in roots.stack || (r in roots.globals && r != roots.heapVar))
      && Path(world, h.mem, h.blocks, [r], path)
      && path[|path| - 1] < |h.blocks| && h.blocks[path[|path| - 1]] == b
  }

  lemma ReachableSurvives(world: World, roots: Roots, h: Heap, marked: seq<Block>, b: Block)
    requires Apart(world, |h.mem|) && Clean(h.blocks) && Collected(world, roots, h.mem, h.blocks, marked)
    requires MoreMarks(h.blocks, marked) && b.alloc && Reachable(world, roots, h, b)
    ensures b in Sweep(marked)
  {
    var r, path :| (r in roots.stack || (r in roots.globals && r != roots.heapVar))
      && Path(world, h.mem, h.blocks, [r], path)
      && path[|path| - 1] < |h.blocks| && h.blocks[path[|path| - 1]] == b;
    RootWordsAre(roots, r);
    assert Direct(world, h.mem, h.blocks, r, path[0]);
    assert Path(world, h.mem, h.blocks, RootWords(roots), path);
    ReachableIsMarked(world, h.mem, h.blocks, RootWords(roots), marked, path);
    var i := path[|path| - 1];
    assert marked[i].(mark := false) == b;
    SurvivorIn(marked, i);
    MarkedAreAllocated(h.blocks, marked);
    SweepKeepsExactlyTheMarked(marked);
    AllocatedIn(Sweep(marked), b);
  }

  lemma CollectionKeepsBlocks(world: World, roots: Roots, h: Heap, marked: seq<Block>, h1: Heap, b: Block, ws: seq<Word>)
    requires Apart(world, |h.mem|) && Good(world.base, h) && Collects(world, roots, h, marked, h1)
    requires Holds(h, b, ws) && Reachable(world, roots, h, b)
    ensures Holds(h1, b, ws)
  {
    ReachableSurvives(world, roots, h, marked, b);
    var j :| 0 <= j < |h.blocks| && h.blocks[j] == b;
    assert forall k :: 0 <= k < |ws| ==> WordAt(h1.mem, h.blocks[j], k) == WordAt(h.mem, h.blocks[j], k);
  }

  /** On a heap of at most 2^32 words and a header's payload, a call that gives up leaves no block
      that would do. */
  lemma NullMeansNoFit(world: World, roots: Roots, h: Heap, size: Word, fin: Word, h': Heap)
    requires Good(world.base, h) && |h.mem| < TWO32 + BLOCK_SIZE && Allocates(world, roots, h, size, fin, h', Null)
    ensures FirstFit(h'.blocks, Need(size)) == |h'.blocks|
  {
    if FirstFit(h.blocks, Need(size)) == |h.blocks| {
      var marked, h1 :| Collects(world, roots, h, marked, h1) && AfterSweep(world.base, marked, h1, size, fin, h', Null);
      NullAfterSweep(world, roots, h, marked, h1, size, fin, h', 0);
    }
  }

  lemma NullAfterSweep(world: World, roots: Roots, h: Heap, marked: seq<Block>, h1: Heap, size: Word, fin: Word, h': Heap, least: nat)
    requires Good(world.base, h) && FirstFit(h.blocks, Need(size)) == |h.blocks|
    requires Collects(world, roots, h, marked, h1) && AfterSweep(world.base, marked, h1, size, fin, h', Null)
    requires |h.mem| < TWO32 + BLOCK_SIZE || (FirstStays(marked, least) && |h.mem| < TWO32 + 2 * BLOCK_SIZE + least)
    ensures FirstFit(h'.blocks, Need(size)) == |h'.blocks|
  {
    if AsInt(Freed(marked)) == 0 {
      NoFitSame(h.blocks, marked, Need(size));
      MarkedAreAllocated(h.blocks, marked);
      TilesMarked(h.blocks, marked, 0, |h.mem|);
      ZeroCountMeansNoFit(marked, Need(size), |h.mem|, least);
    }
  }

  lemma NoFitSame(bs: seq<Block>, cs: seq<Block>, need: Word)
    requires MoreMarks(bs, cs) && FirstFit(bs, need) == |bs|
    ensures FirstFit(cs, need) == |cs|
  {
    var i := FirstFit(cs, need);
    assert forall j :: 0 <= j < |bs| ==> bs[j].alloc || bs[j].size < need;
    assert forall j :: 0 <= j < |cs| ==> cs[j].alloc || cs[j].size < need;
  }

  // ---------------------------------------------------------------- every step

  lemma TriesKeepsGood(base: Word, h: Heap, size: Word, fin: Word, h': Heap, reply: Reply)
    requires Good(base, h) && Tries(base, h, size, fin, h', reply) && !reply.Overrun?
    ensures Good(base, h') && |h'.mem| == |h.mem|
  {
    if reply.Granted? { CarveIsClean(h.blocks, FirstFit(h.blocks, Need(size)), size, fin); }
  }

  lemma CollectsKeepsGood(world: World, roots: Roots, h: Heap, marked: seq<Block>, h1: Heap)
    requires Good(world.base, h) && Collects(world, roots, h, marked, h1)
    ensures Good(world.base, h1)
  {
    forall i | 0 <= i < |h1.blocks| ensures !h1.blocks[i].mark { SweepClearsMarks(marked, i); }
  }

  lemma WriteKeepsRep(base: Word, h: Heap, i: nat, at: nat, w: Word)
    requires Rep(h.mem, base, h.blocks) && i < |h.blocks| && InPayload(h.blocks[i], at) && at < |h.mem|
    ensures Rep(h.mem[at := w], base, h.blocks)
  {
    var mem' := h.mem[at := w];
    forall j | 0 <= j < |h.blocks| ensures HeaderAt(mem', h.blocks[j], Next(base, h.blocks, j)) {
      assert HeaderAt(h.mem, h.blocks[j], Next(base, h.blocks, j));
      if j != i { OtherHeader(h.mem, mem', h.blocks, i, j, Next(base, h.blocks, j)); }
    }
  }

  /** Every step keeps the heap tiled by blocks, with their headers and without marks. */
  lemma StepKeepsGood(base: Word, h: Heap, e: Event, h': Heap)
    requires Good(base, h) && Step(base, h, e, h')
    ensures Good(base, h') && |h'.mem| == |h.mem|
  {
    match e
    case Write(at, w) =>
      var i :| 0 <= i < |h.blocks| && InPayload(h.blocks[i], at) && h.blocks[i].alloc;
      WriteKeepsRep(base, h, i, at, w);
    case Call(world, roots, size, fin, reply) =>
      if FirstFit(h.blocks, Need(size)) < |h.blocks| {
        TriesKeepsGood(base, h, size, fin, h', reply);
      } else {
        var marked, h1 :| Collects(world, roots, h, marked, h1) && AfterSweep(base, marked, h1, size, fin, h', reply);
        CollectsKeepsGood(world, roots, h, marked, h1);
        if AsInt(Freed(marked)) != 0 { TriesKeepsGood(base, h1, size, fin, h', reply); }
      }
  }

  /** Unless the step has to collect, b is safe; then it has to be reachable. */
  ghost predicate Safe(h: Heap, e: Event, b: Block) {
    e.Call? && FirstFit(h.blocks, Need(e.size)) == |h.blocks| ==> Reachable(e.world, e.roots, h, b)
  }

  /** The words of block b after the program's step. */
  function Update(b: Block, ws: seq<Word>, e: Event): seq<Word> {
    match e
    case Write(at, w) =>
      if b.start + BLOCK_SIZE <= at < b.start + BLOCK_SIZE + |ws| then ws[at - b.start - BLOCK_SIZE := w] else ws
    case Call(_, _, _, _, _) => ws
  }

  lemma CallKeepsBlock(base: Word, h: Heap, e: Event, h': Heap, b: Block, ws: seq<Word>)
    requires Good(base, h) && Step(base, h, e, h') && e.Call? && Holds(h, b, ws) && Safe(h, e, b)
    ensures Holds(h', b, ws)
  {
    if FirstFit(h.blocks, Need(e.size)) < |h.blocks| {
      GrantKeepsBlocks(base, h, e.size, e.fin, h', e.reply.ptr, b, ws);
    } else {
      var marked, h1 :| Collects(e.world, e.roots, h, marked, h1) && AfterSweep(base, marked, h1, e.size, e.fin, h', e.reply);
      CollectionKeepsBlocks(e.world, e.roots, h, marked, h1, b, ws);
      SweptCallKeepsBlock(base, marked, h1, e.size, e.fin, h', e.reply, b, ws);
    }
  }

  lemma SweptCallKeepsBlock(base: Word, marked: seq<Block>, h1: Heap, size: Word, fin: Word, h': Heap, reply: Reply, b: Block, ws: seq<Word>)
    requires Rep(h1.mem, base, h1.blocks) && AfterSweep(base, marked, h1, size, fin, h', reply)
    requires Holds(h1, b, ws) && (reply.Null? || reply.Granted?)
    ensures Holds(h', b, ws)
  {
    if AsInt(Freed(marked)) != 0 && reply.Granted? {
      GrantKeepsBlocks(base, h1, size, fin, h', reply.ptr, b, ws);
    }
  }

  /** The allocator changes no word of a block that stays. */
  lemma StepKeepsBlock(base: Word, h: Heap, e: Event, h': Heap, b: Block, ws: seq<Word>)
    requires Good(base, h) && Step(base, h, e, h') && Holds(h, b, ws) && Safe(h, e, b)
    ensures Holds(h', b, Update(b, ws, e))
  {
    if e.Call? {
      CallKeepsBlock(base, h, e, h', b, ws);
    } else {
      var j :| 0 <= j < |h.blocks| && h.blocks[j] == b;
      RepBounds(h.mem, base, h.blocks, j);
    }
  }

  // ---------------------------------------------------------------- every run

  ghost predicate Run(base: Word, hs: seq<Heap>, es: seq<Event>) {
    |hs| == |es| + 1 && forall k, l :: 0 <= k < |es| && l == k + 1 ==> Step(base, hs[k], es[k], hs[l])
  }

  lemma {:induction false} RunKeepsGood(base: Word, hs: seq<Heap>, es: seq<Event>, k: nat)
    requires Run(base, hs, es) && Good(base, hs[0]) && k < |hs|
    ensures Good(base, hs[k]) && |hs[k].mem| == |hs[0].mem|
  {
    if k > 0 {
      RunKeepsGood(base, hs, es, k - 1);
      StepKeepsGood(base, hs[k - 1], es[k - 1], hs[k]);
    }
  }

  function Updates(b: Block, ws: seq<Word>, es: seq<Event>): seq<Word> {
    if es == [] then ws else Update(b, Updates(b, ws, es[..|es| - 1]), es[|es| - 1])
  }

  /** Over any run a block that is reachable whenever the allocator collects stays where it is,
      and its words are what the program last wrote there. */
  lemma {:induction false} RunKeepsBlock(base: Word, hs: seq<Heap>, es: seq<Event>, b: Block, ws: seq<Word>, n: nat)
    requires Run(base, hs, es) && Good(base, hs[0]) && Holds(hs[0], b, ws) && n <= |es|
    requires forall k :: 0 <= k < n ==> Safe(hs[k], es[k], b)
    ensures Holds(hs[n], b, Updates(b, ws, es[..n]))
  {
    if n > 0 {
      RunKeepsBlock(base, hs, es, b, ws, n - 1);
      RunKeepsGood(base, hs, es, n - 1);
      assert es[..n][..n - 1] == es[..n - 1];
      StepKeepsBlock(base, hs[n - 1], es[n - 1], hs[n], b, Updates(b, ws, es[..n - 1]));
    }
  }

  /** In every state of every run the payloads of two blocks are apart and inside the heap. */
  lemma PayloadsApart(base: Word, hs: seq<Heap>, es: seq<Event>, n: nat, i: nat, j: nat)
    requires Run(base, hs, es) && Good(base, hs[0]) && n < |hs| && i < j < |hs[n].blocks|
    ensures hs[n].blocks[i].End() <= hs[n].blocks[j].start && hs[n].blocks[j].End() <= |hs[0].mem|
  {
    RunKeepsGood(base, hs, es, n);
    TilesApart(hs[n].blocks, i, j, 0, |hs[n].mem|);
  }
}
