/** The sweep and the split on memory. */
module AllocSpace {
  import opened AllocBlocks
  import opened AllocHeap
  import opened AllocMarking

  /** A change within the header of block p leaves every payload alone. */
  lemma HeaderKeepsPayload(mem: Memory, bs: seq<Block>, m: Memory, m': Memory, p: nat)
    requires Tiles(bs, 0, |m|) && SamePayload(mem, bs, m) && p < |bs|
    requires SameOutside(m, m', bs[p].start, bs[p].start + BLOCK_SIZE)
    ensures SamePayload(mem, bs, m')
  {
    forall j, k | 0 <= j < |bs| && 0 <= k < bs[j].size ensures WordAt(m', bs[j], k) == WordAt(m, bs[j], k) {
      if j < p { TilesApart(bs, j, p, 0, |m|); }
      if p < j { TilesApart(bs, p, j, 0, |m|); }
    }
  }

  // ---------------------------------------------------------------- the sweep

  /** The state of the sweep of (mem, bs) at block k: what came before has become done. */
  ghost predicate Sweeping(base: Word, mem: Memory, bs: seq<Block>, k: nat, done: seq<Block>, m: Memory, cs: seq<Block>) {
    && k <= |bs| && Tiles(bs, 0, |m|) && SamePayload(mem, bs, m)
    && Rep(m, base, cs) && cs == done + bs[k..]
  }

  /** The free block at the end of done, if there is one, began at block p. */
  predicate Open(bs: seq<Block>, done: seq<Block>, open: bool, p: nat) {
    && (open <==> done != [] && !done[|done| - 1].alloc)
    && (open ==> p < |bs| && bs[p].start == done[|done| - 1].start)
  }

  /** What the sweep has come to before block k. */
  ghost predicate Swept(bs: seq<Block>, k: nat, done: seq<Block>, freed: nat, fins: seq<Word>) {
    k <= |bs| && done == Sweep(bs[..k]) && freed == Freed(bs[..k]) && fins == Finalized(bs[..k])
  }

  lemma SweptNext(bs: seq<Block>, k: nat, done: seq<Block>, freed: nat, fins: seq<Word>)
    requires Swept(bs, k, done, freed, fins) && k < |bs|
    ensures Swept(bs, k + 1, Append(done, Released(bs[k])), freed + Counted(done, bs[k]), fins + Called(bs[k]))
  {
    assert bs[..k + 1][..k] == bs[..k];
  }

  /** The whole state of the sweep's loop. */
  ghost predicate AtLoop(base: Word, mem: Memory, bs: seq<Block>, k: nat, done: seq<Block>, p: nat,
                         cur: Word, prev: Word, freed: nat, fins: seq<Word>, m: Memory, cs: seq<Block>) {
    && Sweeping(base, mem, bs, k, done, m, cs) && Swept(bs, k, done, freed, fins)
    && Open(bs, done, prev != 0, p) && (prev != 0 ==> prev == base + bs[p].start)
    && cur == if k < |bs| then base + bs[k].start else 0
  }

  lemma LoopStarts(base: Word, m: Memory, bs: seq<Block>)
    requires Rep(m, base, bs)
    ensures AtLoop(base, m, bs, 0, [], 0, base, 0, 0, [], m, bs)
  {
    assert bs[..0] == [] && bs[0..] == bs;
  }

  lemma LoopEnds(base: Word, mem: Memory, bs: seq<Block>, k: nat, done: seq<Block>, p: nat,
                 prev: Word, freed: nat, fins: seq<Word>, m: Memory, cs: seq<Block>)
    requires 0 < base && AtLoop(base, mem, bs, k, done, p, 0, prev, freed, fins, m, cs)
    ensures cs == Sweep(bs) && freed == Freed(bs) && fins == Finalized(bs)
    ensures Rep(m, base, cs) && SamePayload(mem, bs, m)
  {
    assert k == |bs| && bs[..k] == bs;
  }

  lemma AppendOnto(done: seq<Block>, r: Block, rest: seq<Block>)
    ensures Append(done, r) + rest ==
      if Merges(done, r) then Merged(done + [r] + rest, |done| - 1) else done + [r] + rest
  {
    if Merges(done, r) {
      var n, all := |done| - 1, done + [r] + rest;
      assert all[..n] == done[..n] && all[n + 2..] == rest && all[n] == done[n] && all[n + 1] == r;
    }
  }

  lemma CurrentBlock(bs: seq<Block>, k: nat, done: seq<Block>, r: Block)
    requires k < |bs|
    ensures var cs := done + bs[k..];
      |done| < |cs| && cs[|done|] == bs[k] && cs[|done| := r] == done + [r] + bs[k + 1..]
  {}

  lemma OpenNext(bs: seq<Block>, k: nat, done: seq<Block>, open: bool, p: nat)
    requires k < |bs| && Open(bs, done, open, p) && (bs[k].mark ==> bs[k].alloc)
    ensures Merges(done, Released(bs[k])) <==> open && !bs[k].mark
    ensures Open(bs, Append(done, Released(bs[k])), !bs[k].mark, if open then p else k)
  {}

  /** Releasing block k. */
  lemma SweepingRelease(base: Word, mem: Memory, bs: seq<Block>, k: nat, done: seq<Block>, m: Memory, cs: seq<Block>, m': Memory)
    requires Sweeping(base, mem, bs, k, done, m, cs) && k < |bs|
    requires SameOutside(m, m', bs[k].start, bs[k].start + BLOCK_SIZE)
    ensures |done| < |cs| && cs[|done|] == bs[k]
    ensures Rep(m', base, cs[|done| := Released(bs[k])]) ==>
      Sweeping(base, mem, bs, k + 1, done + [Released(bs[k])], m', cs[|done| := Released(bs[k])])
  {
    CurrentBlock(bs, k, done, Released(bs[k]));
    HeaderKeepsPayload(mem, bs, m, m', k);
  }

  /** Merging what was released into the free block before it. */
  lemma SweepingMerge(base: Word, mem: Memory, bs: seq<Block>, k: nat, done: seq<Block>, r: Block, m: Memory, cs: seq<Block>, m': Memory, p: nat)
    requires Sweeping(base, mem, bs, k, done + [r], m, cs) && Merges(done, r) && Open(bs, done, true, p)
    requires SameOutside(m, m', bs[p].start, bs[p].start + BLOCK_SIZE)
    ensures |done| < |cs| && cs[|done| - 1].start == bs[p].start && cs[|done|] == r
    ensures Rep(m', base, Merged(cs, |done| - 1)) ==>
      Sweeping(base, mem, bs, k, Append(done, r), m', Merged(cs, |done| - 1))
  {
    AppendOnto(done, r, bs[k..]);
    HeaderKeepsPayload(mem, bs, m, m', p);
  }

  // ---------------------------------------------------------------- a whole collection

  /** The words of the global data and of the stack, and the address of the heap variable. */
  datatype Roots = Roots(globals: seq<Word>, stack: seq<Word>, heapVar: Word)

  /** A program whose only root is the heap variable. */
  const BASE: Word := 1000
  const HEAP_VAR: Word := 500
  const WORLD := World(BASE, map[HEAP_VAR := BASE])
  const ROOTS := Roots([BASE], [], HEAP_VAR)

  /** The words that are followed; following a null word of the stack does nothing. */
  function RootWords(roots: Roots): seq<Word> {
    Scanned(roots.globals, roots.heapVar) + Scanned(roots.stack, 0)
  }

  /** The root words are all words of the stack but null, and all globals but those that hold the
      address of the heap variable. */
  lemma RootWordsAre(roots: Roots, w: Word)
    ensures w in RootWords(roots) <==> (w in roots.stack && w != 0) || (w in roots.globals && w != roots.heapVar)
  {
    ScannedAre(roots.globals, roots.heapVar, w);
    ScannedAre(roots.stack, 0, w);
  }

  lemma {:induction false} ScannedAre(words: seq<Word>, except: Word, w: Word)
    ensures w in Scanned(words, except) <==> w in words && w != except
  {
    if words != [] {
      ScannedAre(words[1..], except, w);
      assert words == [words[0]] + words[1..];
    }
  }

  predicate Clean(bs: seq<Block>) {
    forall i :: 0 <= i < |bs| ==> !bs[i].mark
  }

  /** Marking gets through. */
  ghost predicate Collectable(world: World, roots: Roots, mem: Memory, bs: seq<Block>) {
    var r := MarkRoots(world, mem, bs, RootWords(roots));
    r.Marked? && Scannable(world, mem, r.blocks)
  }

  /** Marking gets through and leaves the list as marked. */
  ghost predicate Collected(world: World, roots: Roots, mem: Memory, bs: seq<Block>, marked: seq<Block>) {
    && Collectable(world, roots, mem, bs)
    && HeapMarked(world, mem, MarkRoots(world, mem, bs, RootWords(roots)).blocks, marked)
  }

  lemma {:induction false} MarkRootsConcat(world: World, mem: Memory, bs: seq<Block>, a: seq<Word>, b: seq<Word>)
    ensures var r := MarkRoots(world, mem, bs, a);
      MarkRoots(world, mem, bs, a + b) == if r.Marked? then MarkRoots(world, mem, r.blocks, b) else Crashed
    decreases |a|
  {
    if a == [] {
      assert a + b == b;
    } else {
      assert (a + b)[1..] == a[1..] + b;
      match Search(world, mem, bs, a[0], ITERATIONS)
      case Found(i) => MarkRootsConcat(world, mem, Mark(bs, i), a[1..], b);
      case Missing =>
      case _ => MarkRootsConcat(world, mem, bs, a[1..], b);
    }
  }

  lemma SamePayloadOf(mem: Memory, bs: seq<Block>, cs: seq<Block>, m: Memory)
    requires MoreMarks(bs, cs)
    ensures SamePayload(mem, bs, m) <==> SamePayload(mem, cs, m)
  {
    forall j, k | 0 <= j < |bs| ensures WordAt(m, bs[j], k) == WordAt(m, cs[j], k) && WordAt(mem, bs[j], k) == WordAt(mem, cs[j], k)
      && bs[j].size == cs[j].size
    {}
  }

  lemma MoreMarksTrans(a: seq<Block>, b: seq<Block>, c: seq<Block>)
    requires MoreMarks(a, b) && MoreMarks(b, c)
    ensures MoreMarks(a, c)
  {}

  lemma HeapScanStarts(world: World, mem: Memory, bs: seq<Block>, m: Memory, rs: seq<Block>)
    requires Marks(world.base, mem, bs, m, rs)
    ensures Between(world, mem, rs, m, rs)
  {
    SamePayloadOf(mem, bs, rs, m);
  }

  lemma MarkedAreAllocated(bs: seq<Block>, cs: seq<Block>)
    requires Clean(bs) && MoreMarks(bs, cs)
    ensures MarksAreAllocated(cs)
  {}

  lemma SamePayloadTrans(bs: seq<Block>, a: Memory, b: Memory, c: Memory)
    requires SamePayload(a, bs, b) && SamePayload(b, bs, c)
    ensures SamePayload(a, bs, c)
  {}

  /** From before the marking to after the sweep no payload word has changed. */
  lemma CollectionKeepsPayload(bs: seq<Block>, marked: seq<Block>, mem: Memory, m: Memory, m': Memory)
    requires MoreMarks(bs, marked) && SamePayload(mem, marked, m) && SamePayload(m, marked, m')
    ensures SamePayload(mem, bs, m')
  {
    SamePayloadTrans(marked, mem, m, m');
    SamePayloadOf(mem, bs, marked, m');
  }
}
