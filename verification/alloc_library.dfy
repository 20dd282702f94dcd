/** The allocator as it runs: the heap is an array whose header words the calls update in
    place.  The list of blocks is a ghost; the code only follows next fields. */
module AllocLibrary {
  import opened AllocBlocks
  import opened AllocHeap
  import opened AllocMarking
  import opened AllocSpace
  import opened AllocRuns

  /** What visiting one word came to. */
  datatype Visit = NewMark | NoMark | NoBlock | NoEnd

  function Outcome(r: Chase): Visit {
    match r
    case Found(_) => NewMark
    case Nothing => NoMark
    case Missing => NoBlock
    case Exhausted => NoEnd
  }

  class Allocator {
    var initialized: int                // 0: no, 1: yes, -1: failed
    var heap: array<Word>
    var base: Word
    var finalized: seq<Word>            // the finalizers called so far
    ghost var blocks: seq<Block>

    ghost predicate Valid()
      reads this, heap
    {
      Rep(heap[..], base, blocks)
    }

    ghost function View(): Heap
      reads this, heap
    {
      Heap(heap[..], blocks)
    }

    /** The heap as the collector reads it, beside the words outside it. */
    ghost predicate Sees(world: World)
      reads this, heap
    {
      world.base == base && Apart(world, heap.Length)
    }

    /** The address of block i, or null after the last one. */
    ghost function Address(i: nat): int
      reads this
    {
      if i < |blocks| then base + blocks[i].start else 0
    }

    lemma AtBlock(i: nat)
      requires Valid() && i < |blocks|
      ensures 0 < Address(i) && blocks[i].End() <= heap.Length && Address(i) + 2 < base + heap.Length < TWO62
      ensures var info := heap[blocks[i].start];
        IsAlloc(info) == blocks[i].alloc && IsMarked(info) == blocks[i].mark && SizeOf(info) == blocks[i].size
      ensures heap[blocks[i].start + 1] == Address(i + 1) && heap[blocks[i].start + 2] == blocks[i].fin
    {
      RepBounds(heap[..], base, blocks, i);
      assert HeaderAt(heap[..], blocks[i], Next(base, blocks, i));
    }

    /** Addresses of blocks are not null. */
    lemma Addresses()
      requires Valid()
      ensures |blocks| > 0 && Address(0) == base
      ensures forall i :: 0 <= i < |blocks| ==> 0 < Address(i)
    {}

    // -------------------------------------------------------------- header fields

    method NextOf(block: Word, ghost i: nat) returns (next: Word)
      requires Valid() && i < |blocks| && block == Address(i)
      ensures next == Address(i + 1)
    {
      AtBlock(i);
      return heap[block - base + 1];
    }

    method InfoOf(block: Word, ghost i: nat) returns (alloc: bool, mark: bool, size: Word)
      requires Valid() && i < |blocks| && block == Address(i)
      ensures alloc == blocks[i].alloc && mark == blocks[i].mark && size == blocks[i].size
    {
      AtBlock(i);
      var info := heap[block - base];
      return IsAlloc(info), IsMarked(info), SizeOf(info);
    }

    // -------------------------------------------------------------- search loops

    method GetBlock(ptr: Word) returns (block: Word)
      requires Valid()
      ensures block == if base <= ptr < base + heap.Length && Locate(blocks, ptr - base) >= 0
                       then Address(Locate(blocks, ptr - base)) else 0
    {
      if ptr < base || ptr >= base + heap.Length { return 0; }
      Addresses();
      var cur: Word, prev: Word := base, base;
      ghost var k := 0;
      while cur != 0 && cur < ptr
        invariant k <= Seek(blocks, ptr - base) && cur == Address(k) && prev == Address(if k == 0 then 0 else k - 1)
        decreases |blocks| - k
      {
        prev := cur;
        cur := NextOf(cur, k);
        k := k + 1;
      }
      if cur == 0 { return 0; }
      return prev;
    }

    method NextBlockOfSize(size: Word) returns (block: Word)
      requires Valid()
      ensures block == Address(FirstFit(blocks, Need(size)))
    {
      Addresses();
      var need := Need(size);
      var cur: Word := base;
      ghost var k := 0;
      while cur != 0
        invariant k <= FirstFit(blocks, need) && cur == Address(k)
        decreases |blocks| - k
      {
        var alloc, _, have := InfoOf(cur, k);
        if have >= need && !alloc { return cur; }
        cur := NextOf(cur, k);
        k := k + 1;
      }
      return 0;
    }

    // -------------------------------------------------------------- marking

    /** One round of the loop that follows a word; n is the number of rounds left. */
    method LookAt(world: World, word: Word, ghost n: nat) returns (block: Word, v: Visit, next: Word)
      requires Valid() && Sees(world) && n > 0
      ensures var r := Search(world, heap[..], blocks, word, n);
        match v
        case NewMark => r.Found? && block == Address(r.i)
        case NoBlock => r == Missing
        case NoEnd => r == Search(world, heap[..], blocks, next, n - 1)
        case NoMark => r == Nothing
    {
      block, next := 0, 0;
      if base <= word < base + heap.Length {
        block := GetBlock(word);
        if block == 0 { return block, NoBlock, next; }
        var alloc, mark, _ := InfoOf(block, Locate(blocks, word - base));
        if !mark && alloc { return block, NewMark, next; }
        return block, NoEnd, heap[word - base];
      } else if word in world.outside {
        return block, NoEnd, world.outside[word];
      } else {
        return block, NoMark, next;
      }
    }

    /** Follows a word to the first block that is to be marked. */
    method Follow(world: World, w: Word, left: nat) returns (block: Word, v: Visit)
      requires Valid() && Sees(world)
      ensures var r := Search(world, heap[..], blocks, w, left);
        v == Outcome(r) && (r.Found? ==> block == Address(r.i))
    {
      var word: Word, n := w, left;
      block := 0;
      while n > 0
        invariant Search(world, heap[..], blocks, w, left) == Search(world, heap[..], blocks, word, n)
        decreases n
      {
        block, v, word := LookAt(world, word, n);
        if v != NoEnd { return; }
        n := n - 1;
      }
      v := if base <= word < base + heap.Length || word in world.outside then NoEnd else NoMark;
    }

    /** Gives block i new bits. */
    method SetBits(block: Word, alloc: bool, mark: bool, ghost i: nat)
      requires Valid() && i < |blocks| && block == Address(i)
      modifies heap, this`blocks
      ensures Valid() && blocks == WithBits(old(blocks), i, alloc, mark)
      ensures blocks[i].start < heap.Length
      ensures heap[..] == old(heap[..])[blocks[i].start := Info(blocks[i])]
    {
      var _, _, size := InfoOf(block, i);
      BitsRep(heap[..], base, blocks, i, alloc, mark);
      ghost var m := heap[..][blocks[i].start := InfoMake(alloc, mark, size)];
      heap[block - base] := InfoMake(alloc, mark, size);
      assert heap[..] == m;
      blocks := WithBits(blocks, i, alloc, mark);
    }

    /** Follows a word and marks the block it finds. */
    method VisitWord(world: World, w: Word, left: nat) returns (v: Visit)
      requires Valid() && Sees(world)
      modifies heap, this`blocks
      ensures Valid() && v == Outcome(old(Search(world, heap[..], blocks, w, left)))
      ensures match old(Search(world, heap[..], blocks, w, left))
        case Found(i) =>
          && blocks == Mark(old(blocks), i) && blocks[i].start < heap.Length
          && heap[..] == old(heap[..])[blocks[i].start := Info(blocks[i])]
        case _ => blocks == old(blocks) && heap[..] == old(heap[..])
    {
      var block;
      block, v := Follow(world, w, left);
      if v == NewMark {
        SetBits(block, true, true, Search(world, heap[..], blocks, w, left).i);
      }
    }

    /** The scan of the globals or the stack; a word equal to `except` is not followed. */
    method ScanRoots(world: World, words: seq<Word>, except: Word, ghost mem: Memory, ghost bs: seq<Block>) returns (crashed: bool)
      requires Sees(world) && Marks(base, mem, bs, heap[..], blocks)
      modifies heap, this`blocks
      ensures var r := MarkRoots(world, mem, old(blocks), Scanned(words, except));
        if crashed then r == Crashed else r == Marked(blocks) && Marks(base, mem, bs, heap[..], blocks)
    {
      var n := 0;
      while n < |words|
        invariant n <= |words| && Marks(base, mem, bs, heap[..], blocks)
        invariant MarkRoots(world, mem, old(blocks), Scanned(words, except))
               == MarkRoots(world, mem, blocks, Scanned(words[n..], except))
      {
        var w := words[n];
        NextRoot(world, mem, blocks, words, n, except);
        if w != except {
          ghost var m, cs := heap[..], blocks;
          SearchSame(world, mem, m, cs, w, ITERATIONS);
          var v := VisitWord(world, w, ITERATIONS);
          if v == NoBlock { return true; }
          if v == NewMark { MarksMark(base, mem, bs, m, cs, Search(world, m, cs, w, ITERATIONS).i); }
        }
        n := n + 1;
      }
      return false;
    }

    /** Follows payload word k of block j; i is the block to mark, if there is one. */
    method FollowWord(world: World, block: Word, k: nat, ghost j: nat) returns (found: Word, v: Visit, ghost i: int)
      requires Valid() && Sees(world) && j < |blocks| && k < blocks[j].size && block == Address(j)
      ensures v == NewMark ==> Calls(world, heap[..], blocks, WordAt(heap[..], blocks[j], k), i) && found == Address(i)
      ensures v == NoMark ==> Quiet(world, heap[..], blocks, WordAt(heap[..], blocks[j], k))
      ensures v in {NoBlock, NoEnd} ==> Stuck(world, heap[..], blocks, WordAt(heap[..], blocks[j], k))
    {
      AtBlock(j);
      var w := heap[block - base + BLOCK_SIZE + k];
      assert w == WordAt(heap[..], blocks[j], k);
      found, v := Follow(world, w, Limit(world, heap.Length));
      ChaseTells(world, heap[..], blocks, w);
      ghost var r := Search(world, heap[..], blocks, w, Limit(world, heap.Length));
      i := if r.Found? then r.i else -1;
    }

    /** Marks the block that payload word k of block j leads to. */
    method MarkNew(world: World, found: Word, ghost i: nat, ghost j: nat, ghost k: nat, ghost mem: Memory, ghost bs: seq<Block>)
      requires Sees(world) && Between(world, mem, bs, heap[..], blocks) && j < |blocks| && k < blocks[j].size
      requires Calls(world, heap[..], blocks, WordAt(heap[..], blocks[j], k), i) && found == Address(i)
      modifies heap, this`blocks
      ensures Between(world, mem, bs, heap[..], blocks) && Unmarkeds(blocks) < Unmarkeds(old(blocks))
    {
      MarkFound(world, mem, bs, heap[..], blocks, j, k, i);
      SetBits(found, true, true, i);
    }

    /** Payload word k of block j. */
    method ScanWord(world: World, block: Word, k: nat, ghost j: nat, ghost mem: Memory, ghost bs: seq<Block>)
      returns (v: Visit)
      requires Sees(world) && Between(world, mem, bs, heap[..], blocks)
      requires j < |bs| && k < bs[j].size && block == base + bs[j].start
      modifies heap, this`blocks
      ensures Between(world, mem, bs, heap[..], blocks)
      ensures if v == NewMark then Unmarkeds(blocks) < Unmarkeds(old(blocks))
              else blocks == old(blocks) && heap[..] == old(heap[..])
      ensures v == NoMark ==> Quiet(world, heap[..], blocks, WordAt(heap[..], bs[j], k))
      ensures v in {NoBlock, NoEnd} ==> !Scannable(world, mem, bs)
    {
      assert blocks[j].size == bs[j].size && blocks[j].start == bs[j].start;
      var found;
      ghost var i;
      found, v, i := FollowWord(world, block, k, j);
      if v == NewMark {
        MarkNew(world, found, i, j, k, mem, bs);
      } else if v != NoMark {
        NotScannable(world, mem, bs, heap[..], blocks, j, k);
      }
    }

    /** The payload words of block j. */
    method ScanBlock(world: World, block: Word, ghost j: nat, ghost mem: Memory, ghost bs: seq<Block>)
      returns (any: bool, stuck: bool)
      requires Sees(world) && Between(world, mem, bs, heap[..], blocks) && j < |bs| && block == base + bs[j].start
      modifies heap, this`blocks
      ensures Between(world, mem, bs, heap[..], blocks) && (stuck ==> !Scannable(world, mem, bs))
      ensures if any then Unmarkeds(blocks) < Unmarkeds(old(blocks))
              else blocks == old(blocks) && heap[..] == old(heap[..])
      ensures !any && !stuck ==> QuietBlock(world, heap[..], blocks, bs[j])
    {
      var _, _, max := InfoOf(block, j);
      any := false;
      var idx := 0;
      while idx < max
        invariant idx <= max == bs[j].size && Between(world, mem, bs, heap[..], blocks)
        invariant if any then Unmarkeds(blocks) < Unmarkeds(old(blocks))
                  else blocks == old(blocks) && heap[..] == old(heap[..])
        invariant !any ==> forall k :: 0 <= k < idx ==> Quiet(world, heap[..], blocks, WordAt(heap[..], bs[j], k))
      {
        var v := ScanWord(world, block, idx, j, mem, bs);
        if v == NewMark {
          any := true;
        } else if v != NoMark {
          return any, true;
        }
        idx := idx + 1;
      }
      stuck := false;
    }

    /** One pass over the whole heap. */
    method ScanPass(world: World, ghost mem: Memory, ghost bs: seq<Block>) returns (any: bool, stuck: bool)
      requires Sees(world) && Between(world, mem, bs, heap[..], blocks)
      modifies heap, this`blocks
      ensures Between(world, mem, bs, heap[..], blocks) && (stuck ==> !Scannable(world, mem, bs))
      ensures if any then Unmarkeds(blocks) < Unmarkeds(old(blocks)) else blocks == old(blocks)
      ensures !any && !stuck ==> AllQuiet(world, heap[..], blocks, bs)
    {
      Addresses();
      any := false;
      var cur: Word := base;
      ghost var j := 0;
      while cur != 0
        invariant j <= |blocks| && cur == Address(j) && Between(world, mem, bs, heap[..], blocks)
        invariant if any then Unmarkeds(blocks) < Unmarkeds(old(blocks))
                  else blocks == old(blocks) && heap[..] == old(heap[..])
        invariant !any ==> forall i :: 0 <= i < j ==> QuietBlock(world, heap[..], blocks, bs[i])
        decreases |blocks| - j
      {
        var new_, bad := ScanBlock(world, cur, j, mem, bs);
        any := any || new_;
        if bad { return any, true; }
        cur := NextOf(cur, j);
        j := j + 1;
      }
      stuck := false;
    }

    /** Passes until one marks nothing.  The collector gets through exactly when the chain of
        every payload word ends and stays within blocks; then the marks are the old ones and
        those of the allocated blocks on such chains. */
    method MarkHeap(world: World, ghost mem: Memory, ghost bs: seq<Block>) returns (stuck: bool)
      requires Sees(world) && Between(world, mem, bs, heap[..], blocks)
      modifies heap, this`blocks
      ensures stuck <==> !Scannable(world, mem, bs)
      ensures !stuck ==> HeapMarked(world, mem, bs, blocks)
      ensures Marks(base, mem, bs, heap[..], blocks)
    {
      var any := true;
      while any
        invariant Between(world, mem, bs, heap[..], blocks)
        invariant !any ==> AllQuiet(world, heap[..], blocks, bs)
        decreases Unmarkeds(blocks), any
      {
        any, stuck := ScanPass(world, mem, bs);
        if stuck { return; }
      }
      QuietIsDone(world, mem, bs, heap[..], blocks);
      stuck := false;
    }

    // -------------------------------------------------------------- the sweep

    /** Clears the mark of a marked block, or frees the block and calls its finalizer. */
    method Release(cur: Word, ghost i: nat) returns (kept: bool, freed: nat)
      requires Valid() && i < |blocks| && cur == Address(i)
      modifies heap, this`blocks, this`finalized
      ensures Valid() && blocks == old(blocks)[i := Released(old(blocks)[i])]
      ensures SameOutside(old(heap[..]), heap[..], blocks[i].start, blocks[i].start + BLOCK_SIZE)
      ensures var b := old(blocks)[i];
        && kept == b.mark && freed == (if Dropped(b) then b.size else 0)
        && finalized == old(finalized) + Called(b)
    {
      var alloc, mark, size := InfoOf(cur, i);
      freed := 0;
      if mark {
        SetBits(cur, alloc, false, i);
      } else if alloc {
        AtBlock(i);
        var fin := heap[cur - base + 2];
        SetBits(cur, false, false, i);
        freed := size;
        if fin != 0 { finalized := finalized + [fin]; }
      }
      return mark, freed;
    }

    /** Merges block i + 1 into block i. */
    method Merge(prev: Word, cur: Word, ghost i: nat)
      requires Valid() && i + 1 < |blocks| && prev == Address(i) && cur == Address(i + 1)
      modifies heap, this`blocks
      ensures Valid() && blocks == Merged(old(blocks), i)
      ensures SameOutside(old(heap[..]), heap[..], blocks[i].start, blocks[i].start + BLOCK_SIZE)
    {
      var alloc, mark, size := InfoOf(prev, i);
      var _, _, more := InfoOf(cur, i + 1);
      var next := NextOf(cur, i + 1);
      AtBlock(i);
      MergedSize(heap[..], base, blocks, i);
      var fin := heap[prev - base + 2];
      WriteHeader(prev, InfoMake(alloc, mark, size + BLOCK_SIZE + more), next, fin);
      MergedHeader(heap[..], base, blocks, i);
      MergeBlocks(old(heap[..]), heap[..], base, blocks, i);
      blocks := Merged(blocks, i);
    }

    /** The sweep of block k.  prev is the free block before it, if there is one. */
    method SweepOne(cur: Word, prev: Word, ghost k: nat, ghost done: seq<Block>, ghost p: nat, ghost mem: Memory, ghost bs: seq<Block>)
      returns (prev': Word, words: nat)
      requires Sweeping(base, mem, bs, k, done, heap[..], blocks) && k < |bs| && Open(bs, done, prev != 0, p)
      requires cur == base + bs[k].start && (prev != 0 ==> prev == base + bs[p].start) && (bs[k].mark ==> bs[k].alloc)
      modifies heap, this`blocks, this`finalized
      ensures Sweeping(base, mem, bs, k + 1, Append(done, Released(bs[k])), heap[..], blocks)
      ensures prev' == if bs[k].mark then 0 else if prev != 0 then prev else cur
      ensures words == Counted(done, bs[k]) && finalized == old(finalized) + Called(bs[k])
    {
      OpenNext(bs, k, done, prev != 0, p);
      CurrentBlock(bs, k, done, Released(bs[k]));
      ghost var m, cs := heap[..], blocks;
      var kept, freed := Release(cur, |done|);
      SweepingRelease(base, mem, bs, k, done, m, cs, heap[..]);
      words, prev' := freed, prev;
      if kept {
        prev' := 0;
      } else if prev != 0 {
        m, cs := heap[..], blocks;
        assert cs[|done| - 1] == done[|done| - 1];
        Merge(prev, cur, |done| - 1);
        SweepingMerge(base, mem, bs, k + 1, done, Released(bs[k]), m, cs, heap[..], p);
        words := words + BLOCK_SIZE;
      } else {
        prev' := cur;
      }
    }

    /** The address of the block after block k. */
    method NextInSweep(cur: Word, ghost k: nat, ghost done: seq<Block>, ghost bs: seq<Block>) returns (next: Word)
      requires Valid() && k < |bs| && blocks == done + bs[k..] && cur == base + bs[k].start
      ensures next == if k + 1 < |bs| then base + bs[k + 1].start else 0
    {
      next := NextOf(cur, |done|);
    }

    /** One round of the sweep's loop. */
    method SweepRound(cur: Word, prev: Word, freed: nat, ghost k: nat, ghost done: seq<Block>, ghost p: nat,
                      ghost fins: seq<Word>, ghost mem: Memory, ghost bs: seq<Block>)
      returns (cur': Word, prev': Word, freed': nat)
      requires AtLoop(base, mem, bs, k, done, p, cur, prev, freed, fins, heap[..], blocks)
      requires k < |bs| && (bs[k].mark ==> bs[k].alloc)
      modifies heap, this`blocks, this`finalized
      ensures AtLoop(base, mem, bs, k + 1, Append(done, Released(bs[k])), if prev != 0 then p else k,
                     cur', prev', freed', fins + Called(bs[k]), heap[..], blocks)
      ensures finalized == old(finalized) + Called(bs[k])
    {
      OpenNext(bs, k, done, prev != 0, p);
      SweptNext(bs, k, done, freed, fins);
      cur' := NextInSweep(cur, k, done, bs);
      var words;
      prev', words := SweepOne(cur, prev, k, done, p, mem, bs);
      freed' := freed + words;
    }

    method SweepHeap(ghost mem: Memory) returns (freed: nat)
      requires Valid() && MarksAreAllocated(blocks) && mem == heap[..]
      modifies heap, this`blocks, this`finalized
      ensures Valid() && blocks == Sweep(old(blocks)) && SamePayload(mem, old(blocks), heap[..])
      ensures freed == Freed(old(blocks)) && finalized == old(finalized) + Finalized(old(blocks))
    {
      ghost var bs := blocks;
      var cur: Word, prev: Word := base, 0;
      ghost var k, p, done, fins: seq<Word> := 0, 0, [], [];
      freed := 0;
      LoopStarts(base, mem, bs);
      while cur != 0
        invariant AtLoop(base, mem, bs, k, done, p, cur, prev, freed, fins, heap[..], blocks)
        invariant finalized == old(finalized) + fins
        decreases |bs| - k
      {
        assert k < |bs|;
        ghost var p', fins', done' := if prev != 0 then p else k, fins + Called(bs[k]), Append(done, Released(bs[k]));
        cur, prev, freed := SweepRound(cur, prev, freed, k, done, p, fins, mem, bs);
        p, fins, done, k := p', fins', done', k + 1;
      }
      LoopEnds(base, mem, bs, k, done, p, prev, freed, fins, heap[..], blocks);
    }

    // -------------------------------------------------------------- allocation

    method WriteHeader(block: Word, info: Word, next: Word, fin: Word)
      requires base <= block && block + 2 < base + heap.Length
      modifies heap
      ensures heap[block - base] == info && heap[block - base + 1] == next && heap[block - base + 2] == fin
      ensures SameOutside(old(heap[..]), heap[..], block - base, block - base + BLOCK_SIZE)
    {
      heap[block - base] := info;
      heap[block - base + 1] := next;
      heap[block - base + 2] := fin;
    }

    method TakeWhole(block: Word, size: Word, have: Word, fin: Word, ghost i: nat)
      requires Valid() && i == FirstFit(blocks, Need(size)) < |blocks| && block == Address(i)
      requires size <= blocks[i].size == have < size + BLOCK_SIZE + 1
      modifies heap, this`blocks
      ensures Valid() && blocks == Carve(old(blocks), i, size, fin)
      ensures SameOutside(old(heap[..]), heap[..], old(blocks)[i].start, old(blocks)[i].End())
    {
      var next := NextOf(block, i);
      AtBlock(i);
      WriteHeader(block, InfoMake(true, false, have), next, fin);
      WholeRep(old(heap[..]), heap[..], base, blocks, i, size, fin);
      blocks := Carve(blocks, i, size, fin);
    }

    method Split(block: Word, size: Word, have: Word, fin: Word, ghost i: nat)
      requires Valid() && i == FirstFit(blocks, Need(size)) < |blocks| && block == Address(i)
      requires blocks[i].size == have >= size + BLOCK_SIZE + 1
      modifies heap, this`blocks
      ensures Valid() && blocks == Carve(old(blocks), i, size, fin)
      ensures SameOutside(old(heap[..]), heap[..], old(blocks)[i].start, old(blocks)[i].End())
    {
      var next := NextOf(block, i);
      AtBlock(i);
      var rest: Word := block + BLOCK_SIZE + size;
      WriteHeader(rest, InfoMake(false, false, have - size - BLOCK_SIZE), next, 0);
      WriteHeader(block, InfoMake(true, false, size), rest, fin);
      SplitHeaders(heap[..], base, blocks, i, size, fin);
      SplitRep(old(heap[..]), heap[..], base, blocks, i, size, fin);
      blocks := Carve(blocks, i, size, fin);
    }

    method PutHeader(o: nat, info: Word, next: Word, fin: Word)
      requires o + 2 < heap.Length
      modifies heap
      ensures heap[..] == old(heap[..])[o := info][o + 1 := next][o + 2 := fin]
    {
      heap[o], heap[o + 1], heap[o + 2] := info, next, fin;
    }

    /** Splits a block that is too small: the new header overwrites what follows the block.  One
        that would lie past the heap is not modelled. */
    method Spill(block: Word, size: Word, have: Word, fin: Word, ghost i: nat)
      requires Valid() && i == FirstFit(blocks, Need(size)) < |blocks| && block == Address(i)
      requires blocks[i].size == have < size <= have + BLOCK_SIZE
      modifies heap, this`blocks
      ensures Overruns(base, old(View()), size, fin, View(), block + BLOCK_SIZE)
    {
      var next := NextOf(block, i);
      AtBlock(i);
      var o: nat, n: nat := block - base, block - base + BLOCK_SIZE + size;
      if n + 2 < heap.Length {
        PutHeader(n, InfoMake(false, false, Wrap(have - size - BLOCK_SIZE)), next, 0);
        PutHeader(o, InfoMake(true, false, size), base + n, fin);
      }
      blocks := Carve(blocks, i, size, fin);
    }

    /** Takes the first fit; too small a block is overrun. */
    method Take(block: Word, size: Word, fin: Word, ghost i: nat) returns (roomy: bool)
      requires Valid() && i == FirstFit(blocks, Need(size)) < |blocks| && block == Address(i)
      modifies heap, this`blocks
      ensures roomy <==> size <= old(blocks)[i].size
      ensures if roomy then Grants(base, old(View()), size, fin, View(), block + BLOCK_SIZE)
              else Overruns(base, old(View()), size, fin, View(), block + BLOCK_SIZE)
    {
      var _, _, have := InfoOf(block, i);
      roomy := size <= have;
      if !roomy {
        AtBlock(i);
        AlmostFits(size, have);
        Spill(block, size, have, fin, i);
      } else if have - size >= BLOCK_SIZE + 1 {
        Split(block, size, have, fin, i);
      } else {
        TakeWhole(block, size, have, fin, i);
      }
    }

    // -------------------------------------------------------------- collection

    method ScanAllRoots(world: World, roots: Roots) returns (crashed: bool)
      requires Valid() && Sees(world)
      modifies heap, this`blocks
      ensures var r := MarkRoots(world, old(heap[..]), old(blocks), RootWords(roots));
        if crashed then r == Crashed
        else r == Marked(blocks) && Marks(base, old(heap[..]), old(blocks), heap[..], blocks)
    {
      ghost var mem, bs := heap[..], blocks;
      MarkRootsConcat(world, mem, bs, Scanned(roots.globals, roots.heapVar), Scanned(roots.stack, 0));
      crashed := ScanRoots(world, roots.globals, roots.heapVar, mem, bs);
      if !crashed {
        crashed := ScanRoots(world, roots.stack, 0, mem, bs);
      }
    }

    /** Marks what is in use; lost when the program crashes, exits or never comes back. */
    method MarkAll(world: World, roots: Roots) returns (lost: bool)
      requires Valid() && Sees(world)
      modifies heap, this`blocks
      ensures lost <==> !Collectable(world, roots, old(heap[..]), old(blocks))
      ensures !lost ==> Collected(world, roots, old(heap[..]), old(blocks), blocks)
      ensures !lost ==> Valid() && MoreMarks(old(blocks), blocks) && SamePayload(old(heap[..]), blocks, heap[..])
    {
      ghost var mem, bs := heap[..], blocks;
      lost := ScanAllRoots(world, roots);
      if !lost {
        ghost var rs := blocks;
        HeapScanStarts(world, mem, bs, heap[..], rs);
        lost := MarkHeap(world, mem, rs);
        MoreMarksTrans(bs, rs, blocks);
        SamePayloadOf(mem, rs, blocks, heap[..]);
      }
    }

    method MarkAndSweep(world: World, roots: Roots) returns (lost: bool, result: int, ghost marked: seq<Block>)
      requires Valid() && Sees(world) && Clean(blocks)
      modifies heap, this`blocks, this`finalized
      ensures lost <==> !Collectable(world, roots, old(heap[..]), old(blocks))
      ensures !lost ==>
        && Collected(world, roots, old(heap[..]), old(blocks), marked) && MoreMarks(old(blocks), marked)
        && Valid() && blocks == Sweep(marked) && SamePayload(old(heap[..]), old(blocks), heap[..])
        && result == AsInt(Freed(marked)) && finalized == old(finalized) + Finalized(marked)
    {
      ghost var mem, bs := heap[..], blocks;
      lost := MarkAll(world, roots);
      marked, result := blocks, 0;
      if !lost {
        ghost var m := heap[..];
        MarkedAreAllocated(bs, marked);
        var freed := SweepHeap(m);
        result := AsInt(freed);
        CollectionKeepsPayload(bs, marked, mem, m, heap[..]);
      }
    }

    // -------------------------------------------------------------- the interface

    constructor ()
      ensures initialized == 0 && finalized == []
    {
      initialized, heap, base, finalized, blocks := 0, new Word[0](_ => 0), 0, [], [];
    }

    /** words is what calloc returns for HeapWords(size) words, at the given address.  A heap of
        one or two words is overrun by its first header, which is not modelled; one of three has a
        header and no word. */
    method Initialize(size: Word, words: array?<Word>, address: Word) returns (ok: bool)
      requires words != null ==> words.Length == HeapWords(size) && 0 < address && address + words.Length < TWO62 / 2
      modifies this, words
      ensures ok <==> old(initialized) == 0 && 0 < size < TWO62 && words != null
      ensures ok ==>
        && initialized == 1 && heap == words && base == address
        && blocks == [Block(0, Wrap(HeapWords(size) - BLOCK_SIZE) % TWO62, false, false, 0)]
        && (Valid() <==> HeapWords(size) > BLOCK_SIZE)
        && (HeapWords(size) >= BLOCK_SIZE ==> HeaderAt(heap[..], blocks[0], 0))
      ensures !ok ==>
        && initialized == (if old(initialized) == 0 then -1 else old(initialized))
        && heap == old(heap) && base == old(base) && blocks == old(blocks) && (words != null ==> words[..] == old(words[..]))
    {
      if initialized != 0 { return false; }
      initialized := -1;
      if size == 0 || size >= TWO62 || words == null { return false; }
      heap, base := words, address;
      FirstHeader();
      initialized := 1;
      return true;
    }

    /** Makes one free block of the heap. */
    method FirstHeader()
      requires 0 < base && base + heap.Length < TWO62 / 2
      modifies heap, this`blocks
      ensures blocks == [Block(0, Wrap(heap.Length - BLOCK_SIZE) % TWO62, false, false, 0)]
      ensures (Valid() <==> heap.Length > BLOCK_SIZE)
      ensures heap.Length >= BLOCK_SIZE ==> HeaderAt(heap[..], blocks[0], 0)
    {
      ghost var b := Block(0, Wrap(heap.Length - BLOCK_SIZE) % TWO62, false, false, 0);
      blocks := [b];
      if heap.Length >= BLOCK_SIZE {
        WriteHeader(base, InfoMake(false, false, heap.Length - BLOCK_SIZE), 0, 0);
        InfoIs(b);
      }
      FreshRep(heap[..], base, b);
    }

    /** The search, and the grant of what it finds. */
    method Try(size: Word, fin: Word) returns (reply: Reply)
      requires Valid()
      modifies heap, this`blocks
      ensures Tries(base, old(View()), size, fin, View(), reply)
    {
      ghost var i := FirstFit(blocks, Need(size));
      Addresses();
      var block := NextBlockOfSize(size);
      if block == 0 { return Null; }
      var roomy := Take(block, size, fin, i);
      return if roomy then Granted(block + BLOCK_SIZE) else Overrun(block + BLOCK_SIZE);
    }

    /** marked is the list as the collection, if there is one, leaves it to the sweep. */
    method MemAllocate(world: World, roots: Roots, size: Word, fin: Word) returns (reply: Reply, ghost marked: seq<Block>)
      requires initialized == 1 ==> Valid() && Sees(world) && Clean(blocks)
      modifies heap, this`blocks, this`finalized
      ensures if old(initialized) != 1 then reply == Null && View() == old(View())
              else Allocates(world, roots, old(View()), size, fin, View(), reply)
      ensures reply != Lost ==> finalized == old(finalized) + Finalized(marked)
      ensures marked == [] || reply == Lost || Collected(world, roots, old(heap[..]), old(blocks), marked)
    {
      marked := [];
      if initialized != 1 { return Null, marked; }
      reply := Try(size, fin);
      if reply != Null { return; }
      var lost, result;
      lost, result, marked := MarkAndSweep(world, roots);
      if lost { return Lost, marked; }
      ghost var h1 := View();
      assert Collects(world, roots, old(View()), marked, h1);
      if result == 0 { return Null, marked; }
      reply := Try(size, fin);
      assert AfterSweep(base, marked, h1, size, fin, View(), reply);
    }
  }
}
