/** Garbage that the collector keeps, and garbage on which it hangs. */
module AllocGarbage {
  import opened AllocBlocks
  import opened AllocHeap
  import opened AllocMarking
  import opened AllocSpace

  // ---------------------------------------------------------------- short chains

  /** A word that leads to a word which is no address. */
  lemma OneStepChain(world: World, mem: Memory, bs: seq<Block>, w: Word, i: int)
    requires Apart(world, |mem|) && InHeap(world, mem, w) && !Readable(world, mem, Read(world, mem, w))
    ensures Ends(world, mem, w) && (Hits(world, mem, bs, w, i) <==> Owner(world, mem, bs, w) == i)
  {
    assert Chain(world, mem, w, 1) == 0 && Chain(world, mem, w, 0) == w;
    if Owner(world, mem, bs, w) == i { assert HitsAt(world, mem, bs, w, 0, i); }
    forall n: nat ensures Chain(world, mem, w, n) == if n == 0 then w else 0 {
      if n > 0 { assert Chain(world, mem, w, n) == Chain(world, mem, Read(world, mem, w), n - 1); }
    }
  }

  // ---------------------------------------------------------------- a cycle that is kept

  const IN_USE: Word := 0x8000_0000_0000_0000

  /** The first block, two blocks whose first words point at each other's null word, and the
      free rest.  The only root word is the heap variable. */
  const CYCLE: seq<Block> :=
    [Block(0, 1, true, false, 0), Block(4, 2, true, false, 0), Block(9, 2, true, false, 0), Block(14, 1, false, false, 0)]

  const CYCLE_MEMORY: Memory :=
    [IN_USE + 1, 1004, 0, 0] + [IN_USE + 2, 1009, 0, 1013, 0] + [IN_USE + 2, 1014, 0, 1008, 0] + [1, 0, 0, 0]

  lemma CycleTiles()
    ensures Tiles(CYCLE, 0, 18)
  {
    var a, b, c, d := CYCLE[0], CYCLE[1], CYCLE[2], CYCLE[3];
    assert [d][1..] == [] && [c, d][1..] == [d] && [b, c, d][1..] == [c, d] && CYCLE[1..] == [b, c, d];
    assert Tiles([d], 14, 18) && Tiles([c, d], 9, 18) && Tiles([b, c, d], 4, 18);
  }

  lemma CycleRep()
    ensures Rep(CYCLE_MEMORY, BASE, CYCLE) && Clean(CYCLE) && |CYCLE_MEMORY| == 18
  {
    CycleTiles();
    forall i | 0 <= i < 4 ensures HeaderAt(CYCLE_MEMORY, CYCLE[i], Next(BASE, CYCLE, i)) {
      InfoIs(CYCLE[i]);
    }
  }

  /** The list when the roots have been scanned, and when marking is over. */
  const AFTER_ROOTS := [CYCLE[0].(mark := true), CYCLE[1], CYCLE[2], CYCLE[3]]
  const AFTER_MARKING := [CYCLE[0].(mark := true), CYCLE[1].(mark := true), CYCLE[2].(mark := true), CYCLE[3]]

  lemma CycleWords(j: nat, k: nat)
    requires j < 4 && k < CYCLE[j].size
    ensures WordAt(CYCLE_MEMORY, CYCLE[j], k) == if j == 1 && k == 0 then 1013 else if j == 2 && k == 0 then 1008 else 0
  {
    assert j == 0 || j == 1 || j == 2 || j == 3;
  }

  lemma CycleOwners(bs: seq<Block>)
    requires bs == CYCLE || bs == AFTER_ROOTS
    ensures Locate(bs, 0) == 0 && Locate(bs, 13) == 2 && Locate(bs, 8) == 1
  {
    CycleTiles();
    TilesMarked(CYCLE, AFTER_ROOTS, 0, 18);
    LocateMeaning(bs, 18, 0, 0);
    LocateMeaning(bs, 18, 13, 2);
    LocateMeaning(bs, 18, 8, 1);
  }

  lemma CycleRoots()
    ensures RootWords(ROOTS) == [BASE] && MarkRoots(WORLD, CYCLE_MEMORY, CYCLE, [BASE]) == Marked(AFTER_ROOTS)
    ensures !Rooted(WORLD, CYCLE_MEMORY, CYCLE, [BASE], 1) && !Rooted(WORLD, CYCLE_MEMORY, CYCLE, [BASE], 2)
  {
    CycleOwners(CYCLE);
    assert [BASE][1..] == [];
    assert Scanned([BASE], HEAP_VAR) == [BASE];
    assert Search(WORLD, CYCLE_MEMORY, CYCLE, BASE, ITERATIONS) == Found(0);
    assert Mark(CYCLE, 0) == AFTER_ROOTS;
    OneStepChain(WORLD, CYCLE_MEMORY, CYCLE, BASE, 1);
    OneStepChain(WORLD, CYCLE_MEMORY, CYCLE, BASE, 2);
  }

  /** The chain of each payload word ends, within blocks. */
  lemma CycleScannable()
    ensures Scannable(WORLD, CYCLE_MEMORY, AFTER_ROOTS)
    ensures Hits(WORLD, CYCLE_MEMORY, AFTER_ROOTS, 1013, 2) && Hits(WORLD, CYCLE_MEMORY, AFTER_ROOTS, 1008, 1)
  {
    CycleOwners(AFTER_ROOTS);
    OneStepChain(WORLD, CYCLE_MEMORY, AFTER_ROOTS, 1013, 2);
    OneStepChain(WORLD, CYCLE_MEMORY, AFTER_ROOTS, 1008, 1);
    OneStepChain(WORLD, CYCLE_MEMORY, AFTER_ROOTS, 1013, -1);
    OneStepChain(WORLD, CYCLE_MEMORY, AFTER_ROOTS, 1008, -1);
    NullChain(WORLD, CYCLE_MEMORY, AFTER_ROOTS, 0, -1);
    forall j, k | 0 <= j < 4 && 0 <= k < AFTER_ROOTS[j].size
      ensures WordAt(CYCLE_MEMORY, AFTER_ROOTS[j], k) in {0, 1013, 1008}
    {
      CycleWords(j, k);
    }
  }

  lemma CycleMarks()
    ensures HeapMarked(WORLD, CYCLE_MEMORY, AFTER_ROOTS, AFTER_MARKING)
  {
    CycleScannable();
    CycleWords(1, 0);
    CycleWords(2, 0);
    ReferencedHere(WORLD, CYCLE_MEMORY, AFTER_ROOTS, 1, 0, 2);
    ReferencedHere(WORLD, CYCLE_MEMORY, AFTER_ROOTS, 2, 0, 1);
  }

  /** The collector is not precise: marking gets through, no root leads to blocks 1 and 2, and
      they are kept because they point to each other. */
  lemma GarbageCycleIsKept()
    ensures Rep(CYCLE_MEMORY, BASE, CYCLE) && Clean(CYCLE)
    ensures !Rooted(WORLD, CYCLE_MEMORY, CYCLE, RootWords(ROOTS), 1) && !Rooted(WORLD, CYCLE_MEMORY, CYCLE, RootWords(ROOTS), 2)
    ensures Collected(WORLD, ROOTS, CYCLE_MEMORY, CYCLE, AFTER_MARKING)
    ensures AFTER_MARKING[1].mark && AFTER_MARKING[2].mark
  {
    CycleRep();
    CycleRoots();
    CycleScannable();
    CycleMarks();
  }

  // ---------------------------------------------------------------- a cycle that hangs

  /** When two payload words point at each other, the collector follows them for ever: it does
      not come back, whatever the roots are. */
  lemma PlainCycleHangs(world: World, mem: Memory, bs: seq<Block>, i: nat, k: nat, j: nat, l: nat)
    requires Rep(mem, world.base, bs) && Apart(world, |mem|)
    requires i < |bs| && k < bs[i].size && j < |bs| && l < bs[j].size
    requires WordAt(mem, bs[i], k) == world.base + bs[j].start + BLOCK_SIZE + l
    requires WordAt(mem, bs[j], l) == world.base + bs[i].start + BLOCK_SIZE + k
    ensures !Scannable(world, mem, bs)
    ensures forall roots :: !Collectable(world, roots, mem, bs)
  {
    var w := WordAt(mem, bs[i], k);
    RepBounds(mem, world.base, bs, i);
    RepBounds(mem, world.base, bs, j);
    EndlessPair(world, mem, w, WordAt(mem, bs[j], l));
    forall roots | MarkRoots(world, mem, bs, RootWords(roots)).Marked?
      ensures !Scannable(world, mem, MarkRoots(world, mem, bs, RootWords(roots)).blocks)
    {
      RootsOnlyMark(world, mem, bs, RootWords(roots));
      var rs := MarkRoots(world, mem, bs, RootWords(roots)).blocks;
      assert WordAt(mem, rs[i], k) == w && k < rs[i].size;
    }
  }

  lemma EndlessPair(world: World, mem: Memory, v: Word, w: Word)
    requires Apart(world, |mem|) && InHeap(world, mem, v) && InHeap(world, mem, w)
    requires Read(world, mem, v) == w && Read(world, mem, w) == v
    ensures !Ends(world, mem, v)
  {
    assert Chain(world, mem, v, 2) == Chain(world, mem, w, 1) == Chain(world, mem, v, 0) == v;
    forall n: nat ensures Chain(world, mem, v, n) != 0 { ChainRepeats(world, mem, v, 0, 2, n); }
  }
}
