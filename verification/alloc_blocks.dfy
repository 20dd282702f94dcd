/** The block list of the mark-and-sweep allocator: headers, first fit, splitting and the sweep.

    Addresses count words, and a block's start is its distance from the heap's first word. */
module AllocBlocks {
  const TWO62 := 0x4000_0000_0000_0000
  const TWO63 := 0x8000_0000_0000_0000
  const TWO64 := 0x1_0000_0000_0000_0000
  const BLOCK_SIZE := 3

  type Word = w: int | 0 <= w < TWO64

  function Wrap(n: int): Word { n % TWO64 }

  // ---------------------------------------------------------------- the info word

  function InfoMake(alloc: bool, mark: bool, size: Word): Word {
    (if alloc then TWO63 else 0) + (if mark then TWO62 else 0) + size % TWO62
  }

  function IsAlloc(info: Word): bool { info >= TWO63 }

  function IsMarked(info: Word): bool { info / TWO62 % 2 == 1 }

  function SizeOf(info: Word): Word { info % TWO62 }

  /** An info word is exactly its two bits and its size. */
  lemma InfoRoundTrip(info: Word, alloc: bool, mark: bool, size: Word)
    ensures InfoMake(IsAlloc(info), IsMarked(info), SizeOf(info)) == info
    ensures size < TWO62 ==>
      var w := InfoMake(alloc, mark, size); IsAlloc(w) == alloc && IsMarked(w) == mark && SizeOf(w) == size
  {
    if size < TWO62 {
      var w: int := InfoMake(alloc, mark, size);
      assert w / TWO62 == (if alloc then 2 else 0) + (if mark then 1 else 0);
    }
    assert info / TWO62 in {0, 1, 2, 3};
  }

  /** The allocation bit is the highest, the mark bit the next one. */
  lemma InfoBits(alloc: bool, mark: bool, size: Word)
    requires size < 0x4000_0000_0000_0000
    ensures InfoMake(alloc, mark, size) ==
      size + (if alloc then 0x8000_0000_0000_0000 else 0) + (if mark then 0x4000_0000_0000_0000 else 0)
  {}

  // ---------------------------------------------------------------- the list

  datatype Block = Block(start: nat, size: nat, alloc: bool, mark: bool, fin: Word) {
    function End(): nat { start + BLOCK_SIZE + size }
  }

  /** The blocks fill [lo, hi): each ends where the next one starts. */
  predicate Tiles(bs: seq<Block>, lo: nat, hi: nat) {
    if bs == [] then lo == hi
    else bs[0].start == lo && bs[0].size >= 1 && Tiles(bs[1..], bs[0].End(), hi)
  }

  lemma {:induction false} TilesConcat(a: seq<Block>, b: seq<Block>, lo: nat, mid: nat, hi: nat)
    requires Tiles(a, lo, mid)
    ensures Tiles(a + b, lo, hi) <==> Tiles(b, mid, hi)
  {
    if a == [] {
      assert a + b == b;
    } else {
      assert (a + b)[1..] == a[1..] + b;
      TilesConcat(a[1..], b, a[0].End(), mid, hi);
    }
  }

  /** Any cut of a tiling gives two. */
  lemma {:induction false} TilesCut(bs: seq<Block>, i: nat, lo: nat, hi: nat)
    requires i <= |bs| && Tiles(bs, lo, hi)
    ensures var mid := if i < |bs| then bs[i].start else hi;
      lo <= mid <= hi && Tiles(bs[..i], lo, mid) && Tiles(bs[i..], mid, hi)
  {
    if i == 0 {
      assert bs[0..] == bs;
      if bs != [] { TilesGrow(bs, lo, hi); }
    } else {
      TilesCut(bs[1..], i - 1, bs[0].End(), hi);
      assert bs[..i][1..] == bs[1..][..i - 1] && bs[i..] == bs[1..][i - 1..];
    }
  }

  lemma {:induction false} TilesGrow(bs: seq<Block>, lo: nat, hi: nat)
    requires Tiles(bs, lo, hi)
    ensures lo <= hi
  {
    if bs != [] { TilesGrow(bs[1..], bs[0].End(), hi); }
  }

  lemma TilesBeyond(bs: seq<Block>, lo: nat, hi: nat)
    requires lo > hi
    ensures !Tiles(bs, lo, hi)
  {
    if Tiles(bs, lo, hi) { TilesGrow(bs, lo, hi); }
  }

  /** Blocks lie in the heap, in address order and apart. */
  lemma TilesApart(bs: seq<Block>, i: nat, j: nat, lo: nat, hi: nat)
    requires Tiles(bs, lo, hi) && i <= j < |bs|
    ensures lo <= bs[i].start && bs[i].size >= 1 && bs[j].End() <= hi
    ensures i < j ==> bs[i].End() <= bs[j].start
  {
    TilesCut(bs, i, lo, hi);
    var rest := bs[i..];
    assert rest[0] == bs[i];
    TilesCut(rest, j - i, bs[i].start, hi);
    assert rest[j - i..][0] == bs[j];
    TilesGrow(rest[j - i..][1..], bs[j].End(), hi);
    if i < j {
      TilesCut(rest[1..], j - i - 1, bs[i].End(), hi);
    }
  }

  lemma TilesNext(bs: seq<Block>, i: nat, lo: nat, hi: nat)
    requires Tiles(bs, lo, hi) && i < |bs|
    ensures bs[i].End() == if i + 1 < |bs| then bs[i + 1].start else hi
    ensures i == 0 ==> bs[i].start == lo
  {
    TilesCut(bs, i, lo, hi);
    assert bs[i..][1..] == bs[i + 1..];
  }

  /** The words memInitialize asks for: a fifth more than it is given, in unsigned words. */
  function HeapWords(size: Word): Word { Wrap(size * 6) / 5 }

  /** The sizes for which size * 6 has just wrapped around. */
  const WRAPPED: Word := 3_074_457_345_618_258_603

  /** There is room for a header and a word from four words on, but for the three sizes at
      which the multiplication wraps around; the heap is at least as large as asked for exactly
      when it does not, and then it has a fifth more words. */
  lemma HeapHasRoom(size: Word)
    requires size < TWO62
    ensures HeapWords(size) > BLOCK_SIZE <==> size >= 4 && !(WRAPPED <= size < WRAPPED + 3)
    ensures HeapWords(size) >= size <==> size < WRAPPED
    ensures size < WRAPPED ==> HeapWords(size) * 5 <= size * 6 < HeapWords(size) * 5 + 5
  {
    assert Wrap(size * 6) == if size < WRAPPED then size * 6 else size * 6 - TWO64;
  }

  // ---------------------------------------------------------------- first fit

  /** nextBlockOfSize's comparison is with the request less a header, in unsigned words. */
  function Need(size: Word): Word { Wrap(size - BLOCK_SIZE) }

  function FirstFit(bs: seq<Block>, need: Word): (r: nat)
    ensures r <= |bs|
    ensures r < |bs| ==> !bs[r].alloc && need <= bs[r].size
    ensures forall j :: 0 <= j < r ==> bs[j].alloc || bs[j].size < need
  {
    if bs == [] then 0
    else if !bs[0].alloc && bs[0].size >= need then 0
    else
      var r := FirstFit(bs[1..], need);
      assert forall j :: 1 <= j < r + 1 ==> bs[j] == bs[1..][j - 1];
      r + 1
  }

  /** What is found is at most a header short. */
  lemma AlmostFits(size: Word, have: nat)
    requires have < TWO62 && Need(size) <= have
    ensures BLOCK_SIZE <= size <= have + BLOCK_SIZE
  {}

  /** What taking block b for a request makes of it: the rest is split off when it is worth a
      block. */
  function Pieces(b: Block, size: Word, fin: Word): (r: seq<Block>)
    ensures |r| > 0 && r[0].start == b.start && r[0].alloc
  {
    var left := Wrap(b.size - size);
    if left >= BLOCK_SIZE + 1 then
      [Block(b.start, size % TWO62, true, false, fin),
       Block(b.start + BLOCK_SIZE + size, (left - BLOCK_SIZE) % TWO62, false, false, 0)]
    else [Block(b.start, b.size, true, false, fin)]
  }

  function Carve(bs: seq<Block>, i: nat, size: Word, fin: Word): seq<Block>
    requires i < |bs|
  {
    bs[..i] + Pieces(bs[i], size, fin) + bs[i + 1..]
  }

  lemma TilesReplace(bs: seq<Block>, i: nat, pieces: seq<Block>, hi: nat)
    requires Tiles(bs, 0, hi) && i < |bs|
    ensures Tiles(bs[i + 1..], bs[i].End(), hi)
    ensures Tiles(bs[..i] + pieces + bs[i + 1..], 0, hi) <==> Tiles(pieces + bs[i + 1..], bs[i].start, hi)
  {
    TilesCut(bs, i, 0, hi);
    assert bs[i..][1..] == bs[i + 1..];
    assert bs[..i] + pieces + bs[i + 1..] == bs[..i] + (pieces + bs[i + 1..]);
    TilesConcat(bs[..i], pieces + bs[i + 1..], 0, bs[i].start, hi);
  }

  /** What is left of a block, in unsigned words, when a header more than it has may be asked for. */
  lemma LeftOver(have: nat, size: Word)
    requires have < TWO62 / 2 && BLOCK_SIZE <= size <= have + BLOCK_SIZE
    ensures var left := Wrap(have - size);
      if size <= have then left == have - size
      else left >= BLOCK_SIZE + 1 && (left - BLOCK_SIZE) % TWO62 >= TWO62 - 6
  {
    if size > have {
      assert have - size + TWO64 - BLOCK_SIZE == 3 * TWO62 + (TWO62 + have - size - BLOCK_SIZE);
    }
  }

  /** The first fit can be up to a header short of the request.  The heap stays tiled exactly
      when it is not. */
  lemma CarveTilesIffBigEnough(bs: seq<Block>, i: nat, size: Word, fin: Word, hi: nat)
    requires Tiles(bs, 0, hi) && hi < TWO62 / 2 && i == FirstFit(bs, Need(size)) < |bs|
    ensures Tiles(Carve(bs, i, size, fin), 0, hi) <==> size <= bs[i].size
  {
    TilesApart(bs, i, i, 0, hi);
    var b, rest := bs[i], bs[i + 1..];
    LeftOver(b.size, size);
    var left := Wrap(b.size - size);
    if left >= BLOCK_SIZE + 1 {
      SplitTiles(bs, i, size, fin, hi);
    } else {
      var one := Block(b.start, b.size, true, false, fin);
      TilesReplace(bs, i, [one], hi);
      assert ([one] + rest)[1..] == rest;
    }
  }

  lemma SplitTiles(bs: seq<Block>, i: nat, size: Word, fin: Word, hi: nat)
    requires Tiles(bs, 0, hi) && hi < TWO62 / 2 && i < |bs| && bs[i].End() <= hi
    requires BLOCK_SIZE <= size <= bs[i].size + BLOCK_SIZE && Wrap(bs[i].size - size) >= BLOCK_SIZE + 1
    ensures Tiles(Carve(bs, i, size, fin), 0, hi) <==> size <= bs[i].size
  {
    LeftOver(bs[i].size, size);
    var ps := Pieces(bs[i], size, fin);
    TwoPieces(bs, i, ps[0], ps[1], hi);
    if size > bs[i].size { TilesBeyond(bs[i + 1..], ps[1].End(), hi); }
  }

  lemma TwoPieces(bs: seq<Block>, i: nat, a: Block, c: Block, hi: nat)
    requires Tiles(bs, 0, hi) && i < |bs| && a.start == bs[i].start && a.size >= 1 && c.start == a.End()
    ensures Tiles(bs[..i] + [a, c] + bs[i + 1..], 0, hi) <==> c.size >= 1 && Tiles(bs[i + 1..], c.End(), hi)
    ensures Tiles(bs[i + 1..], bs[i].End(), hi)
  {
    var rest := bs[i + 1..];
    TilesReplace(bs, i, [a, c], hi);
    assert ([a, c] + rest)[1..] == [c] + rest && ([c] + rest)[1..] == rest;
  }

  /** A heap of ten words and a request for eight: the seven-word block is taken, and broken. */
  lemma CarveBreaksTiling()
    ensures var bs := [Block(0, 7, false, false, 0)];
      Tiles(bs, 0, 10) && FirstFit(bs, Need(8)) == 0 && !Tiles(Carve(bs, 0, 8, 0), 0, 10)
  {
    var bs := [Block(0, 7, false, false, 0)];
    assert bs[1..] == [];
    CarveTilesIffBigEnough(bs, 0, 8, 0, 10);
  }

  /** A request below the header size wraps around and never fits. */
  lemma SmallRequestsNeverFit(bs: seq<Block>, size: Word, hi: nat)
    requires Tiles(bs, 0, hi) && hi < TWO62 && size < BLOCK_SIZE
    ensures FirstFit(bs, Need(size)) == |bs|
  {
    var i := FirstFit(bs, Need(size));
    if i < |bs| { TilesApart(bs, i, i, 0, hi); }
  }

  // ---------------------------------------------------------------- the sweep

  predicate MarksAreAllocated(bs: seq<Block>) {
    forall i :: 0 <= i < |bs| && bs[i].mark ==> bs[i].alloc
  }

  function Released(b: Block): Block {
    if b.mark then b.(mark := false) else b.(alloc := false)
  }

  /** Whether b is merged into the block before it. */
  predicate Merges(done: seq<Block>, b: Block) {
    done != [] && !done[|done| - 1].alloc && !b.alloc
  }

  function Append(done: seq<Block>, b: Block): seq<Block> {
    if Merges(done, b) then
      var last := done[|done| - 1];
      done[..|done| - 1] + [last.(size := last.size + BLOCK_SIZE + b.size)]
    else done + [b]
  }

  function Sweep(bs: seq<Block>): seq<Block> {
    if bs == [] then [] else
      var n := |bs| - 1;
      Append(Sweep(bs[..n]), Released(bs[n]))
  }

  /** The allocated block that the sweep frees. */
  predicate Dropped(b: Block) { b.alloc && !b.mark }

  /** What the sweep counts for block b: its words if it is freed, and a header if it merges. */
  function Counted(done: seq<Block>, b: Block): nat {
    (if Dropped(b) then b.size else 0) + (if Merges(done, Released(b)) then BLOCK_SIZE else 0)
  }

  function Freed(bs: seq<Block>): nat {
    if bs == [] then 0 else
      var n := |bs| - 1;
      Freed(bs[..n]) + Counted(Sweep(bs[..n]), bs[n])
  }

  /** The finalizers the sweep calls for block b. */
  function Called(b: Block): seq<Word> {
    if Dropped(b) && b.fin != 0 then [b.fin] else []
  }

  /** The finalizers the sweep calls, in order. */
  function Finalized(bs: seq<Block>): seq<Word> {
    if bs == [] then [] else
      var n := |bs| - 1;
      Finalized(bs[..n]) + Called(bs[n])
  }

  lemma TilesSnoc(bs: seq<Block>, b: Block, lo: nat, mid: nat)
    requires Tiles(bs, lo, mid) && b.start == mid && b.size >= 1
    ensures Tiles(bs + [b], lo, b.End())
  {
    TilesConcat(bs, [b], lo, mid, b.End());
    assert [b][1..] == [];
  }

  lemma AppendTiles(done: seq<Block>, b: Block, lo: nat, mid: nat)
    requires Tiles(done, lo, mid) && b.start == mid && b.size >= 1
    ensures Tiles(Append(done, b), lo, b.End())
  {
    if Merges(done, b) {
      var n := |done| - 1;
      TilesCut(done, n, lo, mid);
      TilesNext(done, n, lo, mid);
      TilesSnoc(done[..n], done[n].(size := done[n].size + BLOCK_SIZE + b.size), lo, done[n].start);
    } else {
      TilesSnoc(done, b, lo, mid);
    }
  }

  lemma {:induction false} SweepTiles(bs: seq<Block>, lo: nat, hi: nat)
    requires Tiles(bs, lo, hi)
    ensures Tiles(Sweep(bs), lo, hi)
  {
    if bs != [] {
      var n := |bs| - 1;
      TilesCut(bs, n, lo, hi);
      TilesApart(bs, n, n, lo, hi);
      TilesNext(bs, n, lo, hi);
      SweepTiles(bs[..n], lo, bs[n].start);
      AppendTiles(Sweep(bs[..n]), Released(bs[n]), lo, bs[n].start);
    }
  }

  lemma {:induction false} SweepCoalesces(bs: seq<Block>, i: nat, j: nat)
    requires j == i + 1 < |Sweep(bs)|
    ensures Sweep(bs)[i].alloc || Sweep(bs)[j].alloc
  {
    var done := Sweep(bs[..|bs| - 1]);
    if j < |done| { SweepCoalesces(bs[..|bs| - 1], i, j); }
  }

  function Allocated(bs: seq<Block>): seq<Block> {
    if bs == [] then [] else
      var n := |bs| - 1;
      Allocated(bs[..n]) + if bs[n].alloc then [bs[n]] else []
  }

  /** The marked blocks, with their marks cleared. */
  function Survivors(bs: seq<Block>): seq<Block> {
    if bs == [] then [] else
      var n := |bs| - 1;
      Survivors(bs[..n]) + if bs[n].mark then [bs[n].(mark := false)] else []
  }

  lemma AppendAllocated(done: seq<Block>, b: Block)
    ensures Allocated(Append(done, b)) == Allocated(done) + if b.alloc then [b] else []
  {
    var r := Append(done, b);
    if Merges(done, b) {
      assert r[..|r| - 1] == done[..|done| - 1];
    } else {
      assert r[..|r| - 1] == done;
    }
  }

  /** Exactly the marked blocks stay allocated, in place and unmarked. */
  lemma {:induction false} SweepKeepsExactlyTheMarked(bs: seq<Block>)
    requires MarksAreAllocated(bs)
    ensures Allocated(Sweep(bs)) == Survivors(bs)
  {
    if bs != [] {
      var n := |bs| - 1;
      SweepKeepsExactlyTheMarked(bs[..n]);
      AppendAllocated(Sweep(bs[..n]), Released(bs[n]));
    }
  }

  lemma {:induction false} SweepClearsMarks(bs: seq<Block>, i: nat)
    requires i < |Sweep(bs)|
    ensures !Sweep(bs)[i].mark
  {
    var done := Sweep(bs[..|bs| - 1]);
    if i < |done| { SweepClearsMarks(bs[..|bs| - 1], i); }
  }

  function CountFin(bs: seq<Block>, f: Word): nat {
    if bs == [] then 0 else
      var n := |bs| - 1;
      CountFin(bs[..n], f) + if bs[n].alloc && bs[n].fin == f then 1 else 0
  }

  lemma {:induction false} CountFinOfAllocated(bs: seq<Block>, f: Word)
    ensures CountFin(Allocated(bs), f) == CountFin(bs, f)
  {
    if bs != [] {
      var n := |bs| - 1;
      CountFinOfAllocated(bs[..n], f);
      var a := Allocated(bs);
      if bs[n].alloc { assert a[..|a| - 1] == Allocated(bs[..n]); } else { assert a == Allocated(bs[..n]); }
    }
  }

  /** Finalizers are conserved: of the allocated blocks with finalizer f, each either is still
      allocated or has had f called, once. */
  lemma {:induction false} FinalizersConserved(bs: seq<Block>, f: Word)
    requires MarksAreAllocated(bs) && f != 0
    ensures multiset(Finalized(bs))[f] + CountFin(Sweep(bs), f) == CountFin(bs, f)
  {
    SweepKeepsExactlyTheMarked(bs);
    CountFinOfAllocated(Sweep(bs), f);
    FinalizersSplit(bs, f);
  }

  lemma {:induction false} FinalizersSplit(bs: seq<Block>, f: Word)
    requires MarksAreAllocated(bs) && f != 0
    ensures multiset(Finalized(bs))[f] + CountFin(Survivors(bs), f) == CountFin(bs, f)
  {
    if bs != [] {
      var n := |bs| - 1;
      FinalizersSplit(bs[..n], f);
      var s := Survivors(bs);
      if bs[n].mark { assert s[..|s| - 1] == Survivors(bs[..n]); } else { assert s == Survivors(bs[..n]); }
    }
  }

  /** Finalizers are called in the order of the blocks. */
  lemma {:induction false} FinalizersInOrder(a: seq<Block>, b: seq<Block>)
    ensures Finalized(a + b) == Finalized(a) + Finalized(b)
    decreases |b|
  {
    if b == [] {
      assert a + b == a;
    } else {
      var n := |b| - 1;
      assert (a + b)[..|a + b| - 1] == a + b[..n];
      FinalizersInOrder(a, b[..n]);
    }
  }

  // ---------------------------------------------------------------- the sweep's count

  function FreeWords(bs: seq<Block>): nat {
    if bs == [] then 0 else
      var n := |bs| - 1;
      FreeWords(bs[..n]) + if bs[n].alloc then 0 else bs[n].size
  }

  lemma AppendFreeWords(done: seq<Block>, b: Block)
    ensures FreeWords(Append(done, b)) ==
      FreeWords(done) + (if b.alloc then 0 else b.size) + (if Merges(done, b) then BLOCK_SIZE else 0)
  {
    var r := Append(done, b);
    if Merges(done, b) {
      assert r[..|r| - 1] == done[..|done| - 1];
    } else {
      assert r[..|r| - 1] == done;
    }
  }

  /** The count is what the free payload grew by. */
  lemma {:induction false} FreedIsGrowth(bs: seq<Block>)
    requires MarksAreAllocated(bs)
    ensures FreeWords(Sweep(bs)) == FreeWords(bs) + Freed(bs)
  {
    if bs != [] {
      var n := |bs| - 1;
      FreedIsGrowth(bs[..n]);
      AppendFreeWords(Sweep(bs[..n]), Released(bs[n]));
    }
  }

  function Unmarked(bs: seq<Block>): (r: seq<Block>)
    ensures |r| == |bs|
    ensures forall i :: 0 <= i < |r| ==> r[i] == bs[i].(mark := false)
  {
    seq(|bs|, i requires 0 <= i < |bs| => bs[i].(mark := false))
  }

  /** A sweep that counts nothing changes nothing but the marks. */
  lemma {:induction false} NothingFreed(bs: seq<Block>)
    requires MarksAreAllocated(bs) && Freed(bs) == 0 && forall i :: 0 <= i < |bs| ==> bs[i].size >= 1
    ensures Sweep(bs) == Unmarked(bs)
  {
    if bs != [] {
      var n := |bs| - 1;
      NothingFreed(bs[..n]);
      assert Unmarked(bs) == Unmarked(bs[..n]) + [bs[n].(mark := false)];
    }
  }

  // ---------------------------------------------------------------- the early return

  /** The count as markAndSweep returns it: an int. */
  function AsInt(n: nat): int {
    var w := n % 0x1_0000_0000;
    if w < 0x8000_0000 then w else w - 0x1_0000_0000
  }

  /** The first block is in use, with at least `least` words, and stays; or it is the only one
      and free. */
  predicate FirstStays(bs: seq<Block>, least: nat) {
    bs != [] && ((bs[0].mark && bs[0].size >= least) || (|bs| == 1 && !bs[0].alloc))
  }

  lemma {:induction false} FreeWordsBound(bs: seq<Block>, lo: nat, hi: nat)
    requires Tiles(bs, lo, hi) && bs != []
    ensures FreeWords(bs) + BLOCK_SIZE * |bs| + (if bs[0].alloc then bs[0].size else 0) <= hi - lo
  {
    var n := |bs| - 1;
    TilesCut(bs, n, lo, hi);
    TilesNext(bs, n, lo, hi);
    if n > 0 { FreeWordsBound(bs[..n], lo, bs[n].start); }
  }

  lemma {:induction false} SweepFirst(bs: seq<Block>)
    requires bs != [] && bs[0].mark && MarksAreAllocated(bs)
    ensures Sweep(bs) != [] && Sweep(bs)[0] == bs[0].(mark := false)
  {
    var n := |bs| - 1;
    if n > 0 { SweepFirst(bs[..n]); }
  }

  /** What is freed leaves a header; two headers and the first block, if that stays. */
  lemma FreedBound(bs: seq<Block>, hi: nat, least: nat)
    requires Tiles(bs, 0, hi) && MarksAreAllocated(bs)
    ensures Freed(bs) == 0 || Freed(bs) + BLOCK_SIZE <= hi
    ensures FirstStays(bs, least) ==> Freed(bs) == 0 || Freed(bs) + 2 * BLOCK_SIZE + least <= hi
  {
    var cs := Sweep(bs);
    FreedIsGrowth(bs);
    SweepTiles(bs, 0, hi);
    if cs != [] { FreeWordsBound(cs, 0, hi); }
    if FirstStays(bs, least) {
      if bs[0].mark { SweepFirst(bs); }
      assert cs[..0] == [] && bs[..0] == [];
    }
  }

  const TWO32 := 0x1_0000_0000

  /** Giving up when the count is zero loses nothing, the search would fail again, on every heap
      of fewer than 2^32 words and a header, or two headers and the first block if that stays. */
  lemma ZeroCountMeansNoFit(bs: seq<Block>, need: Word, hi: nat, least: nat)
    requires Tiles(bs, 0, hi) && MarksAreAllocated(bs)
    requires hi < TWO32 + BLOCK_SIZE || (FirstStays(bs, least) && hi < TWO32 + 2 * BLOCK_SIZE + least)
    requires FirstFit(bs, need) == |bs| && AsInt(Freed(bs)) == 0
    ensures Sweep(bs) == Unmarked(bs) && FirstFit(Sweep(bs), need) == |Sweep(bs)|
  {
    FreedBound(bs, hi, least);
    assert Freed(bs) == 0;
    forall i | 0 <= i < |bs| ensures bs[i].size >= 1 { TilesApart(bs, i, i, 0, hi); }
    NothingFreed(bs);
  }

  /** The first block takes what is more than 2^32 words; the second is alone with them. */
  function TwoBlocks(hi: nat, alloc: bool): seq<Block>
    requires hi >= TWO32 + 2 * BLOCK_SIZE
  {
    var first := hi - TWO32 - 2 * BLOCK_SIZE;
    [Block(0, first, true, false, 0), Block(BLOCK_SIZE + first, TWO32, alloc, false, 0)]
  }

  /** On every heap that is larger the int can lose the count: 2^32 words are freed, zero is
      returned, and the search would succeed. */
  lemma LargeCountIsLost(hi: nat, least: nat)
    requires least >= 1 && hi >= TWO32 + 2 * BLOCK_SIZE + least
    ensures var bs := TwoBlocks(hi, true)[0 := TwoBlocks(hi, true)[0].(mark := true)];
      && Tiles(bs, 0, hi) && MarksAreAllocated(bs) && FirstStays(bs, least)
      && Sweep(bs) == TwoBlocks(hi, false) && Freed(bs) == TWO32 && AsInt(Freed(bs)) == 0
      && FirstFit(bs, Need(100)) == 2 && FirstFit(Sweep(bs), Need(100)) == 1
  {
    var bs := TwoBlocks(hi, true)[0 := TwoBlocks(hi, true)[0].(mark := true)];
    var a, b := bs[0], bs[1];
    assert bs[1..] == [b] && [b][1..] == [] && bs[..1] == [a] && [a][..0] == [];
    assert Freed([a]) == Freed([a][..0]) + Counted(Sweep([a][..0]), a);
    assert Sweep([a]) == [a.(mark := false)] && Freed([a]) == 0;
    assert Sweep(bs) == TwoBlocks(hi, false);
    assert Sweep(bs)[1..] == [b.(alloc := false)];
    assert FirstFit([b], Need(100)) == 1 && FirstFit([b.(alloc := false)], Need(100)) == 0;
  }
}
