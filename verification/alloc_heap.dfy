/** The heap's memory: block headers among the words, pointers into blocks, and the chains of
    words that the marking phase follows. */
module AllocHeap {
  import opened AllocBlocks
  import opened Finite

  // ---------------------------------------------------------------- headers

  type Memory = seq<Word>

  /** Where block i's next field points; a null pointer is zero. */
  function Next(base: Word, bs: seq<Block>, i: nat): int {
    if i + 1 < |bs| then base + bs[i + 1].start else 0
  }

  function Info(b: Block): Word { InfoMake(b.alloc, b.mark, b.size % TWO62) }

  lemma InfoFields(b: Block)
    requires b.size < TWO62
    ensures IsAlloc(Info(b)) == b.alloc && IsMarked(Info(b)) == b.mark && SizeOf(Info(b)) == b.size
  {
    InfoRoundTrip(0, b.alloc, b.mark, b.size);
  }

  predicate HeaderAt(mem: Memory, b: Block, next: int) {
    && b.End() <= |mem|
    && mem[b.start] == Info(b)
    && mem[b.start + 1] == next && mem[b.start + 2] == b.fin
  }

  /** The memory holds the list bs. */
  ghost predicate Rep(mem: Memory, base: Word, bs: seq<Block>) {
    && 0 < base && base + |mem| < TWO62 / 2 && |mem| > 0
    && Tiles(bs, 0, |mem|)
    && forall i {:trigger Next(base, bs, i)} :: 0 <= i < |bs| ==> HeaderAt(mem, bs[i], Next(base, bs, i))
  }

  lemma RepBounds(mem: Memory, base: Word, bs: seq<Block>, i: nat)
    requires Rep(mem, base, bs) && i < |bs|
    ensures bs[i].size >= 1 && bs[i].End() <= |mem|
    ensures var info := mem[bs[i].start];
      IsAlloc(info) == bs[i].alloc && IsMarked(info) == bs[i].mark && SizeOf(info) == bs[i].size
  {
    assert HeaderAt(mem, bs[i], Next(base, bs, i));
    TilesApart(bs, i, i, 0, |mem|);
    InfoFields(bs[i]);
  }

  lemma OneBlock(mem: Memory, base: Word, b: Block)
    requires 0 < base && base + |mem| < TWO62 / 2 && b.start == 0 && b.size >= 1 && b.End() == |mem|
    requires mem[0] == InfoMake(b.alloc, b.mark, b.size) && mem[1] == 0 && mem[2] == b.fin
    ensures Rep(mem, base, [b])
  {
    InfoIs(b);
    assert [b][1..] == [];
  }

  lemma NoRoom(mem: Memory, base: Word, bs: seq<Block>)
    requires |mem| <= BLOCK_SIZE
    ensures !Rep(mem, base, bs)
  {
    if Rep(mem, base, bs) { TilesApart(bs, 0, 0, 0, |mem|); }
  }

  /** The one block of a fresh heap. */
  lemma FreshRep(mem: Memory, base: Word, b: Block)
    requires 0 < base && base + |mem| < TWO62 / 2 && b.start == 0 && (|mem| > BLOCK_SIZE ==> b.End() == |mem|)
    requires |mem| > BLOCK_SIZE ==> mem[0] == InfoMake(b.alloc, b.mark, b.size) && mem[1] == 0 && mem[2] == b.fin
    ensures Rep(mem, base, [b]) <==> |mem| > BLOCK_SIZE
  {
    if |mem| > BLOCK_SIZE { OneBlock(mem, base, b); } else { NoRoom(mem, base, [b]); }
  }

  predicate SameOutside(mem: Memory, mem': Memory, lo: nat, hi: nat) {
    |mem| == |mem'| && forall k :: 0 <= k < |mem| && !(lo <= k < hi) ==> mem'[k] == mem[k]
  }

  /** A change within block i leaves the other headers alone. */
  lemma OtherHeader(mem: Memory, mem': Memory, bs: seq<Block>, i: nat, j: nat, next: int)
    requires Tiles(bs, 0, |mem|) && i < |bs| && j < |bs| && i != j
    requires SameOutside(mem, mem', bs[i].start, bs[i].End()) && HeaderAt(mem, bs[j], next)
    ensures HeaderAt(mem', bs[j], next)
  {
    if j < i { TilesApart(bs, j, i, 0, |mem|); } else { TilesApart(bs, i, j, 0, |mem|); }
  }

  /** Block i gets a new info or finalizer word. */
  lemma ReplaceBlock(mem: Memory, mem': Memory, base: Word, bs: seq<Block>, i: nat, b: Block)
    requires Rep(mem, base, bs) && i < |bs| && b.start == bs[i].start && b.size == bs[i].size
    requires SameOutside(mem, mem', b.start, b.start + BLOCK_SIZE)
    requires HeaderAt(mem', b, Next(base, bs, i))
    ensures Rep(mem', base, bs[i := b])
  {
    var bs' := bs[i := b];
    TilesReplace(bs, i, [b], |mem|);
    assert bs' == bs[..i] + [b] + bs[i + 1..];
    TilesApart(bs, i, i, 0, |mem|);
    assert ([b] + bs[i + 1..])[1..] == bs[i + 1..];
    forall j | 0 <= j < |bs| ensures HeaderAt(mem', bs'[j], Next(base, bs', j)) {
      if j != i {
        OtherHeader(mem, mem', bs, i, j, Next(base, bs, j));
      }
    }
  }

  function WithBits(bs: seq<Block>, i: nat, alloc: bool, mark: bool): seq<Block>
    requires i < |bs|
  {
    bs[i := bs[i].(alloc := alloc, mark := mark)]
  }

  lemma InfoIs(b: Block)
    requires b.size < TWO62
    ensures Info(b) == InfoMake(b.alloc, b.mark, b.size)
  {}

  /** Block i gets new bits. */
  lemma BitsRep(mem: Memory, base: Word, bs: seq<Block>, i: nat, alloc: bool, mark: bool)
    requires Rep(mem, base, bs) && i < |bs|
    ensures bs[i].End() <= |mem| < TWO62
    ensures var b := bs[i].(alloc := alloc, mark := mark);
      Info(b) == InfoMake(alloc, mark, b.size) && Rep(mem[b.start := Info(b)], base, WithBits(bs, i, alloc, mark))
  {
    RepBounds(mem, base, bs, i);
    assert HeaderAt(mem, bs[i], Next(base, bs, i));
    var b := bs[i].(alloc := alloc, mark := mark);
    InfoIs(b);
    ReplaceBlock(mem, mem[b.start := Info(b)], base, bs, i, b);
  }

  function Merged(bs: seq<Block>, i: nat): seq<Block>
    requires i + 1 < |bs|
  {
    bs[..i] + [bs[i].(size := bs[i].size + BLOCK_SIZE + bs[i + 1].size)] + bs[i + 2..]
  }

  lemma MergedTiles(bs: seq<Block>, i: nat, hi: nat)
    requires Tiles(bs, 0, hi) && i + 1 < |bs|
    ensures Tiles(Merged(bs, i), 0, hi)
  {
    var m := bs[i].(size := bs[i].size + BLOCK_SIZE + bs[i + 1].size);
    TilesApart(bs, i, i, 0, hi);
    TilesApart(bs, i + 1, i + 1, 0, hi);
    TilesNext(bs, i, 0, hi);
    TilesCut(bs, i, 0, hi);
    TilesCut(bs, i + 1, 0, hi);
    assert bs[i + 1..][1..] == bs[i + 2..];
    assert ([m] + bs[i + 2..])[1..] == bs[i + 2..];
    TilesConcat(bs[..i], [m] + bs[i + 2..], 0, bs[i].start, hi);
    assert Merged(bs, i) == bs[..i] + ([m] + bs[i + 2..]);
  }

  lemma MergedSize(mem: Memory, base: Word, bs: seq<Block>, i: nat)
    requires Rep(mem, base, bs) && i + 1 < |bs|
    ensures var b := Merged(bs, i)[i]; b.End() <= |mem| < TWO62 && Info(b) == InfoMake(b.alloc, b.mark, b.size)
  {
    TilesNext(bs, i, 0, |mem|);
    TilesApart(bs, i, i + 1, 0, |mem|);
    InfoIs(Merged(bs, i)[i]);
  }

  lemma MergedHeader(mem': Memory, base: Word, bs: seq<Block>, i: nat)
    requires i + 1 < |bs|
    requires var b := Merged(bs, i)[i];
      && b.End() <= |mem'| && mem'[b.start] == InfoMake(b.alloc, b.mark, b.size % TWO62)
      && mem'[b.start + 1] == Next(base, bs, i + 1) && mem'[b.start + 2] == b.fin
    ensures HeaderAt(mem', Merged(bs, i)[i], Next(base, bs, i + 1))
  {}

  /** Block i swallows block i + 1. */
  lemma MergeBlocks(mem: Memory, mem': Memory, base: Word, bs: seq<Block>, i: nat)
    requires Rep(mem, base, bs) && i + 1 < |bs|
    requires SameOutside(mem, mem', bs[i].start, bs[i].start + BLOCK_SIZE)
    requires HeaderAt(mem', Merged(bs, i)[i], Next(base, bs, i + 1))
    ensures Rep(mem', base, Merged(bs, i))
  {
    var bs' := Merged(bs, i);
    MergedTiles(bs, i, |mem|);
    forall j | 0 <= j < |bs'| ensures HeaderAt(mem', bs'[j], Next(base, bs', j)) {
      if j < i {
        assert bs'[j] == bs[j] && Next(base, bs', j) == Next(base, bs, j);
        OtherHeader(mem, mem', bs, i, j, Next(base, bs, j));
      } else if j > i {
        assert bs'[j] == bs[j + 1] && Next(base, bs', j) == Next(base, bs, j + 1);
        OtherHeader(mem, mem', bs, i, j + 1, Next(base, bs, j + 1));
      }
    }
  }

  /** A block that is not replaced by the pieces ps keeps its header. */
  lemma SplicedHeader(mem: Memory, mem': Memory, base: Word, bs: seq<Block>, i: nat, ps: seq<Block>, j: nat)
    requires Rep(mem, base, bs) && i < |bs| && ps != [] && ps[0].start == bs[i].start
    requires SameOutside(mem, mem', bs[i].start, bs[i].End())
    ensures var cs := bs[..i] + ps + bs[i + 1..];
      j < i || i + |ps| <= j < |cs| ==> HeaderAt(mem', cs[j], Next(base, cs, j))
  {
    var cs := bs[..i] + ps + bs[i + 1..];
    if j < i {
      assert cs[j] == bs[j] && Next(base, cs, j) == Next(base, bs, j);
      OtherHeader(mem, mem', bs, i, j, Next(base, bs, j));
    } else if i + |ps| <= j < |cs| {
      var k := j - |ps| + 1;
      assert cs[j] == bs[k] && Next(base, cs, j) == Next(base, bs, k);
      OtherHeader(mem, mem', bs, i, k, Next(base, bs, k));
    }
  }

  /** Block i is taken for a request that it has room for. */
  lemma CarveRep(mem: Memory, mem': Memory, base: Word, bs: seq<Block>, i: nat, size: Word, fin: Word)
    requires Rep(mem, base, bs) && i == FirstFit(bs, Need(size)) < |bs| && size <= bs[i].size
    requires SameOutside(mem, mem', bs[i].start, bs[i].End())
    requires var cs := Carve(bs, i, size, fin);
      forall j {:trigger Next(base, cs, j)} :: i <= j < i + |Pieces(bs[i], size, fin)| ==> HeaderAt(mem', cs[j], Next(base, cs, j))
    ensures Rep(mem', base, Carve(bs, i, size, fin))
  {
    var cs := Carve(bs, i, size, fin);
    CarveTilesIffBigEnough(bs, i, size, fin, |mem|);
    forall j | 0 <= j < |cs| ensures HeaderAt(mem', cs[j], Next(base, cs, j)) {
      SplicedHeader(mem, mem', base, bs, i, Pieces(bs[i], size, fin), j);
    }
  }

  /** The pieces of block i, and their headers. */
  lemma PiecesOf(base: Word, bs: seq<Block>, i: nat, size: Word, fin: Word)
    requires i < |bs| && size <= bs[i].size < TWO62
    ensures var b, ps, cs := bs[i], Pieces(bs[i], size, fin), Carve(bs, i, size, fin);
      if b.size - size >= BLOCK_SIZE + 1 then
        && |ps| == 2 && cs[i] == ps[0] == Block(b.start, size, true, false, fin)
        && cs[i + 1] == ps[1] == Block(ps[0].End(), b.size - size - BLOCK_SIZE, false, false, 0)
        && Next(base, cs, i) == base + ps[0].End() && Next(base, cs, i + 1) == Next(base, bs, i)
      else
        && |ps| == 1 && cs[i] == ps[0] == Block(b.start, b.size, true, false, fin)
        && Next(base, cs, i) == Next(base, bs, i)
  {
    var b := bs[i];
    assert Wrap(b.size - size) == b.size - size;
  }

  /** The block keeps its size. */
  lemma WholeRep(mem: Memory, mem': Memory, base: Word, bs: seq<Block>, i: nat, size: Word, fin: Word)
    requires Rep(mem, base, bs) && i == FirstFit(bs, Need(size)) < |bs| && size <= bs[i].size < size + BLOCK_SIZE + 1
    requires bs[i].End() <= |mem| && SameOutside(mem, mem', bs[i].start, bs[i].End())
    requires var o := bs[i].start;
      mem'[o] == InfoMake(true, false, bs[i].size) && mem'[o + 1] == Next(base, bs, i) && mem'[o + 2] == fin
    ensures Rep(mem', base, Carve(bs, i, size, fin))
  {
    PiecesOf(base, bs, i, size, fin);
    InfoIs(Pieces(bs[i], size, fin)[0]);
    CarveRep(mem, mem', base, bs, i, size, fin);
  }

  /** The words of the two headers when the block is cut in two. */
  predicate TwoHeaders(mem: Memory, base: Word, bs: seq<Block>, i: nat, size: Word, fin: Word)
    requires i < |bs| && size + BLOCK_SIZE + 1 <= bs[i].size && bs[i].End() <= |mem| < TWO62
  {
    var o, n := bs[i].start, bs[i].start + BLOCK_SIZE + size;
    && mem[o] == InfoMake(true, false, size) && mem[o + 1] == base + n && mem[o + 2] == fin
    && mem[n] == InfoMake(false, false, bs[i].size - size - BLOCK_SIZE)
    && mem[n + 1] == Next(base, bs, i) && mem[n + 2] == 0
  }

  lemma SplitHeaders(mem: Memory, base: Word, bs: seq<Block>, i: nat, size: Word, fin: Word)
    requires i < |bs| && size + BLOCK_SIZE + 1 <= bs[i].size && bs[i].End() <= |mem| < TWO62
    requires TwoHeaders(mem, base, bs, i, size, fin)
    ensures var cs := Carve(bs, i, size, fin);
      && |Pieces(bs[i], size, fin)| == 2 && |cs| == |bs| + 1
      && HeaderAt(mem, cs[i], Next(base, cs, i)) && HeaderAt(mem, cs[i + 1], Next(base, cs, i + 1))
  {
    PiecesOf(base, bs, i, size, fin);
    InfoIs(Pieces(bs[i], size, fin)[0]);
    InfoIs(Pieces(bs[i], size, fin)[1]);
  }

  lemma SplitRep(mem: Memory, mem': Memory, base: Word, bs: seq<Block>, i: nat, size: Word, fin: Word)
    requires Rep(mem, base, bs) && i == FirstFit(bs, Need(size)) < |bs| && size <= bs[i].size
    requires SameOutside(mem, mem', bs[i].start, bs[i].End()) && |Pieces(bs[i], size, fin)| == 2
    requires var cs := Carve(bs, i, size, fin);
      HeaderAt(mem', cs[i], Next(base, cs, i)) && HeaderAt(mem', cs[i + 1], Next(base, cs, i + 1))
    ensures Rep(mem', base, Carve(bs, i, size, fin))
  {
    CarveRep(mem, mem', base, bs, i, size, fin);
  }

  /** Memory after a split of block i that is too small for the request, in unsigned words. */
  function Overwritten(mem: Memory, base: Word, bs: seq<Block>, i: nat, size: Word, fin: Word): seq<int>
    requires i < |bs| && bs[i].start + BLOCK_SIZE + size + 2 < |mem|
  {
    var o, n := bs[i].start, bs[i].start + BLOCK_SIZE + size;
    var words: seq<int> := mem;
    words[n := InfoMake(false, false, Wrap(bs[i].size - size - BLOCK_SIZE))][n + 1 := Next(base, bs, i)][n + 2 := 0]
         [o := InfoMake(true, false, size)][o + 1 := base + n][o + 2 := fin]
  }

  // ---------------------------------------------------------------- pointers into blocks

  /** The first block that starts at or after o. */
  function Seek(bs: seq<Block>, o: int): (r: nat)
    ensures r <= |bs| && (r < |bs| ==> bs[r].start >= o)
    ensures forall j :: 0 <= j < r ==> bs[j].start < o
  {
    if bs == [] || bs[0].start >= o then 0
    else
      var r := Seek(bs[1..], o);
      assert forall j :: 1 <= j < r + 1 ==> bs[j] == bs[1..][j - 1];
      r + 1
  }

  /** The block getBlock finds for a pointer at distance o from the heap's first word, or -1. */
  function Locate(bs: seq<Block>, o: int): int {
    var r := Seek(bs, o);
    if r == |bs| then -1 else if r == 0 then 0 else r - 1
  }

  /** getBlock gives the block that starts strictly before the pointer and ends at or after
      it; the heap's first word is given to the first block.  It never gives the last block of
      several, and nothing at all beyond the last block's first word. */
  lemma LocateMeaning(bs: seq<Block>, hi: nat, o: nat, i: nat)
    requires Tiles(bs, 0, hi) && i < |bs|
    ensures Locate(bs, o) == i <==> (i + 1 < |bs| && bs[i].start < o <= bs[i].End()) || (i == 0 && o == 0)
    ensures Locate(bs, o) == -1 <==> bs[|bs| - 1].start < o
  {
    TilesNext(bs, i, 0, hi);
    TilesNext(bs, 0, 0, hi);
    var r, n := Seek(bs, o), |bs| - 1;
    if r < n { TilesApart(bs, r, n, 0, hi); }
    if i + 1 < |bs| {
      if r < i { TilesApart(bs, r, i, 0, hi); }
      if i + 1 < r < |bs| { TilesApart(bs, i + 1, r, 0, hi); }
    }
    if 0 < r <= n && r - 1 == i { assert bs[i].start < o; }
  }

  /** A pointer to any payload word of a block that is not last finds that block. */
  lemma PayloadIsLocated(bs: seq<Block>, hi: nat, i: nat, k: nat)
    requires Tiles(bs, 0, hi) && i + 1 < |bs| && k < bs[i].size
    ensures Locate(bs, bs[i].start + BLOCK_SIZE + k) == i
  {
    LocateMeaning(bs, hi, bs[i].start + BLOCK_SIZE + k, i);
  }

  lemma {:induction false} SeekSame(bs: seq<Block>, bs': seq<Block>, o: int)
    requires |bs| == |bs'| && forall i :: 0 <= i < |bs| ==> bs[i].start == bs'[i].start
    ensures Seek(bs, o) == Seek(bs', o)
  {
    if bs != [] { SeekSame(bs[1..], bs'[1..], o); }
  }

  // ---------------------------------------------------------------- chains of words

  /** The heap's address, and the words the collector may read outside the heap. */
  datatype World = World(base: Word, outside: map<Word, Word>)

  predicate Apart(world: World, total: nat) {
    && 0 < world.base && world.base + total < TWO62
    && forall a :: a in world.outside ==> 0 < a < TWO62 && !(world.base <= a < world.base + total)
  }

  predicate InHeap(world: World, mem: Memory, w: Word) {
    world.base <= w < world.base + |mem|
  }

  predicate Readable(world: World, mem: Memory, w: Word) {
    InHeap(world, mem, w) || w in world.outside
  }

  function Read(world: World, mem: Memory, w: Word): Word
    requires Readable(world, mem, w)
  {
    if InHeap(world, mem, w) then mem[w - world.base] else world.outside[w]
  }

  /** The word after n dereferences of w; zero once a word is not an address. */
  function Chain(world: World, mem: Memory, w: Word, n: nat): Word
    decreases n
  {
    if !Readable(world, mem, w) then 0
    else if n == 0 then w
    else Chain(world, mem, Read(world, mem, w), n - 1)
  }

  function Owner(world: World, mem: Memory, bs: seq<Block>, w: Word): int
    requires InHeap(world, mem, w)
  {
    Locate(bs, w - world.base)
  }

  ghost predicate Ends(world: World, mem: Memory, w: Word) {
    exists n: nat :: Chain(world, mem, w, n) == 0
  }

  /** The nth word of w's chain points into block i; with i == -1, into no block. */
  predicate HitsAt(world: World, mem: Memory, bs: seq<Block>, w: Word, n: nat, i: int) {
    var c := Chain(world, mem, w, n);
    InHeap(world, mem, c) && Owner(world, mem, bs, c) == i
  }

  ghost predicate Hits(world: World, mem: Memory, bs: seq<Block>, w: Word, i: int) {
    exists n: nat :: HitsAt(world, mem, bs, w, n, i)
  }

  lemma NullChain(world: World, mem: Memory, bs: seq<Block>, w: Word, i: int)
    requires !Readable(world, mem, w) && Apart(world, |mem|)
    ensures Ends(world, mem, w) && !Hits(world, mem, bs, w, i)
  {
    assert Chain(world, mem, w, 0) == 0;
  }

  /** What chasing a word comes to: a block to mark, no such block, a heap word outside every
      block, or no end within the given number of dereferences. */
  datatype Chase = Found(i: nat) | Nothing | Missing | Exhausted

  function Search(world: World, mem: Memory, bs: seq<Block>, w: Word, left: nat): (r: Chase)
    ensures r.Found? ==> r.i < |bs| && bs[r.i].alloc && !bs[r.i].mark
    decreases left
  {
    if !Readable(world, mem, w) then Nothing
    else if left == 0 then Exhausted
    else if InHeap(world, mem, w) then
      var i := Owner(world, mem, bs, w);
      if i < 0 then Missing
      else if bs[i].alloc && !bs[i].mark then Found(i)
      else Search(world, mem, bs, Read(world, mem, w), left - 1)
    else Search(world, mem, bs, Read(world, mem, w), left - 1)
  }

  lemma HitsLater(world: World, mem: Memory, bs: seq<Block>, w: Word, i: int)
    requires Readable(world, mem, w) && Hits(world, mem, bs, Read(world, mem, w), i)
    ensures Hits(world, mem, bs, w, i)
  {
    var n: nat :| HitsAt(world, mem, bs, Read(world, mem, w), n, i);
    assert HitsAt(world, mem, bs, w, n + 1, i);
  }

  /** Found and Missing name a block, or the lack of one, on the chain. */
  lemma {:induction false} SearchHits(world: World, mem: Memory, bs: seq<Block>, w: Word, left: nat)
    ensures var r := Search(world, mem, bs, w, left);
      && (r.Found? ==> Hits(world, mem, bs, w, r.i))
      && (r.Missing? ==> Hits(world, mem, bs, w, -1))
    decreases left
  {
    if Readable(world, mem, w) && left > 0 {
      if InHeap(world, mem, w) { assert HitsAt(world, mem, bs, w, 0, Owner(world, mem, bs, w)); }
      SearchHits(world, mem, bs, Read(world, mem, w), left - 1);
      if Search(world, mem, bs, w, left) == Search(world, mem, bs, Read(world, mem, w), left - 1) {
        var r := Search(world, mem, bs, w, left);
        if r.Found? && Hits(world, mem, bs, Read(world, mem, w), r.i) { HitsLater(world, mem, bs, w, r.i); }
        if r.Missing? { HitsLater(world, mem, bs, w, -1); }
      }
    }
  }

  /** Nothing means that the chain ends and all allocated blocks on it are marked. */
  lemma {:induction false} SearchNothing(world: World, mem: Memory, bs: seq<Block>, w: Word, left: nat, n: nat, i: int)
    requires Search(world, mem, bs, w, left) == Nothing && Apart(world, |mem|)
    ensures Ends(world, mem, w)
    ensures HitsAt(world, mem, bs, w, n, i) ==> 0 <= i < |bs| && (bs[i].alloc ==> bs[i].mark)
    decreases left
  {
    if Readable(world, mem, w) {
      var v := Read(world, mem, w);
      SearchNothing(world, mem, bs, v, left - 1, if n == 0 then 0 else n - 1, i);
      var m: nat :| Chain(world, mem, v, m) == 0;
      assert Chain(world, mem, w, m + 1) == 0;
    } else {
      assert Chain(world, mem, w, 0) == 0;
    }
  }

  lemma {:induction false} SearchExhausted(world: World, mem: Memory, bs: seq<Block>, w: Word, left: nat, n: nat)
    requires Search(world, mem, bs, w, left) == Exhausted && n <= left && Apart(world, |mem|)
    ensures Chain(world, mem, w, n) != 0
    decreases left
  {
    if n > 0 { SearchExhausted(world, mem, bs, Read(world, mem, w), left - 1, n - 1); }
  }

  // ---------------------------------------------------------------- endless chains

  lemma {:induction false} ChainSplit(world: World, mem: Memory, w: Word, a: nat, b: nat)
    requires Apart(world, |mem|)
    ensures Chain(world, mem, w, a + b) == Chain(world, mem, Chain(world, mem, w, a), b)
    ensures Chain(world, mem, w, a) == 0 || Readable(world, mem, Chain(world, mem, w, a))
    decreases a
  {
    if Readable(world, mem, w) && a > 0 { ChainSplit(world, mem, Read(world, mem, w), a - 1, b); }
  }

  /** A chain that comes back to a word goes on for ever. */
  lemma {:induction false} ChainRepeats(world: World, mem: Memory, w: Word, a: nat, b: nat, n: nat)
    requires Apart(world, |mem|) && a < b
    requires Chain(world, mem, w, a) == Chain(world, mem, w, b) != 0
    ensures Chain(world, mem, w, n) != 0
    decreases n
  {
    if n < b {
      ChainSplit(world, mem, w, n, b - n);
    } else {
      ChainRepeats(world, mem, w, a, b, n - (b - a));
      ChainSplit(world, mem, w, b, n - b);
      ChainSplit(world, mem, w, a, n - b);
    }
  }

  function Range(lo: nat, n: nat): set<int> {
    if n == 0 then {} else Range(lo, n - 1) + {lo + n - 1}
  }

  lemma {:induction false} RangeMembers(lo: nat, n: nat)
    ensures |Range(lo, n)| == n && forall a :: a in Range(lo, n) <==> lo <= a < lo + n
  {
    if n > 0 { RangeMembers(lo, n - 1); }
  }

  /** More dereferences than any chain without a cycle has. */
  function Limit(world: World, total: nat): nat { total + |world.outside| }

  /** So many words of a chain cannot all be different. */
  lemma LongChainRepeats(world: World, mem: Memory, w: Word, n: nat) returns (i: nat, j: nat)
    requires Apart(world, |mem|) && n == Limit(world, |mem|) + 1
    requires forall k :: 0 <= k < n ==> Readable(world, mem, Chain(world, mem, w, k))
    ensures i < j < n && Chain(world, mem, w, i) == Chain(world, mem, w, j)
  {
    var walk := seq(n, k requires 0 <= k < n => Chain(world, mem, w, k) as int);
    var outside: set<int> := world.outside.Keys;
    var range := Range(world.base, |mem|);
    RangeMembers(world.base, |mem|);
    i, j := Pigeonhole(walk, range + outside);
    assert walk[i] == walk[j];
  }

  /** A chase that is still going after Limit dereferences never ends. */
  lemma ExhaustedIsEndless(world: World, mem: Memory, bs: seq<Block>, w: Word)
    requires Apart(world, |mem|) && Search(world, mem, bs, w, Limit(world, |mem|)) == Exhausted
    ensures !Ends(world, mem, w)
  {
    var n := Limit(world, |mem|) + 1;
    forall k | 0 <= k < n ensures Chain(world, mem, w, k) != 0 && Readable(world, mem, Chain(world, mem, w, k)) {
      SearchExhausted(world, mem, bs, w, n - 1, k);
      ChainSplit(world, mem, w, k, 0);
    }
    var i, j := LongChainRepeats(world, mem, w, n);
    forall m: nat ensures Chain(world, mem, w, m) != 0 {
      ChainRepeats(world, mem, w, i, j, m);
    }
  }

  // ---------------------------------------------------------------- marking does not disturb chains

  /** The memories differ only in words that are not addresses. */
  predicate Similar(mem: Memory, mem': Memory) {
    |mem| == |mem'| && forall k :: 0 <= k < |mem| ==> mem'[k] == mem[k] || (mem[k] >= TWO62 && mem'[k] >= TWO62)
  }

  lemma {:induction false} SimilarChains(world: World, mem: Memory, mem': Memory, w: Word, n: nat)
    requires Apart(world, |mem|) && Similar(mem, mem')
    ensures Chain(world, mem', w, n) == Chain(world, mem, w, n)
    decreases n
  {
    if Readable(world, mem, w) && n > 0 {
      var v := Read(world, mem, w);
      if Read(world, mem', w) == v { SimilarChains(world, mem, mem', v, n - 1); }
    }
  }
}
