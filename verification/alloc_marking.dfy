/** Which blocks the collector marks, and why none that a program can reach is lost. */
module AllocMarking {
  import opened AllocBlocks
  import opened AllocHeap

  /** Word k of block b's payload. */
  function WordAt(mem: Memory, b: Block, k: nat): Word {
    if b.start + BLOCK_SIZE + k < |mem| then mem[b.start + BLOCK_SIZE + k] else 0
  }

  function Mark(bs: seq<Block>, i: nat): seq<Block>
    requires i < |bs|
  {
    bs[i := bs[i].(mark := true)]
  }

  // ---------------------------------------------------------------- roots

  const ITERATIONS := 100

  /** The list after the scan of the root words, or Crashed when a root leads to a heap word outside
      every block, which the collector dereferences as a null block. */
  datatype Marking = Marked(blocks: seq<Block>) | Crashed

  function MarkRoots(world: World, mem: Memory, bs: seq<Block>, roots: seq<Word>): (r: Marking)
    ensures r.Marked? ==> |r.blocks| == |bs|
    decreases |roots|
  {
    if roots == [] then Marked(bs)
    else match Search(world, mem, bs, roots[0], ITERATIONS)
      case Found(i) => MarkRoots(world, mem, Mark(bs, i), roots[1..])
      case Missing => Crashed
      case _ => MarkRoots(world, mem, bs, roots[1..])
  }

  /** The globals are scanned but for those that hold the address of the heap variable. */
  function Scanned(globals: seq<Word>, heapVar: Word): (r: seq<Word>)
    ensures forall w :: w in globals && w != heapVar ==> w in r
    ensures forall w :: w in r ==> w in globals
  {
    if globals == [] then []
    else (if globals[0] == heapVar then [] else [globals[0]]) + Scanned(globals[1..], heapVar)
  }

  // ---------------------------------------------------------------- the heap

  /** The chains of all payload words end, and every heap word on them has a block. */
  ghost predicate Scannable(world: World, mem: Memory, bs: seq<Block>) {
    forall j, k :: 0 <= j < |bs| && 0 <= k < bs[j].size ==>
      Ends(world, mem, WordAt(mem, bs[j], k)) && !Hits(world, mem, bs, WordAt(mem, bs[j], k), -1)
  }

  /** Some payload word, of whatever block, has block i on its chain. */
  ghost predicate Referenced(world: World, mem: Memory, bs: seq<Block>, i: nat) {
    exists j, k :: 0 <= j < |bs| && 0 <= k < bs[j].size && Hits(world, mem, bs, WordAt(mem, bs[j], k), i)
  }

  /** The marks after the scan of the heap. */
  ghost predicate HeapMarked(world: World, mem: Memory, bs: seq<Block>, cs: seq<Block>) {
    |cs| == |bs| && forall i :: 0 <= i < |bs| ==>
      cs[i] == bs[i].(mark := bs[i].mark || (bs[i].alloc && Referenced(world, mem, bs, i)))
  }

  // ---------------------------------------------------------------- what marks leave alone

  /** cs is bs with more allocated blocks marked. */
  predicate MoreMarks(bs: seq<Block>, cs: seq<Block>) {
    |cs| == |bs| && forall i :: 0 <= i < |bs| ==> cs[i] == bs[i] || (bs[i].alloc && cs[i] == bs[i].(mark := true))
  }

  lemma HitsSame(world: World, mem: Memory, m: Memory, bs: seq<Block>, cs: seq<Block>, w: Word, n: nat, i: int)
    requires Apart(world, |mem|) && Similar(mem, m) && MoreMarks(bs, cs)
    ensures HitsAt(world, m, cs, w, n, i) == HitsAt(world, mem, bs, w, n, i)
  {
    SimilarChains(world, mem, m, w, n);
    var c := Chain(world, mem, w, n);
    SeekSame(bs, cs, c - world.base);
  }

  lemma {:induction false} SearchSame(world: World, mem: Memory, m: Memory, bs: seq<Block>, w: Word, left: nat)
    requires Apart(world, |mem|) && Similar(mem, m)
    ensures Search(world, m, bs, w, left) == Search(world, mem, bs, w, left)
    decreases left
  {
    if Readable(world, mem, w) && left > 0 && Read(world, mem, w) == Read(world, m, w) {
      SearchSame(world, mem, m, bs, Read(world, mem, w), left - 1);
    }
  }

  // ---------------------------------------------------------------- how many are left to mark

  function Unmarkeds(bs: seq<Block>): nat {
    if bs == [] then 0 else Unmarkeds(bs[1..]) + if bs[0].alloc && !bs[0].mark then 1 else 0
  }

  lemma {:induction false} MarkCounts(bs: seq<Block>, i: nat)
    requires i < |bs| && bs[i].alloc && !bs[i].mark
    ensures Unmarkeds(Mark(bs, i)) == Unmarkeds(bs) - 1
  {
    if i == 0 {
      assert Mark(bs, i)[1..] == bs[1..];
    } else {
      assert Mark(bs, i)[1..] == Mark(bs[1..], i - 1);
      MarkCounts(bs[1..], i - 1);
    }
  }

  // ---------------------------------------------------------------- states of the heap scan

  /** A state (m, cs) of the scan that started at (mem, bs): only marks were added, each for
      a block that some payload word leads to, and no payload word changed. */
  ghost predicate Between(world: World, mem: Memory, bs: seq<Block>, m: Memory, cs: seq<Block>) {
    Marks(world.base, mem, bs, m, cs) && Justified(world, mem, bs, cs)
  }

  ghost predicate Marks(base: Word, mem: Memory, bs: seq<Block>, m: Memory, cs: seq<Block>) {
    Rep(m, base, cs) && Similar(mem, m) && MoreMarks(bs, cs) && SamePayload(mem, bs, m)
  }

  ghost predicate Justified(world: World, mem: Memory, bs: seq<Block>, cs: seq<Block>) {
    |cs| == |bs| && forall i :: 0 <= i < |bs| && cs[i] != bs[i] ==> Referenced(world, mem, bs, i)
  }

  predicate SamePayload(mem: Memory, bs: seq<Block>, m: Memory) {
    forall j, k :: 0 <= j < |bs| && 0 <= k < bs[j].size ==> WordAt(m, bs[j], k) == WordAt(mem, bs[j], k)
  }

  /** The chain of w ends, and every allocated block on it is marked. */
  ghost predicate Quiet(world: World, m: Memory, cs: seq<Block>, w: Word) {
    Ends(world, m, w) && forall n: nat, i: int :: HitsAt(world, m, cs, w, n, i) ==> 0 <= i < |cs| && (cs[i].alloc ==> cs[i].mark)
  }

  /** Block i, not marked yet, is on the chain of w. */
  ghost predicate Calls(world: World, m: Memory, cs: seq<Block>, w: Word, i: int) {
    0 <= i < |cs| && cs[i].alloc && !cs[i].mark && Hits(world, m, cs, w, i)
  }

  /** The chain of w leaves all blocks, or never ends. */
  ghost predicate Stuck(world: World, m: Memory, cs: seq<Block>, w: Word) {
    Hits(world, m, cs, w, -1) || !Ends(world, m, w)
  }

  /** What the chase of a payload word tells. */
  lemma ChaseTells(world: World, m: Memory, cs: seq<Block>, w: Word)
    requires Apart(world, |m|)
    ensures var r := Search(world, m, cs, w, Limit(world, |m|));
      && (r.Found? ==> Calls(world, m, cs, w, r.i))
      && (r.Nothing? ==> Quiet(world, m, cs, w))
      && (r.Missing? || r.Exhausted? ==> Stuck(world, m, cs, w))
  {
    var r := Search(world, m, cs, w, Limit(world, |m|));
    SearchHits(world, m, cs, w, Limit(world, |m|));
    if r.Exhausted? { ExhaustedIsEndless(world, m, cs, w); }
    if r.Nothing? { NothingIsQuiet(world, m, cs, w, Limit(world, |m|)); }
  }

  lemma NothingIsQuiet(world: World, m: Memory, cs: seq<Block>, w: Word, left: nat)
    requires Apart(world, |m|) && Search(world, m, cs, w, left) == Nothing
    ensures Quiet(world, m, cs, w)
  {
    SearchNothing(world, m, cs, w, left, 0, 0);
    forall n: nat, i: int | HitsAt(world, m, cs, w, n, i) ensures 0 <= i < |cs| && (cs[i].alloc ==> cs[i].mark) {
      SearchNothing(world, m, cs, w, left, n, i);
    }
  }

  lemma MarkSamePayload(mem: Memory, bs: seq<Block>, m: Memory, i: nat, w: Word)
    requires Tiles(bs, 0, |m|) && SamePayload(mem, bs, m) && i < |bs| && bs[i].start < |m| == |mem|
    ensures SamePayload(mem, bs, m[bs[i].start := w])
  {
    var m' := m[bs[i].start := w];
    forall j, k | 0 <= j < |bs| && 0 <= k < bs[j].size ensures WordAt(m', bs[j], k) == WordAt(m, bs[j], k) {
      if j < i { TilesApart(bs, j, i, 0, |m|); }
      if i < j { TilesApart(bs, i, j, 0, |m|); }
    }
  }

  /** Setting a mark bit. */
  lemma MarkRep(base: Word, m: Memory, cs: seq<Block>, i: nat)
    requires Rep(m, base, cs) && i < |cs| && cs[i].alloc
    ensures cs[i].End() <= |m|
    ensures var m' := m[cs[i].start := Info(cs[i].(mark := true))];
      Rep(m', base, Mark(cs, i)) && Similar(m, m')
  {
    BitsRep(m, base, cs, i, true, true);
    assert HeaderAt(m, cs[i], Next(base, cs, i));
  }

  lemma SimilarTrans(a: Memory, b: Memory, c: Memory)
    requires Similar(a, b) && Similar(b, c)
    ensures Similar(a, c)
  {}

  lemma HitsBack(world: World, mem: Memory, m: Memory, bs: seq<Block>, cs: seq<Block>, w: Word, i: int)
    requires Apart(world, |mem|) && Similar(mem, m) && MoreMarks(bs, cs) && Hits(world, m, cs, w, i)
    ensures Hits(world, mem, bs, w, i)
  {
    var n: nat :| HitsAt(world, m, cs, w, n, i);
    HitsSame(world, mem, m, bs, cs, w, n, i);
  }

  lemma TilesSame(bs: seq<Block>, cs: seq<Block>, lo: nat, hi: nat)
    requires MoreMarks(bs, cs) && Tiles(cs, lo, hi)
    ensures Tiles(bs, lo, hi)
  {
    if bs != [] { TilesSame(bs[1..], cs[1..], cs[0].End(), hi); }
  }

  lemma {:induction false} TilesMarked(bs: seq<Block>, cs: seq<Block>, lo: nat, hi: nat)
    requires MoreMarks(bs, cs) && Tiles(bs, lo, hi)
    ensures Tiles(cs, lo, hi)
  {
    if bs != [] { TilesMarked(bs[1..], cs[1..], bs[0].End(), hi); }
  }

  lemma JustifiedMark(world: World, mem: Memory, bs: seq<Block>, cs: seq<Block>, i: nat)
    requires MoreMarks(bs, cs) && Justified(world, mem, bs, cs) && i < |cs| && cs[i].alloc
    requires Referenced(world, mem, bs, i)
    ensures MoreMarks(bs, Mark(cs, i)) && Justified(world, mem, bs, Mark(cs, i))
  {}

  lemma MarksMark(base: Word, mem: Memory, bs: seq<Block>, m: Memory, cs: seq<Block>, i: nat)
    requires Marks(base, mem, bs, m, cs) && i < |cs| && cs[i].alloc
    ensures cs[i].End() <= |m|
    ensures Marks(base, mem, bs, m[cs[i].start := Info(cs[i].(mark := true))], Mark(cs, i))
  {
    MarkRep(base, m, cs, i);
    var m' := m[cs[i].start := Info(cs[i].(mark := true))];
    SimilarTrans(mem, m, m');
    TilesSame(bs, cs, 0, |m|);
    MarkSamePayload(mem, bs, m, i, Info(cs[i].(mark := true)));
  }

  /** Marking what payload word k of block j leads to is a state of the scan again. */
  lemma BetweenMark(world: World, mem: Memory, bs: seq<Block>, m: Memory, cs: seq<Block>, j: nat, k: nat, i: nat)
    requires Between(world, mem, bs, m, cs) && Apart(world, |mem|) && i < |cs| && cs[i].alloc
    requires j < |cs| && k < cs[j].size && Hits(world, m, cs, WordAt(m, cs[j], k), i)
    ensures cs[i].End() <= |m|
    ensures Between(world, mem, bs, m[cs[i].start := Info(cs[i].(mark := true))], Mark(cs, i))
  {
    PayloadHits(world, mem, bs, m, cs, j, k, i);
    ReferencedHere(world, mem, bs, j, k, i);
    JustifiedMark(world, mem, bs, cs, i);
    MarksMark(world.base, mem, bs, m, cs, i);
  }

  lemma PayloadHits(world: World, mem: Memory, bs: seq<Block>, m: Memory, cs: seq<Block>, j: nat, k: nat, i: int)
    requires Apart(world, |mem|) && Similar(mem, m) && MoreMarks(bs, cs) && SamePayload(mem, bs, m)
    requires j < |cs| && k < cs[j].size && Hits(world, m, cs, WordAt(m, cs[j], k), i)
    ensures k < bs[j].size && Hits(world, mem, bs, WordAt(mem, bs[j], k), i)
  {
    HitsBack(world, mem, m, bs, cs, WordAt(m, cs[j], k), i);
    assert WordAt(m, cs[j], k) == WordAt(mem, bs[j], k);
  }

  /** A word the scan cannot get past. */
  lemma NotScannable(world: World, mem: Memory, bs: seq<Block>, m: Memory, cs: seq<Block>, j: nat, k: nat)
    requires Marks(world.base, mem, bs, m, cs) && Apart(world, |mem|) && j < |cs| && k < cs[j].size
    requires Stuck(world, m, cs, WordAt(m, cs[j], k))
    ensures !Scannable(world, mem, bs)
  {
    var w := WordAt(m, cs[j], k);
    assert w == WordAt(mem, bs[j], k) && cs[j].size == bs[j].size;
    if Hits(world, m, cs, w, -1) {
      HitsBack(world, mem, m, bs, cs, w, -1);
    } else if Ends(world, mem, w) {
      EndsSame(world, mem, m, w);
    }
  }

  lemma EndsSame(world: World, mem: Memory, m: Memory, w: Word)
    requires Apart(world, |mem|) && Similar(mem, m) && Ends(world, mem, w)
    ensures Ends(world, m, w)
  {
    var n: nat :| Chain(world, mem, w, n) == 0;
    SimilarChains(world, mem, m, w, n);
    assert Chain(world, m, w, n) == 0;
  }

  lemma MarkFound(world: World, mem: Memory, bs: seq<Block>, m: Memory, cs: seq<Block>, j: nat, k: nat, i: nat)
    requires Between(world, mem, bs, m, cs) && Apart(world, |mem|) && j < |cs| && k < cs[j].size
    requires Calls(world, m, cs, WordAt(m, cs[j], k), i)
    ensures cs[i].End() <= |m|
    ensures Between(world, mem, bs, m[cs[i].start := Info(cs[i].(mark := true))], Mark(cs, i))
    ensures Unmarkeds(Mark(cs, i)) < Unmarkeds(cs)
  {
    BetweenMark(world, mem, bs, m, cs, j, k, i);
    MarkCounts(cs, i);
  }

  ghost predicate QuietBlock(world: World, m: Memory, cs: seq<Block>, b: Block) {
    forall k :: 0 <= k < b.size ==> Quiet(world, m, cs, WordAt(m, b, k))
  }

  ghost predicate AllQuiet(world: World, m: Memory, cs: seq<Block>, bs: seq<Block>) {
    forall j :: 0 <= j < |bs| ==> QuietBlock(world, m, cs, bs[j])
  }

  /** A scan that finds nothing more has marked exactly the referenced blocks. */
  lemma QuietIsDone(world: World, mem: Memory, bs: seq<Block>, m: Memory, cs: seq<Block>)
    requires Between(world, mem, bs, m, cs) && Apart(world, |mem|) && AllQuiet(world, m, cs, bs)
    ensures Scannable(world, mem, bs) && HeapMarked(world, mem, bs, cs)
  {
    QuietScannable(world, mem, bs, m, cs);
    forall j, k | 0 <= j < |bs| && 0 <= k < bs[j].size ensures Quiet(world, m, cs, WordAt(mem, bs[j], k)) {
      QuietPayload(world, mem, bs, m, cs, j, k);
    }
    forall i | 0 <= i < |bs| && bs[i].alloc && Referenced(world, mem, bs, i) ensures cs[i].mark {
      QuietReferenced(world, mem, bs, m, cs, i);
    }
  }

  lemma QuietPayload(world: World, mem: Memory, bs: seq<Block>, m: Memory, cs: seq<Block>, j: nat, k: nat)
    requires MoreMarks(bs, cs) && SamePayload(mem, bs, m) && AllQuiet(world, m, cs, bs) && j < |bs| && k < bs[j].size
    ensures Quiet(world, m, cs, WordAt(mem, bs[j], k))
  {
    assert QuietBlock(world, m, cs, bs[j]) && WordAt(m, bs[j], k) == WordAt(mem, bs[j], k);
  }

  lemma QuietScannable(world: World, mem: Memory, bs: seq<Block>, m: Memory, cs: seq<Block>)
    requires Apart(world, |mem|) && Similar(mem, m) && MoreMarks(bs, cs) && SamePayload(mem, bs, m)
    requires AllQuiet(world, m, cs, bs)
    ensures Scannable(world, mem, bs)
  {
    forall j, k | 0 <= j < |bs| && 0 <= k < bs[j].size
      ensures Ends(world, mem, WordAt(mem, bs[j], k)) && !Hits(world, mem, bs, WordAt(mem, bs[j], k), -1)
    {
      QuietPayload(world, mem, bs, m, cs, j, k);
      QuietWord(world, mem, bs, m, cs, WordAt(mem, bs[j], k));
    }
  }

  lemma QuietReferenced(world: World, mem: Memory, bs: seq<Block>, m: Memory, cs: seq<Block>, i: nat)
    requires Apart(world, |mem|) && Similar(mem, m) && MoreMarks(bs, cs)
    requires forall j, k :: 0 <= j < |bs| && 0 <= k < bs[j].size ==> Quiet(world, m, cs, WordAt(mem, bs[j], k))
    requires i < |bs| && bs[i].alloc && Referenced(world, mem, bs, i)
    ensures cs[i].mark
  {
    var j, k :| 0 <= j < |bs| && 0 <= k < bs[j].size && Hits(world, mem, bs, WordAt(mem, bs[j], k), i);
    QuietHit(world, mem, bs, m, cs, WordAt(mem, bs[j], k), i);
  }

  lemma QuietHit(world: World, mem: Memory, bs: seq<Block>, m: Memory, cs: seq<Block>, w: Word, i: int)
    requires Apart(world, |mem|) && Similar(mem, m) && MoreMarks(bs, cs) && Quiet(world, m, cs, w)
    requires Hits(world, mem, bs, w, i)
    ensures 0 <= i < |cs| && (cs[i].alloc ==> cs[i].mark)
  {
    var n: nat :| HitsAt(world, mem, bs, w, n, i);
    HitsSame(world, mem, m, bs, cs, w, n, i);
  }

  lemma QuietWord(world: World, mem: Memory, bs: seq<Block>, m: Memory, cs: seq<Block>, w: Word)
    requires Apart(world, |mem|) && Similar(mem, m) && MoreMarks(bs, cs) && Quiet(world, m, cs, w)
    ensures Ends(world, mem, w) && !Hits(world, mem, bs, w, -1)
  {
    var n: nat :| Chain(world, m, w, n) == 0;
    SimilarChains(world, mem, m, w, n);
    assert Chain(world, mem, w, n) == 0;
    if Hits(world, mem, bs, w, -1) {
      QuietHit(world, mem, bs, m, cs, w, -1);
    }
  }

  // ---------------------------------------------------------------- what the roots mark

  lemma {:induction false} RootsOnlyMark(world: World, mem: Memory, bs: seq<Block>, roots: seq<Word>)
    requires MarkRoots(world, mem, bs, roots).Marked?
    ensures MoreMarks(bs, MarkRoots(world, mem, bs, roots).blocks)
    decreases |roots|
  {
    if roots != [] {
      match Search(world, mem, bs, roots[0], ITERATIONS)
      case Found(i) => RootsOnlyMark(world, mem, Mark(bs, i), roots[1..]);
      case _ => RootsOnlyMark(world, mem, bs, roots[1..]);
    }
  }

  /** The list after the first root. */
  function AfterRoot(world: World, mem: Memory, bs: seq<Block>, r: Word): (cs: seq<Block>)
    ensures |cs| == |bs|
  {
    match Search(world, mem, bs, r, ITERATIONS)
    case Found(i) => Mark(bs, i)
    case _ => bs
  }

  lemma RootIsMarked(world: World, mem: Memory, bs: seq<Block>, r: Word)
    requires InHeap(world, mem, r) && !Search(world, mem, bs, r, ITERATIONS).Missing?
    ensures var o := Owner(world, mem, bs, r);
      0 <= o < |bs| && (bs[o].alloc ==> AfterRoot(world, mem, bs, r)[o].mark)
  {}

  /** Every allocated block that a root word points into is marked. */
  lemma {:induction false} RootsAreMarked(world: World, mem: Memory, bs: seq<Block>, roots: seq<Word>, r: Word)
    requires MarkRoots(world, mem, bs, roots).Marked? && r in roots && InHeap(world, mem, r)
    ensures var o := Owner(world, mem, bs, r);
      0 <= o < |bs| && (bs[o].alloc ==> MarkRoots(world, mem, bs, roots).blocks[o].mark)
    decreases |roots|
  {
    var cs := AfterRoot(world, mem, bs, roots[0]);
    FirstRoot(world, mem, bs, roots, 0);
    if r == roots[0] {
      RootIsMarked(world, mem, bs, r);
      RootsOnlyMark(world, mem, cs, roots[1..]);
    } else {
      SeekSame(bs, cs, r - world.base);
      RootsAreMarked(world, mem, cs, roots[1..], r);
    }
  }

  /** A root word that points beyond the first word of the last block is fatal: getBlock has no
      answer for it. */
  lemma LastBlockIsNotFound(world: World, mem: Memory, bs: seq<Block>, roots: seq<Word>, r: Word)
    requires Tiles(bs, 0, |mem|) && bs != [] && r in roots && InHeap(world, mem, r)
    requires bs[|bs| - 1].start < r - world.base
    ensures MarkRoots(world, mem, bs, roots) == Crashed
  {
    LocateMeaning(bs, |mem|, r - world.base, 0);
    if MarkRoots(world, mem, bs, roots).Marked? { RootsAreMarked(world, mem, bs, roots, r); }
  }

  ghost predicate Rooted(world: World, mem: Memory, bs: seq<Block>, roots: seq<Word>, i: int) {
    exists r :: r in roots && Hits(world, mem, bs, r, i)
  }

  /** The scan of one word of the globals or the stack. */
  lemma NextRoot(world: World, mem: Memory, bs: seq<Block>, words: seq<Word>, n: nat, except: Word)
    requires n < |words|
    ensures MarkRoots(world, mem, bs, Scanned(words[n..], except)) ==
      if words[n] == except then MarkRoots(world, mem, bs, Scanned(words[n + 1..], except))
      else match Search(world, mem, bs, words[n], ITERATIONS)
        case Found(i) => MarkRoots(world, mem, Mark(bs, i), Scanned(words[n + 1..], except))
        case Missing => Crashed
        case _ => MarkRoots(world, mem, bs, Scanned(words[n + 1..], except))
  {
    assert words[n..][1..] == words[n + 1..];
    var all, rest := Scanned(words[n..], except), Scanned(words[n + 1..], except);
    if words[n] == except {
      assert all == rest;
    } else {
      assert all == [words[n]] + rest && all[1..] == rest;
    }
  }

  /** Nothing else is: what the roots mark lies on the chain of a root word, and they fail only
      on a heap word outside every block. */
  lemma {:induction false} MarkedFromRoots(world: World, mem: Memory, bs: seq<Block>, roots: seq<Word>, i: nat)
    requires Apart(world, |mem|)
    ensures match MarkRoots(world, mem, bs, roots)
      case Marked(cs) => |cs| == |bs| && (i < |bs| && cs[i] != bs[i] ==> Rooted(world, mem, bs, roots, i))
      case Crashed => Rooted(world, mem, bs, roots, -1)
    decreases |roots|
  {
    if roots != [] {
      var cs := AfterRoot(world, mem, bs, roots[0]);
      FirstRoot(world, mem, bs, roots, i);
      if !Search(world, mem, bs, roots[0], ITERATIONS).Missing? {
        MarkedFromRoots(world, mem, cs, roots[1..], i);
        RootedBack(world, mem, bs, cs, roots, i);
        RootedBack(world, mem, bs, cs, roots, -1);
      }
    }
  }

  lemma FirstRoot(world: World, mem: Memory, bs: seq<Block>, roots: seq<Word>, i: nat)
    requires roots != []
    ensures var cs := AfterRoot(world, mem, bs, roots[0]);
      MoreMarks(bs, cs) && (i < |bs| && cs[i] != bs[i] ==> Rooted(world, mem, bs, roots, i))
    ensures Search(world, mem, bs, roots[0], ITERATIONS).Missing? ==> Rooted(world, mem, bs, roots, -1)
    ensures MarkRoots(world, mem, bs, roots) ==
      if Search(world, mem, bs, roots[0], ITERATIONS).Missing? then Crashed
      else MarkRoots(world, mem, AfterRoot(world, mem, bs, roots[0]), roots[1..])
  {
    SearchHits(world, mem, bs, roots[0], ITERATIONS);
  }

  lemma RootedBack(world: World, mem: Memory, bs: seq<Block>, cs: seq<Block>, roots: seq<Word>, i: int)
    requires Apart(world, |mem|) && MoreMarks(bs, cs) && roots != []
    ensures Rooted(world, mem, cs, roots[1..], i) ==> Rooted(world, mem, bs, roots, i)
  {
    if Rooted(world, mem, cs, roots[1..], i) {
      var r :| r in roots[1..] && Hits(world, mem, cs, r, i);
      HitsBack(world, mem, mem, bs, cs, r, i);
    }
  }

  // ---------------------------------------------------------------- chains, word by word

  /** Address a, of the heap or outside it, holds the word v. */
  predicate Contains(world: World, mem: Memory, a: Word, v: Word) {
    if world.base <= a < world.base + |mem| then mem[a - world.base] == v
    else a in world.outside && world.outside[a] == v
  }

  /** Each word is what the one before it points to. */
  ghost predicate WordPath(world: World, mem: Memory, ws: seq<Word>) {
    ws != [] && forall i, j :: 0 <= i && j == i + 1 < |ws| ==> Contains(world, mem, ws[i], ws[j])
  }

  /** The word points into block i. */
  predicate PointsInto(world: World, mem: Memory, bs: seq<Block>, w: Word, i: int) {
    world.base <= w < world.base + |mem| && Locate(bs, w - world.base) == i
  }

  lemma {:induction false} WordPathIsChain(world: World, mem: Memory, ws: seq<Word>, n: nat)
    requires Apart(world, |mem|) && WordPath(world, mem, ws) && n < |ws| && (n == |ws| - 1 ==> Readable(world, mem, ws[n]))
    ensures Chain(world, mem, ws[0], n) == ws[n]
    decreases n
  {
    if n > 0 {
      var rest := ws[1..];
      forall i, j | 0 <= i && j == i + 1 < |rest| ensures Contains(world, mem, rest[i], rest[j]) {
        assert Contains(world, mem, ws[i + 1], ws[j + 1]);
      }
      WordPathIsChain(world, mem, rest, n - 1);
      assert Contains(world, mem, ws[0], ws[1]);
    } else if |ws| > 1 {
      assert Contains(world, mem, ws[0], ws[1]);
    }
  }

  /** Soundness through words: an allocated block into which any payload word leads, through any
      number of words of the heap, the globals and the stack, is marked. */
  lemma WordPathIsMarked(world: World, mem: Memory, bs: seq<Block>, cs: seq<Block>, j: nat, k: nat, ws: seq<Word>, i: nat)
    requires Apart(world, |mem|) && HeapMarked(world, mem, bs, cs)
    requires j < |bs| && k < bs[j].size && WordPath(world, mem, ws) && ws[0] == WordAt(mem, bs[j], k)
    requires i < |bs| && PointsInto(world, mem, bs, ws[|ws| - 1], i) && bs[i].alloc
    ensures cs[i].mark
  {
    WordPathIsChain(world, mem, ws, |ws| - 1);
    assert HitsAt(world, mem, bs, ws[0], |ws| - 1, i);
    ReferencedHere(world, mem, bs, j, k, i);
  }

  /** The word has no block to mark: it is outside the heap, or in a block that is free or marked. */
  predicate Passes(world: World, mem: Memory, bs: seq<Block>, w: Word) {
    world.base <= w < world.base + |mem| ==>
      var o := Locate(bs, w - world.base);
      o >= 0 && (bs[o].alloc ==> bs[o].mark)
  }

  lemma {:induction false} SearchFinds(world: World, mem: Memory, bs: seq<Block>, ws: seq<Word>, i: nat, left: nat)
    requires Apart(world, |mem|) && WordPath(world, mem, ws) && |ws| <= left
    requires forall n :: 0 <= n < |ws| - 1 ==> Passes(world, mem, bs, ws[n])
    requires i < |bs| && PointsInto(world, mem, bs, ws[|ws| - 1], i) && bs[i].alloc && !bs[i].mark
    ensures Search(world, mem, bs, ws[0], left) == Found(i)
    decreases |ws|
  {
    if |ws| > 1 {
      var rest := ws[1..];
      assert Contains(world, mem, ws[0], ws[1]) && Passes(world, mem, bs, ws[0]);
      forall a, b | 0 <= a && b == a + 1 < |rest| ensures Contains(world, mem, rest[a], rest[b]) {
        assert Contains(world, mem, ws[a + 1], ws[b + 1]);
      }
      forall n | 0 <= n < |rest| - 1 ensures Passes(world, mem, bs, rest[n]) { assert Passes(world, mem, bs, ws[n + 1]); }
      SearchFinds(world, mem, bs, rest, i, left - 1);
    }
  }

  /** A root word is followed through up to a hundred words to the first block that is allocated
      and not marked, and marks it. */
  lemma RootIsFollowed(world: World, mem: Memory, bs: seq<Block>, ws: seq<Word>, i: nat)
    requires Apart(world, |mem|) && WordPath(world, mem, ws) && |ws| <= 100
    requires forall n :: 0 <= n < |ws| - 1 ==> Passes(world, mem, bs, ws[n])
    requires i < |bs| && PointsInto(world, mem, bs, ws[|ws| - 1], i) && bs[i].alloc && !bs[i].mark
    ensures MarkRoots(world, mem, bs, [ws[0]]) == Marked(bs[i := bs[i].(mark := true)])
  {
    SearchFinds(world, mem, bs, ws, i, ITERATIONS);
    assert [ws[0]][1..] == [];
  }

  /** It is not followed any further. */
  lemma {:induction false} SearchStops(world: World, mem: Memory, bs: seq<Block>, ws: seq<Word>, left: nat)
    requires Apart(world, |mem|) && WordPath(world, mem, ws) && |ws| == left + 1
    requires forall n :: 0 <= n < left ==> Passes(world, mem, bs, ws[n])
    ensures Search(world, mem, bs, ws[0], left) in {Nothing, Exhausted}
    decreases left
  {
    if left > 0 {
      var rest := ws[1..];
      assert Contains(world, mem, ws[0], ws[1]) && Passes(world, mem, bs, ws[0]);
      forall a, b | 0 <= a && b == a + 1 < |rest| ensures Contains(world, mem, rest[a], rest[b]) {
        assert Contains(world, mem, ws[a + 1], ws[b + 1]);
      }
      forall n | 0 <= n < left - 1 ensures Passes(world, mem, bs, rest[n]) { assert Passes(world, mem, bs, ws[n + 1]); }
      SearchStops(world, mem, bs, rest, left - 1);
    }
  }

  /** After a hundred words without a block to mark, a root word marks nothing. */
  lemma RootIsGivenUp(world: World, mem: Memory, bs: seq<Block>, ws: seq<Word>)
    requires Apart(world, |mem|) && WordPath(world, mem, ws) && |ws| == 101
    requires forall n :: 0 <= n < 100 ==> Passes(world, mem, bs, ws[n])
    ensures MarkRoots(world, mem, bs, [ws[0]]) == Marked(bs)
  {
    SearchStops(world, mem, bs, ws, ITERATIONS);
    assert [ws[0]][1..] == [];
  }

  // ---------------------------------------------------------------- soundness and precision

  /** Block j holds a word that points into block i. */
  ghost predicate PointsTo(world: World, mem: Memory, bs: seq<Block>, j: nat, i: nat) {
    j < |bs| && exists k :: 0 <= k < bs[j].size && Direct(world, mem, bs, WordAt(mem, bs[j], k), i)
  }

  predicate Direct(world: World, mem: Memory, bs: seq<Block>, w: Word, i: nat) {
    InHeap(world, mem, w) && Owner(world, mem, bs, w) == i
  }

  /** A path from a root word through words of blocks. */
  ghost predicate Path(world: World, mem: Memory, bs: seq<Block>, roots: seq<Word>, path: seq<nat>) {
    && path != [] && (exists r :: r in roots && Direct(world, mem, bs, r, path[0]))
    && forall a, b :: 0 <= a && b == a + 1 < |path| ==> PointsTo(world, mem, bs, path[a], path[b])
  }

  lemma PointedToIsReferenced(world: World, mem: Memory, bs: seq<Block>, cs: seq<Block>, j: nat, i: nat)
    requires Apart(world, |mem|) && MoreMarks(bs, cs) && PointsTo(world, mem, bs, j, i)
    ensures Referenced(world, mem, cs, i)
  {
    var k :| 0 <= k < bs[j].size && Direct(world, mem, bs, WordAt(mem, bs[j], k), i);
    assert cs[j].start == bs[j].start && cs[j].size == bs[j].size;
    DirectHits(world, mem, bs, cs, WordAt(mem, cs[j], k), i);
    ReferencedHere(world, mem, cs, j, k, i);
  }

  lemma DirectHits(world: World, mem: Memory, bs: seq<Block>, cs: seq<Block>, w: Word, i: nat)
    requires Apart(world, |mem|) && MoreMarks(bs, cs) && Direct(world, mem, bs, w, i)
    ensures Hits(world, mem, cs, w, i)
  {
    assert HitsAt(world, mem, bs, w, 0, i);
    HitsSame(world, mem, mem, bs, cs, w, 0, i);
  }

  lemma ReferencedHere(world: World, mem: Memory, bs: seq<Block>, j: nat, k: nat, i: nat)
    requires j < |bs| && k < bs[j].size && Hits(world, mem, bs, WordAt(mem, bs[j], k), i)
    ensures Referenced(world, mem, bs, i)
  {}

  /** The collector is sound: when marking is over, every allocated block that the program can
      reach from the root words, through any path of heap words, is marked. */
  lemma ReachableIsMarked(world: World, mem: Memory, bs: seq<Block>, roots: seq<Word>, cs: seq<Block>, path: seq<nat>)
    requires Apart(world, |mem|) && Path(world, mem, bs, roots, path)
    requires var m := MarkRoots(world, mem, bs, roots); m.Marked? && HeapMarked(world, mem, m.blocks, cs)
    ensures var i := path[|path| - 1]; i < |bs| == |cs| && (bs[i].alloc ==> cs[i].mark)
  {
    var rs := MarkRoots(world, mem, bs, roots).blocks;
    RootsOnlyMark(world, mem, bs, roots);
    var n := |path| - 1;
    if n == 0 {
      var r :| r in roots && Direct(world, mem, bs, r, path[0]);
      RootsAreMarked(world, mem, bs, roots, r);
    } else {
      assert PointsTo(world, mem, bs, path[n - 1], path[n]);
      PointedToInRange(world, mem, bs, path[n - 1], path[n]);
      PointedToIsReferenced(world, mem, bs, rs, path[n - 1], path[n]);
    }
  }

  lemma PointedToInRange(world: World, mem: Memory, bs: seq<Block>, j: nat, i: nat)
    requires PointsTo(world, mem, bs, j, i)
    ensures i < |bs|
  {
    var k :| 0 <= k < bs[j].size && Direct(world, mem, bs, WordAt(mem, bs[j], k), i);
  }

  /** How precise it is.  From an unmarked list, a marked block lies on the chain of a root word
      or of a payload word; and an allocated block that no root leads to is marked exactly when
      some payload word, be it of a block in use or of garbage, has it on its chain. */
  lemma MarkedIsReferenced(world: World, mem: Memory, bs: seq<Block>, roots: seq<Word>, cs: seq<Block>, i: nat)
    requires Apart(world, |mem|) && i < |bs| && !bs[i].mark
    requires var m := MarkRoots(world, mem, bs, roots);
      m.Marked? && Scannable(world, mem, m.blocks) && HeapMarked(world, mem, m.blocks, cs)
    ensures |cs| == |bs|
    ensures cs[i].mark ==> bs[i].alloc && (Rooted(world, mem, bs, roots, i) || Referenced(world, mem, bs, i))
    ensures !Rooted(world, mem, bs, roots, i) ==> (cs[i].mark <==> bs[i].alloc && Referenced(world, mem, bs, i))
  {
    var rs := MarkRoots(world, mem, bs, roots).blocks;
    RootsOnlyMark(world, mem, bs, roots);
    MarkedFromRoots(world, mem, bs, roots, i);
    if Referenced(world, mem, rs, i) { ReferencedBack(world, mem, bs, rs, i); }
    if Referenced(world, mem, bs, i) { ReferencedOn(world, mem, bs, rs, i); }
  }

  /** So blocks that point to each other are kept, whether or not a root leads to them, whenever
      marking gets through. */
  lemma GarbageCyclesAreKept(world: World, mem: Memory, bs: seq<Block>, roots: seq<Word>, cs: seq<Block>, i: nat, j: nat)
    requires Apart(world, |mem|) && i < |bs| && j < |bs| && bs[i].alloc && bs[j].alloc
    requires PointsTo(world, mem, bs, i, j) && PointsTo(world, mem, bs, j, i)
    requires var m := MarkRoots(world, mem, bs, roots);
      m.Marked? && Scannable(world, mem, m.blocks) && HeapMarked(world, mem, m.blocks, cs)
    ensures |cs| == |bs| && cs[i].mark && cs[j].mark
  {
    var rs := MarkRoots(world, mem, bs, roots).blocks;
    RootsOnlyMark(world, mem, bs, roots);
    PointedToIsReferenced(world, mem, bs, rs, i, j);
    PointedToIsReferenced(world, mem, bs, rs, j, i);
  }

  lemma ReferencedOn(world: World, mem: Memory, bs: seq<Block>, cs: seq<Block>, i: nat)
    requires Apart(world, |mem|) && MoreMarks(bs, cs) && Referenced(world, mem, bs, i)
    ensures Referenced(world, mem, cs, i)
  {
    var j, k :| 0 <= j < |bs| && 0 <= k < bs[j].size && Hits(world, mem, bs, WordAt(mem, bs[j], k), i);
    ReferencedOnAt(world, mem, bs, cs, j, k, i);
  }

  lemma HitsOn(world: World, mem: Memory, bs: seq<Block>, cs: seq<Block>, w: Word, i: int)
    requires Apart(world, |mem|) && MoreMarks(bs, cs) && Hits(world, mem, bs, w, i)
    ensures Hits(world, mem, cs, w, i)
  {
    var n: nat :| HitsAt(world, mem, bs, w, n, i);
    HitsSame(world, mem, mem, bs, cs, w, n, i);
  }

  lemma ReferencedOnAt(world: World, mem: Memory, bs: seq<Block>, cs: seq<Block>, j: nat, k: nat, i: nat)
    requires Apart(world, |mem|) && MoreMarks(bs, cs) && j < |bs| && k < bs[j].size
    requires Hits(world, mem, bs, WordAt(mem, bs[j], k), i)
    ensures Referenced(world, mem, cs, i)
  {
    HitsOn(world, mem, bs, cs, WordAt(mem, bs[j], k), i);
    assert cs[j].start == bs[j].start && cs[j].size == bs[j].size;
    ReferencedHere(world, mem, cs, j, k, i);
  }

  lemma ReferencedBack(world: World, mem: Memory, bs: seq<Block>, cs: seq<Block>, i: nat)
    requires Apart(world, |mem|) && MoreMarks(bs, cs) && Referenced(world, mem, cs, i)
    ensures Referenced(world, mem, bs, i)
  {
    var j, k :| 0 <= j < |cs| && 0 <= k < cs[j].size && Hits(world, mem, cs, WordAt(mem, cs[j], k), i);
    ReferencedBackAt(world, mem, bs, cs, j, k, i);
  }

  lemma ReferencedBackAt(world: World, mem: Memory, bs: seq<Block>, cs: seq<Block>, j: nat, k: nat, i: nat)
    requires Apart(world, |mem|) && MoreMarks(bs, cs) && j < |cs| && k < cs[j].size
    requires Hits(world, mem, cs, WordAt(mem, cs[j], k), i)
    ensures Referenced(world, mem, bs, i)
  {
    var w := WordAt(mem, cs[j], k);
    HitsBack(world, mem, mem, bs, cs, w, i);
    assert bs[j].start == cs[j].start && bs[j].size == cs[j].size;
    assert w == WordAt(mem, bs[j], k);
    ReferencedHere(world, mem, bs, j, k, i);
  }
}
