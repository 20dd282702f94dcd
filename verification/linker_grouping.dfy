/** Linking some of the files first, and the result with the others, gives the same
    program as linking all files at once. */
module LinkerGrouping {
  import opened X20
  import opened Linker
  import opened LinkerTheory

  // ---------------------------------------------------------------- layout laws

  lemma ShiftShift(s: Symbol, a: int, b: int)
    ensures Shift(Shift(s, a), b) == Shift(s, a + b)
    ensures a + b == 0 ==> Shift(Shift(s, a), b) == s
  {
    WrapTwice(s.address + a, b);
  }

  lemma {:induction false} ShiftTwice(ss: seq<Symbol>, a: int, b: int)
    ensures ShiftAll(ShiftAll(ss, a), b) == ShiftAll(ss, a + b)
  {
    if ss != [] {
      ShiftShift(ss[0], a, b);
      ShiftTwice(ss[1..], a, b);
    }
  }

  lemma {:induction false} ShiftAt(ss: seq<Symbol>, k: int, i: nat)
    requires i < |ss|
    ensures ShiftAll(ss, k)[i] == Shift(ss[i], k)
  {
    if i > 0 { ShiftAt(ss[1..], k, i - 1); }
  }

  lemma {:induction false} ShiftConcat(a: seq<Symbol>, b: seq<Symbol>, k: int)
    ensures ShiftAll(a + b, k) == ShiftAll(a, k) + ShiftAll(b, k)
  {
    if a == [] {
      assert a + b == b;
    } else {
      assert (a + b)[1..] == a[1..] + b;
      ShiftConcat(a[1..], b, k);
    }
  }

  lemma {:induction false} ShiftByNothing(ss: seq<Symbol>)
    ensures ShiftAll(ss, 0) == ss
  {
    if ss != [] {
      ShiftByNothing(ss[1..]);
    }
  }

  lemma JoinAssociative(a: Module, b: Module, c: Module)
    ensures Join(Join(a, b), c) == Join(a, Join(b, c))
  {
    ShiftedAssociative(a.ins, b.ins, c.ins, |a.code|, |b.code|);
    ShiftedAssociative(a.outs, b.outs, c.outs, |a.code|, |b.code|);
    assert (a.code + b.code) + c.code == a.code + (b.code + c.code);
  }

  lemma ShiftedAssociative(a: seq<Symbol>, b: seq<Symbol>, c: seq<Symbol>, m: nat, n: nat)
    ensures (a + ShiftAll(b, m)) + ShiftAll(c, m + n) == a + ShiftAll(b + ShiftAll(c, n), m)
  {
    ShiftTwice(c, n, m);
    ShiftConcat(b, ShiftAll(c, n), m);
  }

  lemma JoinEmpty(a: Module)
    ensures Join(EMPTY, a) == a
  {
    ShiftByNothing(a.ins);
    ShiftByNothing(a.outs);
    assert [] + a.ins == a.ins && [] + a.outs == a.outs && [] + a.code == a.code;
  }

  lemma {:induction false} LayoutConcat(xs: seq<Module>, ys: seq<Module>)
    ensures Layout(xs + ys) == Join(Layout(xs), Layout(ys))
  {
    if xs == [] {
      assert xs + ys == ys;
      JoinEmpty(Layout(ys));
    } else {
      assert (xs + ys)[1..] == xs[1..] + ys;
      LayoutConcat(xs[1..], ys);
      JoinAssociative(xs[0], Layout(xs[1..]), Layout(ys));
    }
  }

  /** Where a file's words and symbols end up, and that a PC-relative target moves along. */
  lemma FilePlacement(files: seq<Module>, i: nat, q: nat)
    requires i < |files| && q < |files[i].code|
    ensures var off, m := |Layout(files[..i]).code|, Layout(files);
      && off + q < |m.code| && m.code[off + q] == files[i].code[q]
      && TargetOf(m.code[off + q], off + q) == off + TargetOf(files[i].code[q], q)
      && (forall s :: s in files[i].ins ==> Shift(s, off) in m.ins)
      && (forall s :: s in files[i].outs ==> Shift(s, off) in m.outs)
  {
    var xs, zs := files[..i], files[i + 1..];
    assert files == xs + ([files[i]] + zs);
    LayoutConcat(xs, [files[i]] + zs);
    var x, f, z := Layout(xs), files[i], Layout(zs);
    assert ([f] + zs)[1..] == zs;
    assert Layout([f] + zs) == Join(f, z);
    forall s | s in f.ins ensures Shift(s, |x.code|) in Layout(files).ins {
      ShiftedMember(x.ins, f.ins, ShiftAll(z.ins, |f.code|), |x.code|, s);
    }
    forall s | s in f.outs ensures Shift(s, |x.code|) in Layout(files).outs {
      ShiftedMember(x.outs, f.outs, ShiftAll(z.outs, |f.code|), |x.code|, s);
    }
  }

  lemma ShiftedMember(before: seq<Symbol>, ss: seq<Symbol>, after: seq<Symbol>, off: int, s: Symbol)
    requires s in ss
    ensures Shift(s, off) in before + ShiftAll(ss + after, off)
  {
    var k :| 0 <= k < |ss| && ss[k] == s;
    ShiftAt(ss + after, off, k);
    assert (before + ShiftAll(ss + after, off))[|before| + k] == Shift(s, off);
  }

  // ---------------------------------------------------------------- membership under a shift

  lemma {:induction false} ShiftMembers(ss: seq<Symbol>, k: int, s: Symbol)
    ensures s in ShiftAll(ss, k) <==> Shift(s, -k) in ss
  {
    if ss != [] {
      ShiftMembers(ss[1..], k, s);
      ShiftShift(ss[0], k, -k);
      ShiftShift(s, -k, k);
      assert ss == [ss[0]] + ss[1..];
    }
  }

  predicate SameMembers(a: seq<Symbol>, b: seq<Symbol>) {
    && (forall s :: s in a ==> s in b)
    && (forall s :: s in b ==> s in a)
  }

  /** Same code, and the same symbols in any order. */
  predicate SameProgram(a: Module, b: Module) {
    a.code == b.code && SameMembers(a.ins, b.ins) && SameMembers(a.outs, b.outs)
  }

  // ---------------------------------------------------------------- resolving a part first

  lemma DefinesByMembers(a: seq<Symbol>, b: seq<Symbol>, n: Name)
    requires SameMembers(a, b)
    ensures Defines(a, n) <==> Defines(b, n)
  {
    if Defines(a, n) {
      var i :| 0 <= i < |a| && a[i].name == n;
      assert a[i] in b;
    }
    if Defines(b, n) {
      var i :| 0 <= i < |b| && b[i].name == n;
      assert b[i] in a;
    }
  }

  /** The files before, inside and after the group, laid out. */
  function Triple(x: Module, y: Module, z: Module): Module {
    Join(x, Join(y, z))
  }

  /** A symbol of the whole belongs to the part from which it was shifted. */
  lemma TripleMembers(x: Module, y: Module, z: Module, s: Symbol)
    ensures s in Triple(x, y, z).ins <==>
      s in x.ins || Shift(s, -|x.code|) in y.ins || Shift(s, -(|x.code| + |y.code|)) in z.ins
    ensures s in Triple(x, y, z).outs <==>
      s in x.outs || Shift(s, -|x.code|) in y.outs || Shift(s, -(|x.code| + |y.code|)) in z.outs
  {
    var k, n := |x.code|, |y.code|;
    ShiftShift(s, -k, -n);
    ShiftMembers(Join(y, z).ins, k, s);
    ShiftMembers(z.ins, n, Shift(s, -k));
    ShiftMembers(Join(y, z).outs, k, s);
    ShiftMembers(z.outs, n, Shift(s, -k));
  }

  /** Everything the theorem asks of the files: references stay inside their file, there is
      at most one per word, no name is defined twice, and the program fits the address space. */
  ghost predicate Linkable(x: Module, y: Module, z: Module) {
    && WellFormed(x) && WellFormed(y) && WellFormed(z)
    && UniqueNames(Triple(x, y, z).ins) && OneRecordPerWord(Triple(x, y, z).outs)
    && |x.code| + |y.code| + |z.code| < TWO32
  }

  /** A reference at an address of the middle part is one of the middle part. */
  lemma MiddleReference(x: Module, y: Module, z: Module, o: Symbol)
    requires WellFormed(x) && WellFormed(y) && WellFormed(z) && |x.code| + |y.code| + |z.code| < TWO32
    requires |x.code| <= o.address < |x.code| + |y.code|
    ensures o in Triple(x, y, z).outs <==> Symbol(o.name, o.address - |x.code|) in y.outs
  {
    TripleMembers(x, y, z, o);
    assert Shift(o, -|x.code|) == Symbol(o.name, o.address - |x.code|);
    assert Shift(o, -(|x.code| + |y.code|)).address == o.address - |x.code| - |y.code| + TWO32;
  }

  lemma OneRecordOfPart(x: Module, y: Module, z: Module)
    requires Linkable(x, y, z)
    ensures OneRecordPerWord(y.outs)
  {
    var w := Triple(x, y, z).outs;
    forall i, j | 0 <= i < |y.outs| && 0 <= j < |y.outs| && y.outs[i].address == y.outs[j].address
      ensures y.outs[i] == y.outs[j]
    {
      var a, b := y.outs[i], y.outs[j];
      assert a in y.outs && b in y.outs;
      var a', b' := Symbol(a.name, a.address + |x.code|), Symbol(b.name, b.address + |x.code|);
      MiddleReference(x, y, z, a');
      MiddleReference(x, y, z, b');
      SameRecord(w, a', b');
    }
  }

  lemma SameRecord(outs: seq<Symbol>, a: Symbol, b: Symbol)
    requires OneRecordPerWord(outs) && a in outs && b in outs && a.address == b.address
    ensures a == b
  {
    var i :| 0 <= i < |outs| && outs[i] == a;
    var j :| 0 <= j < |outs| && outs[j] == b;
  }

  lemma OneRecordOfSubset(a: seq<Symbol>, b: seq<Symbol>)
    requires OneRecordPerWord(a) && forall s :: s in b ==> s in a
    ensures OneRecordPerWord(b)
  {
    forall i, j | 0 <= i < |b| && 0 <= j < |b| && b[i].address == b[j].address ensures b[i] == b[j] {
      SameRecord(a, b[i], b[j]);
    }
  }

  lemma UniqueNamesOfPart(x: Module, y: Module, z: Module)
    requires UniqueNames(Triple(x, y, z).ins)
    ensures UniqueNames(y.ins)
  {
    var w := Triple(x, y, z).ins;
    forall i | 0 <= i < |y.ins| ensures w[|x.ins| + i].name == y.ins[i].name {
      ShiftAt(Join(y, z).ins, |x.code|, i);
    }
  }

  /** The same references at p, the same word at p, the same symbols: the same result at p. */
  lemma SameWord(a: Module, b: Module, p: nat)
    requires p < |a.code| && p < |b.code| && a.code[p] == b.code[p]
    requires UniqueNames(a.ins) && UniqueNames(b.ins) && OneRecordPerWord(a.outs) && OneRecordPerWord(b.outs)
    requires SameMembers(a.ins, b.ins)
    requires forall o: Symbol :: o.address == p ==> (o in a.outs <==> o in b.outs)
    ensures Resolve(a).code[p] == Resolve(b).code[p]
  {
    PatchAllAt(a.code, a.outs, a.ins, p);
    PatchAllAt(b.code, b.outs, b.ins, p);
    if o :| o in a.outs && o.address == p && Defines(a.ins, o.name) {
      var i :| 0 <= i < |a.ins| && a.ins[i].name == o.name;
      var d := a.ins[i].address;
      assert Symbol(o.name, d) == a.ins[i];
      assert Patched(a.outs, a.ins, p, d) && Patched(b.outs, b.ins, p, d);
    } else {
      assert Untouched(a.outs, a.ins, p);
      forall o | o in b.outs && o.address == p ensures !Defines(b.ins, o.name) {
        DefinesByMembers(a.ins, b.ins, o.name);
      }
    }
  }

  /** A reference inside the group to a symbol of the group, in the whole program. */
  lemma InnerReference(x: Module, y: Module, z: Module, o: Symbol, s: Symbol)
    requires WellFormed(x) && WellFormed(y) && WellFormed(z) && |x.code| + |y.code| + |z.code| < TWO32
    requires o in y.outs && s in y.ins && s.name == o.name
    ensures Patched(Triple(x, y, z).outs, Triple(x, y, z).ins, |x.code| + o.address, Wrap(s.address + |x.code|))
  {
    var o' := Symbol(o.name, |x.code| + o.address);
    MiddleReference(x, y, z, o');
    assert o == Symbol(o.name, o'.address - |x.code|);
    var s' := Shift(s, |x.code|);
    TripleMembers(x, y, z, s');
    ShiftShift(s, |x.code|, -|x.code|);
    assert s' == Symbol(o'.name, Wrap(s.address + |x.code|));
  }

  lemma WholePatch(x: Module, y: Module, z: Module, o: Symbol, s: Symbol)
    requires Linkable(x, y, z) && o in y.outs && s in y.ins && s.name == o.name
    ensures Resolve(Triple(x, y, z)).code[|x.code| + o.address]
            == Relocate(y.code[o.address], o.address, s.address)
  {
    var a, p := Triple(x, y, z), |x.code| + o.address;
    InnerReference(x, y, z, o, s);
    PatchAllAt(a.code, a.outs, a.ins, p);
    RelocateMoved(y.code[o.address], o.address, s.address, |x.code|);
  }

  /** A word that the group resolved itself: resolving it in the whole gives the same word. */
  lemma SameWordInside(x: Module, y: Module, z: Module, r: Module, o: Symbol)
    requires Linkable(x, y, z) && SameProgram(r, Resolve(y))
    requires o in y.outs && Defines(y.ins, o.name)
    requires UniqueNames(Triple(x, r, z).ins) && OneRecordPerWord(Triple(x, r, z).outs) && WellFormed(r)
    ensures Resolve(Triple(x, y, z)).code[|x.code| + o.address] == Resolve(Triple(x, r, z)).code[|x.code| + o.address]
  {
    OneRecordOfPart(x, y, z);
    UniqueNamesOfPart(x, y, z);
    var i :| 0 <= i < |y.ins| && y.ins[i].name == o.name;
    WholePatch(x, y, z, o, y.ins[i]);
    GroupPatch(y, o, y.ins[i]);
    NothingLeft(x, y, z, r, o);
    KeptWord(x, r, z, o.address);
  }

  lemma GroupPatch(y: Module, o: Symbol, s: Symbol)
    requires OneRecordPerWord(y.outs) && UniqueNames(y.ins) && WellFormed(y) && o in y.outs && s in y.ins && s.name == o.name
    ensures Resolve(y).code[o.address] == Relocate(y.code[o.address], o.address, s.address)
  {
    assert Symbol(o.name, s.address) == s;
    assert Patched(y.outs, y.ins, o.address, s.address);
    PatchAllAt(y.code, y.outs, y.ins, o.address);
  }

  /** A word of the middle part that nothing refers to any more stays. */
  lemma KeptWord(x: Module, r: Module, z: Module, q: nat)
    requires q < |r.code| && UniqueNames(Triple(x, r, z).ins) && OneRecordPerWord(Triple(x, r, z).outs)
    requires Untouched(Triple(x, r, z).outs, Triple(x, r, z).ins, |x.code| + q)
    ensures Resolve(Triple(x, r, z)).code[|x.code| + q] == r.code[q]
  {
    var b := Triple(x, r, z);
    PatchAllAt(b.code, b.outs, b.ins, |x.code| + q);
  }

  lemma NothingLeft(x: Module, y: Module, z: Module, r: Module, o: Symbol)
    requires OneRecordPerWord(y.outs) && SameProgram(r, Resolve(y))
    requires WellFormed(x) && WellFormed(y) && WellFormed(z) && WellFormed(r) && |x.code| + |y.code| + |z.code| < TWO32
    requires o in y.outs && Defines(y.ins, o.name)
    ensures Untouched(Triple(x, r, z).outs, Triple(x, r, z).ins, |x.code| + o.address)
  {
    var b := Triple(x, r, z);
    UnresolvedMembers(y.outs, y.ins);
    forall s | s in b.outs ensures s.address != |x.code| + o.address {
      if s.address == |x.code| + o.address {
        MiddleReference(x, r, z, s);
        SameRecord(y.outs, o, Symbol(s.name, o.address));
      }
    }
  }

  /** Resolving a part first, and then the whole, is resolving the whole. */
  lemma ResolvePartFirst(x: Module, y: Module, z: Module, r: Module)
    requires Linkable(x, y, z) && SameProgram(r, Resolve(y)) && UniqueNames(Triple(x, r, z).ins)
    ensures SameProgram(Resolve(Triple(x, y, z)), Resolve(Triple(x, r, z)))
  {
    var a, b := Triple(x, y, z), Triple(x, r, z);
    PartSymbols(x, y, z, r);
    forall o ensures o in Resolve(a).outs <==> o in Resolve(b).outs {
      PartReferences(x, y, z, r, o);
      UnresolvedMembers(a.outs, a.ins);
      UnresolvedMembers(b.outs, b.ins);
      DefinesByMembers(a.ins, b.ins, o.name);
    }
    forall p | 0 <= p < |a.code| ensures Resolve(a).code[p] == Resolve(b).code[p] {
      SameWordEverywhere(x, y, z, r, p);
    }
    assert Resolve(a).code == Resolve(b).code;
  }

  lemma PartSymbols(x: Module, y: Module, z: Module, r: Module)
    requires SameProgram(r, Resolve(y))
    ensures SameMembers(Triple(x, y, z).ins, Triple(x, r, z).ins)
  {
    forall s ensures s in Triple(x, y, z).ins <==> s in Triple(x, r, z).ins {
      TripleMembers(x, y, z, s);
      TripleMembers(x, r, z, s);
    }
  }

  /** The references of the whole after the group was resolved: those that it could not resolve. */
  lemma PartReferences(x: Module, y: Module, z: Module, r: Module, o: Symbol)
    requires SameProgram(r, Resolve(y))
    ensures o in Triple(x, r, z).outs ==> o in Triple(x, y, z).outs
    ensures o in Triple(x, y, z).outs && !Defines(Triple(x, y, z).ins, o.name) ==> o in Triple(x, r, z).outs
  {
    TripleMembers(x, y, z, o);
    TripleMembers(x, r, z, o);
    UnresolvedMembers(y.outs, y.ins);
    if Defines(y.ins, o.name) {
      var i :| 0 <= i < |y.ins| && y.ins[i].name == o.name;
      ShiftAt(Join(y, z).ins, |x.code|, i);
      assert Triple(x, y, z).ins[|x.ins| + i].name == o.name;
    }
  }

  lemma SameWordEverywhere(x: Module, y: Module, z: Module, r: Module, p: nat)
    requires Linkable(x, y, z) && SameProgram(r, Resolve(y)) && UniqueNames(Triple(x, r, z).ins)
    requires p < |Triple(x, y, z).code|
    ensures Resolve(Triple(x, y, z)).code[p] == Resolve(Triple(x, r, z)).code[p]
  {
    var a, b, q := Triple(x, y, z), Triple(x, r, z), p - |x.code|;
    PartSymbols(x, y, z, r);
    UnresolvedMembers(y.outs, y.ins);
    assert WellFormed(r);
    forall o ensures o in b.outs ==> o in a.outs { PartReferences(x, y, z, r, o); }
    OneRecordOfSubset(a.outs, b.outs);
    if o :| o in y.outs && o.address == q && Defines(y.ins, o.name) {
      SameWordInside(x, y, z, r, o);
    } else {
      assert Untouched(y.outs, y.ins, q);
      UniqueNamesOfPart(x, y, z);
      SameCodeWord(x, y, z, r, p);
      forall o: Symbol | o.address == p ensures o in a.outs <==> o in b.outs { SameReference(x, y, z, r, o); }
      SameWord(a, b, p);
    }
  }

  /** Where the group had nothing to resolve, the word is as before. */
  lemma SameCodeWord(x: Module, y: Module, z: Module, r: Module, p: nat)
    requires UniqueNames(y.ins) && r.code == Resolve(y).code && p < |Triple(x, y, z).code|
    requires Untouched(y.outs, y.ins, p - |x.code|)
    ensures Triple(x, y, z).code[p] == Triple(x, r, z).code[p]
  {
    var q := p - |x.code|;
    if 0 <= q < |y.code| { UntouchedStays(y.code, y.outs, y.ins, q); }
  }

  /** And so are the references to it. */
  lemma SameReference(x: Module, y: Module, z: Module, r: Module, o: Symbol)
    requires WellFormed(x) && WellFormed(y) && WellFormed(z) && WellFormed(r) && |x.code| + |y.code| + |z.code| < TWO32
    requires SameProgram(r, Resolve(y))
    requires forall s :: s in y.outs && s.address == o.address - |x.code| ==> !Defines(y.ins, s.name)
    ensures o in Triple(x, y, z).outs <==> o in Triple(x, r, z).outs
  {
    if |x.code| <= o.address < |x.code| + |y.code| {
      SameMiddleReference(x, y, z, r, o);
    } else {
      OuterReference(x, y, z, o);
      OuterReference(x, r, z, o);
    }
  }

  lemma SameMiddleReference(x: Module, y: Module, z: Module, r: Module, o: Symbol)
    requires WellFormed(x) && WellFormed(y) && WellFormed(z) && WellFormed(r) && |x.code| + |y.code| + |z.code| < TWO32
    requires SameProgram(r, Resolve(y)) && |x.code| <= o.address < |x.code| + |y.code|
    requires forall s :: s in y.outs && s.address == o.address - |x.code| ==> !Defines(y.ins, s.name)
    ensures o in Triple(x, y, z).outs <==> o in Triple(x, r, z).outs
  {
    UnresolvedMembers(y.outs, y.ins);
    MiddleReference(x, y, z, o);
    MiddleReference(x, r, z, o);
  }

  lemma OuterReference(x: Module, y: Module, z: Module, o: Symbol)
    requires WellFormed(x) && WellFormed(y) && WellFormed(z) && |x.code| + |y.code| + |z.code| < TWO32
    requires !(|x.code| <= o.address < |x.code| + |y.code|)
    ensures o in Triple(x, y, z).outs <==> o in x.outs || Shift(o, -(|x.code| + |y.code|)) in z.outs
  {
    TripleMembers(x, y, z, o);
    assert !(0 <= Shift(o, -|x.code|).address < |y.code|);
  }
}
