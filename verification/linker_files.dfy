/** The grouping theorem for object files, through writing and reading the intermediate one. */
module LinkerFiles {
  import opened X20
  import opened Linker
  import opened LinkerTheory
  import opened LinkerGrouping

  ghost predicate ProperModule(m: Module) {
    && WellFormed(m)
    && (forall s :: s in m.ins ==> ProperName(s.name))
    && (forall s :: s in m.outs ==> ProperName(s.name))
  }

  lemma LoadedIsProper(f: ObjectFile)
    requires ProperFile(f)
    ensures ProperModule(Load(f))
  {
    forall s | s in Load(f).ins ensures ProperName(s.name) {
      var i :| 0 <= i < |f.ins| && Load(f).ins[i] == s;
      assert f.ins[|f.ins| - 1 - i] in f.ins + f.outs;
    }
    forall s | s in Load(f).outs ensures ProperName(s.name) && s.address < |f.code| {
      var i :| 0 <= i < |f.outs| && Load(f).outs[i] == s;
      assert f.outs[|f.outs| - 1 - i] in f.ins + f.outs;
    }
  }

  lemma JoinIsProper(a: Module, b: Module)
    requires ProperModule(a) && ProperModule(b) && |a.code| + |b.code| < TWO32
    ensures ProperModule(Join(a, b))
  {
    forall s | s in Join(a, b).ins ensures ProperName(s.name) {
      ShiftMembers(b.ins, |a.code|, s);
    }
    forall s | s in Join(a, b).outs ensures ProperName(s.name) && s.address < |a.code| + |b.code| {
      ShiftMembers(b.outs, |a.code|, s);
      if s !in a.outs {
        var t := Shift(s, -|a.code|);
        ShiftShift(s, -|a.code|, |a.code|);
        assert s.address == Wrap(t.address + |a.code|) && t.address < |b.code|;
      }
    }
  }

  lemma {:induction false} LayoutIsProper(files: seq<ObjectFile>)
    requires forall f :: f in files ==> ProperFile(f)
    requires |Layout(LoadAll(files)).code| < TWO32
    ensures ProperModule(Layout(LoadAll(files)))
  {
    if files != [] {
      LoadedIsProper(files[0]);
      LayoutIsProper(files[1..]);
      JoinIsProper(Load(files[0]), Layout(LoadAll(files[1..])));
    }
  }

  /** An object file read back is the module that was written, with its symbols reversed. */
  lemma FileRoundTrip(m: Module)
    requires ProperModule(m)
    ensures var r := Load(Store(m));
      && SameProgram(r, m) && |r.ins| == |m.ins|
      && forall i :: 0 <= i < |m.ins| ==> r.ins[i] == m.ins[|m.ins| - 1 - i]
    ensures ProperFile(Store(m))
  {
    var r := Load(Store(m));
    RecordsRoundTrip(m.ins);
    RecordsRoundTrip(m.outs);
    forall x | x in Store(m).ins + Store(m).outs ensures |x.field| == FIELD {
      if x in Store(m).ins {
        var i :| 0 <= i < |m.ins| && Store(m).ins[i] == x;
        NameRoundTrip(m.ins[i].name);
      } else {
        var i :| 0 <= i < |m.outs| && Store(m).outs[i] == x;
        NameRoundTrip(m.outs[i].name);
      }
    }
  }

  lemma RecordRoundTrip(s: Symbol)
    requires ProperName(s.name)
    ensures SymbolOf(RecordOf(s)) == s
  {
    NameRoundTrip(s.name);
  }

  lemma RecordsRoundTrip(ss: seq<Symbol>)
    requires forall s :: s in ss ==> ProperName(s.name)
    ensures forall i :: 0 <= i < |ss| ==> Symbols(Records(ss))[i] == ss[|ss| - 1 - i]
    ensures SameMembers(Symbols(Records(ss)), ss)
  {
    forall i | 0 <= i < |ss| ensures Symbols(Records(ss))[i] == ss[|ss| - 1 - i] {
      assert ss[|ss| - 1 - i] in ss;
      RecordRoundTrip(ss[|ss| - 1 - i]);
    }
    ReversedMembers(ss, Symbols(Records(ss)));
  }

  lemma ReversedMembers(a: seq<Symbol>, b: seq<Symbol>)
    requires |a| == |b| && forall i :: 0 <= i < |a| ==> b[i] == a[|a| - 1 - i]
    ensures SameMembers(b, a)
  {
    forall s | s in a ensures s in b {
      var i :| 0 <= i < |a| && a[i] == s;
      assert b[|a| - 1 - i] == s;
    }
  }

  lemma TripleNames(x: Module, y: Module, z: Module, i: nat)
    requires i < |x.ins| + |y.ins| + |z.ins|
    ensures var w, a, b := Triple(x, y, z).ins, |x.ins|, |x.ins| + |y.ins|;
      && |w| == |x.ins| + |y.ins| + |z.ins|
      && w[i].name == if i < a then x.ins[i].name else if i < b then y.ins[i - a].name else z.ins[i - b].name
  {
    if i >= |x.ins| {
      ShiftAt(Join(y, z).ins, |x.code|, i - |x.ins|);
      if i >= |x.ins| + |y.ins| {
        ShiftAt(z.ins, |y.code|, i - |x.ins| - |y.ins|);
      }
    }
  }

  function Mirror(i: int, a: int, b: int): int {
    if a <= i < b then a + b - 1 - i else i
  }

  lemma MirroredName(x: Module, y: Module, z: Module, r: Module, i: nat)
    requires |r.ins| == |y.ins| && i < |x.ins| + |y.ins| + |z.ins|
    requires forall i :: 0 <= i < |y.ins| ==> r.ins[i] == y.ins[|y.ins| - 1 - i]
    ensures var k := Mirror(i, |x.ins|, |x.ins| + |y.ins|);
      && |Triple(x, y, z).ins| == |Triple(x, r, z).ins| == |x.ins| + |y.ins| + |z.ins|
      && 0 <= k < |Triple(x, y, z).ins| && Triple(x, r, z).ins[i].name == Triple(x, y, z).ins[k].name
  {
    TripleNames(x, r, z, i);
    TripleNames(x, y, z, Mirror(i, |x.ins|, |x.ins| + |y.ins|));
  }

  /** Reversing the symbols of the middle part keeps the names unique. */
  lemma ReversedMiddle(x: Module, y: Module, z: Module, r: Module)
    requires UniqueNames(Triple(x, y, z).ins) && |r.ins| == |y.ins|
    requires forall i :: 0 <= i < |y.ins| ==> r.ins[i] == y.ins[|y.ins| - 1 - i]
    ensures UniqueNames(Triple(x, r, z).ins)
  {
    var w := Triple(x, r, z).ins;
    forall i, j | 0 <= i < j < |w| ensures w[i].name != w[j].name {
      MirroredName(x, y, z, r, i);
      MirroredName(x, y, z, r, j);
      DifferentNames(Triple(x, y, z).ins, Mirror(i, |x.ins|, |x.ins| + |y.ins|), Mirror(j, |x.ins|, |x.ins| + |y.ins|));
    }
  }

  lemma DifferentNames(ins: seq<Symbol>, i: nat, j: nat)
    requires UniqueNames(ins) && i < |ins| && j < |ins| && i != j
    ensures ins[i].name != ins[j].name
  {
    if i < j {} else {}
  }

  lemma LoadConcat(a: seq<ObjectFile>, b: seq<ObjectFile>)
    ensures LoadAll(a + b) == LoadAll(a) + LoadAll(b)
  {}

  lemma TripleLayout(xs: seq<ObjectFile>, ys: seq<ObjectFile>, zs: seq<ObjectFile>)
    ensures Layout(LoadAll(xs + ys + zs)) == Triple(Layout(LoadAll(xs)), Layout(LoadAll(ys)), Layout(LoadAll(zs)))
  {
    assert xs + ys + zs == xs + (ys + zs);
    LoadConcat(xs, ys + zs);
    LoadConcat(ys, zs);
    LayoutConcat(LoadAll(xs), LoadAll(ys) + LoadAll(zs));
    LayoutConcat(LoadAll(ys), LoadAll(zs));
  }

  lemma ResolvedIsProper(m: Module)
    requires ProperModule(m)
    ensures ProperModule(Resolve(m))
  {
    UnresolvedMembers(m.outs, m.ins);
  }

  /** Linking is associative.  Any consecutive files may be linked first and the object file
      that results be linked with the others: the code is the same word for word, and so are
      the sets of insymbols and of unresolved outsymbols and the kind of the output. */
  lemma LinkInGroups(xs: seq<ObjectFile>, ys: seq<ObjectFile>, zs: seq<ObjectFile>)
    requires forall f :: f in xs + ys + zs ==> ProperFile(f)
    requires |Layout(LoadAll(xs + ys + zs)).code| < TWO32 && Layout(LoadAll(ys)).code != []
    requires UniqueNames(Layout(LoadAll(xs + ys + zs)).ins)
    requires OneRecordPerWord(Layout(LoadAll(xs + ys + zs)).outs)
    ensures LinkFiles(ys).Linked?
    ensures var inner := Store(LinkFiles(ys).output);
      var atOnce, grouped := LinkFiles(xs + ys + zs), LinkFiles(xs + [inner] + zs);
      && atOnce.Linked? && grouped.Linked?
      && SameProgram(atOnce.output, grouped.output)
      && atOnce.isObject == grouped.isObject
  {
    var x, y, z := Layout(LoadAll(xs)), Layout(LoadAll(ys)), Layout(LoadAll(zs));
    TripleLayout(xs, ys, zs);
    assert (forall f :: f in xs ==> f in xs + ys + zs) && (forall f :: f in ys ==> f in xs + ys + zs)
        && (forall f :: f in zs ==> f in xs + ys + zs);
    LayoutIsProper(xs);
    LayoutIsProper(ys);
    LayoutIsProper(zs);
    UniqueNamesOfPart(x, y, z);
    var inner := Store(Resolve(y));
    var r := Load(inner);
    ResolvedIsProper(y);
    FileRoundTrip(Resolve(y));
    ReversedMiddle(x, y, z, r);
    ResolvePartFirst(x, y, z, r);
    SingleLayout(inner);
    TripleLayout(xs, [inner], zs);
    NoReferencesLeft(Resolve(Triple(x, y, z)).outs, Resolve(Triple(x, r, z)).outs);
    DefinesByMembers(Triple(x, y, z).ins, Triple(x, r, z).ins, MAINX20);
  }

  lemma SingleLayout(f: ObjectFile)
    ensures Layout(LoadAll([f])) == Load(f)
  {
    var m := Load(f);
    assert LoadAll([f]) == [m] && [m][1..] == [];
    assert m.ins + [] == m.ins && m.outs + [] == m.outs && m.code + [] == m.code;
  }

  lemma NoReferencesLeft(a: seq<Symbol>, b: seq<Symbol>)
    requires SameMembers(a, b)
    ensures a == [] <==> b == []
  {
    if a != [] { assert a[0] in b; }
    if b != [] { assert b[0] in a; }
  }
}
