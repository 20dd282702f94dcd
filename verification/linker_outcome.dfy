/** What the linker answers, in terms of the records in the files. */
module LinkerOutcome {
  import opened X20
  import opened Linker
  import opened LinkerTheory
  import opened LinkerGrouping
  import opened LinkerGenerate

  /** The insymbol record k of file i. */
  predicate IsRecord(files: seq<ObjectFile>, i: int, k: int) {
    0 <= i < |files| && 0 <= k < |files[i].ins|
  }

  function NameAt(files: seq<ObjectFile>, i: int, k: int): Name
    requires IsRecord(files, i, k)
  {
    CString(files[i].ins[k].field)
  }

  ghost predicate SomeFileDefines(files: seq<ObjectFile>, name: Name) {
    exists i, k :: IsRecord(files, i, k) && NameAt(files, i, k) == name
  }

  ghost predicate SomeFileUses(files: seq<ObjectFile>, name: Name) {
    exists i, k :: 0 <= i < |files| && 0 <= k < |files[i].outs| && CString(files[i].outs[k].field) == name
  }

  /** Two different records have the same name. */
  ghost predicate DefinedTwice(files: seq<ObjectFile>) {
    exists i, k, j, l :: SameName(files, i, k, j, l)
  }

  /** Record k of file i and the later record l of file j have the same name. */
  predicate SameName(files: seq<ObjectFile>, i: int, k: int, j: int, l: int) {
    && IsRecord(files, i, k) && IsRecord(files, j, l) && (i < j || (i == j && k < l))
    && NameAt(files, i, k) == NameAt(files, j, l)
  }

  // ---------------------------------------------------------------- names

  lemma FileDefines(f: ObjectFile, name: Name)
    ensures Defines(Load(f).ins, name) <==> exists k :: 0 <= k < |f.ins| && CString(f.ins[k].field) == name
  {
    var m := Load(f);
    if Defines(m.ins, name) {
      var i :| 0 <= i < |m.ins| && m.ins[i].name == name;
      assert CString(f.ins[|f.ins| - 1 - i].field) == name;
    }
    if k :| 0 <= k < |f.ins| && CString(f.ins[k].field) == name {
      assert m.ins[|f.ins| - 1 - k].name == name;
    }
  }

  lemma {:induction false} LayoutDefines(files: seq<ObjectFile>, name: Name)
    ensures Defines(Layout(LoadAll(files)).ins, name) <==> SomeFileDefines(files, name)
  {
    if files != [] {
      var f, rest := files[0], files[1..];
      LayoutDefines(rest, name);
      FileDefines(f, name);
      ShiftDefines(Layout(LoadAll(rest)).ins, |f.code|, name);
      DefinesConcat(Load(f).ins, ShiftAll(Layout(LoadAll(rest)).ins, |f.code|), name);
      assert LoadAll(files)[1..] == LoadAll(rest);
      FirstOrRest(files, name);
    }
  }

  lemma FirstOrRest(files: seq<ObjectFile>, name: Name)
    requires files != []
    ensures SomeFileDefines(files, name) <==>
      (exists k :: 0 <= k < |files[0].ins| && CString(files[0].ins[k].field) == name) || SomeFileDefines(files[1..], name)
  {
    var rest := files[1..];
    if i, k :| IsRecord(files, i, k) && NameAt(files, i, k) == name {
      if i > 0 { assert IsRecord(rest, i - 1, k) && NameAt(rest, i - 1, k) == name; }
    }
    if k :| 0 <= k < |files[0].ins| && CString(files[0].ins[k].field) == name {
      assert IsRecord(files, 0, k) && NameAt(files, 0, k) == name;
    }
    if i, k :| IsRecord(rest, i, k) && NameAt(rest, i, k) == name {
      assert IsRecord(files, i + 1, k) && NameAt(files, i + 1, k) == name;
    }
  }

  // ---------------------------------------------------------------- outsymbols, as insymbols of swapped files

  function Swapped(f: ObjectFile): ObjectFile { ObjectFile(f.outs, f.ins, f.code) }

  function AllSwapped(files: seq<ObjectFile>): (r: seq<ObjectFile>)
    ensures |r| == |files| && forall i :: 0 <= i < |files| ==> r[i] == Swapped(files[i])
  {
    seq(|files|, i requires 0 <= i < |files| => Swapped(files[i]))
  }

  lemma {:induction false} SwappedLayout(files: seq<ObjectFile>)
    ensures var m, w := Layout(LoadAll(files)), Layout(LoadAll(AllSwapped(files)));
      w.ins == m.outs && w.outs == m.ins && w.code == m.code
  {
    if files != [] {
      SwappedLayout(files[1..]);
      assert AllSwapped(files)[1..] == AllSwapped(files[1..]);
      assert LoadAll(files)[1..] == LoadAll(files[1..]);
      assert LoadAll(AllSwapped(files))[1..] == LoadAll(AllSwapped(files[1..]));
    }
  }

  lemma LayoutUses(files: seq<ObjectFile>, name: Name)
    ensures Defines(Layout(LoadAll(files)).outs, name) <==> SomeFileUses(files, name)
  {
    var w := AllSwapped(files);
    SwappedLayout(files);
    LayoutDefines(w, name);
    if i, k :| IsRecord(w, i, k) && NameAt(w, i, k) == name {
      assert CString(files[i].outs[k].field) == name;
    }
    if i, k :| 0 <= i < |files| && 0 <= k < |files[i].outs| && CString(files[i].outs[k].field) == name {
      assert IsRecord(w, i, k) && NameAt(w, i, k) == name;
    }
  }

  // ---------------------------------------------------------------- duplicates

  lemma UniqueConcat(a: seq<Symbol>, b: seq<Symbol>)
    ensures UniqueNames(a + b) <==>
      UniqueNames(a) && UniqueNames(b) && forall i, j :: 0 <= i < |a| && 0 <= j < |b| ==> a[i].name != b[j].name
  {
    var c := a + b;
    if UniqueNames(c) {
      forall i, j | 0 <= i < j < |a| ensures a[i].name != a[j].name { assert c[i].name != c[j].name; }
      forall i, j | 0 <= i < j < |b| ensures b[i].name != b[j].name { assert c[|a| + i].name != c[|a| + j].name; }
      forall i, j | 0 <= i < |a| && 0 <= j < |b| ensures a[i].name != b[j].name { assert c[i].name != c[|a| + j].name; }
    }
  }

  lemma ShiftUnique(ss: seq<Symbol>, off: int)
    ensures UniqueNames(ShiftAll(ss, off)) <==> UniqueNames(ss)
  {
    forall i | 0 <= i < |ss| ensures ShiftAll(ss, off)[i].name == ss[i].name { ShiftAt(ss, off, i); }
  }

  /** Two records of one file have the same name. */
  ghost predicate TwiceIn(f: ObjectFile) {
    exists k, l :: 0 <= k < l < |f.ins| && CString(f.ins[k].field) == CString(f.ins[l].field)
  }

  lemma FileUnique(f: ObjectFile)
    ensures UniqueNames(Load(f).ins) <==> !TwiceIn(f)
  {
    if TwiceIn(f) { TwiceIsNotUnique(f); }
    if !UniqueNames(Load(f).ins) { NotUniqueIsTwice(f); }
  }

  lemma TwiceIsNotUnique(f: ObjectFile)
    requires TwiceIn(f)
    ensures !UniqueNames(Load(f).ins)
  {
    var ins, n := Load(f).ins, |f.ins|;
    var k, l :| 0 <= k < l < n && CString(f.ins[k].field) == CString(f.ins[l].field);
    assert ins[n - 1 - l].name == CString(f.ins[l].field) && ins[n - 1 - k].name == CString(f.ins[k].field);
  }

  lemma NotUniqueIsTwice(f: ObjectFile)
    requires !UniqueNames(Load(f).ins)
    ensures TwiceIn(f)
  {
    var ins, n := Load(f).ins, |f.ins|;
    var i, j :| 0 <= i < j < n && ins[i].name == ins[j].name;
    assert ins[i].name == CString(f.ins[n - 1 - i].field) && ins[j].name == CString(f.ins[n - 1 - j].field);
  }

  ghost predicate Shared(files: seq<ObjectFile>)
    requires files != []
  {
    exists name :: Defines(Load(files[0]).ins, name) && SomeFileDefines(files[1..], name)
  }

  lemma TwiceSplits(files: seq<ObjectFile>)
    requires files != []
    ensures DefinedTwice(files) <==> TwiceIn(files[0]) || DefinedTwice(files[1..]) || Shared(files)
  {
    if DefinedTwice(files) { TwiceGoesDown(files); }
    if TwiceIn(files[0]) { TwiceFromFirst(files); }
    if DefinedTwice(files[1..]) { TwiceFromRest(files); }
    if Shared(files) { TwiceFromBoth(files); }
  }

  lemma TwiceFromFirst(files: seq<ObjectFile>)
    requires files != [] && TwiceIn(files[0])
    ensures DefinedTwice(files)
  {
    var f := files[0];
    var k, l :| 0 <= k < l < |f.ins| && CString(f.ins[k].field) == CString(f.ins[l].field);
    assert SameName(files, 0, k, 0, l);
  }

  lemma TwiceFromRest(files: seq<ObjectFile>)
    requires files != [] && DefinedTwice(files[1..])
    ensures DefinedTwice(files)
  {
    var i, k, j, l :| SameName(files[1..], i, k, j, l);
    assert SameName(files, i + 1, k, j + 1, l);
  }

  lemma TwiceFromBoth(files: seq<ObjectFile>)
    requires files != [] && Shared(files)
    ensures DefinedTwice(files)
  {
    var f, rest := files[0], files[1..];
    var name :| Defines(Load(f).ins, name) && SomeFileDefines(rest, name);
    FileDefines(f, name);
    var k :| 0 <= k < |f.ins| && CString(f.ins[k].field) == name;
    var j, l :| IsRecord(rest, j, l) && NameAt(rest, j, l) == name;
    assert SameName(files, 0, k, j + 1, l);
  }

  lemma TwiceGoesDown(files: seq<ObjectFile>)
    requires files != [] && DefinedTwice(files)
    ensures TwiceIn(files[0]) || DefinedTwice(files[1..]) || Shared(files)
  {
    var f, rest := files[0], files[1..];
    var i, k, j, l :| SameName(files, i, k, j, l);
    if i > 0 {
      assert SameName(rest, i - 1, k, j - 1, l);
    } else if j > 0 {
      FileDefines(f, NameAt(files, 0, k));
      assert IsRecord(rest, j - 1, l) && NameAt(rest, j - 1, l) == NameAt(files, 0, k);
      assert SomeFileDefines(rest, NameAt(files, 0, k));
    }
  }

  lemma {:induction false} LayoutUnique(files: seq<ObjectFile>)
    ensures UniqueNames(Layout(LoadAll(files)).ins) <==> !DefinedTwice(files)
  {
    if files != [] {
      var f, rest := files[0], files[1..];
      var r := Layout(LoadAll(rest));
      LayoutUnique(rest);
      FileUnique(f);
      TwiceSplits(files);
      assert LoadAll(files)[1..] == LoadAll(rest);
      ShiftUnique(r.ins, |f.code|);
      UniqueConcat(Load(f).ins, ShiftAll(r.ins, |f.code|));
      SharedNames(files);
    }
  }

  /** A name is shared exactly when it is in both parts of the layout. */
  lemma SharedNames(files: seq<ObjectFile>)
    requires files != []
    ensures var a, b := Load(files[0]).ins, ShiftAll(Layout(LoadAll(files[1..])).ins, |files[0].code|);
      Shared(files) <==> exists i, j :: 0 <= i < |a| && 0 <= j < |b| && a[i].name == b[j].name
  {
    var rest := files[1..];
    var m := Layout(LoadAll(rest)).ins;
    var a, b := Load(files[0]).ins, ShiftAll(m, |files[0].code|);
    if name :| Defines(a, name) && SomeFileDefines(rest, name) {
      LayoutDefines(rest, name);
      ShiftDefines(m, |files[0].code|, name);
      var i :| 0 <= i < |a| && a[i].name == name;
      var j :| 0 <= j < |b| && b[j].name == name;
      assert a[i].name == b[j].name;
    }
    if i, j :| 0 <= i < |a| && 0 <= j < |b| && a[i].name == b[j].name {
      LayoutDefines(rest, a[i].name);
      ShiftDefines(m, |files[0].code|, a[i].name);
      assert Defines(a, a[i].name) && SomeFileDefines(rest, a[i].name);
    }
  }

  // ---------------------------------------------------------------- the answer

  lemma {:induction false} LayoutHasCode(files: seq<ObjectFile>)
    ensures Layout(LoadAll(files)).code == [] <==> forall f :: f in files ==> f.code == []
  {
    if files != [] {
      LayoutHasCode(files[1..]);
      assert LoadAll(files)[1..] == LoadAll(files[1..]);
      assert files == [files[0]] + files[1..];
    }
  }

  /** Some file uses a name that no file defines. */
  ghost predicate Dangling(files: seq<ObjectFile>) {
    exists name :: SomeFileUses(files, name) && !SomeFileDefines(files, name)
  }

  lemma LeftOverIffDangling(files: seq<ObjectFile>)
    ensures Resolve(Layout(LoadAll(files))).outs != [] <==> Dangling(files)
  {
    var m := Layout(LoadAll(files));
    UnresolvedMembers(m.outs, m.ins);
    if Resolve(m).outs != [] {
      assert Resolve(m).outs[0] in Resolve(m).outs;
      LeftOverDangles(files, m.outs, m.ins, Resolve(m).outs[0]);
    }
    if Dangling(files) {
      var o := DanglingIsLeft(files, m.outs, m.ins);
      assert o in Unresolved(m.outs, m.ins);
    }
  }

  lemma DanglingIsLeft(files: seq<ObjectFile>, outs: seq<Symbol>, ins: seq<Symbol>) returns (o: Symbol)
    requires outs == Layout(LoadAll(files)).outs && ins == Layout(LoadAll(files)).ins && Dangling(files)
    ensures o in outs && !Defines(ins, o.name)
  {
    var name :| SomeFileUses(files, name) && !SomeFileDefines(files, name);
    LayoutUses(files, name);
    LayoutDefines(files, name);
    var i :| 0 <= i < |outs| && outs[i].name == name;
    o := outs[i];
  }

  lemma LeftOverDangles(files: seq<ObjectFile>, outs: seq<Symbol>, ins: seq<Symbol>, o: Symbol)
    requires outs == Layout(LoadAll(files)).outs && ins == Layout(LoadAll(files)).ins
    requires o in outs && !Defines(ins, o.name)
    ensures Dangling(files)
  {
    var i :| 0 <= i < |outs| && outs[i] == o;
    assert Defines(outs, o.name);
    LayoutUses(files, o.name);
    LayoutDefines(files, o.name);
  }

  /** The linker's answer.  It has nothing to do when no file has code, and refuses when two
      records define the same name.  Otherwise the output is an object file, and not a program,
      exactly when no file defines "mainx20" or some file uses a name that no file defines. */
  lemma LinkAnswer(files: seq<ObjectFile>)
    ensures LinkFiles(files) == NoCode <==> forall f :: f in files ==> f.code == []
    ensures LinkFiles(files) == DuplicateInsymbol <==> (exists f :: f in files && f.code != []) && DefinedTwice(files)
    ensures LinkFiles(files).Linked? <==> (exists f :: f in files && f.code != []) && !DefinedTwice(files)
    ensures LinkFiles(files).Linked? ==>
      (LinkFiles(files).isObject <==> !SomeFileDefines(files, [109, 97, 105, 110, 120, 50, 48]) || Dangling(files))
  {
    LayoutHasCode(files);
    LayoutUnique(files);
    LayoutDefines(files, MAINX20);
    LeftOverIffDangling(files);
  }

  // ---------------------------------------------------------------- the tables

  /** The code words of the files before file i. */
  function CodeBefore(files: seq<Module>, i: nat): nat
    requires i <= |files|
  {
    if i == 0 then 0 else CodeBefore(files, i - 1) + |files[i - 1].code|
  }

  /** s is symbol t of a file whose code starts at off. */
  predicate Rebased(s: Symbol, t: Symbol, off: int) {
    s.name == t.name && s.address == (t.address + off) % 0x1_0000_0000
  }

  lemma {:induction false} LayoutPrefix(files: seq<Module>, i: nat)
    requires i <= |files|
    ensures |Layout(files[..i]).code| == CodeBefore(files, i)
  {
    if i > 0 {
      LayoutPrefix(files, i - 1);
      LayoutSnoc(files, i - 1);
    } else {
      assert files[..0] == [];
    }
  }

  /** s is an insymbol of file i, with its address moved by the code before that file. */
  ghost predicate FromFile(files: seq<Module>, i: int, s: Symbol) {
    0 <= i < |files| && exists t :: t in files[i].ins && Rebased(s, t, CodeBefore(files, i))
  }

  /** The insymbols of the output are exactly those of the files, so moved. */
  lemma {:induction false} TableIsRebased(files: seq<Module>, n: nat, s: Symbol)
    requires n <= |files|
    ensures s in Layout(files[..n]).ins <==> FromSome(files, n, s)
  {
    if n == 0 {
      assert files[..0] == [];
    } else {
      TableIsRebased(files, n - 1, s);
      TableGrows(files, n - 1, s);
      FromSomeGrows(files, n - 1, s);
    }
  }

  ghost predicate FromSome(files: seq<Module>, n: nat, s: Symbol) {
    exists i :: 0 <= i < n && FromFile(files, i, s)
  }

  lemma FromSomeGrows(files: seq<Module>, n: nat, s: Symbol)
    ensures FromSome(files, n + 1, s) <==> FromSome(files, n, s) || FromFile(files, n, s)
  {}

  lemma TableGrows(files: seq<Module>, n: nat, s: Symbol)
    requires n < |files|
    ensures s in Layout(files[..n + 1]).ins <==> s in Layout(files[..n]).ins || FromFile(files, n, s)
  {
    LayoutSnoc(files, n);
    LayoutPrefix(files, n);
    ShiftedIsRebased(files[n].ins, CodeBefore(files, n), s);
  }

  lemma ShiftedIsRebased(ss: seq<Symbol>, off: int, s: Symbol)
    ensures s in ShiftAll(ss, off) <==> exists t :: t in ss && Rebased(s, t, off)
  {
    ShiftMembers(ss, off, s);
    if Shift(s, -off) in ss {
      ShiftShift(s, -off, off);
      assert Rebased(s, Shift(s, -off), off);
    }
    if t :| t in ss && Rebased(s, t, off) {
      assert s == Shift(t, off);
      ShiftShift(t, off, -off);
    }
  }

  function SwappedModule(m: Module): Module { Module(m.outs, m.ins, m.code) }

  function SwappedModules(files: seq<Module>): (r: seq<Module>)
    ensures |r| == |files| && forall i :: 0 <= i < |files| ==> r[i] == SwappedModule(files[i])
  {
    seq(|files|, i requires 0 <= i < |files| => SwappedModule(files[i]))
  }

  lemma {:induction false} SwappedModuleLayout(files: seq<Module>)
    ensures Layout(SwappedModules(files)) == SwappedModule(Layout(files))
  {
    if files != [] {
      SwappedModuleLayout(files[1..]);
      assert SwappedModules(files)[1..] == SwappedModules(files[1..]);
    }
  }

  /** The references that the linker resolves are exactly the outsymbols of the files, moved in
      the same way. */
  lemma ReferencesAreRebased(files: seq<Module>, o: Symbol)
    ensures o in Layout(files).outs <==> FromSome(SwappedModules(files), |files|, o)
  {
    var w := SwappedModules(files);
    SwappedModuleLayout(files);
    assert w[..|w|] == w;
    TableIsRebased(w, |w|, o);
  }
}
