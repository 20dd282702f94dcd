/** generate_output_file in its own form: nested loops fill the sections and patch the code
    in place.  It is proved to compute the function Link. */
module LinkerGenerate {
  import opened X20
  import opened Linker
  import opened LinkerGrouping
  import opened LinkerFiles

  // ---------------------------------------------------------------- folds, one element at the end

  lemma LayoutSnoc(files: seq<Module>, i: nat)
    requires i < |files|
    ensures Layout(files[..i + 1]) == Join(Layout(files[..i]), files[i])
    ensures Layout(files[..i + 1]).ins <= Layout(files).ins
    ensures |Layout(files[..i + 1]).code| <= |Layout(files).code|
  {
    assert files[..i + 1] == files[..i] + [files[i]];
    LayoutConcat(files[..i], [files[i]]);
    var m := files[i];
    assert [m][1..] == [];
    assert m.ins + [] == m.ins && m.outs + [] == m.outs && m.code + [] == m.code;
    assert Layout([m]) == m;
    assert files == files[..i + 1] + files[i + 1..];
    LayoutConcat(files[..i + 1], files[i + 1..]);
  }

  lemma ShiftSnoc(ss: seq<Symbol>, k: int, j: nat)
    requires j < |ss|
    ensures ShiftAll(ss[..j + 1], k) == ShiftAll(ss[..j], k) + [Shift(ss[j], k)]
  {
    assert ss[..j + 1] == ss[..j] + [ss[j]];
    ShiftConcat(ss[..j], [ss[j]], k);
    assert [ss[j]][1..] == [];
  }

  lemma {:induction false} PatchSnoc(code: seq<Word>, pc: nat, name: Name, ins: seq<Symbol>, s: Symbol)
    requires pc < |code|
    ensures Patch(code, pc, name, ins + [s]) ==
      var c := Patch(code, pc, name, ins); if s.name == name then c[pc := Relocate(c[pc], pc, s.address)] else c
    decreases ins
  {
    if ins == [] {
      assert ins + [s] == [s] && [s][1..] == [];
    } else {
      assert (ins + [s])[1..] == ins[1..] + [s];
      PatchSnoc(if ins[0].name == name then code[pc := Relocate(code[pc], pc, ins[0].address)] else code,
                pc, name, ins[1..], s);
    }
  }

  lemma {:induction false} PatchAllSnoc(code: seq<Word>, outs: seq<Symbol>, o: Symbol, ins: seq<Symbol>)
    ensures PatchAll(code, outs + [o], ins) == Patch(PatchAll(code, outs, ins), o.address, o.name, ins)
    decreases outs
  {
    if outs == [] {
      assert outs + [o] == [o] && [o][1..] == [];
    } else {
      assert (outs + [o])[1..] == outs[1..] + [o];
      PatchAllSnoc(Patch(code, outs[0].address, outs[0].name, ins), outs[1..], o, ins);
    }
  }

  lemma {:induction false} UnresolvedSnoc(outs: seq<Symbol>, o: Symbol, ins: seq<Symbol>)
    ensures Unresolved(outs + [o], ins) == Unresolved(outs, ins) + if Defines(ins, o.name) then [] else [o]
  {
    if outs == [] {
      assert outs + [o] == [o] && [o][1..] == [];
    } else {
      UnresolvedSnoc(outs[1..], o, ins);
      var all, first := outs + [o], if Defines(ins, outs[0].name) then [] else [outs[0]];
      assert all[0] == outs[0] && all[1..] == outs[1..] + [o];
      assert Unresolved(all, ins) == first + Unresolved(all[1..], ins);
    }
  }

  // ---------------------------------------------------------------- the sections

  /** Copies the insymbols of one file to the table, checking each against all before it. */
  method InsertInsymbols(table: seq<Symbol>, insyms: seq<Symbol>, pcOffset: nat) returns (table': seq<Symbol>, duplicate: bool)
    requires UniqueNames(table)
    ensures !duplicate ==> table' == table + ShiftAll(insyms, pcOffset)
    ensures duplicate <==> !UniqueNames(table + ShiftAll(insyms, pcOffset))
  {
    table' := table;
    var j := 0;
    assert table + ShiftAll(insyms[..0], pcOffset) == table;
    while j < |insyms|
      invariant 0 <= j <= |insyms| && UniqueNames(table')
      invariant table' == table + ShiftAll(insyms[..j], pcOffset)
    {
      ShiftSnoc(insyms, pcOffset, j);
      ShiftConcat(insyms[..j + 1], insyms[j + 1..], pcOffset);
      assert insyms == insyms[..j + 1] + insyms[j + 1..];
      var i := 0;
      while i < |table'|
        invariant 0 <= i <= |table'|
        invariant forall k :: 0 <= k < i ==> table'[k].name != insyms[j].name
      {
        if table'[i].name == insyms[j].name {
          ghost var all := table + ShiftAll(insyms, pcOffset);
          assert all[i] == table'[i] && all[|table'|].name == insyms[j].name;
          return table', true;
        }
        i := i + 1;
      }
      table' := table' + [Shift(insyms[j], pcOffset)];
      j := j + 1;
    }
    assert insyms[..j] == insyms;
    return table', false;
  }

  /** Scans the whole insymbol table for the name of one outsymbol, patching the instruction
      at pc at every match. */
  method ResolveOutsymbol(code: array<Word>, pc: nat, name: Name, table: seq<Symbol>) returns (defined: bool)
    requires pc < code.Length
    modifies code
    ensures code[..] == Patch(old(code[..]), pc, name, table)
    ensures defined <==> Defines(table, name)
  {
    defined := false;
    var i := 0;
    assert table[..0] == [];
    while i < |table|
      invariant 0 <= i <= |table|
      invariant code[..] == Patch(old(code[..]), pc, name, table[..i])
      invariant defined <==> Defines(table[..i], name)
    {
      assert table[..i + 1] == table[..i] + [table[i]];
      PatchSnoc(old(code[..]), pc, name, table[..i], table[i]);
      DefinesSnoc(table[..i], table[i], name);
      if table[i].name == name {
        defined := true;
        code[pc] := Relocate(code[pc], pc, table[i].address);
      }
      i := i + 1;
    }
    assert table[..i] == table;
  }

  lemma DefinesSnoc(ins: seq<Symbol>, s: Symbol, name: Name)
    ensures Defines(ins + [s], name) <==> Defines(ins, name) || s.name == name
  {
    if Defines(ins, name) {
      var i :| 0 <= i < |ins| && ins[i].name == name;
      assert (ins + [s])[i].name == name;
    }
    assert (ins + [s])[|ins|] == s;
  }

  /** Resolves the outsymbols of one file, and collects those that no file defines. */
  method ResolveFile(code: array<Word>, file: Module, pcOffset: nat, table: seq<Symbol>, unresolved: seq<Symbol>,
                     ghost original: seq<Word>, ghost done: seq<Symbol>)
    returns (unresolved': seq<Symbol>)
    requires WellFormed(file) && pcOffset + |file.code| <= code.Length < TWO32
    requires |original| == code.Length
    requires code[..] == PatchAll(original, done, table) && unresolved == Unresolved(done, table)
    modifies code
    ensures code[..] == PatchAll(original, done + ShiftAll(file.outs, pcOffset), table)
    ensures unresolved' == Unresolved(done + ShiftAll(file.outs, pcOffset), table)
  {
    unresolved' := unresolved;
    var j := 0;
    assert done + ShiftAll(file.outs[..0], pcOffset) == done;
    while j < |file.outs|
      invariant 0 <= j <= |file.outs|
      invariant code[..] == PatchAll(original, done + ShiftAll(file.outs[..j], pcOffset), table)
      invariant unresolved' == Unresolved(done + ShiftAll(file.outs[..j], pcOffset), table)
    {
      var o := file.outs[j];
      assert o in file.outs;
      var pc := pcOffset + o.address;
      assert Shift(o, pcOffset) == Symbol(o.name, pc);
      ShiftSnoc(file.outs, pcOffset, j);
      ghost var before := done + ShiftAll(file.outs[..j], pcOffset);
      assert done + ShiftAll(file.outs[..j + 1], pcOffset) == before + [Shift(o, pcOffset)];
      PatchAllSnoc(original, before, Shift(o, pcOffset), table);
      UnresolvedSnoc(before, Shift(o, pcOffset), table);
      var defined := ResolveOutsymbol(code, pc, o.name, table);
      if !defined {
        unresolved' := unresolved' + [Symbol(o.name, pc)];
      }
      j := j + 1;
    }
    assert file.outs[..j] == file.outs;
  }

  method GenerateOutput(files: seq<Module>, isObject: bool) returns (r: LinkResult)
    requires forall f :: f in files ==> WellFormed(f)
    requires |Layout(files).code| < TWO32
    ensures r == Link(files, isObject)
  {
    var objectWords := CountWords(files);
    if objectWords == 0 {
      return NoCode;
    }
    var code := new Word[objectWords](_ => 0);
    var table, duplicate := LayOut(files, code);
    if duplicate {
      return DuplicateInsymbol;
    }
    var outs := ResolveAll(files, code, table);
    return Linked(Module(table, outs, code[..]), isObject || outs != []);
  }

  /** The first pass: insymbols and code of all files. */
  method LayOut(files: seq<Module>, code: array<Word>) returns (table: seq<Symbol>, duplicate: bool)
    requires code.Length == |Layout(files).code|
    modifies code
    ensures duplicate <==> !UniqueNames(Layout(files).ins)
    ensures !duplicate ==> table == Layout(files).ins && code[..] == Layout(files).code
  {
    table := [];
    var pcOffset, i := 0, 0;
    assert files[..0] == [];
    while i < |files|
      invariant 0 <= i <= |files| && UniqueNames(table)
      invariant table == Layout(files[..i]).ins
      invariant pcOffset == |Layout(files[..i]).code| <= code.Length && code[..pcOffset] == Layout(files[..i]).code
    {
      LayoutSnoc(files, i);
      ghost var before := table;
      table, duplicate := InsertInsymbols(table, files[i].ins, pcOffset);
      if duplicate {
        DuplicateInPrefix(before + ShiftAll(files[i].ins, pcOffset), Layout(files).ins);
        return;
      }
      CopyCode(code, files[i].code, pcOffset);
      pcOffset := pcOffset + |files[i].code|;
      i := i + 1;
    }
    assert files[..i] == files && code[..] == code[..pcOffset];
    duplicate := false;
  }

  /** The second pass: the outsymbols of all files. */
  method ResolveAll(files: seq<Module>, code: array<Word>, table: seq<Symbol>) returns (outs: seq<Symbol>)
    requires (forall f :: f in files ==> WellFormed(f)) && code.Length == |Layout(files).code| < TWO32
    modifies code
    ensures code[..] == PatchAll(old(code[..]), Layout(files).outs, table)
    ensures outs == Unresolved(Layout(files).outs, table)
  {
    outs := [];
    var pcOffset, i := 0, 0;
    assert files[..0] == [];
    while i < |files|
      invariant 0 <= i <= |files| && pcOffset == |Layout(files[..i]).code|
      invariant code[..] == PatchAll(old(code[..]), Layout(files[..i]).outs, table)
      invariant outs == Unresolved(Layout(files[..i]).outs, table)
    {
      LayoutSnoc(files, i);
      assert files[i] in files;
      outs := ResolveFile(code, files[i], pcOffset, table, outs, old(code[..]), Layout(files[..i]).outs);
      pcOffset := pcOffset + |files[i].code|;
      i := i + 1;
    }
    assert files[..i] == files;
  }

  method CountWords(files: seq<Module>) returns (n: nat)
    ensures n == |Layout(files).code|
  {
    n := 0;
    var i := 0;
    assert files[..0] == [];
    while i < |files|
      invariant 0 <= i <= |files| && n == |Layout(files[..i]).code|
    {
      LayoutSnoc(files, i);
      n := n + |files[i].code|;
      i := i + 1;
    }
    assert files[..i] == files;
  }

  method CopyCode(code: array<Word>, words: seq<Word>, pcOffset: nat)
    requires pcOffset + |words| <= code.Length
    modifies code
    ensures code[..pcOffset + |words|] == old(code[..pcOffset]) + words
  {
    var q := 0;
    while q < |words|
      invariant 0 <= q <= |words|
      invariant code[..pcOffset + q] == old(code[..pcOffset]) + words[..q]
    {
      code[pcOffset + q] := words[q];
      q := q + 1;
    }
    assert words[..q] == words;
  }

  lemma DuplicateInPrefix(a: seq<Symbol>, b: seq<Symbol>)
    requires a <= b && !UniqueNames(a)
    ensures !UniqueNames(b)
  {
    var i, j :| 0 <= i < j < |a| && a[i].name == a[j].name;
    assert b[i] == a[i] && b[j] == a[j];
  }

  lemma LoadAllSnoc(files: seq<ObjectFile>, i: nat)
    requires i < |files|
    ensures LoadAll(files[..i + 1]) == LoadAll(files[..i]) + [Load(files[i])]
  {}

  /** The linker on its list of files: the symbols of each are extracted, the entry point is
      looked for, and the output is generated. */
  method LinkObjects(files: seq<ObjectFile>) returns (r: LinkResult)
    requires forall f :: f in files ==> ProperFile(f)
    requires |Layout(LoadAll(files)).code| < TWO32
    ensures r == LinkFiles(files)
  {
    var modules: seq<Module>, found, i := [], false, 0;
    while i < |files|
      invariant 0 <= i <= |files| && modules == LoadAll(files[..i])
      invariant forall m :: m in modules ==> WellFormed(m)
      invariant found <==> Defines(Layout(modules).ins, MAINX20)
    {
      assert files[i] in files;
      var m, main := ExtractSymbols(files[i]);
      LoadedIsProper(files[i]);
      LoadAllSnoc(files, i);
      AnyDefines(modules, m, MAINX20);
      found := found || main;
      modules := modules + [m];
      i := i + 1;
    }
    assert files[..i] == files;
    r := GenerateOutput(modules, !found);
  }

  /** A name is defined by some file exactly when it is in the layout. */
  lemma AnyDefines(modules: seq<Module>, m: Module, name: Name)
    ensures Defines(Layout(modules + [m]).ins, name) <==> Defines(Layout(modules).ins, name) || Defines(m.ins, name)
  {
    var all := modules + [m];
    LayoutSnoc(all, |modules|);
    assert all[..|modules|] == modules && all[..|all|] == all;
    var off := |Layout(modules).code|;
    assert Layout(all).ins == Layout(modules).ins + ShiftAll(m.ins, off);
    ShiftDefines(m.ins, off, name);
    DefinesConcat(Layout(modules).ins, ShiftAll(m.ins, off), name);
  }

  lemma {:induction false} ShiftDefines(ins: seq<Symbol>, off: int, name: Name)
    ensures Defines(ShiftAll(ins, off), name) <==> Defines(ins, name)
  {
    if ins != [] {
      ShiftDefines(ins[1..], off, name);
      DefinesCons(ins[0], ins[1..]);
      DefinesCons(Shift(ins[0], off), ShiftAll(ins[1..], off));
      assert ins == [ins[0]] + ins[1..];
    }
  }

  lemma DefinesConcat(a: seq<Symbol>, b: seq<Symbol>, name: Name)
    ensures Defines(a + b, name) <==> Defines(a, name) || Defines(b, name)
  {
    if Defines(a, name) {
      var i :| 0 <= i < |a| && a[i].name == name;
      assert (a + b)[i].name == name;
    }
    if Defines(b, name) {
      var i :| 0 <= i < |b| && b[i].name == name;
      assert (a + b)[|a| + i].name == name;
    }
    if Defines(a + b, name) {
      var i :| 0 <= i < |a + b| && (a + b)[i].name == name;
      assert i < |a| ==> a[i].name == name;
      assert i >= |a| ==> b[i - |a|].name == name;
    }
  }
}
