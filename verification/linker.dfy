/** The X20 linker: object files are concatenated, symbols rebased, and the references to
    symbols of other files patched into the code.

    An object file is its three sections; the word counts in its header are five words per
    symbol record and one per code word. */
module Linker {
  import opened X20

  type Byte = b: int | 0 <= b < 256

  /** A symbol's name is what the 16-byte field of its record holds before the first NUL. */
  type Name = seq<Byte>

  datatype Symbol = Symbol(name: Name, address: Word)

  datatype Module = Module(ins: seq<Symbol>, outs: seq<Symbol>, code: seq<Word>)

  const EMPTY := Module([], [], [])

  datatype LinkResult = NoCode | DuplicateInsymbol | Linked(output: Module, isObject: bool)

  /** Outsymbol records name a word of the file's own code. */
  predicate WellFormed(m: Module) {
    forall o :: o in m.outs ==> o.address < |m.code|
  }

  // ---------------------------------------------------------------- layout

  function Shift(s: Symbol, offset: int): Symbol {
    Symbol(s.name, Wrap(s.address + offset))
  }

  function ShiftAll(ss: seq<Symbol>, offset: int): (r: seq<Symbol>)
    ensures |r| == |ss|
  {
    if ss == [] then [] else [Shift(ss[0], offset)] + ShiftAll(ss[1..], offset)
  }

  /** File b laid out after file a. */
  function Join(a: Module, b: Module): Module {
    Module(a.ins + ShiftAll(b.ins, |a.code|), a.outs + ShiftAll(b.outs, |a.code|), a.code + b.code)
  }

  /** All files laid out one after the other, nothing resolved yet. */
  function Layout(files: seq<Module>): Module {
    if files == [] then EMPTY else Join(files[0], Layout(files[1..]))
  }

  // ---------------------------------------------------------------- resolution

  predicate Defines(ins: seq<Symbol>, name: Name) {
    exists i :: 0 <= i < |ins| && ins[i].name == name
  }

  predicate UniqueNames(ins: seq<Symbol>) {
    forall i, j :: 0 <= i < j < |ins| ==> ins[i].name != ins[j].name
  }

  /** The instruction with its address field set to the displacement from pc to the symbol;
      words whose opcode takes no address stay as they are. */
  function Relocate(instr: Word, pc: int, definition: int): Word {
    var op := Opcode(instr);
    var addr := definition - (pc + 1);
    if op == CALL || op == JMP || op == LOAD || op == STORE || op == LDADDR then
      addr % TWO20 * 4096 + instr % 4096
    else if op == BLT || op == BGT || op == BEQ || op == CMPXCHG then
      addr % TWO16 * TWO16 + instr % TWO16
    else instr
  }

  /** Patches the word at pc once for every insymbol of that name, in table order. */
  function Patch(code: seq<Word>, pc: int, name: Name, ins: seq<Symbol>): (r: seq<Word>)
    ensures |r| == |code|
    decreases ins
  {
    if ins == [] || !(0 <= pc < |code|) then code
    else
      var code' := if ins[0].name == name then code[pc := Relocate(code[pc], pc, ins[0].address)] else code;
      Patch(code', pc, name, ins[1..])
  }

  function PatchAll(code: seq<Word>, outs: seq<Symbol>, ins: seq<Symbol>): (r: seq<Word>)
    ensures |r| == |code|
    decreases outs
  {
    if outs == [] then code
    else PatchAll(Patch(code, outs[0].address, outs[0].name, ins), outs[1..], ins)
  }

  function Unresolved(outs: seq<Symbol>, ins: seq<Symbol>): seq<Symbol> {
    if outs == [] then []
    else (if Defines(ins, outs[0].name) then [] else [outs[0]]) + Unresolved(outs[1..], ins)
  }

  function Resolve(m: Module): Module {
    Module(m.ins, Unresolved(m.outs, m.ins), PatchAll(m.code, m.outs, m.ins))
  }

  /** What the linker makes of the files as it has loaded them. */
  function Link(files: seq<Module>, isObject: bool): LinkResult {
    var m := Layout(files);
    if m.code == [] then NoCode
    else if !UniqueNames(m.ins) then DuplicateInsymbol
    else Linked(Resolve(m), isObject || Resolve(m).outs != [])
  }

  // ---------------------------------------------------------------- files

  const FIELD := 16

  /** A symbol record of an object file: the 16-byte name field and the address word. */
  datatype Record = Record(field: seq<Byte>, address: Word)

  datatype ObjectFile = ObjectFile(ins: seq<Record>, outs: seq<Record>, code: seq<Word>)

  predicate ProperFile(f: ObjectFile) {
    && (forall r :: r in f.ins + f.outs ==> |r.field| == FIELD)
    && (forall r :: r in f.outs ==> r.address < |f.code|)
  }

  /** What strncpy copies of a name field: all before the first NUL. */
  function CString(field: seq<Byte>): (s: Name)
    ensures |s| <= |field| && 0 !in s
  {
    if field == [] || field[0] == 0 then [] else [field[0]] + CString(field[1..])
  }

  lemma {:induction false} CStringStopsAtNul(field: seq<Byte>)
    ensures CString(field) <= field && (|CString(field)| == |field| || field[|CString(field)|] == 0)
  {
    if field != [] && field[0] != 0 { CStringStopsAtNul(field[1..]); }
  }

  predicate ProperName(n: Name) {
    |n| <= FIELD && 0 !in n
  }

  /** The name as memcpy writes it: its buffer is filled with NULs. */
  function NameField(n: Name): seq<Byte> {
    if |n| >= FIELD then n[..FIELD] else n + seq(FIELD - |n|, _ => 0)
  }

  lemma {:induction false} CStringOfPadded(n: Name, k: nat)
    requires 0 !in n
    ensures CString(n + seq(k, _ => 0)) == n
  {
    if n == [] {
      assert n + seq(k, _ => 0) == seq(k, _ => 0);
    } else {
      assert (n + seq(k, _ => 0))[1..] == n[1..] + seq(k, _ => 0);
      CStringOfPadded(n[1..], k);
    }
  }

  /** A name survives being written to a record and read back. */
  lemma NameRoundTrip(n: Name)
    requires ProperName(n)
    ensures |NameField(n)| == FIELD && CString(NameField(n)) == n
  {
    CStringOfPadded(n, FIELD - |n|);
    assert |n| == FIELD ==> n + seq(0, _ => 0) == n && n[..FIELD] == n;
  }

  function SymbolOf(r: Record): Symbol { Symbol(CString(r.field), r.address) }
  function RecordOf(s: Symbol): Record { Record(NameField(s.name), s.address) }

  /** extract_symbols pushes each symbol on the front of a list: the order is reversed. */
  function Symbols(rs: seq<Record>): (ss: seq<Symbol>)
    ensures |ss| == |rs|
    ensures forall i :: 0 <= i < |rs| ==> ss[i] == SymbolOf(rs[|rs| - 1 - i])
  {
    if rs == [] then [] else Symbols(rs[1..]) + [SymbolOf(rs[0])]
  }

  lemma SymbolsSnoc(rs: seq<Record>, i: nat)
    requires i < |rs|
    ensures Symbols(rs[..i + 1]) == [SymbolOf(rs[i])] + Symbols(rs[..i])
  {}

  function Records(ss: seq<Symbol>): (rs: seq<Record>)
    ensures |rs| == |ss| && forall i :: 0 <= i < |rs| ==> rs[i] == RecordOf(ss[i])
  {
    if ss == [] then [] else [RecordOf(ss[0])] + Records(ss[1..])
  }

  function Load(f: ObjectFile): Module {
    Module(Symbols(f.ins), Symbols(f.outs), f.code)
  }

  function Store(m: Module): ObjectFile {
    ObjectFile(Records(m.ins), Records(m.outs), m.code)
  }

  function LoadAll(files: seq<ObjectFile>): (ms: seq<Module>)
    ensures |ms| == |files| && forall i :: 0 <= i < |ms| ==> ms[i] == Load(files[i])
  {
    if files == [] then [] else [Load(files[0])] + LoadAll(files[1..])
  }

  const MAINX20: Name := [109, 97, 105, 110, 120, 50, 48]

  /** The linker on object files, in the order of its list.  The output is an object file, too,
      when no file defines mainx20. */
  function LinkFiles(files: seq<ObjectFile>): LinkResult {
    Link(LoadAll(files), !Defines(Layout(LoadAll(files)).ins, MAINX20))
  }

  /** extract_symbols: fills the two symbol lists and reports whether "mainx20" is defined. */
  method ExtractSymbols(f: ObjectFile) returns (m: Module, found: bool)
    ensures m == Load(f)
    ensures found <==> Defines(m.ins, MAINX20)
  {
    var insyms: seq<Symbol>, outsyms: seq<Symbol> := [], [];
    found := false;
    var i := 0;
    while i < |f.ins| + |f.outs|
      invariant 0 <= i <= |f.ins| + |f.outs|
      invariant insyms == Symbols(f.ins[..if i < |f.ins| then i else |f.ins|])
      invariant outsyms == Symbols(f.outs[..if i < |f.ins| then 0 else i - |f.ins|])
      invariant found <==> Defines(insyms, MAINX20)
    {
      if i < |f.ins| {
        var symbol := SymbolOf(f.ins[i]);
        if !found && symbol.name == MAINX20 {
          found := true;
        }
        SymbolsSnoc(f.ins, i);
        assert forall n :: Defines([symbol] + insyms, n) <==> symbol.name == n || Defines(insyms, n) by {
          DefinesCons(symbol, insyms);
        }
        insyms := [symbol] + insyms;
      } else {
        var symbol := SymbolOf(f.outs[i - |f.ins|]);
        SymbolsSnoc(f.outs, i - |f.ins|);
        outsyms := [symbol] + outsyms;
      }
      i := i + 1;
    }
    assert f.ins[..|f.ins|] == f.ins && f.outs[..|f.outs|] == f.outs;
    m := Module(insyms, outsyms, f.code);
  }

  lemma DefinesCons(s: Symbol, ins: seq<Symbol>)
    ensures forall n :: Defines([s] + ins, n) <==> s.name == n || Defines(ins, n)
  {
    forall n ensures Defines([s] + ins, n) <==> s.name == n || Defines(ins, n) {
      if Defines(ins, n) {
        var i :| 0 <= i < |ins| && ins[i].name == n;
        assert ([s] + ins)[i + 1].name == n;
      }
      assert ([s] + ins)[0] == s;
    }
  }
}
