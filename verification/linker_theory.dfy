/** Linking preserves meaning: the machine decodes the patched words as the symbols they name. */
module LinkerTheory {
  import opened X20
  import opened Linker

  // ---------------------------------------------------------------- what a patched word means

  predicate TakesAddress20(op: int) {
    op == CALL || op == JMP || op == LOAD || op == STORE || op == LDADDR
  }

  predicate TakesAddress16(op: int) {
    op == BLT || op == BGT || op == BEQ || op == CMPXCHG
  }

  /** The address a word refers to when the virtual machine executes it at pc. */
  function TargetOf(w: Word, pc: int): int {
    pc + 1 + if TakesAddress20(Opcode(w)) then Disp20(w) else Disp16(w)
  }

  /** A patched 20-bit instruction keeps its opcode and register, and it refers to the
      symbol exactly when the displacement fits the field. */
  lemma Relocated20(w: Word, pc: int, d: int)
    requires TakesAddress20(Opcode(w))
    ensures Opcode(Relocate(w, pc, d)) == Opcode(w) && Reg1(Relocate(w, pc, d)) == Reg1(w)
    ensures TargetOf(Relocate(w, pc, d), pc) == d <==> -0x8_0000 <= d - (pc + 1) < 0x8_0000
    ensures Relocate(w, pc, d) % 4096 == w % 4096
  {
    HighField20((d - (pc + 1)) % TWO20, w);
    DisplacementsAgree(Relocate(w, pc, d));
    SignedField((d - (pc + 1)), TWO20);
  }

  /** The same for an instruction with two registers and a 16-bit field. */
  lemma Relocated16(w: Word, pc: int, d: int)
    requires TakesAddress16(Opcode(w))
    ensures Opcode(Relocate(w, pc, d)) == Opcode(w)
    ensures Reg1(Relocate(w, pc, d)) == Reg1(w) && Reg2(Relocate(w, pc, d)) == Reg2(w)
    ensures TargetOf(Relocate(w, pc, d), pc) == d <==> -0x8000 <= d - (pc + 1) < 0x8000
    ensures Relocate(w, pc, d) % TWO16 == w % TWO16
  {
    HighField16((d - (pc + 1)) % TWO16, w);
    DisplacementsAgree(Relocate(w, pc, d));
    SignedField((d - (pc + 1)), TWO16);
  }

  /** Reducing a displacement to a field and extending its sign gives it back exactly when it fits. */
  lemma SignedField(a: int, size: int)
    requires size == TWO16 || size == TWO20
    ensures (if a % size < size / 2 then a % size else a % size - size) == a <==> -(size / 2) <= a < size / 2
  {}

  /** A word that is patched again forgets the first patch. */
  lemma RelocateAgain(w: Word, pc: int, c: int, d: int)
    ensures Relocate(Relocate(w, pc, c), pc, d) == Relocate(w, pc, d)
  {
    if TakesAddress20(Opcode(w)) {
      Relocated20(w, pc, c);
    } else if TakesAddress16(Opcode(w)) {
      Relocated16(w, pc, c);
    }
  }

  /** Only the distance matters: moving code and symbol together gives the same word. */
  lemma RelocateMoved(w: Word, pc: int, d: int, offset: int)
    ensures Relocate(w, pc + offset, Wrap(d + offset)) == Relocate(w, pc, d)
  {
    var a, b := d - (pc + 1), Wrap(d + offset) - (pc + offset + 1);
    var k := (d + offset) / TWO32;
    assert b == a - k * TWO32;
    SameLowBits(a, k);
  }

  lemma SameLowBits(a: int, k: int)
    ensures (a - k * TWO32) % TWO20 == a % TWO20
    ensures (a - k * TWO32) % TWO16 == a % TWO16
  {
    assert k * TWO32 == (k * 4096) * TWO20 == (k * TWO16) * TWO16;
    Drop20(a, k * 4096);
    Drop16(a, k * TWO16);
  }

  lemma Drop20(a: int, j: int)
    ensures (a - j * TWO20) % TWO20 == a % TWO20
  {
    assert a - j * TWO20 == (a / TWO20 - j) * TWO20 + a % TWO20;
  }

  lemma Drop16(a: int, j: int)
    ensures (a - j * TWO16) % TWO16 == a % TWO16
  {
    assert a - j * TWO16 == (a / TWO16 - j) * TWO16 + a % TWO16;
  }

  // ---------------------------------------------------------------- what resolution does

  /** At most one outsymbol refers to a code word. */
  predicate OneRecordPerWord(outs: seq<Symbol>) {
    forall i, j :: 0 <= i < |outs| && 0 <= j < |outs| && outs[i].address == outs[j].address ==> outs[i] == outs[j]
  }

  lemma {:induction false} PatchMissing(code: seq<Word>, pc: int, name: Name, ins: seq<Symbol>)
    requires !Defines(ins, name)
    ensures Patch(code, pc, name, ins) == code
  {
    if ins != [] {
      assert ins[0].name != name;
      assert !Defines(ins[1..], name);
      PatchMissing(code, pc, name, ins[1..]);
    }
  }

  lemma {:induction false} PatchFound(code: seq<Word>, pc: int, ins: seq<Symbol>, k: nat)
    requires 0 <= pc < |code| && UniqueNames(ins) && k < |ins|
    ensures Patch(code, pc, ins[k].name, ins) == code[pc := Relocate(code[pc], pc, ins[k].address)]
  {
    var name := ins[k].name;
    if k == 0 {
      assert !Defines(ins[1..], name);
      PatchMissing(code[pc := Relocate(code[pc], pc, ins[0].address)], pc, name, ins[1..]);
    } else {
      assert ins[0].name != name && ins[1..][k - 1] == ins[k];
      PatchFound(code, pc, ins[1..], k - 1);
    }
  }

  /** The word at p is patched with d. */
  ghost predicate Patched(outs: seq<Symbol>, ins: seq<Symbol>, p: int, d: Word) {
    exists o :: o in outs && o.address == p && Symbol(o.name, d) in ins
  }

  ghost predicate Untouched(outs: seq<Symbol>, ins: seq<Symbol>, p: int) {
    forall o :: o in outs && o.address == p ==> !Defines(ins, o.name)
  }

  /** Record k is the last one at the word p whose name is defined. */
  ghost predicate Wins(outs: seq<Symbol>, ins: seq<Symbol>, p: int, k: int) {
    && 0 <= k < |outs| && outs[k].address == p && Defines(ins, outs[k].name)
    && forall j :: k < j < |outs| && outs[j].address == p ==> !Defines(ins, outs[j].name)
  }

  lemma {:induction false} UntouchedStays(code: seq<Word>, outs: seq<Symbol>, ins: seq<Symbol>, p: int)
    requires 0 <= p < |code| && UniqueNames(ins) && Untouched(outs, ins, p)
    ensures PatchAll(code, outs, ins)[p] == code[p]
    decreases outs
  {
    if outs != [] {
      assert outs[0] in outs;
      PatchStep(code, outs[0], ins);
      UntouchedStays(Patch(code, outs[0].address, outs[0].name, ins), outs[1..], ins, p);
    }
  }

  /** Resolution leaves in each word that is referred to the address of the last record there whose
      name is defined. */
  lemma {:induction false} LastRecordWins(code: seq<Word>, outs: seq<Symbol>, ins: seq<Symbol>, p: int, k: nat, d: Word)
    requires 0 <= p < |code| && UniqueNames(ins) && Wins(outs, ins, p, k) && Symbol(outs[k].name, d) in ins
    ensures PatchAll(code, outs, ins)[p] == Relocate(code[p], p, d)
    decreases outs
  {
    var o, rest := outs[0], outs[1..];
    var code' := Patch(code, o.address, o.name, ins);
    PatchStep(code, o, ins);
    if k == 0 {
      forall s | s in rest && s.address == p ensures !Defines(ins, s.name) {
        var j :| 0 <= j < |rest| && rest[j] == s;
        assert outs[j + 1] == s;
      }
      UntouchedStays(code', rest, ins, p);
    } else {
      assert Wins(rest, ins, p, k - 1) && rest[k - 1] == outs[k];
      LastRecordWins(code', rest, ins, p, k - 1, d);
      PatchedOnce(code, o, ins, p, d);
    }
  }

  lemma PatchedOnce(code: seq<Word>, o: Symbol, ins: seq<Symbol>, p: int, d: Word)
    requires 0 <= p < |code| && UniqueNames(ins)
    ensures Relocate(Patch(code, o.address, o.name, ins)[p], p, d) == Relocate(code[p], p, d)
  {
    PatchStep(code, o, ins);
    if o.address == p && Defines(ins, o.name) {
      var j :| 0 <= j < |ins| && ins[j].name == o.name;
      assert Symbol(o.name, ins[j].address) == ins[j];
      RelocateAgain(code[p], p, ins[j].address, d);
    }
  }

  /** A word that is not left alone has a last record. */
  lemma {:induction false} LastRecord(outs: seq<Symbol>, ins: seq<Symbol>, p: int) returns (k: nat)
    requires !Untouched(outs, ins, p)
    ensures Wins(outs, ins, p, k)
  {
    var n := |outs| - 1;
    if outs[n].address == p && Defines(ins, outs[n].name) {
      k := n;
    } else {
      var o :| o in outs && o.address == p && Defines(ins, o.name);
      assert o in outs[..n];
      k := LastRecord(outs[..n], ins, p);
    }
  }

  /** With one record per word that is the symbol's address. */
  lemma PatchAllAt(code: seq<Word>, outs: seq<Symbol>, ins: seq<Symbol>, p: int)
    requires 0 <= p < |code| && UniqueNames(ins) && OneRecordPerWord(outs)
    ensures forall d: Word :: Patched(outs, ins, p, d) ==> PatchAll(code, outs, ins)[p] == Relocate(code[p], p, d)
    ensures Untouched(outs, ins, p) ==> PatchAll(code, outs, ins)[p] == code[p]
  {
    if Untouched(outs, ins, p) { UntouchedStays(code, outs, ins, p); }
    forall d: Word | Patched(outs, ins, p, d) ensures PatchAll(code, outs, ins)[p] == Relocate(code[p], p, d) {
      var o :| o in outs && o.address == p && Symbol(o.name, d) in ins;
      MemberDefines(ins, o.name, d);
      var k := LastRecord(outs, ins, p);
      var i :| 0 <= i < |outs| && outs[i] == o;
      assert outs[i].address == outs[k].address;
      LastRecordWins(code, outs, ins, p, k, d);
    }
  }

  lemma MemberDefines(ins: seq<Symbol>, name: Name, d: Word)
    requires Symbol(name, d) in ins
    ensures Defines(ins, name)
  {
    var i :| 0 <= i < |ins| && ins[i] == Symbol(name, d);
    assert ins[i].name == name;
  }

  lemma PatchStep(code: seq<Word>, o: Symbol, ins: seq<Symbol>)
    requires UniqueNames(ins)
    ensures !Defines(ins, o.name) ==> Patch(code, o.address, o.name, ins) == code
    ensures forall d: Word :: Symbol(o.name, d) in ins && o.address < |code| ==>
      Patch(code, o.address, o.name, ins) == code[o.address := Relocate(code[o.address], o.address, d)]
    ensures forall p :: 0 <= p < |code| && p != o.address ==> Patch(code, o.address, o.name, ins)[p] == code[p]
  {
    if Defines(ins, o.name) {
      var k :| 0 <= k < |ins| && ins[k].name == o.name;
      if o.address < |code| {
        PatchFound(code, o.address, ins, k);
        forall d: Word | Symbol(o.name, d) in ins ensures d == ins[k].address {
          var j :| 0 <= j < |ins| && ins[j] == Symbol(o.name, d);
        }
      }
    } else {
      PatchMissing(code, o.address, o.name, ins);
    }
  }

  lemma {:induction false} UnresolvedMembers(outs: seq<Symbol>, ins: seq<Symbol>)
    ensures forall o :: o in Unresolved(outs, ins) <==> o in outs && !Defines(ins, o.name)
  {
    if outs != [] {
      UnresolvedMembers(outs[1..], ins);
      assert outs == [outs[0]] + outs[1..];
    }
  }

  /** Linking preserves meaning.  In the linked code, every word to which a record with a defined
      name refers is the assembled instruction with its address field made to refer to that
      symbol's rebased address, the last such record counting; every other word is as assembled,
      so that its target moves with the file. */
  lemma LinkPreservesMeaning(files: seq<Module>, isObject: bool)
    requires Link(files, isObject).Linked?
    ensures var m, out := Layout(files), Link(files, isObject).output;
      && |out.code| == |m.code| && out.ins == m.ins
      && (forall p, k, d: Word :: 0 <= p < |m.code| && Wins(m.outs, m.ins, p, k) && Symbol(m.outs[k].name, d) in m.ins ==>
            Refers(m.code[p], out.code[p], p, d))
      && (forall p :: 0 <= p < |m.code| && Untouched(m.outs, m.ins, p) ==> out.code[p] == m.code[p])
      && (forall p :: Untouched(m.outs, m.ins, p) || exists k :: Wins(m.outs, m.ins, p, k))
      && (forall o :: o in out.outs <==> o in m.outs && !Defines(m.ins, o.name))
  {
    var m := Layout(files);
    UnresolvedMembers(m.outs, m.ins);
    var out := Resolve(m);
    forall p | 0 <= p < |m.code| && Untouched(m.outs, m.ins, p) ensures out.code[p] == m.code[p] {
      UntouchedStays(m.code, m.outs, m.ins, p);
    }
    forall p | !Untouched(m.outs, m.ins, p) ensures exists k :: Wins(m.outs, m.ins, p, k) {
      var k := LastRecord(m.outs, m.ins, p);
    }
    forall p, k, d: Word | 0 <= p < |m.code| && Wins(m.outs, m.ins, p, k) && Symbol(m.outs[k].name, d) in m.ins
      ensures Refers(m.code[p], out.code[p], p, d)
    {
      LastRecordWins(m.code, m.outs, m.ins, p, k, d);
      RelocatedRefers(m.code[p], p, d);
    }
  }

  /** `after` is the instruction `before` with its address field made to refer to d. */
  ghost predicate Refers(before: Word, after: Word, pc: int, d: Word) {
    && Opcode(after) == Opcode(before)
    && (TakesAddress20(Opcode(before)) ==>
          Reg1(after) == Reg1(before) && (TargetOf(after, pc) == d <==> -0x8_0000 <= d - (pc + 1) < 0x8_0000))
    && (TakesAddress16(Opcode(before)) ==>
          && Reg1(after) == Reg1(before) && Reg2(after) == Reg2(before)
          && (TargetOf(after, pc) == d <==> -0x8000 <= d - (pc + 1) < 0x8000))
    && (!TakesAddress20(Opcode(before)) && !TakesAddress16(Opcode(before)) ==> after == before)
  }

  lemma RelocatedRefers(w: Word, pc: int, d: Word)
    ensures Refers(w, Relocate(w, pc, d), pc, d)
  {
    if TakesAddress20(Opcode(w)) {
      Relocated20(w, pc, d);
    } else if TakesAddress16(Opcode(w)) {
      Relocated16(w, pc, d);
    }
  }
}
