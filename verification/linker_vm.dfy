/** The linked code on the machine: an instruction whose symbol was resolved acts on the
    symbol's address. */
module LinkerVm {
  import opened X20
  import opened Linker
  import opened LinkerTheory
  import Vm

  /** From s to s' the instruction w, with the registers it was assembled with, has acted on the
      address d. */
  predicate ActsOn(env: Vm.Env, s: Vm.State, s': Vm.State, w: Word, d: Word) {
    GoesTo(env, s, s', w, d) && Accesses(s, s', w, d)
  }

  predicate GoesTo(env: Vm.Env, s: Vm.State, s': Vm.State, w: Word, d: Word) {
    var op, a, b, next := Opcode(w), s.core.reg[Reg1(w)], s.core.reg[Reg2(w)], Wrap(s.core.Reg(Vm.PC) + 1);
    var pc := s'.core.reg[Vm.PC];
    && (op == JMP ==> pc == d)
    && (op == CALL && !Vm.CallRefused(env, s.core) ==> pc == d)
    && (op == BEQ ==> pc == if a == b then d else next)
    && (op == BLT ==> pc == if Signed(a) < Signed(b) then d else next)
    && (op == BGT ==> pc == if Signed(a) > Signed(b) then d else next)
  }

  predicate Accesses(s: Vm.State, s': Vm.State, w: Word, d: Word) {
    var op, r1, a, b := Opcode(w), Reg1(w), s.core.reg[Reg1(w)], s.core.reg[Reg2(w)];
    && (op == LOAD && d < Vm.MEM_SIZE && r1 != Vm.PC ==> s'.core.reg[r1] == s.mem[d])
    && (op == LDADDR && r1 != Vm.PC ==> s'.core.reg[r1] == d)
    && (op == STORE && d < Vm.MEM_SIZE ==> s'.mem == s.mem[d := a])
    && (op == CMPXCHG && d < Vm.MEM_SIZE ==> Exchanges(s, s', r1, a, b, d))
  }

  predicate Exchanges(s: Vm.State, s': Vm.State, r1: nat, a: Word, b: Word, d: Word)
    requires r1 < 16 && d < Vm.MEM_SIZE
  {
    if a == s.mem[d] then s'.mem == s.mem[d := b]
    else s'.mem == s.mem && (r1 != Vm.PC ==> s'.core.reg[r1] == s.mem[d])
  }

  /** call, jmp, load, store and ldaddr have a field of 20 bits, the branches and cmpxchg one of 16. */
  predicate TakesAddress(op: int) { op in {0x0f, 0x14, 0x01, 0x02, 0x04} || op in {0x11, 0x12, 0x13, 0x15} }

  /** TargetOf is the address that the machine computes. */
  lemma ExecutesOnTarget(env: Vm.Env, s: Vm.State, fp: Vm.Float, d: Word)
    requires s.core.reg[Vm.PC] < Vm.MEM_SIZE && TakesAddress(Opcode(s.mem[s.core.reg[Vm.PC]]))
    requires TargetOf(s.mem[s.core.reg[Vm.PC]], s.core.reg[Vm.PC]) == d
    ensures ActsOn(env, s, Vm.Execute(env, s, fp), s.mem[s.core.reg[Vm.PC]], d)
  {
    GoesToTarget(env, s, fp, d);
    AccessesTarget(env, s, fp, d);
  }

  lemma GoesToTarget(env: Vm.Env, s: Vm.State, fp: Vm.Float, d: Word)
    requires s.core.reg[Vm.PC] < Vm.MEM_SIZE && TargetOf(s.mem[s.core.reg[Vm.PC]], s.core.reg[Vm.PC]) == d
    ensures GoesTo(env, s, Vm.Execute(env, s, fp), s.mem[s.core.reg[Vm.PC]], d)
  {
    var pc := s.core.Reg(Vm.PC);
    assert Wrap(pc + 1) == pc + 1 && Wrap(d) == d;
  }

  lemma AccessesTarget(env: Vm.Env, s: Vm.State, fp: Vm.Float, d: Word)
    requires s.core.reg[Vm.PC] < Vm.MEM_SIZE && TargetOf(s.mem[s.core.reg[Vm.PC]], s.core.reg[Vm.PC]) == d
    ensures Accesses(s, Vm.Execute(env, s, fp), s.mem[s.core.reg[Vm.PC]], d)
  {
    var pc := s.core.Reg(Vm.PC);
    assert Wrap(pc + 1) == pc + 1 && Wrap(d) == d;
    var w := s.mem[pc];
    if Opcode(w) == CMPXCHG {
      ExchangesTarget(env, s, fp, d);
    } else if LOAD <= Opcode(w) <= STIND {
      var t := Vm.Transfer(s, Opcode(w), Reg1(w), Reg2(w), Disp20(w), Disp16(w), pc + 1);
      assert Vm.Execute(env, s, fp) == Vm.SetReg(t, Vm.PC, pc + 1);
    }
  }

  lemma ExchangesTarget(env: Vm.Env, s: Vm.State, fp: Vm.Float, d: Word)
    requires s.core.reg[Vm.PC] < Vm.MEM_SIZE && TargetOf(s.mem[s.core.reg[Vm.PC]], s.core.reg[Vm.PC]) == d
    requires Opcode(s.mem[s.core.reg[Vm.PC]]) == CMPXCHG
    ensures var w := s.mem[s.core.reg[Vm.PC]];
      d < Vm.MEM_SIZE ==>
        Exchanges(s, Vm.Execute(env, s, fp), Reg1(w), s.core.reg[Reg1(w)], s.core.reg[Reg2(w)], d)
  {
    var pc := s.core.Reg(Vm.PC);
    assert Wrap(pc + 1) == pc + 1 && Wrap(d) == d;
  }

  lemma SameAction(env: Vm.Env, s: Vm.State, s': Vm.State, v: Word, w: Word, d: Word)
    requires ActsOn(env, s, s', v, d) && Opcode(v) == Opcode(w) && Reg1(v) == Reg1(w)
    requires TakesAddress16(Opcode(w)) ==> Reg2(v) == Reg2(w)
    ensures TakesAddress(Opcode(w)) ==> ActsOn(env, s, s', w, d)
  {}

  predicate InReach(op: int, pc: int, d: int) {
    if op in {0x0f, 0x14, 0x01, 0x02, 0x04} then -0x8_0000 <= d - (pc + 1) < 0x8_0000 else -0x8000 <= d - (pc + 1) < 0x8000
  }

  /** The files are linked and the output is loaded.  A core that executes a word with a resolved
      reference acts on the symbol's rebased address, with the opcode and registers that were
      assembled, if the address is in reach of the instruction. */
  lemma LinkedCodeActsOnSymbols(files: seq<Module>, isObject: bool, env: Vm.Env, s: Vm.State, fp: Vm.Float, k: int, d: Word)
    requires Link(files, isObject).Linked?
    requires var code := Link(files, isObject).output.code;
      |code| <= Vm.MEM_SIZE && s.mem[..|code|] == code && s.core.reg[Vm.PC] < |code|
    requires var m, pc := Layout(files), s.core.reg[Vm.PC];
      && pc < |m.code| && Wins(m.outs, m.ins, pc, k) && Symbol(m.outs[k].name, d) in m.ins
      && TakesAddress(Opcode(m.code[pc])) && InReach(Opcode(m.code[pc]), pc, d)
    ensures ActsOn(env, s, Vm.Execute(env, s, fp), Layout(files).code[s.core.reg[Vm.PC]], d)
  {
    var m, code, pc := Layout(files), Link(files, isObject).output.code, s.core.reg[Vm.PC];
    LinkPreservesMeaning(files, isObject);
    assert Refers(m.code[pc], code[pc], pc, d);
    assert s.mem[..|code|][pc] == s.mem[pc];
    ExecutesOnTarget(env, s, fp, d);
    SameAction(env, s, Vm.Execute(env, s, fp), code[pc], m.code[pc], d);
  }
}
