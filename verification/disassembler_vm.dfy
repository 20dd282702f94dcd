/** The disassembler against the machine: whatever the machine executes, parse_code has marked
    as an instruction. */
module DisassemblerVm {
  import opened X20
  import opened Vm
  import Disassembler

  /** A jump whose address field is zero, which parse_code takes for undefined. */
  predicate BlankJump(w: Word) { Opcode(w) == JMP && w / 4096 == 0 }

  lemma NoWrap(n: int)
    requires -1 <= n <= MEM_SIZE
    ensures Wrap(n) == if n == -1 then TWO32 - 1 else n
  {}

  /** Where a word that transfers control sends the machine; parse_code takes the target -1
      for none. */
  lemma TransferTarget(code: seq<Word>, pc: nat)
    requires pc < |code| <= MEM_SIZE && Disassembler.InRange(code, pc) && Disassembler.Transfers(Opcode(code[pc]))
    ensures var w, t := code[pc], Disassembler.Target(code[pc], pc);
      var target := pc + 1 + if Opcode(w) in {CALL, JMP} then Disp20(w) else Disp16(w);
      && (if t == -1 then target == pc + 1 || target == -1 else t == target)
      && Wrap(target) == (if target == -1 then TWO32 - 1 else target)
  {
    var w := code[pc];
    DisplacementsAgree(w);
    NoWrap(pc + 1 + if Opcode(w) in {CALL, JMP} then Disp20(w) else Disp16(w));
  }

  /** One step: a running core that does not return and stays in the code is where the word leads according to
      parse_code, exactly unless the word is a blank jump. */
  lemma StepIsLed(env: Env, s: State, fp: Float, code: seq<Word>)
    requires |code| <= MEM_SIZE && s.core.reg[PC] < |code| && s.mem[..|code|] == code
    requires Disassembler.InRange(code, s.core.reg[PC]) && Opcode(s.mem[s.core.reg[PC]]) != RET
    requires Execute(env, s, fp).core.running && s.core.running && Execute(env, s, fp).core.reg[PC] <= |code|
    ensures Disassembler.Leads(code, s.core.reg[PC], Execute(env, s, fp).core.reg[PC]) <==> !BlankJump(code[s.core.reg[PC]])
  {
    var pc: nat := s.core.reg[PC];
    var w := code[pc];
    assert w == s.mem[..|code|][pc] == s.mem[pc];
    NoWrap(pc + 1);
    if Disassembler.Transfers(Opcode(w)) { TransferTarget(code, pc); }
  }

  /** The machine takes a blank jump to the word after it. */
  lemma BlankJumpGoesOn(env: Env, s: State, fp: Float)
    requires s.core.reg[PC] < MEM_SIZE && BlankJump(s.mem[s.core.reg[PC]])
    ensures Execute(env, s, fp).core.Reg(PC) == s.core.Reg(PC) + 1
  {
    DisplacementsAgree(s.mem[s.core.reg[PC]]);
    NoWrap(s.core.Reg(PC) + 1);
  }

  /** A word at which the machine stops normally leads nowhere. */
  lemma NormalEndLeadsNowhere(env: Env, s: State, fp: Float, code: seq<Word>, t: int)
    requires |code| <= MEM_SIZE && s.core.reg[PC] < |code| && s.mem[..|code|] == code && s.core.running
    requires var s' := Execute(env, s, fp); !s'.core.running && s'.core.status == NORMAL_TERMINATION
    ensures !Disassembler.Leads(code, s.core.reg[PC], t)
  {
    var pc: nat := s.core.reg[PC];
    assert code[pc] == s.mem[..|code|][pc] == s.mem[pc];
    Disassembler.EndsLeadNowhere(code, pc, t);
  }

  // ---------------------------------------------------------------- every run

  /** The states of one core from the first word on; the code is not overwritten, and a ret
      goes to the word after some call that was executed before. */
  ghost predicate Run(env: Env, code: seq<Word>, ss: seq<State>, fps: seq<Float>) {
    && |code| <= MEM_SIZE && |fps| == |ss| && ss != [] && ss[0].core.reg[PC] == 0
    && (forall k :: 0 <= k < |ss| ==>
          ss[k].core.running && ss[k].core.reg[PC] < |code| && ss[k].mem[..|code|] == code)
    && (forall k, l :: 0 <= k && l == k + 1 < |ss| ==> ss[l] == Execute(env, ss[k], fps[k]))
    && (forall k, l :: 0 <= k && l == k + 1 < |ss| && At(code, ss[k]) == RET ==> AfterCall(code, ss, k, ss[l]))
  }

  function At(code: seq<Word>, s: State): int {
    if s.core.reg[PC] < |code| then Opcode(code[s.core.reg[PC]]) else HALT
  }

  ghost predicate AfterCall(code: seq<Word>, ss: seq<State>, k: nat, s: State)
    requires k < |ss|
  {
    exists j :: 0 <= j < k && At(code, ss[j]) == CALL && s.core.Reg(PC) == ss[j].core.Reg(PC) + 1
  }

  /** At no blank jump before position k does the run leave the marks. */
  ghost predicate BlanksMarked(code: seq<Word>, ss: seq<State>, marks: set<int>, k: nat)
    requires k < |ss|
  {
    forall j :: 0 <= j < k && ss[j].core.reg[PC] < |code| && BlankJump(code[ss[j].core.reg[PC]]) ==>
      ss[j].core.Reg(PC) + 1 in marks
  }

  lemma {:induction false} MarkedSoFar(env: Env, code: seq<Word>, ss: seq<State>, fps: seq<Float>, marks: set<int>, k: nat)
    requires Run(env, code, ss, fps) && k < |ss| && BlanksMarked(code, ss, marks, k)
    requires Disassembler.Closed(code, marks) && 0 in marks
    requires forall pc :: pc in marks && 0 <= pc < |code| ==> Disassembler.InRange(code, pc)
    ensures forall j :: 0 <= j <= k ==> ss[j].core.reg[PC] in marks
  {
    if k > 0 {
      MarkedSoFar(env, code, ss, fps, marks, k - 1);
      var s := ss[k - 1];
      assert ss[k] == Execute(env, s, fps[k - 1]);
      if At(code, s) == RET {
        assert AfterCall(code, ss, k - 1, ss[k]);
        BehindCall(code, ss, k - 1, ss[k], marks);
      } else {
        NextIsMarked(env, code, s, fps[k - 1], marks);
      }
    }
  }

  lemma BehindCall(code: seq<Word>, ss: seq<State>, k: nat, s: State, marks: set<int>)
    requires k < |ss| && AfterCall(code, ss, k, s) && Disassembler.Closed(code, marks)
    requires forall j :: 0 <= j <= k ==> ss[j].core.reg[PC] in marks
    ensures s.core.reg[PC] in marks
  {
    var j :| 0 <= j < k && At(code, ss[j]) == CALL && s.core.Reg(PC) == ss[j].core.Reg(PC) + 1;
    assert Disassembler.Leads(code, ss[j].core.reg[PC], s.core.reg[PC]);
  }

  lemma NextIsMarked(env: Env, code: seq<Word>, s: State, fp: Float, marks: set<int>)
    requires |code| <= MEM_SIZE && s.core.reg[PC] < |code| && s.mem[..|code|] == code && s.core.running
    requires Disassembler.Closed(code, marks) && s.core.reg[PC] in marks && Disassembler.InRange(code, s.core.reg[PC])
    requires At(code, s) != RET && (BlankJump(code[s.core.reg[PC]]) ==> s.core.Reg(PC) + 1 in marks)
    requires var s' := Execute(env, s, fp); s'.core.running && s'.core.reg[PC] < |code|
    ensures Execute(env, s, fp).core.reg[PC] in marks
  {
    var pc := s.core.reg[PC];
    assert s.mem[..|code|][pc] == s.mem[pc];
    StepIsLed(env, s, fp, code);
    if BlankJump(code[pc]) { BlankJumpGoesOn(env, s, fp); }
  }

  /** Take any closed set with word 0 whose targets are in range, such as parse_code's marks.
      A run stays inside it exactly when it does so at its blank jumps. */
  lemma ExecutedIsMarked(env: Env, code: seq<Word>, ss: seq<State>, fps: seq<Float>, marks: set<int>)
    requires Run(env, code, ss, fps)
    requires Disassembler.Closed(code, marks) && 0 in marks
    requires forall pc :: pc in marks && 0 <= pc < |code| ==> Disassembler.InRange(code, pc)
    ensures (forall k :: 0 <= k < |ss| ==> ss[k].core.reg[PC] in marks) <==> BlanksMarked(code, ss, marks, |ss| - 1)
    ensures (forall pc :: pc in marks && 0 <= pc < |code| && BlankJump(code[pc]) ==> pc + 1 in marks) ==>
      BlanksMarked(code, ss, marks, |ss| - 1)
  {
    if BlanksMarked(code, ss, marks, |ss| - 1) {
      MarkedSoFar(env, code, ss, fps, marks, |ss| - 1);
    } else {
      var j :| 0 <= j < |ss| - 1 && BlankJump(code[ss[j].core.reg[PC]]) && ss[j].core.Reg(PC) + 1 !in marks;
      LeavesAtBlank(env, code, ss, fps, j);
    }
    if forall pc :: pc in marks && 0 <= pc < |code| && BlankJump(code[pc]) ==> pc + 1 in marks {
      BlanksStatic(env, code, ss, fps, marks, |ss| - 1);
    }
  }

  lemma LeavesAtBlank(env: Env, code: seq<Word>, ss: seq<State>, fps: seq<Float>, j: nat)
    requires Run(env, code, ss, fps) && j + 1 < |ss| && BlankJump(code[ss[j].core.reg[PC]])
    ensures ss[j + 1].core.Reg(PC) == ss[j].core.Reg(PC) + 1
  {
    var s, pc := ss[j], ss[j].core.reg[PC];
    assert ss[j + 1] == Execute(env, s, fps[j]) && s.mem[..|code|][pc] == s.mem[pc];
    BlankJumpGoesOn(env, s, fps[j]);
  }

  lemma {:induction false} BlanksStatic(env: Env, code: seq<Word>, ss: seq<State>, fps: seq<Float>, marks: set<int>, k: nat)
    requires Run(env, code, ss, fps) && k < |ss|
    requires Disassembler.Closed(code, marks) && 0 in marks
    requires forall pc :: pc in marks && 0 <= pc < |code| ==>
      Disassembler.InRange(code, pc) && (BlankJump(code[pc]) ==> pc + 1 in marks)
    ensures BlanksMarked(code, ss, marks, k)
  {
    if k > 0 {
      BlanksStatic(env, code, ss, fps, marks, k - 1);
      MarkedSoFar(env, code, ss, fps, marks, k - 1);
    }
  }

  /** Without that the promise fails: a blank jump and a halt.  The marks are {0}, and the
      machine executes word 1. */
  lemma BlankJumpHidesCode()
    ensures var code: seq<Word> := [JMP, HALT];
      && Disassembler.Closed(code, {0}) && Disassembler.InRange(code, 0)
      && exists env: Env, ss: seq<State>, fps: seq<Float> :: Run(env, code, ss, fps) && |ss| == 2 && ss[1].core.reg[PC] == 1
  {
    var code: seq<Word> := [JMP, HALT];
    var env := Env(2, 1);
    var reg: Registers := seq(16, _ => 0);
    var mem: Memory := seq(MEM_SIZE, _ => 0)[0 := JMP];
    var s0 := State(Core(reg, 100, 0, 1, true), mem);
    var fps := [ZeroDivisor, ZeroDivisor];
    assert mem[..2] == code;
    BlankJumpGoesOn(env, s0, ZeroDivisor);
    var ss := [s0, Execute(env, s0, ZeroDivisor)];
    assert Run(env, code, ss, fps);
  }
}
