/** The virtual machine as it runs: a core whose registers and memory are arrays that each
    instruction updates in place.  Execute, on values, is its specification. */
module VmProcessor {
  import opened X20
  import opened Vm

  /** call and ret move SP three times and set FP in between. */
  lemma FrameRegisters(r: seq<Word>, x: Word, y: Word, z: Word, fp: Word)
    requires |r| == 16
    ensures r[SP := x][SP := y][FP := fp][SP := z] == r[FP := fp][SP := z]
    ensures r[SP := x][FP := fp][SP := y][SP := z] == r[FP := fp][SP := z]
  {}

  function Pushed(s: State, w: Word): State {
    var sp := Wrap(s.core.Reg(SP) - 1);
    SetReg(s, SP, sp).(mem := PutWord(s.mem, sp, w))
  }

  /** The frame that call pushes, word by word. */
  lemma CallInSteps(s: State, next: Word)
    ensures var two := Pushed(Pushed(s, next), s.core.reg[FP]);
      Call(s, next) == Pushed(SetReg(two, FP, two.core.reg[SP]), 0)
  {
    var sp := s.core.Reg(SP);
    WrapTwice(sp - 1, -1);
    WrapTwice(sp - 2, -1);
    FrameRegisters(s.core.reg, Wrap(sp - 1), Wrap(sp - 2), Wrap(sp - 3), Wrap(sp - 2));
  }

  function Raised(s: State): State { SetReg(s, SP, Wrap(s.core.Reg(SP) + 1)) }

  /** The frame that ret pops, word by word. */
  lemma RetInSteps(s: State, word: Word, next: Word)
    ensures var one := Raised(s);
      var saved := GetWord(s.mem, one.core.reg[SP], s.core.reg[FP]);
      var two := SetReg(Raised(one), FP, saved);
      var three := Raised(two);
      Ret(s, word, next) ==
        (three.(mem := PutWord(s.mem, Wrap(three.core.Reg(FP) - 1), GetWord(s.mem, s.core.reg[SP], word))),
         GetWord(s.mem, two.core.reg[SP], next))
  {
    var sp := s.core.Reg(SP);
    WrapTwice(sp + 1, 1);
    WrapTwice(sp + 2, 1);
    FrameRegisters(s.core.reg, Wrap(sp + 1), Wrap(sp + 2), Wrap(sp + 3), GetWord(s.mem, Wrap(sp + 1), s.core.reg[FP]));
  }

  class Processor {
    const reg: array<Word>
    const memory: array<Word>
    const env: Env
    const stack: Word
    const pid: Word
    var status: int
    var success: bool

    ghost predicate Valid()
      reads this
    {
      reg.Length == 16 && memory.Length == MEM_SIZE && reg != memory
    }

    ghost function View(): State
      requires Valid()
      reads this, reg, memory
    {
      State(Core(reg[..], stack, pid, status, success), memory[..])
    }

    /** A core as execute sets it up on the memory that all cores share. */
    constructor (memory: array<Word>, env: Env, pid: Word, initialSP: Word, entryPoint: Word)
      requires memory.Length == MEM_SIZE
      ensures Valid() && fresh(reg) && this.memory == memory && this.env == env
      ensures View() == State(Core(seq(16, _ => 0)[SP := initialSP][PC := entryPoint], initialSP, pid, 1, true), memory[..])
    {
      var r := new Word[16](_ => 0);
      r[SP], r[PC] := initialSP, entryPoint;
      reg := r;
      this.memory, this.env, this.pid, stack := memory, env, pid, initialSP;
      status, success := 1, true;
      new;
      assert reg[..] == seq(16, _ => 0)[SP := initialSP][PC := entryPoint];
    }

    method Fail(code: int)
      requires Valid()
      modifies this
      ensures View() == Stop(old(View()), code)
    {
      status, success := code, false;
    }

    method SetRegister(r: nat, w: Word)
      requires Valid() && r < 16
      modifies reg
      ensures View() == SetReg(old(View()), r, w)
    {
      reg[r] := w;
      assert reg[..] == old(reg[..])[r := w];
    }

    method WriteWord(addr: Word, w: Word) returns (ok: bool)
      requires Valid()
      modifies memory
      ensures ok <==> addr < MEM_SIZE
      ensures View() == old(View()).(mem := PutWord(old(memory[..]), addr, w))
    {
      if addr >= MEM_SIZE { return false; }
      memory[addr] := w;
      assert memory[..] == old(memory[..])[addr := w];
      return true;
    }

    /** The word at addr, or what the caller's variable held before. */
    method ReadWord(addr: Word, target: Word) returns (w: Word)
      requires Valid()
      ensures w == Vm.GetWord(memory[..], addr, target)
    {
      if addr >= MEM_SIZE { return target; }
      return memory[addr];
    }

    method MoveSP(d: int)
      requires Valid()
      modifies reg
      ensures View() == SetReg(old(View()), SP, Wrap(old(reg[SP]) as int + d))
    {
      SetRegister(SP, Wrap(reg[SP] as int + d));
    }

    method LoadRegister(r: nat, addr: Word)
      requires Valid() && r < 16
      modifies reg
      ensures View() == Vm.Load(old(View()), r, addr)
    {
      var w := ReadWord(addr, reg[r]);
      SetRegister(r, w);
    }

    method DoTransfer(op: int, r1: nat, r2: nat, d20: int, d16: int, next: Word)
      requires Valid() && r1 < 16 && r2 < 16 && LOAD <= op <= STIND
      modifies this, reg, memory
      ensures View() == Transfer(old(View()), op, r1, r2, d20, d16, next)
    {
      var near := Wrap(next + d20);
      if op == LOAD {
        LoadRegister(r1, near);
      } else if op == STORE {
        var _ := WriteWord(near, reg[r1]);
      } else if op == LDIMM {
        SetRegister(r1, Wrap(d20));
      } else if op == LDADDR {
        SetRegister(r1, near);
      } else if op == LDIND {
        if 0 <= Signed(reg[r2]) + d16 < MEM_SIZE {
          LoadRegister(r1, Wrap(reg[r2] + d16));
        } else {
          Fail(ADDRESS_OUT_OF_RANGE);
        }
      } else {
        if 0 <= r2 + d16 < MEM_SIZE {
          var _ := WriteWord(Wrap(reg[r2] + d16), reg[r1]);
        } else {
          Fail(ADDRESS_OUT_OF_RANGE);
        }
      }
    }

    method DoArithmetic(op: int, r1: nat, r2: nat, fp: Float)
      requires Valid() && r1 < 16 && r2 < 16
      modifies this, reg
      ensures View() == Arithmetic(old(View()), op, r1, r2, fp)
    {
      if op == ADDI {
        SetRegister(r1, Wrap(reg[r1] as int + reg[r2]));
      } else if op == SUBI {
        SetRegister(r1, Wrap(reg[r1] as int - reg[r2]));
      } else if op == MULI {
        SetRegister(r1, Wrap(reg[r1] as int * reg[r2]));
      } else if op == DIVI {
        if reg[r2] == 0 {
          Fail(DIVIDE_BY_ZERO);
        } else {
          SetRegister(r1, Wrap(Truncate(Signed(reg[r1]), Signed(reg[r2]))));
        }
      } else {
        match fp
        case Result(w) => SetRegister(r1, w);
        case ZeroDivisor => if op == DIVF { Fail(DIVIDE_BY_ZERO); }
      }
    }

    method DoCmpxchg(r1: nat, r2: nat, addr: Word)
      requires Valid() && r1 < 16 && r2 < 16
      modifies reg, memory
      ensures View() == Cmpxchg(old(View()), r1, r2, addr)
    {
      var w := ReadWord(addr, 0);
      if reg[r1] == w {
        var _ := WriteWord(addr, reg[r2]);
      } else {
        LoadRegister(r1, addr);
      }
    }

    method PushWord(w: Word)
      requires Valid()
      modifies reg, memory
      ensures View() == Pushed(old(View()), w)
    {
      MoveSP(-1);
      var _ := WriteWord(reg[SP], w);
    }

    method PopWord(target: Word) returns (w: Word)
      requires Valid()
      modifies reg
      ensures w == Vm.GetWord(memory[..], old(reg[SP]), target)
      ensures View() == Raised(old(View()))
    {
      w := ReadWord(reg[SP], target);
      MoveSP(1);
    }

    method EnterFrame(next: Word)
      requires Valid()
      modifies reg, memory
      ensures View() == Call(old(View()), next)
    {
      CallInSteps(View(), next);
      PushWord(next);
      PushWord(reg[FP]);
      SetRegister(FP, reg[SP]);
      PushWord(0);
    }

    method LeaveFrame(word: Word, next: Word) returns (tPC: Word)
      requires Valid()
      modifies reg, memory
      ensures (View(), tPC) == Ret(old(View()), word, next)
    {
      RetInSteps(View(), word, next);
      var value := PopWord(word);
      PopFrame();
      tPC := PopWord(next);
      var _ := WriteWord(Wrap(reg[FP] as int - 1), value);
    }

    method PopFrame()
      requires Valid()
      modifies reg
      ensures View() == SetReg(Raised(old(View())), FP, Vm.GetWord(memory[..], old(reg[SP]), old(reg[FP])))
    {
      var saved := PopWord(reg[FP]);
      SetRegister(FP, saved);
    }

    method DoCall(next: Word, d20: int) returns (tPC: Word)
      requires Valid()
      modifies this, reg, memory
      ensures (View(), tPC) ==
        if CallRefused(env, old(View()).core) then (Stop(old(View()), ADDRESS_OUT_OF_RANGE), next)
        else (Call(old(View()), next), Wrap(next + d20))
    {
      if reg[SP] > stack || Wrap(reg[SP] as int - 3) < env.progEnd {
        Fail(ADDRESS_OUT_OF_RANGE);
        return next;
      }
      EnterFrame(next);
      return Wrap(next + d20);
    }

    method DoRet(word: Word, next: Word) returns (tPC: Word)
      requires Valid()
      modifies this, reg, memory
      ensures (View(), tPC) ==
        if RetRefused(env, old(View()).core) then (Stop(old(View()), ADDRESS_OUT_OF_RANGE), next)
        else Ret(old(View()), word, next)
    {
      if Wrap(reg[SP] as int + 3) > stack || reg[SP] < env.progEnd {
        Fail(ADDRESS_OUT_OF_RANGE);
        return next;
      }
      tPC := LeaveFrame(word, next);
    }

    method DoPush(r1: nat)
      requires Valid() && r1 < 16
      modifies this, reg, memory
      ensures View() ==
        if StackRefused(env, old(View()).core) then Stop(old(View()), ADDRESS_OUT_OF_RANGE) else Push(old(View()), r1)
    {
      if reg[SP] > stack || reg[SP] < env.progEnd {
        Fail(ADDRESS_OUT_OF_RANGE);
      } else {
        MoveSP(-1);
        var _ := WriteWord(reg[SP], reg[r1]);
      }
    }

    method DoPop(r1: nat)
      requires Valid() && r1 < 16
      modifies this, reg
      ensures View() ==
        if StackRefused(env, old(View()).core) then Stop(old(View()), ADDRESS_OUT_OF_RANGE) else Pop(old(View()), r1)
    {
      if reg[SP] > stack || reg[SP] < env.progEnd {
        Fail(ADDRESS_OUT_OF_RANGE);
      } else {
        LoadRegister(r1, reg[SP]);
        MoveSP(1);
        Fail(ILLEGAL_INSTRUCTION);
      }
    }

    /** Everything but the last assignment, to the PC register. */
    method Dispatch(word: Word, fp: Float) returns (tPC: Word)
      requires Valid()
      modifies this, reg, memory
      ensures (View(), tPC) == Perform(env, old(View()), word, fp)
    {
      var op, r1, r2, d20, d16 := Opcode(word), Reg1(word), Reg2(word), Disp20(word), Disp16(word);
      tPC := Wrap(reg[PC] as int + 1);
      if op == HALT { Fail(NORMAL_TERMINATION); }
      else if LOAD <= op <= STIND { DoTransfer(op, r1, r2, d20, d16, tPC); }
      else if ADDF <= op <= MULI { DoArithmetic(op, r1, r2, fp); }
      else if op == CALL { tPC := DoCall(tPC, d20); }
      else if op == RET { tPC := DoRet(word, tPC); }
      else if op == BLT { if Signed(reg[r1]) < Signed(reg[r2]) { tPC := Wrap(tPC + d16); } }
      else if op == BGT { if Signed(reg[r1]) > Signed(reg[r2]) { tPC := Wrap(tPC + d16); } }
      else if op == BEQ { if reg[r1] == reg[r2] { tPC := Wrap(tPC + d16); } }
      else if op == JMP { tPC := Wrap(tPC + d20); }
      else if op == CMPXCHG { DoCmpxchg(r1, r2, Wrap(tPC + d16)); }
      else if op == GETPID { SetRegister(r1, pid); }
      else if op == GETPN { SetRegister(r1, env.numProcessors); }
      else if op == PUSH { DoPush(r1); }
      else if op == POP { DoPop(r1); }
      else { Fail(ILLEGAL_INSTRUCTION); }
    }

    method ExecuteInstruction(fp: Float) returns (ok: bool)
      requires Valid() && reg[PC] < MEM_SIZE
      modifies this, reg, memory
      ensures View() == Execute(env, old(View()), fp) && ok == success
    {
      var tPC := Dispatch(memory[reg[PC]], fp);
      SetRegister(PC, tPC);
      return success;
    }
  }
}
