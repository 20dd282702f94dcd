/** The X20 virtual machine: one core executing one instruction.

    A register or memory word is its unsigned value; comparisons that the C code makes on
    int32_t go through Signed, those it makes on uint32_t do not.  The result of a
    floating-point operation is not modelled: it is a parameter of the step. */
module Vm {
  import opened X20

  const FP := 13
  const SP := 14
  const PC := 15
  const MEM_SIZE := 0x3_ffff            // 0xfffff / sizeof(int32_t)

  const NORMAL_TERMINATION := 0
  const DIVIDE_BY_ZERO := -5
  const ADDRESS_OUT_OF_RANGE := -6
  const ILLEGAL_INSTRUCTION := -7

  type Registers = r: seq<Word> | |r| == 16 witness seq(16, _ => 0)
  type Memory = m: seq<Word> | |m| == MEM_SIZE witness seq(MEM_SIZE, _ => 0)

  /** What all cores share and execution does not change. */
  datatype Env = Env(progEnd: Word, numProcessors: Word)

  datatype Core = Core(reg: Registers, stack: Word, pid: Word, status: int, running: bool) {
    function Reg(r: nat): int
      requires r < 16
    {
      reg[r]
    }
  }

  datatype State = State(core: Core, mem: Memory)

  /** The outcome of a floating-point instruction: its result, or a zero divisor. */
  datatype Float = Result(w: Word) | ZeroDivisor

  // ---------------------------------------------------------------- memory

  function PutWord(mem: Memory, addr: Word, w: Word): Memory {
    if addr >= MEM_SIZE then mem else mem[addr := w]
  }

  /** getWord leaves its target alone when the address is out of range. */
  function GetWord(mem: Memory, addr: Word, target: Word): Word {
    if addr >= MEM_SIZE then target else mem[addr]
  }

  // ---------------------------------------------------------------- instructions

  function Load(s: State, r: nat, addr: Word): State
    requires r < 16
  {
    s.(core := s.core.(reg := s.core.reg[r := GetWord(s.mem, addr, s.core.reg[r])]))
  }

  function SetReg(s: State, r: nat, w: Word): State
    requires r < 16
  {
    s.(core := s.core.(reg := s.core.reg[r := w]))
  }

  function Stop(s: State, code: int): State {
    s.(core := s.core.(status := code, running := false))
  }

  /** C division truncates toward zero. */
  function Truncate(a: int, b: int): int
    requires b != 0
  {
    if (a >= 0) == (b > 0) then Abs(a) / Abs(b) else -(Abs(a) / Abs(b))
  }

  function Abs(a: int): nat { if a < 0 then -a else a }

  function Arithmetic(s: State, op: int, r1: nat, r2: nat, fp: Float): State
    requires r1 < 16 && r2 < 16
  {
    var a, b := s.core.Reg(r1), s.core.Reg(r2);
    if op == ADDI then SetReg(s, r1, Wrap(a + b))
    else if op == SUBI then SetReg(s, r1, Wrap(a - b))
    else if op == MULI then SetReg(s, r1, Wrap(a * b))
    else if op == DIVI then
      if b == 0 then Stop(s, DIVIDE_BY_ZERO) else SetReg(s, r1, Wrap(Truncate(Signed(a), Signed(b))))
    else match fp
      case Result(w) => SetReg(s, r1, w)
      case ZeroDivisor => if op == DIVF then Stop(s, DIVIDE_BY_ZERO) else s
  }

  /** Loads and stores; next is the address after the instruction. */
  function Transfer(s: State, op: int, r1: nat, r2: nat, d20: int, d16: int, next: Word): State
    requires r1 < 16 && r2 < 16
  {
    var near := Wrap(next + d20);
    var reg := s.core.reg;
    if op == LOAD then Load(s, r1, near)
    else if op == STORE then s.(mem := PutWord(s.mem, near, reg[r1]))
    else if op == LDIMM then SetReg(s, r1, Wrap(d20))
    else if op == LDADDR then SetReg(s, r1, near)
    else if op == LDIND then
      if !(0 <= Signed(reg[r2]) + d16 < MEM_SIZE) then Stop(s, ADDRESS_OUT_OF_RANGE)
      else Load(s, r1, Wrap(reg[r2] + d16))
    else // stind checks the number of its register, not the register
      if !(0 <= r2 + d16 < MEM_SIZE) then Stop(s, ADDRESS_OUT_OF_RANGE)
      else s.(mem := PutWord(s.mem, Wrap(reg[r2] + d16), reg[r1]))
  }

  function Cmpxchg(s: State, r1: nat, r2: nat, addr: Word): State
    requires r1 < 16 && r2 < 16
  {
    if s.core.reg[r1] == GetWord(s.mem, addr, 0) then s.(mem := PutWord(s.mem, addr, s.core.reg[r2]))
    else Load(s, r1, addr)
  }

  /** call refuses when the stack pointer is above the core's stack, or three words below it
      is inside the program; both comparisons are unsigned. */
  predicate CallRefused(env: Env, c: Core) {
    c.reg[SP] > c.stack || Wrap(c.Reg(SP) - 3) < env.progEnd
  }

  /** Pushes the return address, the frame pointer and a zero for the return value. */
  function Call(s: State, next: Word): State {
    var sp := s.core.Reg(SP);
    var m1 := PutWord(s.mem, Wrap(sp - 1), next);
    var m2 := PutWord(m1, Wrap(sp - 2), s.core.reg[FP]);
    var m3 := PutWord(m2, Wrap(sp - 3), 0);
    State(s.core.(reg := s.core.reg[FP := Wrap(sp - 2)][SP := Wrap(sp - 3)]), m3)
  }

  predicate RetRefused(env: Env, c: Core) {
    Wrap(c.Reg(SP) + 3) > c.stack || c.reg[SP] < env.progEnd
  }

  /** Pops return value, frame pointer and return address; gives the new PC too. */
  function Ret(s: State, word: Word, next: Word): (State, Word) {
    var sp := s.core.Reg(SP);
    var value := GetWord(s.mem, sp, word);
    var fp: int := GetWord(s.mem, Wrap(sp + 1), s.core.reg[FP]);
    var pc := GetWord(s.mem, Wrap(sp + 2), next);
    (State(s.core.(reg := s.core.reg[FP := fp][SP := Wrap(sp + 3)]), PutWord(s.mem, Wrap(fp - 1), value)), pc)
  }

  predicate StackRefused(env: Env, c: Core) {
    c.reg[SP] > c.stack || c.reg[SP] < env.progEnd
  }

  function Push(s: State, r1: nat): State
    requires r1 < 16
  {
    var s' := SetReg(s, SP, Wrap(s.core.Reg(SP) - 1));
    s'.(mem := PutWord(s.mem, s'.core.reg[SP], s'.core.reg[r1]))
  }

  /** pop has no break: after the pop the core stops with an illegal instruction. */
  function Pop(s: State, r1: nat): State
    requires r1 < 16
  {
    var s' := Load(s, r1, s.core.reg[SP]);
    Stop(SetReg(s', SP, Wrap(s'.core.Reg(SP) + 1)), ILLEGAL_INSTRUCTION)
  }

  /** Everything but the assignment of tPC to the PC register: the state, and tPC. */
  function Perform(env: Env, s: State, word: Word, fp: Float): (State, Word) {
    var op, r1, r2, d20, d16 := Opcode(word), Reg1(word), Reg2(word), Disp20(word), Disp16(word);
    var next := Wrap(s.core.Reg(PC) + 1);
    if op == HALT then (Stop(s, NORMAL_TERMINATION), next)
    else if LOAD <= op <= STIND then (Transfer(s, op, r1, r2, d20, d16, next), next)
    else if ADDF <= op <= MULI then (Arithmetic(s, op, r1, r2, fp), next)
    else if op == CALL then
      if CallRefused(env, s.core) then (Stop(s, ADDRESS_OUT_OF_RANGE), next)
      else (Call(s, next), Wrap(next + d20))
    else if op == RET then
      if RetRefused(env, s.core) then (Stop(s, ADDRESS_OUT_OF_RANGE), next) else Ret(s, word, next)
    else if op == BLT then
      (s, if Signed(s.core.reg[r1]) < Signed(s.core.reg[r2]) then Wrap(next + d16) else next)
    else if op == BGT then
      (s, if Signed(s.core.reg[r1]) > Signed(s.core.reg[r2]) then Wrap(next + d16) else next)
    else if op == BEQ then
      (s, if s.core.reg[r1] == s.core.reg[r2] then Wrap(next + d16) else next)
    else if op == JMP then (s, Wrap(next + d20))
    else if op == CMPXCHG then (Cmpxchg(s, r1, r2, Wrap(next + d16)), next)
    else if op == GETPID then (SetReg(s, r1, s.core.pid), next)
    else if op == GETPN then (SetReg(s, r1, env.numProcessors), next)
    else if op == PUSH then
      if StackRefused(env, s.core) then (Stop(s, ADDRESS_OUT_OF_RANGE), next) else (Push(s, r1), next)
    else if op == POP then
      if StackRefused(env, s.core) then (Stop(s, ADDRESS_OUT_OF_RANGE), next) else (Pop(s, r1), next)
    else (Stop(s, ILLEGAL_INSTRUCTION), next)
  }

  /** executeInstruction on the instruction the PC points at, which must be in memory. */
  function Execute(env: Env, s: State, fp: Float): State
    requires s.core.reg[PC] < MEM_SIZE
  {
    var (s', pc) := Perform(env, s, s.mem[s.core.reg[PC]], fp);
    SetReg(s', PC, pc)
  }
}
