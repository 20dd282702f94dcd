/** The spinlock counter program on any number of cores.  Every instruction is one atomic
    step of one core: the machine makes each access to a data word under its memory lock. */
module VmSpinlock {
  import opened X20
  import opened Vm

  // ---------------------------------------------------------------- the assembled program

  function Enc20(op: int, r: nat, d: int): Word
    requires 0 <= op < 256 && r < 16
  {
    d % TWO20 * 4096 + r * 256 + op
  }

  function Enc16(op: int, r1: nat, r2: nat, d: int): Word
    requires 0 <= op < 256 && r1 < 16 && r2 < 16
  {
    d % TWO16 * TWO16 + r2 * 4096 + r1 * 256 + op
  }

  lemma Field20(d: int)
    requires -0x8_0000 <= d < 0x8_0000
    ensures (if d % TWO20 < 0x8_0000 then d % TWO20 else d % TWO20 - TWO20) == d
  {}

  lemma Field16(d: int)
    requires -0x8000 <= d < 0x8000
    ensures (if d % TWO16 < 0x8000 then d % TWO16 else d % TWO16 - TWO16) == d
  {}

  lemma Decode20(op: int, r: nat, d: int)
    requires 0 <= op < 256 && r < 16 && -0x8_0000 <= d < 0x8_0000
    ensures var w := Enc20(op, r, d); Opcode(w) == op && Reg1(w) == r && Disp20(w) == d
  {
    var w, high := Enc20(op, r, d), d % TWO20;
    Fields20(high, r * 256 + op);
    ShiftByte(r, op);
    LowByte(r, op);
    Field20(d);
    DisplacementsAgree(w);
  }

  lemma Packed(op: int, r1: nat, r2: nat)
    requires 0 <= op < 256 && r1 < 16 && r2 < 16
    ensures var low := r2 * 4096 + r1 * 256 + op;
      0 <= low < TWO16 && low % 256 == op && low / 256 % 16 == r1 && low / 4096 % 16 == r2
  {
    var low := r1 * 256 + op;
    ShiftByte(r1, op);
    LowByte(r1, op);
    Fields20(r2, low);
  }

  lemma Decode16(op: int, r1: nat, r2: nat, d: int)
    requires 0 <= op < 256 && r1 < 16 && r2 < 16 && -0x8000 <= d < 0x8000
    ensures var w := Enc16(op, r1, r2, d); Opcode(w) == op && Reg1(w) == r1 && Reg2(w) == r2 && Disp16(w) == d
  {
    var w, high, low := Enc16(op, r1, r2, d), d % TWO16, r2 * 4096 + r1 * 256 + op;
    Packed(op, r1, r2);
    Fields16(high, low);
    Field16(d);
    DisplacementsAgree(w);
  }

  const COUNT := 0
  const LOCK := 1
  const ENTRY := 2
  const LOOP := 6
  const ADD := 11
  const END := 18
  const FREE: Word := 0xffff_ffff       // -1

  /** The word at address `at`; k is the loop bound, 10000 in the program's text. */
  function ProgramWord(k: int, at: int): Word
    requires 2 <= at <= END
  {
    match at
    case 2 => Enc20(LDIMM, 4, k)
    case 3 => Enc20(LDIMM, 1, 1)
    case 4 => Enc20(GETPID, 10, 0)
    case 5 => Enc20(JMP, 0, LOOP - 6)
    case 6 => Enc20(LDIMM, 8, -1)
    case 7 => Enc20(LDIMM, 9, -1)
    case 8 => Enc16(CMPXCHG, 9, 10, LOCK - 9)
    case 9 => Enc16(BEQ, 8, 9, ADD - 10)
    case 10 => Enc20(JMP, 0, LOOP - 11)
    case 11 => Enc20(LOAD, 0, COUNT - 12)
    case 12 => Enc16(ADDI, 0, 1, 0)
    case 13 => Enc20(STORE, 0, COUNT - 14)
    case 14 => Enc16(SUBI, 4, 1, 0)
    case 15 => Enc20(LDIMM, 9, -1)
    case 16 => Enc20(STORE, 9, LOCK - 17)
    case 17 => Enc16(BGT, 4, 5, LOOP - 18)
    case _ => Enc20(HALT, 0, 0)
  }

  ghost predicate Loaded(mem: Memory, k: int) {
    forall a :: 2 <= a <= END ==> mem[a] == ProgramWord(k, a)
  }

  // ---------------------------------------------------------------- what one step does

  function At(s: State, pc: int): State
    requires 0 <= pc < TWO32
  {
    SetReg(s, PC, pc)
  }

  /** The step of a core that executes the program. */
  function Move(k: int, s: State): State
    requires 2 <= s.core.reg[PC] <= END
  {
    var c, pc := s.core, s.core.reg[PC];
    if pc == 2 then At(SetReg(s, 4, Wrap(k)), 3)
    else if pc == 3 then At(SetReg(s, 1, 1), 4)
    else if pc == 4 then At(SetReg(s, 10, c.pid), 5)
    else if pc == 5 then At(s, LOOP)
    else if pc == 6 then At(SetReg(s, 8, FREE), 7)
    else if pc == 7 then At(SetReg(s, 9, FREE), 8)
    else if pc == 8 then
      if c.reg[9] == s.mem[LOCK] then At(s.(mem := s.mem[LOCK := c.reg[10]]), 9)
      else At(SetReg(s, 9, s.mem[LOCK]), 9)
    else if pc == 9 then At(s, if c.reg[8] == c.reg[9] then ADD else 10)
    else if pc == 10 then At(s, LOOP)
    else if pc == 11 then At(SetReg(s, 0, s.mem[COUNT]), 12)
    else if pc == 12 then At(SetReg(s, 0, Wrap(c.Reg(0) + c.Reg(1))), 13)
    else if pc == 13 then At(s.(mem := s.mem[COUNT := c.reg[0]]), 14)
    else if pc == 14 then At(SetReg(s, 4, Wrap(c.Reg(4) - c.Reg(1))), 15)
    else if pc == 15 then At(SetReg(s, 9, FREE), 16)
    else if pc == 16 then At(s.(mem := s.mem[LOCK := c.reg[9]]), 17)
    else if pc == 17 then At(s, if Signed(c.reg[4]) > Signed(c.reg[5]) then LOOP else END)
    else At(Stop(s, NORMAL_TERMINATION), 19)
  }

  lemma NearTarget(pc: int, target: int)
    requires 0 <= pc < 100 && 0 <= target < 100
    ensures Wrap(Wrap(pc + 1) + (target - (pc + 1))) == target && Wrap(pc + 1) == pc + 1
  {}

  lemma ImmediateStep(env: Env, k: int, s: State, fp: Float)
    requires Loaded(s.mem, k) && -0x8_0000 <= k < 0x8_0000 && s.core.reg[PC] in {2, 3, 6, 7, 15}
    ensures Execute(env, s, fp) == Move(k, s)
  {
    var pc := s.core.Reg(PC);
    Decode20(LDIMM, 4, k);
    Decode20(LDIMM, 1, 1);
    Decode20(LDIMM, 8, -1);
    Decode20(LDIMM, 9, -1);
    NearTarget(pc, 0);
  }

  lemma JumpStep(env: Env, k: int, s: State, fp: Float)
    requires Loaded(s.mem, k) && s.core.reg[PC] in {4, 5, 10, 18}
    ensures Execute(env, s, fp) == Move(k, s)
  {
    var pc := s.core.Reg(PC);
    Decode20(GETPID, 10, 0);
    Decode20(JMP, 0, LOOP - 6);
    Decode20(JMP, 0, LOOP - 11);
    Decode20(HALT, 0, 0);
    NearTarget(pc, LOOP);
  }

  lemma BranchStep(env: Env, k: int, s: State, fp: Float)
    requires Loaded(s.mem, k) && s.core.reg[PC] in {9, 17}
    ensures Execute(env, s, fp) == Move(k, s)
  {
    Decode16(BEQ, 8, 9, ADD - 10);
    Decode16(BGT, 4, 5, LOOP - 18);
    NearTarget(9, ADD);
    NearTarget(17, LOOP);
  }

  lemma ArithmeticStep(env: Env, k: int, s: State, fp: Float)
    requires Loaded(s.mem, k) && s.core.reg[PC] in {12, 14}
    ensures Execute(env, s, fp) == Move(k, s)
  {
    Decode16(ADDI, 0, 1, 0);
    Decode16(SUBI, 4, 1, 0);
    NearTarget(s.core.Reg(PC), 0);
  }

  lemma CountStep(env: Env, k: int, s: State, fp: Float)
    requires Loaded(s.mem, k) && s.core.reg[PC] in {11, 13}
    ensures Execute(env, s, fp) == Move(k, s)
  {
    Decode20(LOAD, 0, COUNT - 12);
    Decode20(STORE, 0, COUNT - 14);
    NearTarget(s.core.Reg(PC), COUNT);
  }

  lemma LockStep(env: Env, k: int, s: State, fp: Float)
    requires Loaded(s.mem, k) && s.core.reg[PC] in {8, 16}
    ensures Execute(env, s, fp) == Move(k, s)
  {
    Decode16(CMPXCHG, 9, 10, LOCK - 9);
    Decode20(STORE, 9, LOCK - 17);
    NearTarget(s.core.Reg(PC), LOCK);
  }

  /** The machine executes the program's words as Move says. */
  lemma ExecuteIsMove(env: Env, k: int, s: State, fp: Float)
    requires Loaded(s.mem, k) && -0x8_0000 <= k < 0x8_0000 && 2 <= s.core.reg[PC] <= END
    ensures Execute(env, s, fp) == Move(k, s)
  {
    var pc := s.core.reg[PC];
    if pc in {2, 3, 6, 7, 15} { ImmediateStep(env, k, s, fp); }
    else if pc in {4, 5, 10, 18} { JumpStep(env, k, s, fp); }
    else if pc in {9, 17} { BranchStep(env, k, s, fp); }
    else if pc in {12, 14} { ArithmeticStep(env, k, s, fp); }
    else if pc in {11, 13} { CountStep(env, k, s, fp); }
    else { LockStep(env, k, s, fp); }
  }

  // ---------------------------------------------------------------- many cores

  const MAX_PROCESSORS := 16

  datatype Machine = Machine(mem: Memory, cores: seq<Core>)

  /** Core i executes its next instruction, if it is still running. */
  function Step(env: Env, m: Machine, i: nat, fp: Float): Machine
    requires i < |m.cores|
  {
    if !m.cores[i].running || m.cores[i].reg[PC] >= MEM_SIZE then m
    else
      var s := Execute(env, State(m.cores[i], m.mem), fp);
      Machine(s.mem, m.cores[i := s.core])
  }

  /** A schedule names, for each step, the core that moves (and a float it has no use for). */
  type Schedule = seq<(nat, Float)>

  function Run(env: Env, m: Machine, schedule: Schedule): (r: Machine)
    requires forall e :: e in schedule ==> e.0 < |m.cores|
    ensures |r.cores| == |m.cores|
    decreases |schedule|
  {
    if schedule == [] then m
    else Run(env, Step(env, m, schedule[0].0, schedule[0].1), schedule[1..])
  }

  /** What execute sets up: cleared registers but for the stack pointer, PC at the entry. */
  ghost predicate Initial(k: int, m: Machine) {
    && Loaded(m.mem, k) && m.mem[COUNT] == 0 && m.mem[LOCK] == FREE
    && |m.cores| <= MAX_PROCESSORS
    && (forall i :: 0 <= i < |m.cores| ==> Starts(m.cores[i], i))
  }

  predicate Starts(c: Core, pid: nat) {
    && c.pid == pid && c.running && c.reg[PC] == ENTRY
    && (forall r :: 0 <= r < 16 && r != SP && r != PC ==> c.reg[r] == 0)
  }

  // ---------------------------------------------------------------- the invariant

  /** From the successful cmpxchg up to the store that frees the lock. */
  predicate InCriticalSection(c: Core) {
    c.running && ((c.reg[PC] == 9 && c.reg[9] == FREE) || 11 <= c.reg[PC] <= 16)
  }

  /** The increments of count that core c has stored. */
  function Stored(k: nat, c: Core): int {
    if c.reg[PC] == ENTRY then 0 else k - c.Reg(4) + if c.reg[PC] == 14 then 1 else 0
  }

  function Sum(f: Core -> int, cores: seq<Core>): int {
    if cores == [] then 0 else Sum(f, cores[1..]) + f(cores[0])
  }

  function StoredIn(k: nat): Core -> int { c => Stored(k, c) }

  /** What holds of the registers of core pid, by its program counter. */
  predicate Local(k: nat, pid: nat, c: Core, count: Word) {
    var pc := c.reg[PC];
    && c.pid == pid && c.reg[5] == 0
    && if !c.running then pc == 19 && c.reg[4] == 0 && c.status == NORMAL_TERMINATION
       else
         && 2 <= pc <= END
         && (3 <= pc <= 5 ==> c.reg[4] == k)
         && (6 <= pc <= 14 ==> 1 <= c.reg[4] <= k)
         && (15 <= pc <= 17 ==> c.reg[4] < k)
         && (pc == 18 ==> c.reg[4] == 0)
         && (4 <= pc ==> c.reg[1] == 1)
         && (5 <= pc ==> c.reg[10] == pid)
         && (7 <= pc <= 9 ==> c.reg[8] == FREE)
         && (pc in {8, 16} ==> c.reg[9] == FREE)
         && (pc == 12 ==> c.reg[0] == count)
         && (pc == 13 ==> c.reg[0] == count + 1)
  }

  /** The lock word names the one core in its critical section, or is free when there is none. */
  predicate Locked(lock: Word, cores: seq<Core>) {
    && (lock == FREE || lock < |cores|)
    && forall i :: 0 <= i < |cores| ==> (InCriticalSection(cores[i]) <==> lock == i)
  }

  ghost predicate Inv(k: nat, m: Machine) {
    && 1 <= k < 0x8_0000 && |m.cores| <= MAX_PROCESSORS
    && Loaded(m.mem, k)
    && (forall i :: 0 <= i < |m.cores| ==> Local(k, i, m.cores[i], m.mem[COUNT]))
    && Locked(m.mem[LOCK], m.cores)
    && m.mem[COUNT] == Sum(StoredIn(k), m.cores)
  }

  lemma {:induction false} SumAt(f: Core -> int, cores: seq<Core>, i: nat, c: Core)
    requires i < |cores|
    ensures Sum(f, cores[i := c]) == Sum(f, cores) - f(cores[i]) + f(c)
  {
    if i > 0 {
      SumAt(f, cores[1..], i - 1, c);
      assert cores[i := c][1..] == cores[1..][i - 1 := c];
    } else {
      assert cores[i := c][1..] == cores[1..];
    }
  }

  lemma {:induction false} SumAll(f: Core -> int, cores: seq<Core>, v: int)
    requires forall i :: 0 <= i < |cores| ==> f(cores[i]) == v
    ensures Sum(f, cores) == |cores| * v
  {
    if cores != [] { SumAll(f, cores[1..], v); }
  }

  lemma {:induction false} SumBound(f: Core -> int, cores: seq<Core>, lo: int, hi: int)
    requires forall i :: 0 <= i < |cores| ==> lo <= f(cores[i]) <= hi
    ensures |cores| * lo <= Sum(f, cores) <= |cores| * hi
  {
    if cores != [] { SumBound(f, cores[1..], lo, hi); }
  }

  // ---------------------------------------------------------------- one step keeps it

  lemma MoveKeepsLocal(k: nat, pid: nat, s: State)
    requires 1 <= k < 0x8_0000 && pid < MAX_PROCESSORS && s.core.running
    requires Local(k, pid, s.core, s.mem[COUNT]) && s.mem[COUNT] < 0x1000_0000
    ensures Local(k, pid, Move(k, s).core, Move(k, s).mem[COUNT])
  {
  }

  /** Only the holder of the lock changes count, and then by its own increment. */
  lemma MoveCounts(k: nat, pid: nat, s: State)
    requires 1 <= k < 0x8_0000 && s.core.running
    requires Local(k, pid, s.core, s.mem[COUNT])
    ensures Move(k, s).mem[COUNT] - s.mem[COUNT] == Stored(k, Move(k, s).core) - Stored(k, s.core)
    ensures Move(k, s).mem[COUNT] != s.mem[COUNT] ==> s.core.reg[PC] == 13
  {
  }

  /** A core changes the lock word only to take it when free or to give up its own. */
  lemma MoveLocks(k: nat, pid: nat, s: State)
    requires pid < MAX_PROCESSORS && s.core.running && Local(k, pid, s.core, s.mem[COUNT])
    requires InCriticalSection(s.core) <==> s.mem[LOCK] == pid
    ensures var s' := Move(k, s);
      && (InCriticalSection(s'.core) <==> s'.mem[LOCK] == pid)
      && (s'.mem[LOCK] == s.mem[LOCK] || (s.mem[LOCK] == FREE && s'.mem[LOCK] == pid)
          || (s.mem[LOCK] == pid && s'.mem[LOCK] == FREE))
  {
  }

  lemma MoveKeepsProgram(k: nat, s: State)
    requires Loaded(s.mem, k) && 2 <= s.core.reg[PC] <= END
    ensures Loaded(Move(k, s).mem, k)
  {
  }

  lemma LockedAfter(lock: Word, lock': Word, cores: seq<Core>, i: nat, c: Core)
    requires i < |cores| <= MAX_PROCESSORS && Locked(lock, cores)
    requires InCriticalSection(c) <==> lock' == i
    requires lock' == lock || (lock == FREE && lock' == i) || (lock == i && lock' == FREE)
    ensures Locked(lock', cores[i := c])
  {
  }

  lemma CountBound(k: nat, m: Machine)
    requires Inv(k, m)
    ensures m.mem[COUNT] <= |m.cores| * k && m.mem[COUNT] < 0x1000_0000
  {
    forall i | 0 <= i < |m.cores| ensures 0 <= StoredIn(k)(m.cores[i]) <= k {
      assert Local(k, i, m.cores[i], m.mem[COUNT]);
    }
    SumBound(StoredIn(k), m.cores, 0, k);
    assert |m.cores| * k <= MAX_PROCESSORS * 0x8_0000;
  }

  /** The others' registers still fit: if count changed, none of them is near it. */
  lemma OthersKeepLocal(k: nat, m: Machine, i: nat, count: Word, j: nat)
    requires i < |m.cores| && j < |m.cores| && i != j
    requires Local(k, j, m.cores[j], m.mem[COUNT]) && Locked(m.mem[LOCK], m.cores)
    requires count != m.mem[COUNT] ==> InCriticalSection(m.cores[i])
    ensures Local(k, j, m.cores[j], count)
  {
    assert !(InCriticalSection(m.cores[i]) && InCriticalSection(m.cores[j]));
  }

  lemma StepKeeps(env: Env, k: nat, m: Machine, i: nat, fp: Float)
    requires Inv(k, m) && i < |m.cores|
    ensures Inv(k, Step(env, m, i, fp))
  {
    if m.cores[i].running {
      var s := State(m.cores[i], m.mem);
      assert Local(k, i, s.core, s.mem[COUNT]);
      ExecuteIsMove(env, k, s, fp);
      CountBound(k, m);
      MoveKeepsLocal(k, i, s);
      MoveCounts(k, i, s);
      MoveLocks(k, i, s);
      MoveKeepsProgram(k, s);
      var s' := Move(k, s);
      LockedAfter(m.mem[LOCK], s'.mem[LOCK], m.cores, i, s'.core);
      SumAt(StoredIn(k), m.cores, i, s'.core);
      forall j | 0 <= j < |m.cores| && j != i ensures Local(k, j, m.cores[j], s'.mem[COUNT]) {
        OthersKeepLocal(k, m, i, s'.mem[COUNT], j);
      }
    }
  }

  lemma InitialInv(k: nat, m: Machine)
    requires 1 <= k < 0x8_0000 && Initial(k, m)
    ensures Inv(k, m)
  {
    forall i | 0 <= i < |m.cores| ensures Local(k, i, m.cores[i], 0) && !InCriticalSection(m.cores[i]) && StoredIn(k)(m.cores[i]) == 0 {
      assert Starts(m.cores[i], i);
    }
    SumAll(StoredIn(k), m.cores, 0);
  }

  lemma {:induction false} RunKeeps(env: Env, k: nat, m: Machine, schedule: Schedule)
    requires Inv(k, m) && forall e :: e in schedule ==> e.0 < |m.cores|
    ensures Inv(k, Run(env, m, schedule))
    decreases |schedule|
  {
    if schedule != [] {
      StepKeeps(env, k, m, schedule[0].0, schedule[0].1);
      RunKeeps(env, k, Step(env, m, schedule[0].0, schedule[0].1), schedule[1..]);
    }
  }

  lemma HaltedMachine(k: nat, m: Machine)
    requires Inv(k, m) && forall c :: c in m.cores ==> !c.running
    ensures m.mem[COUNT] == |m.cores| * k && m.mem[LOCK] == FREE
    ensures forall c :: c in m.cores ==> c.status == NORMAL_TERMINATION
  {
    assert m.mem[LOCK] == FREE || InCriticalSection(m.cores[m.mem[LOCK]]);
    forall i | 0 <= i < |m.cores|
      ensures StoredIn(k)(m.cores[i]) == k && m.cores[i].status == NORMAL_TERMINATION
    {
      assert Local(k, i, m.cores[i], m.mem[COUNT]);
    }
    SumAll(StoredIn(k), m.cores, k);
  }

  // ---------------------------------------------------------------- the theorems

  /** However the cores are interleaved, no two are between acquire and release at once. */
  lemma MutualExclusion(env: Env, k: nat, m: Machine, schedule: Schedule, i: nat, j: nat)
    requires 1 <= k < 0x8_0000 && Initial(k, m) && forall e :: e in schedule ==> e.0 < |m.cores|
    requires i < |m.cores| && j < |m.cores| && i != j
    ensures var cores := Run(env, m, schedule).cores; !(InCriticalSection(cores[i]) && InCriticalSection(cores[j]))
  {
    InitialInv(k, m);
    RunKeeps(env, k, m, schedule);
  }

  /** However the cores are interleaved, once all of them have stopped each has halted
      normally and no increment was lost. */
  lemma CountIsExact(env: Env, k: nat, m: Machine, schedule: Schedule)
    requires 1 <= k < 0x8_0000 && Initial(k, m) && forall e :: e in schedule ==> e.0 < |m.cores|
    requires forall c :: c in Run(env, m, schedule).cores ==> !c.running
    ensures var r := Run(env, m, schedule);
      && r.mem[COUNT] == |m.cores| * k
      && r.mem[LOCK] == FREE
      && (forall c :: c in r.cores ==> c.status == NORMAL_TERMINATION)
  {
    InitialInv(k, m);
    RunKeeps(env, k, m, schedule);
    HaltedMachine(k, Run(env, m, schedule));
  }

  // ---------------------------------------------------------------- the program can finish

  /** Bounds the steps that core c still needs when nobody is in its way. */
  function Rank(k: nat, c: Core): int {
    var pc, left := c.reg[PC], c.Reg(4) * 20;
    if !c.running then 0
    else if pc <= 5 then k * 20 + 21 - pc
    else if pc == 9 then left + if c.reg[9] == FREE then 10 else 15
    else if pc == 10 then left + 14
    else if pc <= 8 then left + 19 - pc
    else if pc <= 14 then left + 20 - pc
    else if pc <= 17 then left + 38 - pc
    else 1
  }

  function RankIn(k: nat): Core -> int { c => Rank(k, c) }

  lemma MoveLowersRank(k: nat, pid: nat, s: State)
    requires 1 <= k < 0x8_0000 && pid < MAX_PROCESSORS && s.core.running && Local(k, pid, s.core, s.mem[COUNT])
    requires InCriticalSection(s.core) || s.mem[LOCK] == FREE
    ensures Rank(k, Move(k, s).core) < Rank(k, s.core)
  {
  }

  predicate Finished(m: Machine) {
    forall c :: c in m.cores ==> !c.running
  }

  /** The core that holds the lock, or any running core when nobody does. */
  lemma UnhinderedCore(k: nat, m: Machine) returns (i: nat)
    requires Inv(k, m) && !Finished(m)
    ensures i < |m.cores| && m.cores[i].running && (InCriticalSection(m.cores[i]) || m.mem[LOCK] == FREE)
  {
    if m.mem[LOCK] != FREE {
      i := m.mem[LOCK];
      assert InCriticalSection(m.cores[i]);
    } else {
      i :| 0 <= i < |m.cores| && m.cores[i].running;
    }
  }

  lemma UnhinderedStep(env: Env, k: nat, m: Machine, i: nat, fp: Float)
    requires Inv(k, m) && i < |m.cores| && m.cores[i].running
    requires InCriticalSection(m.cores[i]) || m.mem[LOCK] == FREE
    ensures Sum(RankIn(k), Step(env, m, i, fp).cores) < Sum(RankIn(k), m.cores)
  {
    var s := State(m.cores[i], m.mem);
    assert Local(k, i, s.core, s.mem[COUNT]);
    ExecuteIsMove(env, k, s, fp);
    MoveLowersRank(k, i, s);
    SumAt(RankIn(k), m.cores, i, Move(k, s).core);
  }

  lemma RankIsPositive(k: nat, m: Machine)
    requires Inv(k, m)
    ensures Sum(RankIn(k), m.cores) >= 0
  {
    forall i | 0 <= i < |m.cores| ensures 0 <= RankIn(k)(m.cores[i]) <= k * 20 + 40 {
      assert Local(k, i, m.cores[i], m.mem[COUNT]);
    }
    SumBound(RankIn(k), m.cores, 0, k * 20 + 40);
  }

  /** The lock never blocks the program for good: from every reachable state some schedule
      makes all cores halt. */
  lemma {:induction false} CanFinish(env: Env, k: nat, m: Machine, fp: Float) returns (schedule: Schedule)
    requires Inv(k, m)
    ensures (forall e :: e in schedule ==> e.0 < |m.cores|) && Finished(Run(env, m, schedule))
    decreases Sum(RankIn(k), m.cores)
  {
    schedule := [];
    if !Finished(m) {
      var i := UnhinderedCore(k, m);
      UnhinderedStep(env, k, m, i, fp);
      StepKeeps(env, k, m, i, fp);
      var m' := Step(env, m, i, fp);
      RankIsPositive(k, m');
      RankIsPositive(k, m);
      var rest := CanFinish(env, k, m', fp);
      schedule := [(i, fp)] + rest;
      assert schedule[1..] == rest;
    }
  }
}
