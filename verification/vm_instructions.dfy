/** What each instruction does, by its number and the fields of its word. */
module VmInstructions {
  import opened X20
  import opened Vm

  /** The instruction that core s is about to execute. */
  function Instruction(s: State): Word
    requires s.core.reg[15] < 0x3_ffff
  {
    s.mem[s.core.reg[15]]
  }

  /** Register r gets v, the core goes on to the next word, and nothing else changes. */
  predicate Sets(s: State, s': State, r: nat, v: int)
    requires r < 16
  {
    && s'.mem == s.mem && s'.core == s.core.(reg := s'.core.reg)
    && s'.core.Reg(15) == s.core.Reg(15) + 1 && (r != 15 ==> s'.core.Reg(r) == v)
    && forall k :: 0 <= k < 15 && k != r ==> s'.core.reg[k] == s.core.reg[k]
  }

  /** Nothing changes but the program counter. */
  predicate GoesTo(s: State, s': State, pc: int) {
    && s'.mem == s.mem && s'.core == s.core.(reg := s'.core.reg) && s'.core.Reg(15) == pc
    && forall k :: 0 <= k < 15 ==> s'.core.reg[k] == s.core.reg[k]
  }

  /** The core stops with the given code, and nothing else changes but the program counter. */
  predicate Stops(s: State, s': State, code: int) {
    && !s'.core.running && s'.core.status == code && s'.mem == s.mem
    && forall k :: 0 <= k < 15 ==> s'.core.reg[k] == s.core.reg[k]
  }

  lemma NextWord(s: State)
    requires s.core.reg[15] < 0x3_ffff
    ensures Wrap(s.core.Reg(15) + 1) == s.core.Reg(15) + 1
  {}

  // ---------------------------------------------------------------- integers

  /** addi, subi and muli work on signed values, modulo 2^32. */
  lemma SignedArithmetic(env: Env, s: State, fp: Float)
    requires s.core.reg[15] < 0x3_ffff
    ensures var w, s' := Instruction(s), Execute(env, s, fp);
      var r1, a, b := Reg1(w), Signed(s.core.reg[Reg1(w)]), Signed(s.core.reg[Reg2(w)]);
      && (Opcode(w) == 0x0b ==> Sets(s, s', r1, Wrap(a + b)))
      && (Opcode(w) == 0x0c ==> Sets(s, s', r1, Wrap(a - b)))
      && (Opcode(w) == 0x0e ==> Sets(s, s', r1, Wrap(a * b)))
  {
    NextWord(s);
    var w := Instruction(s);
    var x, y := s.core.reg[Reg1(w)], s.core.reg[Reg2(w)];
    SameSum(x, y);
    SameProduct(x, y);
    assert ADDF <= Opcode(w) <= MULI ==>
      Execute(env, s, fp) == SetReg(Arithmetic(s, Opcode(w), Reg1(w), Reg2(w), fp), PC, s.core.Reg(15) + 1);
  }

  /** As long as the exact result is a signed word, it is the result. */
  lemma ExactResult(n: int)
    requires -0x8000_0000 <= n < 0x8000_0000
    ensures Signed(Wrap(n)) == n
  {}

  lemma SameSum(x: Word, y: Word)
    ensures Wrap(x + y) == Wrap(Signed(x) + Signed(y))
    ensures Wrap(x - y) == Wrap(Signed(x) - Signed(y))
  {
    var i, j := if x < TWO31 then 0 else 1, if y < TWO31 then 0 else 1;
    MultiplesVanish(x + y, i + j);
    MultiplesVanish(x - y, i - j);
  }

  lemma SameProduct(x: Word, y: Word)
    ensures Wrap(x * y) == Wrap(Signed(x) * Signed(y))
  {
    var i, j := if x < TWO31 then 0 else 1, if y < TWO31 then 0 else 1;
    var a, b := Signed(x), Signed(y);
    assert a == x - i * TWO32 && b == y - j * TWO32;
    assert a * b == x * y - (i * y + j * x - i * j * TWO32) * TWO32;
    MultiplesVanish(x * y, i * y + j * x - i * j * TWO32);
  }

  /** divi truncates toward zero: the remainder has the dividend's sign and is smaller than the
      divisor.  A zero divisor stops the core. */
  lemma SignedDivision(env: Env, s: State, fp: Float)
    requires s.core.reg[15] < 0x3_ffff && Opcode(Instruction(s)) == 0x0d
    ensures var w, r1 := Instruction(s), Reg1(Instruction(s));
      var a, b := Signed(s.core.reg[r1]), Signed(s.core.reg[Reg2(w)]);
      if b == 0 then Stops(s, Execute(env, s, fp), -5)
      else exists q: int :: Quotient(a, b, q) && Sets(s, Execute(env, s, fp), r1, Wrap(q))
  {
    NextWord(s);
    var w := Instruction(s);
    var a, b := Signed(s.core.reg[Reg1(w)]), Signed(s.core.reg[Reg2(w)]);
    if b != 0 {
      TruncateIsQuotient(a, b);
      var v := Wrap(Truncate(a, b));
      assert Execute(env, s, fp) == SetReg(SetReg(s, Reg1(w), v), PC, s.core.Reg(15) + 1);
    }
  }

  /** a == q * b + r with a remainder that is smaller than b and not of the other sign than a. */
  predicate Quotient(a: int, b: int, q: int) {
    var r, size: int := a - q * b, Abs(b);
    -size < r < size && (a >= 0 ==> r >= 0) && (a <= 0 ==> r <= 0)
  }

  lemma Signs(d: int, y: int)
    ensures d * (-y) == -(d * y) && (-d) * y == -(d * y) && (-d) * (-y) == d * y
  {}

  lemma TruncateIsQuotient(a: int, b: int)
    requires b != 0
    ensures Quotient(a, b, Truncate(a, b))
  {
    var x: int, y: int := Abs(a), Abs(b);
    var d, m := x / y, x % y;
    assert x == d * y + m;
    Signs(d, y);
    RemainderFits(a, b, d, y, m, Truncate(a, b));
  }

  lemma RemainderFits(a: int, b: int, d: int, y: int, m: int, q: int)
    requires y > 0 && 0 <= m < y && (b == y || b == -y) && (a == d * y + m || -a == d * y + m) && (a >= 0 ==> a == d * y + m)
    requires a < 0 ==> -a == d * y + m
    requires q * b == if a >= 0 then d * y else -(d * y)
    ensures Quotient(a, b, q)
  {}

  /** Minus seven divided by two is minus three. */
  lemma DivisionRoundsTowardZero(q: int)
    requires Quotient(-7, 2, q)
    ensures q == -3
  {}

  /** A floating-point instruction stores what the operation gives; divf stops on a zero divisor. */
  lemma FloatingPoint(env: Env, s: State, fp: Float)
    requires s.core.reg[15] < 0x3_ffff && 0x07 <= Opcode(Instruction(s)) <= 0x0a
    ensures match fp
      case Result(v) => Sets(s, Execute(env, s, fp), Reg1(Instruction(s)), v)
      case ZeroDivisor => Opcode(Instruction(s)) == 0x09 ==> Stops(s, Execute(env, s, fp), -5)
  {
    NextWord(s);
  }

  // ---------------------------------------------------------------- memory

  /** load, ldimm and ldaddr. */
  lemma Loads(env: Env, s: State, fp: Float)
    requires s.core.reg[15] < 0x3_ffff
    ensures var w, s' := Instruction(s), Execute(env, s, fp);
      var r1, near := Reg1(w), Wrap(s.core.Reg(15) + 1 + High20(w));
      && (Opcode(w) == 0x01 ==> Sets(s, s', r1, if near < 0x3_ffff then s.mem[near] else s.core.reg[r1]))
      && (Opcode(w) == 0x03 ==> Sets(s, s', r1, Wrap(High20(w))))
      && (Opcode(w) == 0x04 ==> Sets(s, s', r1, near))
  {
    NextWord(s);
    DisplacementsAgree(Instruction(s));
  }

  /** From s to s' the word at addr, if there is one, gets v, and the core goes on. */
  predicate Writes(s: State, s': State, addr: Word, v: Word) {
    && s'.core == s.core.(reg := s'.core.reg) && s'.core.Reg(15) == s.core.Reg(15) + 1
    && (forall k :: 0 <= k < 15 ==> s'.core.reg[k] == s.core.reg[k])
    && (forall a :: 0 <= a < 0x3_ffff ==> s'.mem[a] == if a == addr then v else s.mem[a])
  }

  lemma Stores(env: Env, s: State, fp: Float)
    requires s.core.reg[15] < 0x3_ffff && Opcode(Instruction(s)) == 0x02
    ensures var w := Instruction(s);
      Writes(s, Execute(env, s, fp), Wrap(s.core.Reg(15) + 1 + High20(w)), s.core.reg[Reg1(w)])
  {
    NextWord(s);
    DisplacementsAgree(Instruction(s));
  }

  /** ldind reads the word at a signed base plus displacement, and stops outside memory. */
  lemma IndirectLoad(env: Env, s: State, fp: Float)
    requires s.core.reg[15] < 0x3_ffff && Opcode(Instruction(s)) == 0x05
    ensures var w := Instruction(s);
      var addr := Signed(s.core.reg[Reg2(w)]) + High16(w);
      if 0 <= addr < 0x3_ffff then Sets(s, Execute(env, s, fp), Reg1(w), s.mem[addr])
      else Stops(s, Execute(env, s, fp), -6)
  {
    NextWord(s);
    var w := Instruction(s);
    DisplacementsAgree(w);
    if 0 <= Signed(s.core.reg[Reg2(w)]) + High16(w) < 0x3_ffff { WrapSigned(s.core.reg[Reg2(w)], High16(w)); }
  }

  lemma WrapSigned(base: Word, d: int)
    requires 0 <= Signed(base) + d < TWO31
    ensures Wrap(base + d) == Signed(base) + d
  {
    MultiplesVanish(base + d, if base < TWO31 then 0 else 1);
  }

  /** stind stores at base plus displacement; what it checks is the number of the register. */
  lemma IndirectStore(env: Env, s: State, fp: Float)
    requires s.core.reg[15] < 0x3_ffff && Opcode(Instruction(s)) == 0x06
    ensures var w := Instruction(s);
      if 0 <= Reg2(w) + High16(w) < 0x3_ffff
      then Writes(s, Execute(env, s, fp), Wrap(s.core.Reg(Reg2(w)) + High16(w)), s.core.reg[Reg1(w)])
      else Stops(s, Execute(env, s, fp), -6)
  {
    NextWord(s);
    DisplacementsAgree(Instruction(s));
  }

  /** cmpxchg stores the second register if the first one equals the word, and loads the word
      into the first one if not; a word outside memory counts as zero and is not loaded. */
  lemma CompareAndExchange(env: Env, s: State, fp: Float)
    requires s.core.reg[15] < 0x3_ffff && Opcode(Instruction(s)) == 0x15
    ensures var w, s' := Instruction(s), Execute(env, s, fp);
      var a, b, addr := s.core.reg[Reg1(w)], s.core.reg[Reg2(w)], Wrap(s.core.Reg(15) + 1 + High16(w));
      if addr < 0x3_ffff
      then if s.mem[addr] == a then Writes(s, s', addr, b) else Sets(s, s', Reg1(w), s.mem[addr])
      else GoesTo(s, s', s.core.Reg(15) + 1)
  {
    NextWord(s);
    DisplacementsAgree(Instruction(s));
  }

  // ---------------------------------------------------------------- control

  /** jmp, and the branches: signed comparisons of two registers. */
  lemma Jumps(env: Env, s: State, fp: Float)
    requires s.core.reg[15] < 0x3_ffff
    ensures var w, s', next := Instruction(s), Execute(env, s, fp), s.core.Reg(15) + 1;
      var a, b, near := Signed(s.core.reg[Reg1(w)]), Signed(s.core.reg[Reg2(w)]), Wrap(next + High16(w));
      && (Opcode(w) == 0x14 ==> GoesTo(s, s', Wrap(next + High20(w))))
      && (Opcode(w) == 0x11 ==> GoesTo(s, s', if a < b then near else next))
      && (Opcode(w) == 0x12 ==> GoesTo(s, s', if a > b then near else next))
      && (Opcode(w) == 0x13 ==> GoesTo(s, s', if a == b then near else next))
  {
    NextWord(s);
    DisplacementsAgree(Instruction(s));
  }

  /** halt stops normally, and a number that is no instruction stops as illegal. */
  lemma Terminations(env: Env, s: State, fp: Float)
    requires s.core.reg[15] < 0x3_ffff
    ensures var s' := Execute(env, s, fp);
      && (Opcode(Instruction(s)) == 0x00 ==> Stops(s, s', 0))
      && (Opcode(Instruction(s)) > 0x19 ==> Stops(s, s', -7))
  {}

  lemma Identity(env: Env, s: State, fp: Float)
    requires s.core.reg[15] < 0x3_ffff
    ensures var w, s' := Instruction(s), Execute(env, s, fp);
      && (Opcode(w) == 0x16 ==> Sets(s, s', Reg1(w), s.core.pid))
      && (Opcode(w) == 0x17 ==> Sets(s, s', Reg1(w), env.numProcessors))
  {
    NextWord(s);
  }

  // ---------------------------------------------------------------- the stack

  /** push and pop are refused exactly when the stack pointer is above the core's stack or inside
      the program.  push stores below the stack pointer and lowers it by one. */
  lemma Pushes(env: Env, s: State, fp: Float)
    requires s.core.reg[15] < 0x3_ffff && Opcode(Instruction(s)) == 0x18
    ensures var w, s', sp := Instruction(s), Execute(env, s, fp), s.core.Reg(14);
      if sp > s.core.stack || sp < env.progEnd then Stops(s, s', -6)
      else
        && s'.core.running == s.core.running && s'.core.Reg(14) == Wrap(sp - 1) && s'.core.Reg(15) == s.core.Reg(15) + 1
        && (Reg1(w) != 14 ==> forall a :: 0 <= a < 0x3_ffff ==>
              s'.mem[a] == if a == Wrap(sp - 1) then s.core.reg[Reg1(w)] else s.mem[a])
  {
    NextWord(s);
  }

  /** pop loads and raises the stack pointer, and then stops the core as an illegal instruction. */
  lemma PopsAndStops(env: Env, s: State, fp: Float)
    requires s.core.reg[15] < 0x3_ffff && Opcode(Instruction(s)) == 0x19
    ensures var w, s', sp := Instruction(s), Execute(env, s, fp), s.core.Reg(14);
      if sp > s.core.stack || sp < env.progEnd then Stops(s, s', -6)
      else
        && !s'.core.running && s'.core.status == -7 && s'.mem == s.mem
        && (Reg1(w) < 14 ==> s'.core.Reg(14) == Wrap(sp + 1)
                             && s'.core.reg[Reg1(w)] == if sp < 0x3_ffff then s.mem[sp] else s.core.reg[Reg1(w)])
  {}

  /** A call is accepted exactly when the stack pointer is not above the core's stack and three
      words below it, in unsigned words, is not inside the program.  So the first call of a
      program, with the stack pointer at the core's stack, is accepted. */
  lemma CallAccepted(env: Env, s: State, fp: Float)
    requires s.core.running && s.core.reg[15] < 0x3_ffff && Opcode(Instruction(s)) == 0x0f
    ensures var s', sp := Execute(env, s, fp), s.core.Reg(14);
      && (s'.core.running <==> sp <= s.core.stack && env.progEnd <= if sp >= 3 then sp - 3 else sp - 3 + 0x1_0000_0000)
      && (!s'.core.running ==> Stops(s, s', -6) && s'.core.Reg(15) == s.core.Reg(15) + 1)
      && (s'.core.running ==> s'.core.Reg(15) == Wrap(s.core.Reg(15) + 1 + High20(Instruction(s))))
  {
    NextWord(s);
    DisplacementsAgree(Instruction(s));
  }

  /** A ret is accepted exactly when the frame does not reach above the core's stack and the
      stack pointer is not inside the program. */
  lemma RetAccepted(env: Env, s: State, fp: Float)
    requires s.core.running && s.core.reg[15] < 0x3_ffff && Opcode(Instruction(s)) == 0x10
    ensures var s', sp := Execute(env, s, fp), s.core.Reg(14);
      && (s'.core.running <==> env.progEnd <= sp && (if sp + 3 < 0x1_0000_0000 then sp + 3 else sp + 3 - 0x1_0000_0000) <= s.core.stack)
      && (!s'.core.running ==> Stops(s, s', -6) && s'.core.Reg(15) == s.core.Reg(15) + 1)
  {
    NextWord(s);
  }
}
