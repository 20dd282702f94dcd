/** The call/ret frame discipline of one core, for any nesting of calls. */
module VmFrames {
  import opened X20
  import opened Vm

  function OpAt(s: State): int
    requires s.core.reg[PC] < MEM_SIZE
  {
    Opcode(s.mem[s.core.reg[PC]])
  }

  predicate Ready(s: State) {
    s.core.running && s.core.reg[PC] < MEM_SIZE
  }

  /** The addresses that call writes to. */
  function CallWrites(c: Core): set<int> {
    var slots: set<int> := {Wrap(c.Reg(SP) - 1), Wrap(c.Reg(SP) - 2), Wrap(c.Reg(SP) - 3)};
    set a | a in slots && a < MEM_SIZE
  }

  /** A call that is not refused changes no other word than these, and it stays out of the
      program exactly when the stack pointer is not 1 or 2: there the unsigned comparison
      with the program's end lets it through. */
  lemma CallSparesProgram(env: Env, s: State, fp: Float)
    requires Ready(s) && OpAt(s) == CALL && !CallRefused(env, s.core)
    ensures forall a :: 0 <= a < MEM_SIZE && a !in CallWrites(s.core) ==> Execute(env, s, fp).mem[a] == s.mem[a]
    ensures (forall a :: a in CallWrites(s.core) ==> a >= env.progEnd) <==>
            !(s.core.reg[SP] in {1, 2} && env.progEnd > 0)
  {
    var sp := s.core.Reg(SP);
    if sp >= 3 {
      assert Wrap(sp - 3) == sp - 3 && Wrap(sp - 2) == sp - 2 && Wrap(sp - 1) == sp - 1;
    } else if sp == 0 {
      assert CallWrites(s.core) == {};
    } else {
      assert Wrap(sp - sp) == 0 && 0 in CallWrites(s.core);
    }
  }

  /** The call that should be refused and is let through: it overwrites the first word of the
      program that it belongs to. */
  lemma CallOverwritesProgram()
    ensures exists env: Env, s: State, fp: Float ::
      Ready(s) && OpAt(s) == CALL && !CallRefused(env, s.core)
      && s.core.reg[PC] < env.progEnd && Execute(env, s, fp).mem[0] != s.mem[0]
  {
    var env := Env(6, 1);
    var reg: Registers := seq(16, _ => 0)[SP := 1][PC := 5];
    var mem: Memory := seq(MEM_SIZE, _ => 0)[5 := CALL];
    var s := State(Core(reg, 100, 0, 1, true), mem);
    var fp := ZeroDivisor;
    assert Wrap(1 - 3) == TWO32 - 2 && Wrap(1 - 1) == 0 && Wrap(1 - 2) == TWO32 - 1;
    assert Execute(env, s, fp).mem[0] == 6;
  }

  // ---------------------------------------------------------------- disciplined bodies

  /** What a procedure does between its call and its ret: instructions, and complete calls. */
  datatype Body = Return | Plain(fp: Float, rest: Body) | Nested(inner: Body, rest: Body)

  /** Executes a body up to the ret that ends it. */
  ghost function Finish(env: Env, s: State, base: int, body: Body): State
    requires Disciplined(env, s, base, body)
    decreases body, 1
  {
    match body
    case Return => s
    case Plain(fp, rest) => Finish(env, Execute(env, s, fp), base, rest)
    case Nested(inner, rest) =>
      var back := Returned(env, s, inner);
      Finish(env, back, base, rest)
  }

  /** The state after a call of a procedure with this body and its ret. */
  ghost function Returned(env: Env, s: State, inner: Body): State
    requires Ready(s) && Disciplined(env, Execute(env, s, ZeroDivisor), s.core.Reg(SP) - 3, inner)
    requires Ready(Finish(env, Execute(env, s, ZeroDivisor), s.core.Reg(SP) - 3, inner))
    decreases inner, 2
  {
    Execute(env, Finish(env, Execute(env, s, ZeroDivisor), s.core.Reg(SP) - 3, inner), ZeroDivisor)
  }

  /** The body keeps the words above `base`, the slot of its return value: they are its saved
      frame pointer, its return address and its callers' frames.  It has put the stack pointer
      back to `base` when it returns, and calls from at or below it. */
  ghost predicate Disciplined(env: Env, s: State, base: int, body: Body)
    decreases body, 0
  {
    Ready(s) &&
    match body
    case Return => OpAt(s) == RET && s.core.Reg(SP) == base
    case Plain(fp, rest) =>
      && OpAt(s) != CALL && OpAt(s) != RET
      && KeepsAbove(s.mem, Execute(env, s, fp).mem, base)
      && Disciplined(env, Execute(env, s, fp), base, rest)
    case Nested(inner, rest) =>
      && OpAt(s) == CALL && !CallRefused(env, s.core)
      && 3 <= s.core.reg[SP] <= base
      && (Wrap(s.core.Reg(FP) - 1) <= base || Wrap(s.core.Reg(FP) - 1) >= MEM_SIZE)
      && Disciplined(env, Execute(env, s, ZeroDivisor), s.core.Reg(SP) - 3, inner)
      && Ready(Finish(env, Execute(env, s, ZeroDivisor), s.core.Reg(SP) - 3, inner))
      && Disciplined(env, Returned(env, s, inner), base, rest)
  }

  predicate KeepsAbove(m: Memory, m': Memory, base: int) {
    forall a :: base < a < MEM_SIZE && 0 <= a ==> m'[a] == m[a]
  }

  // ---------------------------------------------------------------- one call

  lemma CallEffect(env: Env, s: State, fp: Float)
    requires Ready(s) && OpAt(s) == CALL && !CallRefused(env, s.core) && 3 <= s.core.reg[SP] <= MEM_SIZE
    ensures var c, r, sp := s.core, Execute(env, s, fp), s.core.Reg(SP);
      && r.core.running && r.core.stack == c.stack && r.core.Reg(SP) == sp - 3 && r.core.Reg(FP) == sp - 2
      && r.mem == s.mem[sp - 1 := Wrap(c.Reg(PC) + 1)][sp - 2 := c.reg[FP]][sp - 3 := 0]
  {
    var sp := s.core.Reg(SP);
    assert Wrap(sp - 3) == sp - 3 && Wrap(sp - 2) == sp - 2 && Wrap(sp - 1) == sp - 1;
  }

  lemma RetEffect(env: Env, s: State, fp: Float)
    requires Ready(s) && OpAt(s) == RET && !RetRefused(env, s.core) && s.core.reg[SP] + 2 < MEM_SIZE
    ensures var c, r, sp := s.core, Execute(env, s, fp), s.core.Reg(SP);
      && r.core.running && r.core.stack == c.stack && r.core.Reg(SP) == sp + 3
      && r.core.reg[FP] == s.mem[sp + 1] && r.core.reg[PC] == s.mem[sp + 2]
      && r.mem == PutWord(s.mem, Wrap(r.core.Reg(FP) - 1), s.mem[sp])
  {
    var sp := s.core.Reg(SP);
    assert Wrap(sp + 3) == sp + 3 && Wrap(sp + 2) == sp + 2 && Wrap(sp + 1) == sp + 1;
  }

  lemma PlainKeepsCore(env: Env, s: State, fp: Float)
    requires Ready(s)
    ensures Execute(env, s, fp).core.stack == s.core.stack
  {}

  // ---------------------------------------------------------------- any nesting

  /** Up to its ret, a disciplined body has kept the words above its base and the core's stack. */
  lemma {:induction false} BodyKeeps(env: Env, s: State, base: int, body: Body)
    requires Disciplined(env, s, base, body) && base < MEM_SIZE
    ensures var e := Finish(env, s, base, body);
      && Ready(e) && OpAt(e) == RET && e.core.Reg(SP) == base
      && e.core.stack == s.core.stack && KeepsAbove(s.mem, e.mem, base)
    decreases body, 0
  {
    match body
    case Return =>
    case Plain(fp, rest) =>
      PlainKeepsCore(env, s, fp);
      BodyKeeps(env, Execute(env, s, fp), base, rest);
    case Nested(inner, rest) =>
      CallReturns(env, s, inner);
      var back := Returned(env, s, inner);
      assert KeepsAbove(s.mem, back.mem, base);
      BodyKeeps(env, back, base, rest);
  }

  /** r is s just behind its call instruction: frame and stack pointer as before, `value`
      below the frame pointer if that is in memory, and no other word of the caller touched. */
  ghost predicate Resumed(s: State, r: State, value: Word) {
    var sp, slot := s.core.Reg(SP), Wrap(s.core.Reg(FP) - 1);
    && r.core.running && r.core.stack == s.core.stack
    && r.core.reg[PC] == Wrap(s.core.Reg(PC) + 1)
    && r.core.reg[FP] == s.core.reg[FP] && r.core.reg[SP] == s.core.reg[SP]
    && (slot < MEM_SIZE ==> r.mem[slot] == value)
    && (forall a :: sp <= a < MEM_SIZE && a != slot ==> r.mem[a] == s.mem[a])
  }

  /** Whatever calls the procedure makes in turn, its ret resumes its caller. */
  lemma {:induction false} CallReturns(env: Env, s: State, inner: Body)
    requires Ready(s) && OpAt(s) == CALL && !CallRefused(env, s.core) && 3 <= s.core.reg[SP] <= MEM_SIZE
    requires Disciplined(env, Execute(env, s, ZeroDivisor), s.core.Reg(SP) - 3, inner)
    ensures var e := Finish(env, Execute(env, s, ZeroDivisor), s.core.Reg(SP) - 3, inner);
      Ready(e) && Resumed(s, Returned(env, s, inner), e.mem[s.core.Reg(SP) - 3])
    decreases inner, 1
  {
    var s1 := Execute(env, s, ZeroDivisor);
    BodyKeeps(env, s1, s.core.Reg(SP) - 3, inner);
    CallEffect(env, s, ZeroDivisor);
    RetResumes(env, s, Finish(env, s1, s.core.Reg(SP) - 3, inner));
  }

  lemma RetResumes(env: Env, s: State, e: State)
    requires Ready(s) && OpAt(s) == CALL && !CallRefused(env, s.core) && 3 <= s.core.reg[SP] <= MEM_SIZE
    requires Ready(e) && OpAt(e) == RET && e.core.Reg(SP) == s.core.Reg(SP) - 3 && e.core.stack == s.core.stack
    requires KeepsAbove(Execute(env, s, ZeroDivisor).mem, e.mem, s.core.Reg(SP) - 3)
    ensures Resumed(s, Execute(env, e, ZeroDivisor), e.mem[s.core.Reg(SP) - 3])
  {
    var sp := s.core.Reg(SP);
    var s1 := Execute(env, s, ZeroDivisor);
    CallEffect(env, s, ZeroDivisor);
    assert e.mem[sp - 2] == s1.mem[sp - 2] && e.mem[sp - 1] == s1.mem[sp - 1];
    NotRefused(env, s, e);
    RetEffect(env, e, ZeroDivisor);
  }

  /** A frame that call could push, ret can pop. */
  lemma NotRefused(env: Env, s: State, e: State)
    requires !CallRefused(env, s.core) && 3 <= s.core.reg[SP] <= MEM_SIZE
    requires e.core.Reg(SP) == s.core.Reg(SP) - 3 && e.core.stack == s.core.stack
    ensures !RetRefused(env, e.core)
  {
    assert Wrap(s.core.Reg(SP) - 3) == s.core.Reg(SP) - 3;
    assert Wrap(s.core.Reg(SP)) == s.core.Reg(SP);
  }
}
