/** The recursive disassembler's parse_code: it marks the words that are instructions with
    one scan that jumps its own counter backwards whenever it finds a new earlier target. */
module Disassembler {
  import opened X20

  /** Only jmp, halt and ret do not guarantee an instruction after them. */
  predicate FallsThrough(op: int) {
    !(op == JMP || op == HALT || op == RET)
  }

  predicate Transfers(op: int) {
    op == JMP || op == BEQ || op == BLT || op == BGT || op == CALL
  }

  /** The variable `target` for the word cur at pc; -1 stands for "no target", and a zero
      address field counts as undefined. */
  function Target(cur: Word, pc: int): int {
    match FormatOf(Opcode(cur))
    case Addr => if cur / 4096 == 0 then -1 else UnsignedDisp20(cur) + pc + 1
    case RegAddr => if cur / 4096 == 0 then -1 else UnsignedDisp20(cur) + pc + 1
    case RegRegAddr => if cur / TWO16 == 0 then -1 else UnsignedDisp16(cur) + pc + 1
    case _ => -1
  }

  /** The word at pc sends control to t, by falling through or by a defined target. */
  predicate Leads(code: seq<Word>, pc: int, t: int)
    requires 0 <= pc < |code|
  {
    || (FallsThrough(Opcode(code[pc])) && t == pc + 1)
    || (Transfers(Opcode(code[pc])) && t != -1 && t == Target(code[pc], pc))
  }

  /** The same by numbers: t follows a word that is no jmp (0x14), halt or ret (0x10), or it is
      where a jmp or call (0x0f), or a branch (0x11 to 0x13), with an address field that is not
      zero points to. */
  predicate Succeeds(w: Word, pc: int, t: int) {
    var op := w % 256;
    || (op !in {0x14, 0x00, 0x10} && t == pc + 1)
    || (op in {0x14, 0x0f} && w / 4096 != 0 && t == pc + 1 + High20(w))
    || (op in {0x11, 0x12, 0x13} && w / 0x1_0000 != 0 && t == pc + 1 + High16(w))
  }

  lemma LeadsBySpelling(code: seq<Word>, pc: int, t: int)
    requires 0 <= pc < |code| && t != -1
    ensures Leads(code, pc, t) <==> Succeeds(code[pc], pc, t)
  {
    DisplacementsAgree(code[pc]);
  }

  /** A halt and a ret lead nowhere. */
  lemma EndsLeadNowhere(code: seq<Word>, pc: int, t: int)
    requires 0 <= pc < |code| && code[pc] % 256 in {0x00, 0x10}
    ensures !Leads(code, pc, t)
  {}

  /** Every place an instruction in s sends control to is in s. */
  ghost predicate Closed(code: seq<Word>, s: set<int>) {
    forall pc, t :: pc in s && 0 <= pc < |code| && Leads(code, pc, t) ==> t in s
  }

  /** parse_code may write the entry of every target of the word at pc. */
  predicate InRange(code: seq<Word>, pc: int)
    requires 0 <= pc < |code|
  {
    Transfers(Opcode(code[pc])) && Target(code[pc], pc) != -1 ==> 0 <= Target(code[pc], pc) <= |code|
  }

  ghost function Marked(data: seq<bool>): set<int> {
    set i | 0 <= i < |data| && data[i]
  }

  ghost function Unmarked(data: seq<bool>): set<int> {
    set i | 0 <= i < |data| && !data[i]
  }

  /** The marks are in every closed set that contains word 0. */
  ghost predicate Least(code: seq<Word>, data: seq<bool>) {
    forall s :: Closed(code, s) && 0 in s ==> Marked(data) <= s
  }

  /** Where the marked instructions before pc lead is marked. */
  ghost predicate ClosedBelow(code: seq<Word>, data: seq<bool>, pc: int) {
    forall p, t :: 0 <= p < pc && p < |code| && p < |data| && data[p] && Leads(code, p, t) ==> 0 <= t < |data| && data[t]
  }

  lemma MarkKeepsLeast(code: seq<Word>, data: seq<bool>, pc: int, t: int)
    requires Least(code, data) && |data| == |code| + 1 && 0 <= pc < |code| && data[pc]
    requires 0 <= t < |data| && Leads(code, pc, t)
    ensures Least(code, data[t := true])
  {
    assert pc in Marked(data);
    assert Marked(data[t := true]) == Marked(data) + {t};
  }

  lemma MarkShrinks(data: seq<bool>, t: int)
    requires 0 <= t < |data|
    ensures Unmarked(data[t := true]) == Unmarked(data) - {t}
    ensures !data[t] ==> t in Unmarked(data)
  {}

  /** What the scan has established when it is about to look at the word at pc. */
  ghost predicate Scanned(code: seq<Word>, data: seq<bool>, pc: int) {
    && |data| == |code| + 1 && 0 <= pc <= |code| && data[0]
    && ClosedBelow(code, data, pc) && Least(code, data)
    && (forall p :: 0 <= p < pc && data[p] ==> InRange(code, p))
  }

  /** The marks after the instruction at pc, and where the scan goes on. */
  lemma VisitKeepsScanned(code: seq<Word>, d0: seq<bool>, d1: seq<bool>, d2: seq<bool>, pc: int, next: int)
    requires Scanned(code, d0, pc) && pc < |code| && d0[pc] && InRange(code, pc)
    requires d1 == if FallsThrough(Opcode(code[pc])) then d0[pc + 1 := true] else d0
    requires var t := Target(code[pc], pc);
      if Transfers(Opcode(code[pc])) && t != -1
      then d2 == d1[t := true] && next == (if t < pc && !d1[t] then t else pc + 1)
      else d2 == d1 && next == pc + 1
    ensures Scanned(code, d2, next)
    ensures Unmarked(d2) <= Unmarked(d0) && (next <= pc ==> Unmarked(d2) < Unmarked(d0))
  {
    var op, t := Opcode(code[pc]), Target(code[pc], pc);
    if FallsThrough(op) {
      MarkKeepsLeast(code, d0, pc, pc + 1);
      MarkShrinks(d0, pc + 1);
    }
    if Transfers(op) && t != -1 {
      MarkKeepsLeast(code, d1, pc, t);
      MarkShrinks(d1, t);
    }
  }

  /** parse_code.  It ends, with one mark more for each jump backwards; if every target it
      meets is in range the marks are the least set that contains word 0 and is closed under
      falling through and under defined jump, branch and call targets; otherwise some word of
      that least set has a target out of range. */
  method ParseCode(code: seq<Word>) returns (data: array<bool>, ok: bool)
    ensures ok ==> data.Length == |code| + 1
    ensures ok ==> 0 in Marked(data[..]) && Closed(code, Marked(data[..])) && Least(code, data[..])
    ensures ok ==> forall pc :: 0 <= pc < |code| && data[pc] ==> InRange(code, pc)
    ensures ok ==> forall t :: 0 <= t < data.Length ==> (data[t] <==> Reached(code, t))
    ensures !ok ==> forall s :: Closed(code, s) && 0 in s ==> exists pc :: pc in s && 0 <= pc < |code| && !InRange(code, pc)
  {
    data := new bool[|code| + 1](_ => false);
    data[0] := true;
    assert Marked(data[..]) == {0};
    var pc := 0;
    while pc < |code|
      invariant Scanned(code, data[..], pc)
      decreases Unmarked(data[..]), |code| - pc
    {
      var cur := code[pc];
      var op := Opcode(cur);
      var next := pc;
      if pc == 0 || data[pc] {
        ghost var d0, at := data[..], pc;
        var target := Target(cur, pc);
        if FallsThrough(op) {
          data[pc + 1] := true;
        }
        ghost var d1 := data[..];
        if Transfers(op) && target != -1 {
          if !(0 <= target <= |code|) {
            OutOfRange(code, d0, at);
            return data, false;
          }
          if target < pc && !data[target] {
            next := target - 1;
          }
          data[target] := true;
        }
        VisitKeepsScanned(code, d0, d1, data[..], at, next + 1);
      }
      pc := next + 1;
    }
    ScanIsDone(code, data[..]);
    forall t | 0 <= t < data.Length ensures data[t] <==> Reached(code, t) { MarkedIsReached(code, data[..], t); }
    return data, true;
  }

  lemma ScanIsDone(code: seq<Word>, data: seq<bool>)
    requires Scanned(code, data, |code|)
    ensures 0 in Marked(data) && Closed(code, Marked(data))
  {}

  lemma OutOfRange(code: seq<Word>, data: seq<bool>, pc: int)
    requires Least(code, data) && 0 <= pc < |code| && pc < |data| && data[pc] && !InRange(code, pc)
    ensures forall s :: Closed(code, s) && 0 in s ==> exists pc :: pc in s && 0 <= pc < |code| && !InRange(code, pc)
  {
    assert pc in Marked(data);
  }

  // ---------------------------------------------------------------- the marks as reached words

  /** A way from word 0 on which every word succeeds the one before it. */
  ghost predicate Way(code: seq<Word>, way: seq<int>) {
    && way != [] && way[0] == 0
    && forall i, j :: 0 <= i && j == i + 1 < |way| ==> Hop(code, way[i], way[j])
  }

  predicate Hop(code: seq<Word>, pc: int, t: int) { 0 <= pc < |code| && Succeeds(code[pc], pc, t) }

  /** Word t is 0 or has a way to it from word 0. */
  ghost predicate Reached(code: seq<Word>, t: int) {
    exists way :: Way(code, way) && way[|way| - 1] == t
  }

  lemma ReachedOn(code: seq<Word>, pc: int, t: int)
    requires Reached(code, pc) && 0 <= pc < |code| && Succeeds(code[pc], pc, t)
    ensures Reached(code, t)
  {
    var way :| Way(code, way) && way[|way| - 1] == pc;
    var on := way + [t];
    forall i, j | 0 <= i && j == i + 1 < |on| ensures Hop(code, on[i], on[j]) {
      assert i == |way| - 1 || (on[j] == way[j] && Hop(code, way[i], way[j]));
    }
    assert Way(code, on);
  }

  /** The marks are exactly the words that have a way from word 0. */
  lemma MarkedIsReached(code: seq<Word>, data: seq<bool>, t: int)
    requires |data| == |code| + 1 && data[0] && Closed(code, Marked(data)) && Least(code, data)
    requires forall pc :: 0 <= pc < |code| && data[pc] ==> InRange(code, pc)
    requires 0 <= t < |data|
    ensures data[t] <==> Reached(code, t)
  {
    if data[t] {
      var s := set x | x in Marked(data) && Reached(code, x);
      assert Way(code, [0]) && Reached(code, 0);
      forall pc, x | pc in s && 0 <= pc < |code| && Leads(code, pc, x) ensures x in s {
        LeadsBySpelling(code, pc, x);
        ReachedOn(code, pc, x);
      }
      assert Closed(code, s) && 0 in s && t in Marked(data);
    } else if Reached(code, t) {
      var way :| Way(code, way) && way[|way| - 1] == t;
      WayIsMarked(code, data, way, |way| - 1);
    }
  }

  lemma {:induction false} WayIsMarked(code: seq<Word>, data: seq<bool>, way: seq<int>, k: nat)
    requires |data| == |code| + 1 && data[0] && Closed(code, Marked(data)) && Way(code, way) && k < |way|
    requires forall pc :: 0 <= pc < |code| && data[pc] ==> InRange(code, pc)
    requires way[k] != -1
    ensures 0 <= way[k] < |data| && data[way[k]]
  {
    if k > 0 {
      assert Hop(code, way[k - 1], way[k]);
      WayIsMarked(code, data, way, k - 1);
      LeadsBySpelling(code, way[k - 1], way[k]);
      assert way[k - 1] in Marked(data);
    }
  }
}
