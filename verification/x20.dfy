/** X20 machine words, instruction fields and sign extension, shared by the linker, the
    disassembler and the virtual machine.  A word is its unsigned value; bit operations
    are written as arithmetic on it. */
module X20 {

  const TWO16: int := 0x1_0000
  const TWO20: int := 0x10_0000
  const TWO31: int := 0x8000_0000
  const TWO32: int := 0x1_0000_0000

  type Word = x: int | 0 <= x < 0x1_0000_0000

  /** The word that a C conversion to a 32-bit type keeps of x. */
  function Wrap(x: int): Word {
    x % TWO32
  }

  /** Wrapping around in between makes no difference. */
  lemma WrapTwice(x: int, b: int)
    ensures Wrap(Wrap(x) + b) == Wrap(x + b)
  {
    var k := x / TWO32;
    assert Wrap(x) + b == x + b - k * TWO32;
    MultiplesVanish(x + b, k);
  }

  lemma MultiplesVanish(y: int, k: int)
    ensures (y - k * TWO32) % TWO32 == y % TWO32
  {
    var q := y / TWO32;
    assert y - k * TWO32 == (q - k) * TWO32 + y % TWO32;
  }

  /** A word read as int32_t. */
  function Signed(w: Word): (i: int)
    ensures -TWO31 <= i < TWO31 && Wrap(i) == w
  {
    if w < TWO31 then w else w - TWO32
  }

  const HALT := 0x00
  const LOAD := 0x01
  const STORE := 0x02
  const LDIMM := 0x03
  const LDADDR := 0x04
  const LDIND := 0x05
  const STIND := 0x06
  const ADDF := 0x07
  const SUBF := 0x08
  const DIVF := 0x09
  const MULF := 0x0a
  const ADDI := 0x0b
  const SUBI := 0x0c
  const DIVI := 0x0d
  const MULI := 0x0e
  const CALL := 0x0f
  const RET := 0x10
  const BLT := 0x11
  const BGT := 0x12
  const BEQ := 0x13
  const JMP := 0x14
  const CMPXCHG := 0x15
  const GETPID := 0x16
  const GETPN := 0x17
  const PUSH := 0x18
  const POP := 0x19
  const NOP := 0x20

  datatype Format = OpOnly | Addr | Reg | RegConst | RegAddr | RegReg | RegOff | RegRegAddr | Invalid

  function FormatOf(op: int): Format {
    if op == HALT || op == RET || op == NOP then OpOnly
    else if op == CALL || op == JMP then Addr
    else if op == GETPID || op == GETPN || op == PUSH || op == POP then Reg
    else if op == LDIMM then RegConst
    else if op == LOAD || op == STORE || op == LDADDR then RegAddr
    else if ADDF <= op <= MULI then RegReg
    else if op == LDIND || op == STIND then RegOff
    else if op == BLT || op == BGT || op == BEQ || op == CMPXCHG then RegRegAddr
    else Invalid
  }

  function Opcode(w: Word): int { w % 256 }
  function Reg1(w: Word): (r: nat) ensures r < 16 { w / 256 % 16 }
  function Reg2(w: Word): (r: nat) ensures r < 16 { w / 4096 % 16 }

  /** EXTENDSIGN20(x): the high twelve bits are set unless x >> 19 is zero. */
  function ExtendSign20(x: int): int {
    if x / 0x8_0000 != 0 then x % TWO20 - TWO20 else x
  }

  function ExtendSign16(x: int): int {
    if x / 0x8000 != 0 then x % TWO16 - TWO16 else x
  }

  /** The displacement that the virtual machine decodes: word is an int32_t, so the shift
      is arithmetic. */
  function Disp20(w: Word): int { ExtendSign20(Signed(w) / 4096) }
  function Disp16(w: Word): int { ExtendSign16(Signed(w) / TWO16) }

  /** The same field shifted as an unsigned word, as the disassembler does. */
  function UnsignedDisp20(w: Word): int { ExtendSign20(w / 4096) }
  function UnsignedDisp16(w: Word): int { ExtendSign16(w / TWO16) }

  /** The signed field in the high 20 or 16 bits of a word. */
  function High20(w: Word): int { if w / 4096 < 0x8_0000 then w / 4096 else w / 4096 - 0x10_0000 }
  function High16(w: Word): int { if w / 0x1_0000 < 0x8000 then w / 0x1_0000 else w / 0x1_0000 - 0x1_0000 }

  /** Both tools read the same displacement, and it is the signed field. */
  lemma DisplacementsAgree(w: Word)
    ensures Disp20(w) == UnsignedDisp20(w) && -0x8_0000 <= Disp20(w) < 0x8_0000
    ensures Disp16(w) == UnsignedDisp16(w) && -0x8000 <= Disp16(w) < 0x8000
    ensures Disp20(w) == High20(w) && Disp16(w) == High16(w)
  {}

  // ---------------------------------------------------------------- a high field and low bits

  lemma Nibble(z: int, y: int)
    ensures (16 * z + y) % 16 == y % 16
  {}

  lemma LowByte(z: int, r: int)
    ensures (256 * z + r) % 256 == r % 256
  {}

  lemma ShiftByte(z: int, r: int)
    ensures (256 * z + r) / 256 == z + r / 256
  {}

  lemma Shift12(z: int, r: int)
    ensures (4096 * z + r) / 4096 == z + r / 4096 && (4096 * z + r) % 4096 == r % 4096
  {}

  lemma Shift16(z: int, r: int)
    ensures (TWO16 * z + r) / TWO16 == z + r / TWO16 && (TWO16 * z + r) % TWO16 == r % TWO16
  {}

  /** The fields of a word with a high field of 20 bits. */
  lemma Fields20(q: int, r: int)
    requires 0 <= r < 4096
    ensures var x := q * 4096 + r; x / 4096 == q && x % 4096 == r && x % 256 == r % 256 && x / 256 % 16 == r / 256 % 16
  {
    assert q * 4096 + r == 256 * (16 * q) + r;
    Shift12(q, r);
    LowByte(16 * q, r);
    ShiftByte(16 * q, r);
    Nibble(q, r / 256);
  }

  /** The fields of a word with a high field of 16 bits. */
  lemma Fields16(q: int, r: int)
    requires 0 <= r < TWO16
    ensures var x := q * TWO16 + r;
      x / TWO16 == q && x % TWO16 == r && x % 256 == r % 256 && x / 256 % 16 == r / 256 % 16 && x / 4096 % 16 == r / 4096 % 16
  {
    assert q * TWO16 + r == 256 * (256 * q) + r == 4096 * (16 * q) + r;
    Shift16(q, r);
    LowByte(256 * q, r);
    ShiftByte(256 * q, r);
    Nibble(16 * q, r / 256);
    Shift12(16 * q, r);
    Nibble(q, r / 4096);
  }

  /** Patching in a high field keeps the other fields of w. */
  lemma HighField20(high: int, w: Word)
    requires 0 <= high < TWO20
    ensures var x := high * 4096 + w % 4096;
      x / 4096 == high && x % 4096 == w % 4096 && x % 256 == w % 256 && x / 256 % 16 == w / 256 % 16
  {
    Fields20(high, w % 4096);
    Fields20(w / 4096, w % 4096);
  }

  lemma HighField16(high: int, w: Word)
    requires 0 <= high < TWO16
    ensures var x := high * TWO16 + w % TWO16;
      && x / TWO16 == high && x % TWO16 == w % TWO16 && x % 256 == w % 256
      && x / 256 % 16 == w / 256 % 16 && x / 4096 % 16 == w / 4096 % 16
  {
    Fields16(high, w % TWO16);
    Fields16(w / TWO16, w % TWO16);
  }
}
