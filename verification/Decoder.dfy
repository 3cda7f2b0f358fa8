/** `berberis::Decoder<RV64Relocator>`: which consumer callbacks one call of `Decode` makes.

    The decoder drives its consumer by callbacks and most instructions make exactly one. The
    exceptions matter to the relocator: `c.addi` with a zero register or immediate makes two,
    and one corner of the vector configuration space makes none. */
module Decoder {
  import opened Words
  import opened Encoding
  import Isa

  /** The callbacks of the relocator; every one that only calls `Skip` is one constructor. */
  datatype Callback =
    | PositionIndependent
    | Auipc(dst: Isa.Reg, imm: int)
    | CompareAndBranch(opcode: int, src1: Isa.Reg, src2: Isa.Reg, offset: int)
    | JumpAndLink(dst: Isa.Reg, offset: int)
    | JumpAndLinkRegister(dst: Isa.Reg, base: Isa.Reg, offset: int)
    | Undefined

  function GetInsnSize(lo: u16): (n: int)
    ensures n == 2 || n == 4
  {
    if lo % 4 != 3 then 2 else 4
  }

  // ---- 16-bit encodings ----

  // The tables are laid out in rows of sixteen.

  const J_HIGH: seq<seq<int>> := [
    [0x0, 0x400, 0x100, 0x500, 0x200, 0x600, 0x300, 0x700, 0x10, 0x410, 0x110, 0x510, 0x210, 0x610, 0x310, 0x710],
    [0xf800, 0xfc00, 0xf900, 0xfd00, 0xfa00, 0xfe00, 0xfb00, 0xff00, 0xf810, 0xfc10, 0xf910, 0xfd10, 0xfa10, 0xfe10, 0xfb10, 0xff10]]

  const J_LOW: seq<seq<int>> := [
    [0x0, 0x20, 0x2, 0x22, 0x4, 0x24, 0x6, 0x26, 0x8, 0x28, 0xa, 0x2a, 0xc, 0x2c, 0xe, 0x2e],
    [0x80, 0xa0, 0x82, 0xa2, 0x84, 0xa4, 0x86, 0xa6, 0x88, 0xa8, 0x8a, 0xaa, 0x8c, 0xac, 0x8e, 0xae],
    [0x40, 0x60, 0x42, 0x62, 0x44, 0x64, 0x46, 0x66, 0x48, 0x68, 0x4a, 0x6a, 0x4c, 0x6c, 0x4e, 0x6e],
    [0xc0, 0xe0, 0xc2, 0xe2, 0xc4, 0xe4, 0xc6, 0xe6, 0xc8, 0xe8, 0xca, 0xea, 0xcc, 0xec, 0xce, 0xee]]

  const B_HIGH: seq<int> := [0x0, 0x8, 0x10, 0x18, 0x100, 0x108, 0x110, 0x118]

  const B_LOW: seq<seq<int>> := [
    [0x00, 0x20, 0x02, 0x22, 0x04, 0x24, 0x06, 0x26, 0x40, 0x60, 0x42, 0x62, 0x44, 0x64, 0x46, 0x66],
    [0x80, 0xa0, 0x82, 0xa2, 0x84, 0xa4, 0x86, 0xa6, 0xc0, 0xe0, 0xc2, 0xe2, 0xc4, 0xe4, 0xc6, 0xe6]]

  /** `bit_cast<int16_t>(kJHigh[...]) | kJLow[...]`: the two tables have no bit in common. */
  function DecodeCompressedJ(h: u16): int {
    var x, y := h / 0x100 % 0x20, h / 4 % 0x40;
    var high := J_HIGH[x / 0x10][x % 0x10];
    (if high >= 0x8000 then high - 0x1_0000 else high) + J_LOW[y / 0x10][y % 0x10]
  }

  /** `SignExtend<9>(kBHigh[...] + kBLow[...])`. */
  function DecodeCompressedB(h: u16): int {
    var x, y := h / 0x400 % 8, h / 4 % 0x20;
    (B_HIGH[x] + B_LOW[y / 0x10][y % 0x10] + 0x100) % 0x200 - 0x100
  }

  function Skip1(): seq<Callback> { [PositionIndependent] }

  /** The low and high bits of `c.addi`'s immediate and its register. */
  function DecodeCompressedAddi(h: u16): seq<Callback> {
    var r := h / 0x80 % 0x20;
    var zero := h / 4 % 0x20 == 0 && h / 0x1000 % 2 == 0;
    if r == 0 || zero then [PositionIndependent, PositionIndependent] else Skip1()
  }

  function DecodeCompressedMiscAlu(h: u16): seq<Callback> {
    var sub := h / 4 % 8;
    if h / 0x400 % 8 == 7 && h / 0x20 % 4 == 3 && sub <= 4 then Skip1()
    else if h / 0x400 % 4 != 3 then Skip1()
    else if h / 0x1000 % 2 == 0 then Skip1()
    else if h / 0x20 % 4 <= 1 then Skip1()
    else [Undefined]
  }

  function DecodeCompressedJrJalrMvAdd(h: u16): seq<Callback> {
    var r := h / 0x80 % 0x20;
    var rs2 := h / 4 % 0x20;
    if h / 0x1000 % 2 == 1 then
      if r == 0 && rs2 == 0 then Skip1()
      else if rs2 == 0 then [JumpAndLinkRegister(Isa.RA, r, 0)]
      else Skip1()
    else if rs2 == 0 then [JumpAndLinkRegister(Isa.X0, r, 0)]
    else Skip1()
  }

  function DecodeCompressedInstruction(h: u16): seq<Callback> {
    var quadrant := h % 4;
    var funct3 := h / 0x2000;
    if quadrant == 0 && funct3 == 0 then (if h / 0x20 % 0x100 == 0 then [Undefined] else Skip1())
    else if quadrant == 0 && funct3 == 4 then [Undefined]
    else if quadrant == 1 && funct3 == 0 then DecodeCompressedAddi(h)
    else if quadrant == 1 && funct3 == 4 then DecodeCompressedMiscAlu(h)
    else if quadrant == 1 && funct3 == 5 then [JumpAndLink(Isa.X0, DecodeCompressedJ(h))]
    else if quadrant == 1 && funct3 >= 6 then
      [CompareAndBranch(h / 0x2000 % 2, h / 0x80 % 8 + 8, Isa.X0, DecodeCompressedB(h))]
    else if quadrant == 2 && funct3 == 4 then DecodeCompressedJrJalrMvAdd(h)
    else Skip1()
  }

  // ---- 32-bit encodings ----

  function DecodeVectorMemory(w: u32): seq<Callback> {
    var width := Funct3(w);
    if (width == 0 || width >= 5) && w / 0x1000_0000 % 2 == 1 then [Undefined] else Skip1()
  }

  /** `zext.h` is the one opcode of `DecodeOp` whose second source must be zero. */
  function DecodeOp(w: u32): seq<Callback> {
    if Funct3(w) == 4 && Funct7(w) == 4 && Rs2(w) != 0 then [Undefined] else Skip1()
  }

  /** `lr` must not name a second source. */
  function DecodeAmo(w: u32): seq<Callback> {
    if Funct7(w) / 4 == 2 && Rs2(w) != 0 then [Undefined] else Skip1()
  }

  function DecodeOpFp(w: u32): seq<Callback> {
    var operandType := w / 0x200_0000 % 4;
    var opcodeBits := w / 0x800_0000 % 4;
    var rm := Funct3(w);
    match w / 0x2000_0000
    case 0 => Skip1()
    case 1 => Skip1()
    case 2 => if opcodeBits == 0 && (operandType == Rs2(w) || Rs2(w) > 3) then [Undefined] else Skip1()
    case 5 => Skip1()
    case 6 => if opcodeBits % 2 == 0 then Skip1() else [Undefined]
    case 7 => if rm == 1 || (rm == 0 && opcodeBits % 2 == 0) then Skip1() else [Undefined]
    case _ => [Undefined]
  }

  /** The last arm of the vector configuration switch has no `default`: no callback at all. */
  function DecodeOpV(w: u32): seq<Callback> {
    if Funct3(w) != 7 || w / 0x8000_0000 == 0 || w / 0x4000_0000 % 2 == 1 || w / 0x200_0000 % 0x40 == 0
    then Skip1()
    else []
  }

  function DecodeBaseInstruction(w: u32): seq<Callback> {
    match Opcode(w) / 4
    case 0 => Skip1()                                                      // kLoad
    case 1 => DecodeVectorMemory(w)                                        // kLoadFp
    case 3 => if Funct3(w) <= 1 then Skip1() else [Undefined]              // kMiscMem
    case 4 => Skip1()                                                      // kOpImm
    case 5 => [Auipc(Rd(w), DecodeUpperImm(w))]
    case 6 => Skip1()                                                      // kOpImm32
    case 8 => Skip1()                                                      // kStore
    case 9 => DecodeVectorMemory(w)                                        // kStoreFp
    case 11 => DecodeAmo(w)
    case 12 => DecodeOp(w)
    case 13 => Skip1()                                                     // kLui
    case 14 => DecodeOp(w)                                                 // kOp32
    case 16 => Skip1()                                                     // kMAdd
    case 17 => Skip1()                                                     // kMSub
    case 18 => Skip1()                                                     // kNmSub
    case 19 => Skip1()                                                     // kNmAdd
    case 20 => DecodeOpFp(w)
    case 21 => DecodeOpV(w)
    case 24 => [CompareAndBranch(Funct3(w), Rs1(w), Rs2(w), DecodeBranchOffset(w))]
    case 25 => if Funct3(w) != 0 then [Undefined] else [JumpAndLinkRegister(Rd(w), Rs1(w), DecodeJalrOffset(w))]
    case 27 => [JumpAndLink(Rd(w), DecodeJumpOffset(w))]
    case 28 => Skip1()                                                     // kSystem
    case _ => [Undefined]
  }

  function Decode(lo: u16, hi: u16): seq<Callback> {
    if GetInsnSize(lo) == 2 then DecodeCompressedInstruction(lo) else DecodeBaseInstruction(Isa.Word(lo, hi))
  }

  // ---- The decoder against the manual ----

  lemma HighTableFirst(j: int)
    requires 0 <= j < 0x10
    ensures J_HIGH[0][j] == 0x10 * (j / 8) + 0x100 * (j / 2 % 4) + 0x400 * (j % 2)
  {
  }

  lemma HighTableSecond(j: int)
    requires 0 <= j < 0x10
    ensures J_HIGH[1][j] - 0x1_0000 == -0x800 + 0x10 * (j / 8) + 0x100 * (j / 2 % 4) + 0x400 * (j % 2)
  {
  }

  lemma HighTable(row: int, j: int)
    requires 0 <= row < 2 && 0 <= j < 0x10
    ensures (if J_HIGH[row][j] >= 0x8000 then J_HIGH[row][j] - 0x1_0000 else J_HIGH[row][j])
            == -0x800 * row + 0x10 * (j / 8) + 0x100 * (j / 2 % 4) + 0x400 * (j % 2)
  {
    hide J_HIGH;
    HighTableFirst(j);
    HighTableSecond(j);
  }

  lemma LowTableFirst(j: int)
    requires 0 <= j < 0x10
    ensures J_LOW[0][j] == 2 * (j / 2) + 0x20 * (j % 2)
    ensures J_LOW[1][j] == 0x80 + 2 * (j / 2) + 0x20 * (j % 2)
  {
  }

  lemma LowTableSecond(j: int)
    requires 0 <= j < 0x10
    ensures J_LOW[2][j] == 0x40 + 2 * (j / 2) + 0x20 * (j % 2)
    ensures J_LOW[3][j] == 0xc0 + 2 * (j / 2) + 0x20 * (j % 2)
  {
  }

  lemma LowTable(row: int, j: int)
    requires 0 <= row < 4 && 0 <= j < 0x10
    ensures J_LOW[row][j] == 0x40 * (row / 2) + 0x80 * (row % 2) + 2 * (j / 2) + 0x20 * (j % 2)
  {
    hide J_LOW;
    LowTableFirst(j);
    LowTableSecond(j);
  }

  lemma HighBranchTable(x: int)
    requires 0 <= x < 8
    ensures B_HIGH[x] == 0x100 * (x / 4) + 8 * (x % 4)
  {
  }

  lemma LowBranchTable(row: int, j: int)
    requires 0 <= row < 2 && 0 <= j < 0x10
    ensures B_LOW[row][j] == 0x80 * row + 0x40 * (j / 8) + 2 * (j / 2 % 4) + 0x20 * (j % 2)
  {
  }

  /** The digits of a number through its quotient and remainder by 32. */
  lemma Low32(g: nat, q: nat, r: nat)
    requires g == 0x20 * q + r && r < 0x20
    ensures g / 0x10 % 2 == r / 0x10
    ensures g / 8 % 2 == r % 0x10 / 8
    ensures g / 2 % 4 == r % 0x10 / 2 % 4
    ensures g % 2 == r % 0x10 % 2
  {
    var a, b, c, d := r / 0x10, r % 0x10 / 8, r % 0x10 % 8 / 2, r % 0x10 % 8 % 2;
    Div(g, 0x10, 2 * q + a, 8 * b + 2 * c + d);
    Div(2 * q + a, 2, q, a);
    Div(g, 8, 4 * q + 2 * a + b, 2 * c + d);
    Div(4 * q + 2 * a + b, 2, 2 * q + a, b);
    Div(g, 2, 0x10 * q + 8 * a + 4 * b + c, d);
    Div(0x10 * q + 8 * a + 4 * b + c, 4, 4 * q + 2 * a + b, c);
    Div(r % 0x10, 2, 4 * b + c, d);
    Div(4 * b + c, 4, b, c);
  }

  /** The digits of a number through its quotient and remainder by 64. */
  lemma Low64(g: nat, q: nat, r: nat)
    requires g == 0x40 * q + r && r < 0x40
    ensures g / 0x20 % 2 == r / 0x20
    ensures g / 0x10 % 2 == r / 0x10 % 2
    ensures g / 2 % 8 == r % 0x10 / 2
    ensures g % 2 == r % 0x10 % 2
  {
    var a, b, c, d := r / 0x20, r % 0x20 / 0x10, r % 0x10 / 2, r % 0x10 % 2;
    Div(r, 0x10, 2 * a + b, r % 0x20 % 0x10);
    Div(2 * a + b, 2, a, b);
    Div(g, 0x20, 2 * q + a, 0x10 * b + 2 * c + d);
    Div(2 * q + a, 2, q, a);
    Div(g, 0x10, 4 * q + 2 * a + b, 2 * c + d);
    Div(4 * q + 2 * a + b, 2, 2 * q + a, b);
    Div(g, 2, 0x20 * q + 0x10 * a + 8 * b + c, d);
    Div(0x20 * q + 0x10 * a + 8 * b + c, 8, 4 * q + 2 * a + b, c);
  }

  lemma JumpHighBits(h: u16)
    ensures var x := h / 0x100 % 0x20;
            && x / 0x10 == h / 0x1000 % 2 && x % 0x10 / 8 == h / 0x800 % 2 && x % 0x10 / 2 % 4 == h / 0x200 % 4
            && x % 0x10 % 2 == h / 0x100 % 2
  {
    var g := h / 0x100;
    Low32(g, g / 0x20, g % 0x20);
    assert h / 0x1000 == g / 0x10 && h / 0x800 == g / 8 && h / 0x200 == g / 2;
  }

  lemma JumpLowBits(h: u16)
    ensures var y := h / 4 % 0x40;
            && y / 0x20 == h / 0x80 % 2 && y / 0x10 % 2 == h / 0x40 % 2 && y % 0x10 / 2 == h / 8 % 8
            && y % 0x10 % 2 == h / 4 % 2
  {
    var g := h / 4;
    Low64(g, g / 0x40, g % 0x40);
    assert h / 0x80 == g / 0x20 && h / 0x40 == g / 0x10 && h / 8 == g / 2;
  }

  /** The tables of `DecodeCompressedJ` are the CJ scramble of the manual. */
  lemma CompressedJumpTables(h: u16)
    ensures DecodeCompressedJ(h) == Isa.ImmCJ(h)
  {
    var x, y := h / 0x100 % 0x20, h / 4 % 0x40;
    HighTable(x / 0x10, x % 0x10);
    LowTable(y / 0x10, y % 0x10);
    JumpHighBits(h);
    JumpLowBits(h);
    assert y / 0x10 / 2 == y / 0x20;
  }

  lemma BranchHighBits(h: u16)
    ensures var x := h / 0x400 % 8; x / 4 == h / 0x1000 % 2 && x % 4 == h / 0x400 % 4
  {
    assert h / 0x1000 == h / 0x400 / 4;
  }

  lemma BranchLowBits(h: u16)
    ensures var y := h / 4 % 0x20;
            && y / 0x10 == h / 0x40 % 2 && y % 0x10 / 8 == h / 0x20 % 2 && y % 0x10 / 2 % 4 == h / 8 % 4
            && y % 0x10 % 2 == h / 4 % 2
  {
    var g := h / 4;
    Low32(g, g / 0x20, g % 0x20);
    assert h / 0x40 == g / 0x10 && h / 0x20 == g / 8 && h / 8 == g / 2;
  }

  lemma TwoBits(g: nat)
    ensures g % 4 == 2 * (g / 2 % 2) + g % 2
  {
  }

  lemma Sext9(s: int, r: int)
    requires 0 <= s < 2 && 0 <= r < 0x100
    ensures (0x100 * s + r + 0x100) % 0x200 - 0x100 == -0x100 * s + r
  {
  }

  /** The tables of `DecodeCompressedBeqzBnez` are the CB scramble of the manual. */
  lemma CompressedBranchTables(h: u16)
    ensures DecodeCompressedB(h) == Isa.ImmCB(h)
  {
    var x, y := h / 0x400 % 8, h / 4 % 0x20;
    HighBranchTable(x);
    LowBranchTable(y / 0x10, y % 0x10);
    BranchHighBits(h);
    BranchLowBits(h);
    TwoBits(h / 0x20);
    assert h / 0x40 == h / 0x20 / 2;
    Sext9(x / 4, 8 * (x % 4) + B_LOW[y / 0x10][y % 0x10]);
  }

  /** What the callbacks of one call say about the instruction. */
  ghost predicate Describes(cs: seq<Callback>, insn: Isa.Insn) {
    match insn
    case Auipc(rd, imm) => cs == [Auipc(rd, imm)]
    case Jal(rd, offset, _) => cs == [JumpAndLink(rd, offset)]
    case Jalr(rd, rs1, offset, _) => cs == [JumpAndLinkRegister(rd, rs1, offset)]
    case Branch(f3, rs1, rs2, offset, _) => cs == [CompareAndBranch(f3, rs1, rs2, offset)]
    case Other(_, _, _) =>
      forall c :: c in cs ==> c.PositionIndependent? || c.Undefined? || (c.JumpAndLinkRegister? && c.base == 0)
                              || (c.CompareAndBranch? && !Isa.IsBranchFunct3(c.opcode))
    case _ => cs == [PositionIndependent]
  }

  /** The decoder reports every control transfer and every `auipc` with the operands of the
      manual, and reports nothing else as one; the exceptions are the two reserved encodings
      `c.jr x0` and the branches with `funct3` 2 and 3. */
  lemma DecoderDescribes(lo: u16, hi: u16)
    ensures GetInsnSize(lo) == Isa.Length(lo)
    ensures Describes(Decode(lo, hi), Isa.Decode(lo, hi))
  {
    if lo % 4 == 3 {
      BaseDescribes(Isa.Word(lo, hi));
    } else {
      CompressedDescribes(lo);
    }
  }

  lemma BaseDescribes(w: u32)
    requires w % 4 == 3
    ensures Describes(DecodeBaseInstruction(w), Isa.DecodeWord(w))
  {
    assert Opcode(w) % 4 == 3;
    if Isa.DecodeWord(w).Other? {
      BaseOther(w);
    } else {
      BaseTransfer(w);
    }
  }

  lemma BaseTransfer(w: u32)
    requires Opcode(w) % 4 == 3 && !Isa.DecodeWord(w).Other?
    ensures Describes(DecodeBaseInstruction(w), Isa.DecodeWord(w))
  {
    hide DecodeOpFp, DecodeOpV, DecodeAmo, DecodeOp, DecodeVectorMemory;
    hide ImmB, ImmI, ImmJ, ImmU, DecodeBranchOffset, DecodeJalrOffset, DecodeJumpOffset, DecodeUpperImm;
    DecoderExtractsB(w);
    DecoderExtractsI(w);
    DecoderExtractsJ(w);
    DecoderExtractsU(w);
  }

  lemma BaseOther(w: u32)
    requires Opcode(w) % 4 == 3 && Isa.DecodeWord(w).Other?
    ensures Describes(DecodeBaseInstruction(w), Isa.DecodeWord(w))
  {
    var op := Opcode(w) / 4;
    assert Opcode(w) == 4 * op + 3;
    assert op != 5 && op != 27;
  }

  lemma CompressedDescribes(h: u16)
    requires h % 4 != 3
    ensures Describes(DecodeCompressedInstruction(h), Isa.DecodeCompressed(h))
  {
    CompressedJumpTables(h);
    CompressedBranchTables(h);
    assert h / 0x2000 == h / 0x1000 / 2;
  }
}
