/** Immediates of the assembler: acceptance, placement in the instruction word, and the
    inverse extractions of the decoder, of the conversion operators and of the RISC-V manual. */
module Encoding {
  import opened Words

  // ---- Instruction fields (RISC-V Unprivileged ISA 20191213, section 2.2) ----

  function Opcode(w: u32): int { w % 0x80 }
  function Rd(w: u32): int { w / 0x80 % 0x20 }
  function Funct3(w: u32): int { w / 0x1000 % 8 }
  function Rs1(w: u32): int { w / 0x8000 % 0x20 }
  function Rs2(w: u32): int { w / 0x10_0000 % 0x20 }
  function Funct7(w: u32): int { w / 0x200_0000 % 0x80 }

  /** The word with the given six fields; `EmitInstruction` asserts statically that the
      operand places do not overlap, so its bitwise or is this sum. */
  function Layout(op: int, rd: int, f3: int, rs1: int, rs2: int, f7: int): (w: u32)
    requires 0 <= op < 0x80 && 0 <= rd < 0x20 && 0 <= f3 < 8
    requires 0 <= rs1 < 0x20 && 0 <= rs2 < 0x20 && 0 <= f7 < 0x80
  {
    op + 0x80 * rd + 0x1000 * f3 + 0x8000 * rs1 + 0x10_0000 * rs2 + 0x200_0000 * f7
  }

  lemma LayoutFields(op: int, rd: int, f3: int, rs1: int, rs2: int, f7: int)
    requires 0 <= op < 0x80 && 0 <= rd < 0x20 && 0 <= f3 < 8
    requires 0 <= rs1 < 0x20 && 0 <= rs2 < 0x20 && 0 <= f7 < 0x80
    ensures var w := Layout(op, rd, f3, rs1, rs2, f7);
            && Opcode(w) == op && Rd(w) == rd && Funct3(w) == f3
            && Rs1(w) == rs1 && Rs2(w) == rs2 && Funct7(w) == f7
  {
    var w := Layout(op, rd, f3, rs1, rs2, f7);
    var w12 := f3 + 8 * rs1 + 0x100 * rs2 + 0x2000 * f7;
    Div(w, 0x80, rd + 0x20 * w12, op);
    Div(rd + 0x20 * w12, 0x20, w12, rd);
    Div(w, 0x1000, w12, op + 0x80 * rd);
    Div(w12, 8, rs1 + 0x20 * rs2 + 0x400 * f7, f3);
    Div(w, 0x8000, rs1 + 0x20 * rs2 + 0x400 * f7, op + 0x80 * rd + 0x1000 * f3);
    Div(rs1 + 0x20 * rs2 + 0x400 * f7, 0x20, rs2 + 0x20 * f7, rs1);
    Div(w, 0x10_0000, rs2 + 0x20 * f7, op + 0x80 * rd + 0x1000 * f3 + 0x8000 * rs1);
    Div(rs2 + 0x20 * f7, 0x20, f7, rs2);
    Div(w, 0x200_0000, f7, op + 0x80 * rd + 0x1000 * f3 + 0x8000 * rs1 + 0x10_0000 * rs2);
    Div(f7, 0x80, 0, f7);
  }

  // ---- Immediates as the manual draws them over those fields (section 2.3) ----

  /** The 20-bit immediate place of the U and J formats. */
  function Imm20(w: u32): int { w / 0x1000 }

  /** Two's complement reading of a 12-bit field. */
  function Sext12(x: int): int { if x >= 0x800 then x - 0x1000 else x }

  function ImmI(w: u32): int { Sext12(Rs2(w) + 0x20 * Funct7(w)) }
  function ImmS(w: u32): int { Sext12(Rd(w) + 0x20 * Funct7(w)) }
  function ImmB(w: u32): int {
    -0x1000 * (Funct7(w) / 0x40) + 0x800 * (Rd(w) % 2) + 0x20 * (Funct7(w) % 0x40) + 2 * (Rd(w) / 2)
  }
  function ImmU(w: u32): int { if Imm20(w) >= 0x8_0000 then (Imm20(w) - 0x10_0000) * 0x1000 else Imm20(w) * 0x1000 }
  function ImmJ(w: u32): int { JumpImmediate(Imm20(w)) }
  function JumpImmediate(u: int): int {
    -0x10_0000 * (u / 0x8_0000) + 0x1000 * (u % 0x100) + 0x800 * (u / 0x100 % 2) + 2 * (u / 0x200 % 0x400)
  }

  // ---- Acceptance of an integer of any C++ integer type ----

  datatype IntType = Int8 | UInt8 | Int16 | UInt16 | Int32Type | UInt32Type | Int64Type | UInt64Type
  {
    predicate Signed() { Int8? || Int16? || Int32Type? || Int64Type? }

    function Modulus(): int {
      match this
      case Int8 | UInt8 => 0x100
      case Int16 | UInt16 => 0x1_0000
      case Int32Type | UInt32Type => 0x1_0000_0000
      case Int64Type | UInt64Type => 0x1_0000_0000_0000_0000
    }

    predicate Holds(v: int) {
      if Signed() then -(Modulus() / 2) <= v < Modulus() / 2 else 0 <= v < Modulus()
    }
  }

  /** `BImmediate::AccetableValue`: mask 0xffff'ffff'ffff'f001 cut to the type. */
  predicate AcceptableB(t: IntType, v: int)
    requires t.Holds(v)
  {
    var u := v % t.Modulus();
    u % 2 == 0 && (u / 0x1000 == 0 || (t.Signed() && u / 0x1000 == (t.Modulus() - 1) / 0x1000))
  }

  /** `Immediate::AccetableValue`, shared by the I and the S immediates: mask 0x...f800. */
  predicate AcceptableI(t: IntType, v: int)
    requires t.Holds(v)
  {
    var u := v % t.Modulus();
    u / 0x800 == 0 || (t.Signed() && u / 0x800 == (t.Modulus() - 1) / 0x800)
  }

  /** `JImmediate::AccetableValue`: mask 0xffff'ffff'fff0'0001 cut to the type. */
  predicate AcceptableJ(t: IntType, v: int)
    requires t.Holds(v)
  {
    var u := v % t.Modulus();
    u % 2 == 0 && (u / 0x10_0000 == 0 || (t.Signed() && u / 0x10_0000 == (t.Modulus() - 1) / 0x10_0000))
  }

  /** `UImmediate::AccetableValue`: mask 0xffff'ffff'8000'0fff cut to the type. */
  predicate AcceptableU(t: IntType, v: int)
    requires t.Holds(v)
  {
    var u := v % t.Modulus();
    u % 0x1000 == 0 && (u / 0x8000_0000 == 0 || (t.Signed() && u / 0x8000_0000 == (t.Modulus() - 1) / 0x8000_0000))
  }

  /** Whatever the argument type, an immediate is accepted exactly when its format can
      represent the value. */
  lemma AcceptedExactlyWhenRepresentable(t: IntType, v: int)
    requires t.Holds(v)
    ensures AcceptableB(t, v) <==> v % 2 == 0 && -0x1000 <= v < 0x1000
    ensures AcceptableI(t, v) <==> -0x800 <= v < 0x800
    ensures AcceptableJ(t, v) <==> v % 2 == 0 && -0x10_0000 <= v < 0x10_0000
    ensures AcceptableU(t, v) <==> v % 0x1000 == 0 && -0x8000_0000 <= v < 0x8000_0000
  {
    AcceptableBRange(t, v);
    AcceptableIRange(t, v);
    AcceptableJRange(t, v);
    AcceptableURange(t, v);
  }

  lemma Residue(t: IntType, v: int)
    requires t.Holds(v)
    ensures v % t.Modulus() == if v < 0 then v + t.Modulus() else v
  {
    var m := t.Modulus();
    if v < 0 {
      Div(v, m, -1, v + m);
    } else {
      Div(v, m, 0, v);
    }
  }

  lemma AcceptableBRange(t: IntType, v: int)
    requires t.Holds(v)
    ensures AcceptableB(t, v) <==> v % 2 == 0 && -0x1000 <= v < 0x1000
  {
    Residue(t, v);
  }

  lemma AcceptableIRange(t: IntType, v: int)
    requires t.Holds(v)
    ensures AcceptableI(t, v) <==> -0x800 <= v < 0x800
  {
    Residue(t, v);
  }

  lemma AcceptableJRange(t: IntType, v: int)
    requires t.Holds(v)
    ensures AcceptableJ(t, v) <==> v % 2 == 0 && -0x10_0000 <= v < 0x10_0000
  {
    Residue(t, v);
  }

  lemma AcceptableURange(t: IntType, v: int)
    requires t.Holds(v)
    ensures AcceptableU(t, v) <==> v % 0x1000 == 0 && -0x8000_0000 <= v < 0x8000_0000
  {
    Residue(t, v);
  }

  // ---- Placement: `MakeRaw` ----

  function MakeRawB(v: int): u32 {
    v / 0x8000_0000 % 2 * 0x8000_0000 + v / 0x800 % 2 * 0x80 + v / 2 % 0x10 * 0x100 + v / 0x20 % 0x40 * 0x200_0000
  }

  function MakeRawI(v: int): u32 { v % 0x1000 * 0x10_0000 }

  function MakeRawS(v: int): u32 { v / 0x20 % 0x80 * 0x200_0000 + v % 0x20 * 0x80 }

  function MakeRawJ(v: int): u32 {
    v / 0x8000_0000 % 2 * 0x8000_0000 + v / 0x1000 % 0x100 * 0x1000 + v / 0x800 % 2 * 0x10_0000
    + v / 2 % 0x400 * 0x20_0000
  }

  function MakeRawU(v: int): u32 { Wrap32(v) }

  // ---- Extraction by the decoder, at the bit positions of `GetBits<start, size>` ----

  function DecodeBranchOffset(w: u32): int {
    var offset := w / 0x100 % 0x10 + 0x10 * (w / 0x200_0000 % 0x40) + 0x400 * (w / 0x80 % 2) + 0x800 * (w / 0x8000_0000 % 2);
    (offset * 2 + 0x1000) % 0x2000 - 0x1000
  }

  function DecodeJumpOffset(w: u32): int {
    var offset := w / 0x20_0000 % 0x400 + 0x400 * (w / 0x10_0000 % 2) + 0x800 * (w / 0x1000 % 0x100)
                  + 0x8_0000 * (w / 0x8000_0000 % 2);
    (offset * 2 + 0x10_0000) % 0x20_0000 - 0x10_0000
  }

  /** `imm << 12` into an `int32_t`. */
  function DecodeUpperImm(w: u32): int {
    Int32(w / 0x1000 % 0x10_0000 * 0x1000)
  }

  /** `static_cast<int16_t>(offset << 4) >> 4`. */
  function DecodeJalrOffset(w: u32): int {
    ((w / 0x10_0000 % 0x1000 * 0x10 + 0x8000) % 0x1_0000 - 0x8000) / 0x10
  }

  // ---- Extraction by the conversion operators, on the signed reading of the stored word ----

  function BImmediateValue(raw: int): int
    requires -0x8000_0000 <= raw < 0x8000_0000
  {
    var sign := if raw < 0 then -1 else 0;
    2 * (raw / 0x100 % 0x10) + (sign * 0x1000 + 0x20 * (raw / 0x200_0000 % 0x40)) + 0x800 * (raw / 0x80 % 2)
  }

  function JImmediateValue(raw: int): int
    requires -0x8000_0000 <= raw < 0x8000_0000
  {
    var sign := if raw < 0 then -1 else 0;
    (sign * 0x10_0000 + 2 * (raw / 0x20_0000 % 0x400)) + 0x800 * (raw / 0x10_0000 % 2) + 0x1000 * (raw / 0x1000 % 0x100)
  }

  // ---- The extractions agree on every word ----

  lemma BranchBits(w: u32)
    ensures w / 0x100 % 0x10 == Rd(w) / 2 && w / 0x80 % 2 == Rd(w) % 2
    ensures w / 0x200_0000 % 0x40 == Funct7(w) % 0x40 && w / 0x8000_0000 % 2 == w / 0x8000_0000 == Funct7(w) / 0x40
  {
    var a, c := w / 0x80, w / 0x200_0000;
    var q, lo, b := a / 0x20, a % 0x20 / 2, a % 0x20 % 2;
    Div(w, 0x100, 0x10 * q + lo, 0x80 * b + w % 0x80);
    Div(0x10 * q + lo, 0x10, q, lo);
    Div(a, 2, 0x10 * q + lo, b);
    Div(c, 0x80, 0, c);
    Div(w, 0x8000_0000, c / 0x40, c % 0x40 * 0x200_0000 + w % 0x200_0000);
    Div(c / 0x40, 2, 0, c / 0x40);
  }

  lemma Sext13(s: int, r: int)
    requires 0 <= s < 2 && 0 <= r < 0x800
    ensures ((r + 0x800 * s) * 2 + 0x1000) % 0x2000 - 0x1000 == -0x1000 * s + 2 * r
  {
    Div((r + 0x800 * s) * 2 + 0x1000, 0x2000, s, 2 * r + 0x1000 - 0x1000 * s);
  }

  lemma Sext21(s: int, r: int)
    requires 0 <= s < 2 && 0 <= r < 0x8_0000
    ensures ((r + 0x8_0000 * s) * 2 + 0x10_0000) % 0x20_0000 - 0x10_0000 == -0x10_0000 * s + 2 * r
  {
    Div((r + 0x8_0000 * s) * 2 + 0x10_0000, 0x20_0000, s, 2 * r + 0x10_0000 - 0x10_0000 * s);
  }

  /** `DecodeBranch` extracts the B-immediate of the manual. */
  lemma DecoderExtractsB(w: u32)
    ensures DecodeBranchOffset(w) == ImmB(w)
  {
    BranchBits(w);
    Sext13(Funct7(w) / 0x40, Rd(w) / 2 + 0x10 * (Funct7(w) % 0x40) + 0x400 * (Rd(w) % 2));
  }

  lemma JumpBits(w: u32)
    ensures w / 0x20_0000 % 0x400 == Imm20(w) / 0x200 % 0x400 && w / 0x10_0000 % 2 == Imm20(w) / 0x100 % 2
    ensures w / 0x8000_0000 % 2 == Imm20(w) / 0x8_0000
  {
    var u, low := w / 0x1000, w % 0x1000;
    Div(w, 0x20_0000, u / 0x200, u % 0x200 * 0x1000 + low);
    Div(w, 0x10_0000, u / 0x100, u % 0x100 * 0x1000 + low);
    Div(w, 0x8000_0000, u / 0x8_0000, u % 0x8_0000 * 0x1000 + low);
    Div(u / 0x8_0000, 2, 0, u / 0x8_0000);
  }

  /** `DecodeJumpAndLink` extracts the J-immediate of the manual. */
  lemma DecoderExtractsJ(w: u32)
    ensures DecodeJumpOffset(w) == ImmJ(w)
  {
    JumpBits(w);
    var u := Imm20(w);
    Sext21(u / 0x8_0000, u / 0x200 % 0x400 + 0x400 * (u / 0x100 % 2) + 0x800 * (u % 0x100));
  }

  /** `DecodeAuipc` and `DecodeLui` extract the U-immediate of the manual. */
  lemma DecoderExtractsU(w: u32)
    ensures DecodeUpperImm(w) == ImmU(w)
  {
    var u := Imm20(w);
    Div(u, 0x10_0000, 0, u);
    Int32OfUpper(u);
  }

  lemma Int32OfUpper(u: int)
    requires 0 <= u < 0x10_0000
    ensures Int32(u * 0x1000) == if u >= 0x8_0000 then (u - 0x10_0000) * 0x1000 else u * 0x1000
  {
    if u >= 0x8_0000 {
      Div(u * 0x1000 + 0x8000_0000, 0x1_0000_0000, 1, u * 0x1000 - 0x8000_0000);
    } else {
      Div(u * 0x1000 + 0x8000_0000, 0x1_0000_0000, 0, u * 0x1000 + 0x8000_0000);
    }
  }

  /** `DecodeJumpAndLinkRegister` extracts the I-immediate of the manual. */
  lemma DecoderExtractsI(w: u32)
    ensures DecodeJalrOffset(w) == ImmI(w)
  {
    TopTwelve(w);
    Sext12OfShift(w / 0x10_0000);
  }

  lemma TopTwelve(w: u32)
    ensures w / 0x10_0000 == Rs2(w) + 0x20 * Funct7(w) && w / 0x10_0000 < 0x1000
  {
    var x, low := w / 0x10_0000, w % 0x10_0000;
    Div(w, 0x200_0000, x / 0x20, x % 0x20 * 0x10_0000 + low);
    Div(x / 0x20, 0x80, 0, x / 0x20);
  }

  lemma Sext12OfShift(x: int)
    requires 0 <= x < 0x1000
    ensures ((x % 0x1000 * 0x10 + 0x8000) % 0x1_0000 - 0x8000) / 0x10 == Sext12(x)
  {
    Div(x, 0x1000, 0, x);
    if x >= 0x800 {
      Div(x * 0x10 + 0x8000, 0x1_0000, 1, (x - 0x800) * 0x10);
      Div((x - 0x1000) * 0x10, 0x10, x - 0x1000, 0);
    } else {
      Div(x * 0x10 + 0x8000, 0x1_0000, 0, x * 0x10 + 0x8000);
      Div(x * 0x10, 0x10, x, 0);
    }
  }

  // ---- Placement and extraction are inverse ----

  /** The sign bit of a small value, as a bit of its 32-bit pattern. */
  lemma SignBit(v: int)
    requires -0x8000_0000 <= v < 0x8000_0000
    ensures v / 0x8000_0000 % 2 == if v < 0 then 1 else 0
  {
    if v < 0 {
      Div(v, 0x8000_0000, -1, v + 0x8000_0000);
    } else {
      Div(v, 0x8000_0000, 0, v);
    }
  }

  lemma BranchDigits(v: int)
    requires v % 2 == 0 && -0x1000 <= v < 0x1000
    ensures v == -0x1000 * (v / 0x8000_0000 % 2) + 0x800 * (v / 0x800 % 2) + 0x20 * (v / 0x20 % 0x40) + 2 * (v / 2 % 0x10)
  {
    SignBit(v);
    var s := if v < 0 then 1 else 0;
    var t := v + 0x1000 * s;
    var b, hi, lo := t / 0x800, t % 0x800 / 0x20, t % 0x800 % 0x20 / 2;
    EvenRemainder(t, v, s);
    Div(v, 0x800, b - 2 * s, 0x20 * hi + 2 * lo);
    Div(b - 2 * s, 2, -s, b);
    Div(v, 0x20, 0x40 * (b - 2 * s) + hi, 2 * lo);
    Div(0x40 * (b - 2 * s) + hi, 0x40, b - 2 * s, hi);
    Div(v, 2, 0x10 * (0x40 * (b - 2 * s) + hi) + lo, 0);
    Div(0x10 * (0x40 * (b - 2 * s) + hi) + lo, 0x10, 0x40 * (b - 2 * s) + hi, lo);
  }

  lemma EvenRemainder(t: int, v: int, s: int)
    requires v % 2 == 0 && t == v + 0x1000 * s && 0 <= t < 0x1000
    ensures t % 0x800 % 0x20 == 2 * (t % 0x800 % 0x20 / 2)
  {
    var e := t % 0x800 % 0x20;
    Div(v, 2, 0x400 * (t / 0x800) + 0x10 * (t % 0x800 / 0x20) + e / 2 - 0x800 * s, e % 2);
  }

  /** The word `*AddrAs<int32_t>(pc)` holds after a branch offset was added into its empty
      immediate places: every operand is still there and the offset reads back. */
  lemma BranchRoundTrip(v: int, op: int, f3: int, rs1: int, rs2: int)
    requires v % 2 == 0 && -0x1000 <= v < 0x1000
    requires 0 <= op < 0x80 && 0 <= f3 < 8 && 0 <= rs1 < 0x20 && 0 <= rs2 < 0x20
    ensures var w := Layout(op, 0, f3, rs1, rs2, 0) + MakeRawB(v);
            && w < 0x1_0000_0000 && ImmB(w) == v
            && Opcode(w) == op && Funct3(w) == f3 && Rs1(w) == rs1 && Rs2(w) == rs2
  {
    BranchDigits(v);
    BranchPlaces(v / 0x8000_0000 % 2, v / 0x800 % 2, v / 0x20 % 0x40, v / 2 % 0x10, op, f3, rs1, rs2);
  }

  lemma BranchPlaces(s: int, b: int, hi: int, lo: int, op: int, f3: int, rs1: int, rs2: int)
    requires 0 <= s < 2 && 0 <= b < 2 && 0 <= hi < 0x40 && 0 <= lo < 0x10
    requires 0 <= op < 0x80 && 0 <= f3 < 8 && 0 <= rs1 < 0x20 && 0 <= rs2 < 0x20
    ensures var w := Layout(op, 0, f3, rs1, rs2, 0) + (s * 0x8000_0000 + b * 0x80 + lo * 0x100 + hi * 0x200_0000);
            && w < 0x1_0000_0000 && ImmB(w) == -0x1000 * s + 0x800 * b + 0x20 * hi + 2 * lo
            && Opcode(w) == op && Funct3(w) == f3 && Rs1(w) == rs1 && Rs2(w) == rs2
            && Rd(w) == b + 2 * lo && Funct7(w) == hi + 0x40 * s
  {
    LayoutFields(op, b + 2 * lo, f3, rs1, rs2, hi + 0x40 * s);
    Div(hi + 0x40 * s, 0x40, s, hi);
    Div(b + 2 * lo, 2, lo, b);
  }

  lemma JumpDigits(v: int)
    requires v % 2 == 0 && -0x10_0000 <= v < 0x10_0000
    ensures v == -0x10_0000 * (v / 0x8000_0000 % 2) + 2 * (v / 2 % 0x400) + 0x800 * (v / 0x800 % 2)
                 + 0x1000 * (v / 0x1000 % 0x100)
  {
    SignBit(v);
    var s := if v < 0 then 1 else 0;
    var t := v + 0x10_0000 * s;
    var c, b, a := t / 0x1000, t % 0x1000 / 0x800, t % 0x1000 % 0x800 / 2;
    var e := t % 0x1000 % 0x800 % 2;
    Div(v, 2, 0x800 * c + 0x400 * b + a - 0x8_0000 * s, e);
    Div(0x800 * c + 0x400 * b + a - 0x8_0000 * s, 0x400, 2 * c + b - 0x200 * s, a);
    Div(v, 0x800, 2 * c + b - 0x200 * s, 2 * a);
    Div(2 * c + b - 0x200 * s, 2, c - 0x100 * s, b);
    Div(v, 0x1000, c - 0x100 * s, 0x800 * b + 2 * a);
    Div(c - 0x100 * s, 0x100, -s, c);
  }

  lemma JumpPlaces(s: int, a: int, b: int, c: int)
    requires 0 <= s < 2 && 0 <= a < 0x400 && 0 <= b < 2 && 0 <= c < 0x100
    ensures JumpImmediate(s * 0x8_0000 + a * 0x200 + b * 0x100 + c) == -0x10_0000 * s + 2 * a + 0x800 * b + 0x1000 * c
  {
    var u := s * 0x8_0000 + a * 0x200 + b * 0x100 + c;
    Div(u, 0x8_0000, s, a * 0x200 + b * 0x100 + c);
    Div(u, 0x200, s * 0x400 + a, b * 0x100 + c);
    Div(s * 0x400 + a, 0x400, s, a);
    Div(u, 0x100, s * 0x800 + a * 2 + b, c);
    Div(s * 0x800 + a * 2 + b, 2, s * 0x400 + a, b);
  }

  lemma LowTwelve(low: int, u: int)
    requires 0 <= low < 0x1000 && 0 <= u < 0x10_0000
    ensures var w: u32 := low + 0x1000 * u; Imm20(w) == u && w % 0x1000 == low
    ensures var w: u32 := low + 0x1000 * u; Opcode(w) == low % 0x80 && Rd(w) == low / 0x80
  {
    var w: u32 := low + 0x1000 * u;
    Div(w, 0x1000, u, low);
    Div(w, 0x80, 0x20 * u + low / 0x80, low % 0x80);
    Div(0x20 * u + low / 0x80, 0x20, u, low / 0x80);
  }

  lemma JumpRoundTrip(v: int, op: int, rd: int)
    requires v % 2 == 0 && -0x10_0000 <= v < 0x10_0000
    requires 0 <= op < 0x80 && 0 <= rd < 0x20
    ensures var w := op + 0x80 * rd + MakeRawJ(v);
            && w < 0x1_0000_0000 && ImmJ(w) == v && Opcode(w) == op && Rd(w) == rd
  {
    JumpDigits(v);
    JumpWord(v / 0x8000_0000 % 2, v / 2 % 0x400, v / 0x800 % 2, v / 0x1000 % 0x100, op, rd);
  }

  lemma JumpWord(s: int, a: int, b: int, c: int, op: int, rd: int)
    requires 0 <= s < 2 && 0 <= a < 0x400 && 0 <= b < 2 && 0 <= c < 0x100
    requires 0 <= op < 0x80 && 0 <= rd < 0x20
    ensures var w := op + 0x80 * rd + (s * 0x8000_0000 + c * 0x1000 + b * 0x10_0000 + a * 0x20_0000);
            && w < 0x1_0000_0000 && ImmJ(w) == -0x10_0000 * s + 2 * a + 0x800 * b + 0x1000 * c
            && Opcode(w) == op && Rd(w) == rd
  {
    JumpPlaces(s, a, b, c);
    LowTwelve(op + 0x80 * rd, s * 0x8_0000 + a * 0x200 + b * 0x100 + c);
    Div(op + 0x80 * rd, 0x80, rd, op);
  }

  lemma UpperRoundTrip(v: int, op: int, rd: int)
    requires v % 0x1000 == 0 && -0x8000_0000 <= v < 0x8000_0000
    requires 0 <= op < 0x80 && 0 <= rd < 0x20
    ensures var w := op + 0x80 * rd + MakeRawU(v);
            && w < 0x1_0000_0000 && ImmU(w) == v && Opcode(w) == op && Rd(w) == rd
  {
    if v < 0 {
      Div(v, 0x1_0000_0000, -1, v + 0x1_0000_0000);
    } else {
      Div(v, 0x1_0000_0000, 0, v);
    }
    var u := if v < 0 then v / 0x1000 + 0x10_0000 else v / 0x1000;
    assert MakeRawU(v) == 0x1000 * u;
    LowTwelve(op + 0x80 * rd, u);
    Div(op + 0x80 * rd, 0x80, rd, op);
  }

  lemma Sext12Mod(v: int)
    requires -0x800 <= v < 0x800
    ensures Sext12(v % 0x1000) == v
  {
    if v < 0 {
      Div(v, 0x1000, -1, v + 0x1000);
    } else {
      Div(v, 0x1000, 0, v);
    }
  }

  lemma ImmediateRoundTrip(v: int, op: int, rd: int, f3: int, rs1: int)
    requires -0x800 <= v < 0x800
    requires 0 <= op < 0x80 && 0 <= rd < 0x20 && 0 <= f3 < 8 && 0 <= rs1 < 0x20
    ensures var w := Layout(op, rd, f3, rs1, 0, 0) + MakeRawI(v);
            && w < 0x1_0000_0000 && ImmI(w) == v
            && Opcode(w) == op && Rd(w) == rd && Funct3(w) == f3 && Rs1(w) == rs1
  {
    var x := v % 0x1000;
    Sext12Mod(v);
    LayoutFields(op, rd, f3, rs1, x % 0x20, x / 0x20);
  }

  lemma StoreRoundTrip(v: int, op: int, f3: int, rs1: int, rs2: int)
    requires -0x800 <= v < 0x800
    requires 0 <= op < 0x80 && 0 <= f3 < 8 && 0 <= rs1 < 0x20 && 0 <= rs2 < 0x20
    ensures var w := Layout(op, 0, f3, rs1, rs2, 0) + MakeRawS(v);
            && w < 0x1_0000_0000 && ImmS(w) == v
            && Opcode(w) == op && Funct3(w) == f3 && Rs1(w) == rs1 && Rs2(w) == rs2
  {
    var x := v % 0x1000;
    Sext12Mod(v);
    Div(v, 0x20, 0x80 * (v / 0x1000) + x / 0x20, x % 0x20);
    Div(0x80 * (v / 0x1000) + x / 0x20, 0x80, v / 0x1000, x / 0x20);
    LayoutFields(op, x % 0x20, f3, rs1, rs2, x / 0x20);
  }

  // ---- The conversion operators and `Bcc` ----

  /** Where the digits of a branch offset stand in its raw immediate. */
  lemma RawBFields(v: int)
    requires v % 2 == 0 && -0x1000 <= v < 0x1000
    ensures ImmB(MakeRawB(v)) == v
    ensures Rd(MakeRawB(v)) == v / 0x800 % 2 + 2 * (v / 2 % 0x10)
    ensures Funct7(MakeRawB(v)) == v / 0x20 % 0x40 + 0x40 * (v / 0x8000_0000 % 2)
  {
    hide ImmB, Rd, Funct7;
    BranchDigits(v);
    RawPlaces(v / 0x8000_0000 % 2, v / 0x800 % 2, v / 0x20 % 0x40, v / 2 % 0x10, MakeRawB(v));
  }

  lemma RawPlaces(s: int, b: int, hi: int, lo: int, w: u32)
    requires 0 <= s < 2 && 0 <= b < 2 && 0 <= hi < 0x40 && 0 <= lo < 0x10
    requires w == s * 0x8000_0000 + b * 0x80 + lo * 0x100 + hi * 0x200_0000
    ensures ImmB(w) == -0x1000 * s + 0x800 * b + 0x20 * hi + 2 * lo && Rd(w) == b + 2 * lo && Funct7(w) == hi + 0x40 * s
  {
    var rd, f7 := b + 2 * lo, hi + 0x40 * s;
    Div(w, 0x80, rd + 0x4_0000 * f7, 0);
    Div(rd + 0x4_0000 * f7, 0x20, 0x2000 * f7, rd);
    Div(w, 0x200_0000, f7, 0x80 * rd);
    Div(f7, 0x80, 0, f7);
    Div(f7, 0x40, s, hi);
    Div(rd, 2, lo, b);
  }

  /** The signed reading of a raw B-immediate converts back to the offset it was made from. */
  lemma BImmediateConvertsBack(v: int)
    requires v % 2 == 0 && -0x1000 <= v < 0x1000
    ensures BImmediateValue(Int32(MakeRawB(v))) == v
  {
    hide MakeRawB, BImmediateValue, Int32, ImmB;
    RawBFields(v);
    BImmediateBits(MakeRawB(v));
  }

  lemma BImmediateBits(w: u32)
    ensures BImmediateValue(Int32(w)) == ImmB(w)
  {
    BranchBits(w);
    SignedBranchBits(w);
  }

  lemma SignedBranchBits(w: u32)
    ensures var r := Int32(w);
            && r / 0x100 % 0x10 == w / 0x100 % 0x10 && r / 0x80 % 2 == w / 0x80 % 2
            && r / 0x200_0000 % 0x40 == w / 0x200_0000 % 0x40 && (r < 0 <==> w / 0x8000_0000 % 2 == 1)
  {
    if w >= 0x8000_0000 {
      Div(w + 0x8000_0000, 0x1_0000_0000, 1, w - 0x8000_0000);
      Div(w, 0x8000_0000, 1, w - 0x8000_0000);
      BorrowedBits(w);
    } else {
      Div(w + 0x8000_0000, 0x1_0000_0000, 0, w + 0x8000_0000);
      Div(w, 0x8000_0000, 0, w);
    }
  }

  lemma BorrowedBits(w: u32)
    ensures (w - 0x1_0000_0000) / 0x100 % 0x10 == w / 0x100 % 0x10 && (w - 0x1_0000_0000) / 0x80 % 2 == w / 0x80 % 2
    ensures (w - 0x1_0000_0000) / 0x200_0000 % 0x40 == w / 0x200_0000 % 0x40
  {
    var v := w - 0x1_0000_0000;
    Div(v, 0x100, w / 0x100 - 0x100_0000, w % 0x100);
    Div(w / 0x100 - 0x100_0000, 0x10, w / 0x100 / 0x10 - 0x10_0000, w / 0x100 % 0x10);
    Div(v, 0x80, w / 0x80 - 0x200_0000, w % 0x80);
    Div(w / 0x80 - 0x200_0000, 2, w / 0x80 / 2 - 0x100_0000, w / 0x80 % 2);
    Div(v, 0x200_0000, w / 0x200_0000 - 0x80, w % 0x200_0000);
    Div(w / 0x200_0000 - 0x80, 0x40, w / 0x200_0000 / 0x40 - 2, w / 0x200_0000 % 0x40);
  }

  /** The same for the J-immediate. */
  lemma JImmediateConvertsBack(v: int)
    requires v % 2 == 0 && -0x10_0000 <= v < 0x10_0000
    ensures JImmediateValue(Int32(MakeRawJ(v))) == v
  {
    hide MakeRawJ, JImmediateValue, Int32, ImmJ;
    JumpRoundTrip(v, 0, 0);
    JImmediateBits(MakeRawJ(v));
  }

  lemma JImmediateBits(w: u32)
    ensures JImmediateValue(Int32(w)) == ImmJ(w)
  {
    JumpBits(w);
    SignedJumpBits(w);
    var u := Imm20(w);
    Div(w, 0x1000, u, w % 0x1000);
    Div(u, 0x8_0000, u / 0x8_0000, u % 0x8_0000);
  }

  lemma SignedJumpBits(w: u32)
    ensures var r := Int32(w);
            && r / 0x20_0000 % 0x400 == w / 0x20_0000 % 0x400 && r / 0x10_0000 % 2 == w / 0x10_0000 % 2
            && r / 0x1000 % 0x100 == w / 0x1000 % 0x100 && (r < 0 <==> w / 0x8000_0000 % 2 == 1)
  {
    if w >= 0x8000_0000 {
      Div(w + 0x8000_0000, 0x1_0000_0000, 1, w - 0x8000_0000);
      Div(w, 0x8000_0000, 1, w - 0x8000_0000);
      BorrowedJumpBits(w);
    } else {
      Div(w + 0x8000_0000, 0x1_0000_0000, 0, w + 0x8000_0000);
      Div(w, 0x8000_0000, 0, w);
    }
  }

  lemma BorrowedJumpBits(w: u32)
    ensures var v := w - 0x1_0000_0000;
            && v / 0x20_0000 % 0x400 == w / 0x20_0000 % 0x400 && v / 0x10_0000 % 2 == w / 0x10_0000 % 2
            && v / 0x1000 % 0x100 == w / 0x1000 % 0x100
  {
    var v := w - 0x1_0000_0000;
    Div(v, 0x20_0000, w / 0x20_0000 - 0x800, w % 0x20_0000);
    Div(w / 0x20_0000 - 0x800, 0x400, w / 0x20_0000 / 0x400 - 2, w / 0x20_0000 % 0x400);
    Div(v, 0x10_0000, w / 0x10_0000 - 0x1000, w % 0x10_0000);
    Div(w / 0x10_0000 - 0x1000, 2, w / 0x10_0000 / 2 - 0x800, w / 0x10_0000 % 2);
    Div(v, 0x1000, w / 0x1000 - 0x10_0000, w % 0x1000);
    Div(w / 0x1000 - 0x10_0000, 0x100, w / 0x1000 / 0x100 - 0x1000, w / 0x1000 % 0x100);
  }

  /** The B-to-J rewriting in `Bcc(kAlways, ...)`, on the unsigned pattern of the stored word:
      the arithmetic shift by 19 replicates the sign into bits 12 to 19. */
  function BToJ(raw: u32): u32 {
    (if raw / 0x8000_0000 == 1 then 0xff * 0x1000 else 0)
    + raw / 0x80 % 0x20 * 0x10_0000
    + raw / 0x200_0000 * 0x200_0000
  }

  /** An unconditional `Bcc` emits a jump with the offset of the branch it replaces. */
  lemma UnconditionalBccKeepsOffset(v: int)
    requires v % 2 == 0 && -0x1000 <= v < 0x1000
    ensures ImmJ(BToJ(MakeRawB(v))) == v
  {
    hide MakeRawB, BToJ, ImmJ, ImmB;
    RawBFields(v);
    BranchDigits(v);
    BToJPlaces(v / 0x8000_0000 % 2, v / 0x800 % 2, v / 0x20 % 0x40, v / 2 % 0x10, MakeRawB(v));
  }

  lemma BToJPlaces(s: int, b: int, hi: int, lo: int, w: u32)
    requires 0 <= s < 2 && 0 <= b < 2 && 0 <= hi < 0x40 && 0 <= lo < 0x10
    requires Rd(w) == b + 2 * lo && Funct7(w) == hi + 0x40 * s
    ensures ImmJ(BToJ(w)) == -0x1000 * s + 0x800 * b + 0x20 * hi + 2 * lo
  {
    BranchBits(w);
    Div(w / 0x200_0000, 0x80, 0, w / 0x200_0000);
    Div(hi + 0x40 * s, 0x40, s, hi);
    var u := s * 0x8_0000 + (hi * 0x10 + lo) * 0x200 + b * 0x100 + s * 0xff;
    assert BToJ(w) == 0x1000 * u;
    LowTwelve(0, u);
    JumpPlaces(s, hi * 0x10 + lo, b, s * 0xff);
  }
}
