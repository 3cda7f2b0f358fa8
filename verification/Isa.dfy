/** A small RV64 machine, written from the RISC-V Unprivileged ISA manual (20191213).

    Control transfer, `lui`, `auipc`, `ld`, `addi` and `slli` are concrete. Every other
    instruction is position independent and is left to an arbitrary function of the raw
    halfwords, the registers and the memory. */
module Isa {
  import opened Words
  import opened Encoding

  type Reg = x: int | 0 <= x < 32
  type Regs = r: seq<u64> | |r| == 32 && r[0] == 0 witness seq(32, _ => 0)

  /** Readable bytes by address; an address outside the map faults. */
  type Memory = map<int, u8>

  const X0: Reg := 0
  const RA: Reg := 1
  const T3: Reg := 28

  datatype Insn =
    | Lui(rd: Reg, imm: int)
    | Auipc(rd: Reg, imm: int)
    | Jal(rd: Reg, offset: int, len: int)
    | Jalr(rd: Reg, rs1: Reg, offset: int, len: int)
    | Branch(funct3: int, rs1: Reg, rs2: Reg, offset: int, len: int)
    | Ld(rd: Reg, rs1: Reg, offset: int)
    | Addi(rd: Reg, rs1: Reg, imm: int)
    | Slli(rd: Reg, rs1: Reg, shamt: nat)
    | Other(lo: u16, hi: u16, len: int)
  {
    function Length(): int {
      match this
      case Jal(_, _, n) => n
      case Jalr(_, _, _, n) => n
      case Branch(_, _, _, _, n) => n
      case Other(_, _, n) => n
      case _ => 4
    }
  }

  /** Section 1.5: the two low bits tell a 16-bit from a 32-bit encoding. */
  function Length(lo: u16): (n: int)
    ensures n == 2 || n == 4
  {
    if lo % 4 == 3 then 4 else 2
  }

  function Word(lo: u16, hi: u16): u32 { lo + 0x1_0000 * hi }

  predicate IsBranchFunct3(f3: int) { f3 == 0 || f3 == 1 || f3 == 4 || f3 == 5 || f3 == 6 || f3 == 7 }

  /** Section 16.4, format CJ: bits 12..2 hold offset[11|4|9:8|10|6|7|3:1|5]. */
  function ImmCJ(h: u16): int {
    -0x800 * (h / 0x1000 % 2) + 0x10 * (h / 0x800 % 2) + 0x100 * (h / 0x200 % 4) + 0x400 * (h / 0x100 % 2)
    + 0x40 * (h / 0x80 % 2) + 0x80 * (h / 0x40 % 2) + 2 * (h / 8 % 8) + 0x20 * (h / 4 % 2)
  }

  /** Section 16.4, format CB: bits 12..10 hold offset[8|4:3], bits 6..2 offset[7:6|2:1|5]. */
  function ImmCB(h: u16): int {
    -0x100 * (h / 0x1000 % 2) + 8 * (h / 0x400 % 4) + 0x40 * (h / 0x20 % 4) + 2 * (h / 8 % 4) + 0x20 * (h / 4 % 2)
  }

  function DecodeCompressed(h: u16): Insn {
    if h % 4 == 1 && h / 0x2000 == 5 then Jal(X0, ImmCJ(h), 2)
    else if h % 4 == 1 && h / 0x2000 >= 6 then Branch(h / 0x2000 % 2, h / 0x80 % 8 + 8, X0, ImmCB(h), 2)
    else if h % 4 == 2 && h / 0x1000 == 8 && h / 4 % 0x20 == 0 && h / 0x80 % 0x20 != 0 then Jalr(X0, h / 0x80 % 0x20, 0, 2)
    else if h % 4 == 2 && h / 0x1000 == 9 && h / 4 % 0x20 == 0 && h / 0x80 % 0x20 != 0 then Jalr(RA, h / 0x80 % 0x20, 0, 2)
    else Other(h, 0, 2)
  }

  function DecodeWord(w: u32): Insn {
    var op := Opcode(w);
    if op == 0x37 then Lui(Rd(w), ImmU(w))
    else if op == 0x17 then Auipc(Rd(w), ImmU(w))
    else if op == 0x6f then Jal(Rd(w), ImmJ(w), 4)
    else if op == 0x67 && Funct3(w) == 0 then Jalr(Rd(w), Rs1(w), ImmI(w), 4)
    else if op == 0x63 && IsBranchFunct3(Funct3(w)) then Branch(Funct3(w), Rs1(w), Rs2(w), ImmB(w), 4)
    else if op == 0x03 && Funct3(w) == 3 then Ld(Rd(w), Rs1(w), ImmI(w))
    else if op == 0x13 && Funct3(w) == 0 then Addi(Rd(w), Rs1(w), ImmI(w))
    else if op == 0x13 && Funct3(w) == 1 && Funct7(w) / 2 == 0 then Slli(Rd(w), Rs1(w), Rs2(w) + 0x20 * (Funct7(w) % 2))
    else Other(w % 0x1_0000, w / 0x1_0000, 4)
  }

  /** `hi` is looked at only when `lo` starts a 32-bit encoding. */
  function Decode(lo: u16, hi: u16): Insn {
    if lo % 4 == 3 then DecodeWord(Word(lo, hi)) else DecodeCompressed(lo)
  }

  // ---- Execution ----

  datatype Outcome = Done(regs: Regs, mem: Memory) | Fault
  datatype Cpu = Cpu(other: (u16, u16, Regs, Memory) -> Outcome)
  datatype Effect = Fall(regs: Regs, mem: Memory) | Jump(target: u64, regs: Regs, mem: Memory) | Trap

  function Set(r: Regs, rd: Reg, v: u64): Regs {
    if rd == X0 then r else r[rd := v]
  }

  function Signed(x: u64): int {
    if x >= 0x8000_0000_0000_0000 then x - 0x1_0000_0000_0000_0000 else x
  }

  /** Section 2.5, conditional branches. */
  predicate Taken(f3: int, a: u64, b: u64)
    requires IsBranchFunct3(f3)
  {
    if f3 == 0 then a == b
    else if f3 == 1 then a != b
    else if f3 == 4 then Signed(a) < Signed(b)
    else if f3 == 5 then Signed(a) >= Signed(b)
    else if f3 == 6 then a < b
    else a >= b
  }

  /** The six conditions are three pairs of opposites: equal, less for signed and less for unsigned words. */
  lemma Conditions(a: u64, b: u64)
    ensures Taken(0, a, b) <==> a == b
    ensures Taken(6, a, b) <==> a < b
    ensures Taken(4, a, b) <==> if (a < 0x8000_0000_0000_0000) == (b < 0x8000_0000_0000_0000) then a < b else b < a
    ensures (Taken(1, a, b) <==> !Taken(0, a, b)) && (Taken(5, a, b) <==> !Taken(4, a, b))
    ensures Taken(7, a, b) <==> !Taken(6, a, b)
  {
  }

  predicate HasHalf(mem: Memory, a: int) {
    Wrap(a) in mem && Wrap(a + 1) in mem
  }

  predicate HasDouble(mem: Memory, a: int) {
    HasHalf(mem, a) && HasHalf(mem, a + 2) && HasHalf(mem, a + 4) && HasHalf(mem, a + 6)
  }

  /** Two bytes, little endian. */
  function HalfAt(mem: Memory, a: int): u16
    requires HasHalf(mem, a)
  {
    var low: int, high: int := mem[Wrap(a)], mem[Wrap(a + 1)];
    low + 0x100 * high
  }

  /** Eight bytes, little endian. */
  function DoubleAt(mem: Memory, a: int): u64
    requires HasDouble(mem, a)
  {
    HalfAt(mem, a) + 0x1_0000 * HalfAt(mem, a + 2) + 0x1_0000_0000 * HalfAt(mem, a + 4)
    + 0x1_0000_0000_0000 * HalfAt(mem, a + 6)
  }

  function Exec(cpu: Cpu, insn: Insn, pc: u64, r: Regs, mem: Memory): Effect
    requires insn.Branch? ==> IsBranchFunct3(insn.funct3)
  {
    match insn
    case Lui(rd, imm) => Fall(Set(r, rd, Wrap(imm)), mem)
    case Auipc(rd, imm) => Fall(Set(r, rd, Wrap(pc + imm)), mem)
    case Jal(rd, offset, n) => Jump(Wrap(pc + offset), Set(r, rd, Wrap(pc + n)), mem)
    case Jalr(rd, rs1, offset, n) =>
      var t := Wrap(r[rs1] + offset);
      Jump(t - t % 2, Set(r, rd, Wrap(pc + n)), mem)
    case Branch(f3, rs1, rs2, offset, n) =>
      if Taken(f3, r[rs1], r[rs2]) then Jump(Wrap(pc + offset), r, mem) else Fall(r, mem)
    case Ld(rd, rs1, offset) =>
      if HasDouble(mem, r[rs1] + offset) then Fall(Set(r, rd, DoubleAt(mem, r[rs1] + offset)), mem) else Trap
    case Addi(rd, rs1, imm) => Fall(Set(r, rd, Wrap(r[rs1] + imm)), mem)
    case Slli(rd, rs1, shamt) => Fall(Set(r, rd, Wrap(Shl(r[rs1], shamt))), mem)
    case Other(lo, hi, n) =>
      match cpu.other(lo, hi, r, mem)
      case Done(r', mem') => Fall(r', mem')
      case Fault => Trap
  }

  datatype State = Running(pc: u64, regs: Regs, mem: Memory) | Trapped

  /** Where control goes after an effect of an instruction of length `n` at `pc`. */
  function Continue(e: Effect, pc: u64, n: int): State {
    match e
    case Fall(r, mem) => Running(Wrap(pc + n), r, mem)
    case Jump(t, r, mem) => Running(t, r, mem)
    case Trap => Trapped
  }

  /** One fetch, decode and execute cycle; the instruction stream is the memory itself. */
  function Step(cpu: Cpu, s: State): State {
    match s
    case Trapped => Trapped
    case Running(pc, r, mem) =>
      if !HasHalf(mem, pc) then Trapped
      else
        var lo := HalfAt(mem, pc);
        if lo % 4 != 3 then
          var insn := Decode(lo, 0);
          Continue(Exec(cpu, insn, pc, r, mem), pc, 2)
        else if !HasHalf(mem, pc + 2) then Trapped
        else
          var insn := Decode(lo, HalfAt(mem, pc + 2));
          Continue(Exec(cpu, insn, pc, r, mem), pc, 4)
  }

  function Run(cpu: Cpu, s: State, n: nat): State
    decreases n
  {
    if n == 0 then s else Run(cpu, Step(cpu, s), n - 1)
  }

  lemma {:induction false} RunAdd(cpu: Cpu, s: State, m: nat, n: nat)
    ensures Run(cpu, s, m + n) == Run(cpu, Run(cpu, s, m), n)
    decreases m
  {
    if m != 0 {
      RunAdd(cpu, Step(cpu, s), m - 1, n);
    }
  }

  lemma DecodeLength(lo: u16, hi: u16)
    ensures Decode(lo, hi).Length() == Length(lo)
    ensures Decode(lo, hi).Branch? ==> IsBranchFunct3(Decode(lo, hi).funct3)
  {
  }
}
