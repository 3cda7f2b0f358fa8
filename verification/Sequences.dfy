/** The instruction sequences the library emits, as bytes, and what the machine does on them. */
module Sequences {
  import opened Words
  import opened Encoding
  import opened Isa

  // ---- Little-endian bytes ----

  function HalfBytes(h: u16): seq<u8> { [h % 0x100, h / 0x100] }
  function WordBytes(w: u32): seq<u8> { HalfBytes(w % 0x1_0000) + HalfBytes(w / 0x1_0000) }
  function QuadBytes(v: u64): seq<u8> { WordBytes(v % 0x1_0000_0000) + WordBytes(v / 0x1_0000_0000) }

  ghost predicate ByteAt(mem: Memory, a: int, v: u8) {
    Wrap(a) in mem && mem[Wrap(a)] == v
  }

  /** `bytes` stand in memory from `p` on. */
  ghost predicate Holds(mem: Memory, p: int, bytes: seq<u8>) {
    forall i :: 0 <= i < |bytes| ==> ByteAt(mem, p + i, bytes[i])
  }

  lemma HoldsByte(mem: Memory, p: int, s: seq<u8>, i: nat)
    requires Holds(mem, p, s) && i < |s|
    ensures ByteAt(mem, p + i, s[i])
  {
  }

  lemma HoldsPart(mem: Memory, p: int, a: seq<u8>, b: seq<u8>)
    requires Holds(mem, p, a + b)
    ensures Holds(mem, p, a) && Holds(mem, p + |a|, b)
  {
    hide ByteAt;
    forall i | 0 <= i < |a| ensures ByteAt(mem, p + i, a[i]) {
      assert (a + b)[i] == a[i];
    }
    forall i | 0 <= i < |b| ensures ByteAt(mem, p + |a| + i, b[i]) {
      assert (a + b)[|a| + i] == b[i];
      assert p + |a| + i == p + (|a| + i);
    }
  }

  lemma HoldsSlice(mem: Memory, p: int, s: seq<u8>, i: nat, j: nat)
    requires Holds(mem, p, s) && i <= j <= |s|
    ensures Holds(mem, p + i, s[i..j])
  {
    assert s == s[..i] + (s[i..j] + s[j..]);
    HoldsPart(mem, p, s[..i], s[i..j] + s[j..]);
    HoldsPart(mem, p + i, s[i..j], s[j..]);
  }

  lemma HoldsHalf(mem: Memory, p: int, h: u16)
    requires Holds(mem, p, HalfBytes(h))
    ensures HasHalf(mem, p) && HalfAt(mem, p) == h
  {
    HoldsByte(mem, p, HalfBytes(h), 0);
    HoldsByte(mem, p, HalfBytes(h), 1);
  }

  lemma HoldsWord(mem: Memory, p: int, w: u32)
    requires Holds(mem, p, WordBytes(w))
    ensures HasHalf(mem, p) && HalfAt(mem, p) == w % 0x1_0000
    ensures HasHalf(mem, p + 2) && HalfAt(mem, p + 2) == w / 0x1_0000
  {
    HoldsPart(mem, p, HalfBytes(w % 0x1_0000), HalfBytes(w / 0x1_0000));
    HoldsHalf(mem, p, w % 0x1_0000);
    HoldsHalf(mem, p + 2, w / 0x1_0000);
  }

  lemma HoldsQuad(mem: Memory, p: int, v: u64)
    requires Holds(mem, p, QuadBytes(v))
    ensures HasDouble(mem, p) && DoubleAt(mem, p) == v
  {
    var lo, hi := v % 0x1_0000_0000, v / 0x1_0000_0000;
    HoldsPart(mem, p, WordBytes(lo), WordBytes(hi));
    HoldsWord(mem, p, lo);
    HoldsWord(mem, p + 4, hi);
    assert p + 4 + 2 == p + 6;
  }

  // ---- Fetching what was placed ----

  lemma StepWord(cpu: Cpu, pc: u64, r: Regs, mem: Memory, w: u32)
    requires Holds(mem, pc, WordBytes(w)) && w % 4 == 3
    ensures DecodeWord(w).Branch? ==> IsBranchFunct3(DecodeWord(w).funct3)
    ensures Step(cpu, Running(pc, r, mem)) == Continue(Exec(cpu, DecodeWord(w), pc, r, mem), pc, 4)
  {
    hide WordBytes, Exec, Opcode, HalfAt, HasHalf;
    HoldsWord(mem, pc, w);
    LowHalf(w);
  }

  lemma LowHalf(w: u32)
    requires w % 4 == 3
    ensures w % 0x1_0000 % 4 == 3 && Word(w % 0x1_0000, w / 0x1_0000) == w
  {
    var h := w % 0x1_0000;
    Div(w, 4, 0x4000 * (w / 0x1_0000) + h / 4, h % 4);
  }

  lemma StepHalf(cpu: Cpu, pc: u64, r: Regs, mem: Memory, h: u16)
    requires Holds(mem, pc, HalfBytes(h)) && h % 4 != 3
    ensures DecodeCompressed(h).Branch? ==> IsBranchFunct3(DecodeCompressed(h).funct3)
    ensures Step(cpu, Running(pc, r, mem)) == Continue(Exec(cpu, DecodeCompressed(h), pc, r, mem), pc, 2)
  {
    HoldsHalf(mem, pc, h);
  }

  // ---- Single words ----

  function JalrWord(rd: Reg, rs1: Reg): u32 { Layout(0x67, rd, 0, rs1, 0, 0) }

  function JalWord(rd: Reg, offset: int): u32 { 0x6f + 0x80 * rd + MakeRawJ(offset) }

  function BranchWord(f3: int, rs1: Reg, rs2: Reg, offset: int): u32
    requires 0 <= f3 < 8 && offset % 2 == 0 && -0x1000 <= offset < 0x1000
  {
    BranchRoundTrip(offset, 0x63, f3, rs1, rs2);
    Layout(0x63, 0, f3, rs1, rs2, 0) + MakeRawB(offset)
  }

  lemma OpcodeLow(w: u32)
    ensures w % 4 == Opcode(w) % 4
  {
  }

  lemma JalrWordDecodes(rd: Reg, rs1: Reg)
    ensures JalrWord(rd, rs1) % 4 == 3 && DecodeWord(JalrWord(rd, rs1)) == Jalr(rd, rs1, 0, 4)
  {
    LayoutFields(0x67, rd, 0, rs1, 0, 0);
    ReadJalr(JalrWord(rd, rs1), rd, rs1, 0);
  }

  lemma ReadJalr(w: u32, rd: Reg, rs1: Reg, offset: int)
    requires Opcode(w) == 0x67 && Funct3(w) == 0 && Rd(w) == rd && Rs1(w) == rs1 && ImmI(w) == offset
    ensures w % 4 == 3 && DecodeWord(w) == Jalr(rd, rs1, offset, 4)
  {
    OpcodeLow(w);
  }

  lemma ReadLd(w: u32, rd: Reg, rs1: Reg, offset: int)
    requires Opcode(w) == 0x03 && Funct3(w) == 3 && Rd(w) == rd && Rs1(w) == rs1 && ImmI(w) == offset
    ensures w % 4 == 3 && DecodeWord(w) == Ld(rd, rs1, offset)
  {
    OpcodeLow(w);
  }

  lemma ReadAuipc(w: u32, rd: Reg, imm: int)
    requires Opcode(w) == 0x17 && Rd(w) == rd && ImmU(w) == imm
    ensures w % 4 == 3 && DecodeWord(w) == Auipc(rd, imm)
  {
    OpcodeLow(w);
  }

  lemma ReadJal(w: u32, rd: Reg, offset: int)
    requires Opcode(w) == 0x6f && Rd(w) == rd && ImmJ(w) == offset
    ensures w % 4 == 3 && DecodeWord(w) == Jal(rd, offset, 4)
  {
    OpcodeLow(w);
  }

  lemma ReadBranch(w: u32, f3: int, rs1: Reg, rs2: Reg, offset: int)
    requires Opcode(w) == 0x63 && IsBranchFunct3(f3) && Funct3(w) == f3 && Rs1(w) == rs1 && Rs2(w) == rs2
    requires ImmB(w) == offset
    ensures w % 4 == 3 && DecodeWord(w) == Branch(f3, rs1, rs2, offset, 4)
  {
    OpcodeLow(w);
  }

  lemma ReadLui(w: u32, rd: Reg, imm: int)
    requires Opcode(w) == 0x37 && Rd(w) == rd && ImmU(w) == imm
    ensures w % 4 == 3 && DecodeWord(w) == Lui(rd, imm)
  {
    OpcodeLow(w);
  }

  lemma JalWordDecodes(rd: Reg, offset: int)
    requires offset % 2 == 0 && -0x10_0000 <= offset < 0x10_0000
    ensures JalWord(rd, offset) % 4 == 3 && DecodeWord(JalWord(rd, offset)) == Jal(rd, offset, 4)
  {
    JumpRoundTrip(offset, 0x6f, rd);
    ReadJal(JalWord(rd, offset), rd, offset);
  }

  lemma BranchWordDecodes(f3: int, rs1: Reg, rs2: Reg, offset: int)
    requires IsBranchFunct3(f3) && offset % 2 == 0 && -0x1000 <= offset < 0x1000
    ensures BranchWord(f3, rs1, rs2, offset) % 4 == 3
    ensures DecodeWord(BranchWord(f3, rs1, rs2, offset)) == Branch(f3, rs1, rs2, offset, 4)
  {
    BranchRoundTrip(offset, 0x63, f3, rs1, rs2);
    ReadBranch(BranchWord(f3, rs1, rs2, offset), f3, rs1, rs2, offset);
  }

  // ---- The auipc pair ----

  /** The sign-extended low twelve bits of an offset. */
  function Bottom(offset: int): int { (offset + 0x800) % 0x1000 - 0x800 }

  /** The upper part compensated for the sign of the lower one, cut to an `int32_t`. */
  function Top(offset: int): int { Int32(offset - Bottom(offset)) }

  /** `top + bottom` is the offset except where the compensation overflows 32 bits. */
  lemma TopBottom(offset: int)
    requires -0x8000_0000 <= offset < 0x8000_0000
    ensures Top(offset) % 0x1000 == 0 && -0x800 <= Bottom(offset) < 0x800
    ensures Top(offset) + Bottom(offset) == offset <==> offset < 0x7fff_f800
    ensures offset >= 0x7fff_f800 ==> Top(offset) + Bottom(offset) == offset - 0x1_0000_0000
  {
    var q := (offset + 0x800) / 0x1000;
    assert offset - Bottom(offset) == 0x1000 * q;
  }

  function AuipcWord(rd: Reg, offset: int): u32
    requires -0x8000_0000 <= offset < 0x8000_0000
  {
    TopBottom(offset);
    UpperRoundTrip(Top(offset), 0x17, rd);
    0x17 + 0x80 * rd + MakeRawU(Top(offset))
  }

  /** The second word of a pair whose low part is an I-immediate on `base`. */
  function ReadWord(opcode: int, f3: int, rd: Reg, base: Reg, offset: int): u32
    requires -0x8000_0000 <= offset < 0x8000_0000 && 0 <= opcode < 0x80 && 0 <= f3 < 8
  {
    TopBottom(offset);
    ImmediateRoundTrip(Bottom(offset), opcode, rd, f3, base);
    Layout(opcode, rd, f3, base, 0, 0) + MakeRawI(Bottom(offset))
  }

  /** Such a pair after its label was resolved `offset` bytes away. */
  function ReadPair(opcode: int, f3: int, rd: Reg, base: Reg, offset: int): seq<u8>
    requires -0x8000_0000 <= offset < 0x8000_0000 && 0 <= opcode < 0x80 && 0 <= f3 < 8
  {
    WordBytes(AuipcWord(base, offset)) + WordBytes(ReadWord(opcode, f3, rd, base, offset))
  }

  function LoadWord(rd: Reg, offset: int): u32
    requires -0x8000_0000 <= offset < 0x8000_0000
  {
    ReadWord(0x03, 3, rd, rd, offset)
  }

  /** `Ld(rd, label)` after its label was resolved `offset` bytes away. */
  function LoadPair(rd: Reg, offset: int): seq<u8>
    requires -0x8000_0000 <= offset < 0x8000_0000
  {
    WordBytes(AuipcWord(rd, offset)) + WordBytes(LoadWord(rd, offset))
  }

  lemma AuipcWordDecodes(rd: Reg, offset: int)
    requires -0x8000_0000 <= offset < 0x8000_0000
    ensures AuipcWord(rd, offset) % 4 == 3 && DecodeWord(AuipcWord(rd, offset)) == Auipc(rd, Top(offset))
  {
    hide Top, DecodeWord, ImmU, Opcode, Rd;
    TopBottom(offset);
    UpperRoundTrip(Top(offset), 0x17, rd);
    ReadAuipc(AuipcWord(rd, offset), rd, Top(offset));
  }

  lemma LoadWordDecodes(rd: Reg, offset: int)
    requires -0x8000_0000 <= offset < 0x8000_0000
    ensures LoadWord(rd, offset) % 4 == 3 && DecodeWord(LoadWord(rd, offset)) == Ld(rd, rd, Bottom(offset))
  {
    hide Top, Bottom, DecodeWord, ImmI, Opcode, Rd, Funct3, Rs1, Layout;
    TopBottom(offset);
    ImmediateRoundTrip(Bottom(offset), 0x03, rd, 3, rd);
    ReadLd(LoadWord(rd, offset), rd, rd, Bottom(offset));
  }

  lemma WrapTwice(a: int, b: int)
    ensures Wrap(Wrap(a) + b) == Wrap(a + b)
  {
    var m := TWO_64;
    Euclid(a, m);
    Euclid(Wrap(a) + b, m);
    Div(a + b, m, a / m + (Wrap(a) + b) / m, (Wrap(a) + b) % m);
  }

  /** An address may also be given across the top of the address space. */
  lemma HoldsWrapped(mem: Memory, p: int, bytes: seq<u8>)
    requires Holds(mem, p, bytes)
    ensures Holds(mem, Wrap(p), bytes)
  {
    hide Wrap;
    forall i | 0 <= i < |bytes| ensures ByteAt(mem, Wrap(p) + i, bytes[i]) {
      WrapTwice(p, i);
      assert ByteAt(mem, p + i, bytes[i]);
    }
  }

  lemma WrapSmall(a: int)
    requires 0 <= a < TWO_64
    ensures Wrap(a) == a
  {
    Div(a, TWO_64, 0, a);
  }

  /** Two consecutive steps. */
  lemma RunTwo(cpu: Cpu, s: State)
    ensures Run(cpu, s, 1) == Step(cpu, s)
    ensures Run(cpu, s, 2) == Step(cpu, Step(cpu, s))
  {
    hide Step;
    assert Run(cpu, s, 1) == Run(cpu, Step(cpu, s), 0);
    assert Run(cpu, s, 2) == Run(cpu, Step(cpu, s), 1) == Run(cpu, Step(cpu, Step(cpu, s)), 0);
  }

  /** The first half of the pair, by itself. */
  lemma AuipcStep(cpu: Cpu, pc: u64, r: Regs, mem: Memory, rd: Reg, offset: int)
    requires -0x8000_0000 <= offset < 0x8000_0000 && pc + 8 < TWO_64
    requires Holds(mem, pc, WordBytes(AuipcWord(rd, offset)))
    ensures Step(cpu, Running(pc, r, mem)) == Running(pc + 4, Set(r, rd, Wrap(pc + Top(offset))), mem)
  {
    hide AuipcWord, LoadWord, DecodeWord, WordBytes, Step, Top, Wrap;
    AuipcWordDecodes(rd, offset);
    StepWord(cpu, pc, r, mem, AuipcWord(rd, offset));
    WrapSmall(pc + 4);
  }

  /** The second half of the pair, by itself. */
  lemma LoadStep(cpu: Cpu, pc: u64, r: Regs, mem: Memory, rd: Reg, offset: int)
    requires -0x8000_0000 <= offset < 0x8000_0000 && pc + 4 < TWO_64
    requires Holds(mem, pc, WordBytes(LoadWord(rd, offset)))
    ensures var a := r[rd] + Bottom(offset);
            Step(cpu, Running(pc, r, mem))
            == if HasDouble(mem, a) then Running(pc + 4, Set(r, rd, DoubleAt(mem, a)), mem) else Trapped
  {
    hide AuipcWord, LoadWord, DecodeWord, WordBytes, Step, Bottom, Wrap, HasDouble, DoubleAt;
    LoadWordDecodes(rd, offset);
    StepWord(cpu, pc, r, mem, LoadWord(rd, offset));
    WrapSmall(pc + 4);
  }

  /** Two instructions load the literal the pair points at. */
  lemma LoadPairSteps(cpu: Cpu, pc: u64, r: Regs, mem: Memory, rd: Reg, offset: int, v: u64)
    requires rd != X0 && -0x8000_0000 <= offset < 0x7fff_f800 && pc + 8 < TWO_64
    requires Holds(mem, pc, LoadPair(rd, offset)) && Holds(mem, pc + offset, QuadBytes(v))
    ensures Run(cpu, Running(pc, r, mem), 2) == Running(pc + 8, Set(r, rd, v), mem)
  {
    hide AuipcWord, LoadWord, WordBytes, QuadBytes, Step, Top, Bottom, Wrap, HasDouble, DoubleAt, Holds, Run;
    HoldsPart(mem, pc, WordBytes(AuipcWord(rd, offset)), WordBytes(LoadWord(rd, offset)));
    WordBytesLength(AuipcWord(rd, offset));
    AuipcStep(cpu, pc, r, mem, rd, offset);
    var base := Wrap(pc + Top(offset));
    LoadStep(cpu, pc + 4, Set(r, rd, base), mem, rd, offset);
    TopBottom(offset);
    WrapTwice(pc + Top(offset), Bottom(offset));
    HoldsQuad(mem, pc + offset, v);
    SameDouble(mem, base + Bottom(offset), pc + offset);
    RunTwo(cpu, Running(pc, r, mem));
    assert Set(Set(r, rd, base), rd, v) == Set(r, rd, v);
  }

  lemma WordBytesLength(w: u32)
    ensures |WordBytes(w)| == 4
  {
  }

  lemma ReadAddi(w: u32, rd: Reg, rs1: Reg, imm: int)
    requires Opcode(w) == 0x13 && Funct3(w) == 0 && Rd(w) == rd && Rs1(w) == rs1 && ImmI(w) == imm
    ensures w % 4 == 3 && DecodeWord(w) == Addi(rd, rs1, imm)
  {
    OpcodeLow(w);
  }

  lemma AddressWordDecodes(rd: Reg, base: Reg, offset: int)
    requires -0x8000_0000 <= offset < 0x8000_0000
    ensures var add, jump := ReadWord(0x13, 0, rd, base, offset), ReadWord(0x67, 0, rd, base, offset);
            && add % 4 == 3 && DecodeWord(add) == Addi(rd, base, Bottom(offset))
            && jump % 4 == 3 && DecodeWord(jump) == Jalr(rd, base, Bottom(offset), 4)
  {
    hide Top, Bottom, DecodeWord, ImmI, Opcode, Rd, Funct3, Rs1, Layout;
    TopBottom(offset);
    ImmediateRoundTrip(Bottom(offset), 0x13, rd, 0, base);
    ImmediateRoundTrip(Bottom(offset), 0x67, rd, 0, base);
    ReadAddi(ReadWord(0x13, 0, rd, base, offset), rd, base, Bottom(offset));
    ReadJalr(ReadWord(0x67, 0, rd, base, offset), rd, base, Bottom(offset));
  }

  /** `la` leaves the label's address, exactly when the distance is below 0x7ffff800. */
  lemma AddressPairSteps(cpu: Cpu, pc: u64, r: Regs, mem: Memory, rd: Reg, offset: int)
    requires rd != X0 && -0x8000_0000 <= offset < 0x8000_0000 && pc + 8 < TWO_64
    requires Holds(mem, pc, ReadPair(0x13, 0, rd, rd, offset))
    ensures var reached := if offset < 0x7fff_f800 then offset else offset - 0x1_0000_0000;
            Run(cpu, Running(pc, r, mem), 2) == Running(pc + 8, Set(r, rd, Wrap(pc + reached)), mem)
    ensures Run(cpu, Running(pc, r, mem), 2) == Running(pc + 8, Set(r, rd, Wrap(pc + offset)), mem) <==> offset < 0x7fff_f800
  {
    hide AuipcWord, ReadWord, DecodeWord, WordBytes, Step, Top, Bottom, Holds, Run, Wrap;
    var low := ReadWord(0x13, 0, rd, rd, offset);
    HoldsPart(mem, pc, WordBytes(AuipcWord(rd, offset)), WordBytes(low));
    WordBytesLength(AuipcWord(rd, offset));
    AuipcStep(cpu, pc, r, mem, rd, offset);
    AddressWordDecodes(rd, rd, offset);
    var base := Wrap(pc + Top(offset));
    StepWord(cpu, pc + 4, Set(r, rd, base), mem, low);
    WrapSmall(pc + 8);
    TopBottom(offset);
    WrapTwice(pc + Top(offset), Bottom(offset));
    RunTwo(cpu, Running(pc, r, mem));
    FarApart(pc, offset);
    assert Set(r, rd, Wrap(pc + offset))[rd] != Set(r, rd, Wrap(pc + (offset - 0x1_0000_0000)))[rd];
  }

  lemma FarApart(pc: u64, offset: int)
    ensures Wrap(pc + offset) != Wrap(pc + (offset - 0x1_0000_0000))
  {
    Euclid(pc + offset, TWO_64);
    Euclid(pc + (offset - 0x1_0000_0000), TWO_64);
  }

  /** `call` (with x1 as link) and `tail` (with x0) reach any even label below that distance, through
      x6. */
  lemma CallPairSteps(cpu: Cpu, pc: u64, r: Regs, mem: Memory, link: Reg, offset: int)
    requires -0x8000_0000 <= offset < 0x7fff_f800 && pc + 8 < TWO_64 && (pc + offset) % 2 == 0
    requires Holds(mem, pc, ReadPair(0x67, 0, link, 6, offset))
    ensures Run(cpu, Running(pc, r, mem), 2)
            == Running(Wrap(pc + offset), Set(Set(r, 6, Wrap(pc + Top(offset))), link, pc + 8), mem)
  {
    hide AuipcWord, ReadWord, DecodeWord, WordBytes, Step, Top, Bottom, Holds, Run, Wrap;
    var low := ReadWord(0x67, 0, link, 6, offset);
    HoldsPart(mem, pc, WordBytes(AuipcWord(6, offset)), WordBytes(low));
    WordBytesLength(AuipcWord(6, offset));
    AuipcStep(cpu, pc, r, mem, 6, offset);
    AddressWordDecodes(link, 6, offset);
    var base := Wrap(pc + Top(offset));
    StepWord(cpu, pc + 4, Set(r, 6, base), mem, low);
    WrapSmall(pc + 8);
    TopBottom(offset);
    WrapTwice(pc + Top(offset), Bottom(offset));
    EvenWrap(pc + offset);
    RunTwo(cpu, Running(pc, r, mem));
  }

  lemma EvenWrap(x: int)
    requires x % 2 == 0
    ensures Wrap(x) % 2 == 0
  {
    Euclid(x, TWO_64);
    Euclid(x, 2);
    var q := x / TWO_64;
    Div(x - TWO_64 * q, 2, x / 2 - 0x8000_0000_0000_0000 * q, 0);
  }

  /** With x0 as destination the pair reads the absolute address `Bottom(offset)` instead of the
      literal: it succeeds exactly when that doubleword is readable. */
  lemma LoadPairIntoZero(cpu: Cpu, pc: u64, r: Regs, mem: Memory, offset: int)
    requires -0x8000_0000 <= offset < 0x7fff_f800 && pc + 8 < TWO_64
    requires Holds(mem, pc, LoadPair(X0, offset))
    ensures Run(cpu, Running(pc, r, mem), 2)
            == if HasDouble(mem, Bottom(offset)) then Running(pc + 8, r, mem) else Trapped
  {
    hide AuipcWord, LoadWord, WordBytes, Step, Top, Bottom, Wrap, HasDouble, DoubleAt, Holds, Run;
    HoldsPart(mem, pc, WordBytes(AuipcWord(X0, offset)), WordBytes(LoadWord(X0, offset)));
    WordBytesLength(AuipcWord(X0, offset));
    AuipcStep(cpu, pc, r, mem, X0, offset);
    LoadStep(cpu, pc + 4, r, mem, X0, offset);
    RunTwo(cpu, Running(pc, r, mem));
  }

  lemma SameHalf(mem: Memory, a: int, b: int)
    requires Wrap(a) == Wrap(b)
    ensures HasHalf(mem, a) <==> HasHalf(mem, b)
    ensures HasHalf(mem, a) ==> HalfAt(mem, a) == HalfAt(mem, b)
  {
    hide Wrap;
    WrapTwice(a, 1);
    WrapTwice(b, 1);
  }

  /** Addresses that agree modulo 2^64 name the same doubleword. */
  lemma SameDouble(mem: Memory, a: int, b: int)
    requires Wrap(a) == Wrap(b)
    ensures HasDouble(mem, a) <==> HasDouble(mem, b)
    ensures HasDouble(mem, a) ==> DoubleAt(mem, a) == DoubleAt(mem, b)
  {
    hide Wrap, HasHalf, HalfAt;
    WrapTwice(a, 2);
    WrapTwice(b, 2);
    WrapTwice(a, 4);
    WrapTwice(b, 4);
    WrapTwice(a, 6);
    WrapTwice(b, 6);
    SameHalf(mem, a, b);
    SameHalf(mem, a + 2, b + 2);
    SameHalf(mem, a + 4, b + 4);
    SameHalf(mem, a + 6, b + 6);
  }

  /** `JumpAddress`: load the target through t3 and jump; `rd` receives the link. */
  function FarJump(rd: Reg, offset: int): seq<u8>
    requires -0x8000_0000 <= offset < 0x8000_0000
  {
    LoadPair(T3, offset) + WordBytes(JalrWord(rd, T3))
  }

  /** Three instructions reach any even literal, having changed t3 and the link only. */
  lemma FarJumpSteps(cpu: Cpu, pc: u64, r: Regs, mem: Memory, rd: Reg, offset: int, target: u64)
    requires -0x8000_0000 <= offset < 0x7fff_f800 && pc + 12 < TWO_64 && target % 2 == 0
    requires Holds(mem, pc, FarJump(rd, offset)) && Holds(mem, pc + offset, QuadBytes(target))
    ensures Run(cpu, Running(pc, r, mem), 3) == Running(target, Set(Set(r, T3, target), rd, pc + 12), mem)
  {
    hide LoadPair, WordBytes, QuadBytes, JalrWord, DecodeWord, Step, Wrap, Holds, Run;
    HoldsPart(mem, pc, LoadPair(T3, offset), WordBytes(JalrWord(rd, T3)));
    LoadPairLength(T3, offset);
    LoadPairSteps(cpu, pc, r, mem, T3, offset, target);
    JalrWordDecodes(rd, T3);
    var r2 := Set(r, T3, target);
    StepWord(cpu, pc + 8, r2, mem, JalrWord(rd, T3));
    WrapSmall(target);
    WrapSmall(pc + 12);
    RunAdd(cpu, Running(pc, r, mem), 2, 1);
    RunTwo(cpu, Running(pc + 8, r2, mem));
  }

  lemma LoadPairLength(rd: Reg, offset: int)
    requires -0x8000_0000 <= offset < 0x8000_0000
    ensures |LoadPair(rd, offset)| == 8
  {
    WordBytesLength(AuipcWord(rd, offset));
    WordBytesLength(LoadWord(rd, offset));
  }

  lemma FarJumpLength(rd: Reg, offset: int)
    requires -0x8000_0000 <= offset < 0x8000_0000
    ensures |FarJump(rd, offset)| == 12
  {
    LoadPairLength(T3, offset);
    WordBytesLength(JalrWord(rd, T3));
  }

  lemma QuadBytesLength(v: u64)
    ensures |QuadBytes(v)| == 8
  {
    WordBytesLength(v % 0x1_0000_0000);
    WordBytesLength(v / 0x1_0000_0000);
  }
}
