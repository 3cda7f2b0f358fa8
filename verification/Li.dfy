/** `Li`: loading any 64-bit constant with `lui`, `addi` and `slli`. */
module Li {
  import opened Words
  import opened Encoding
  import opened Isa
  import opened Sequences
  import opened Assembler

  type Int64Value = x: int | -0x8000_0000_0000_0000 <= x < 0x8000_0000_0000_0000

  // ---- The three instructions ----

  predicate Emittable(i: Insn) {
    match i
    case Lui(_, imm) => imm % 0x1000 == 0 && -0x8000_0000 <= imm < 0x8000_0000
    case Addi(_, _, imm) => -0x800 <= imm < 0x800
    case Slli(_, _, shamt) => shamt < 64
    case _ => false
  }

  function Encode(i: Insn): u32
    requires Emittable(i)
  {
    match i
    case Lui(rd, imm) => UpperRoundTrip(imm, 0x37, rd); 0x37 + 0x80 * rd + MakeRawU(imm)
    case Addi(rd, rs1, imm) => ImmediateRoundTrip(imm, 0x13, rd, 0, rs1); Layout(0x13, rd, 0, rs1, 0, 0) + MakeRawI(imm)
    case Slli(rd, rs1, shamt) => Layout(0x13, rd, 1, rs1, shamt % 0x20, shamt / 0x20)
  }

  /** What one of them does to the registers. */
  function Apply(i: Insn, r: Regs): Regs
    requires Emittable(i)
  {
    match i
    case Lui(rd, imm) => Set(r, rd, Wrap(imm))
    case Addi(rd, rs1, imm) => Set(r, rd, Wrap(r[rs1] + imm))
    case Slli(rd, rs1, shamt) => Set(r, rd, Wrap(Shl(r[rs1], shamt)))
  }

  predicate AllEmittable(code: seq<Insn>) {
    forall i :: 0 <= i < |code| ==> Emittable(code[i])
  }

  function ApplyAll(code: seq<Insn>, r: Regs): Regs
    requires AllEmittable(code)
  {
    if code == [] then r else Apply(code[|code| - 1], ApplyAll(code[..|code| - 1], r))
  }

  function Items(code: seq<Insn>): seq<Item>
    requires AllEmittable(code)
  {
    if code == [] then [] else Items(code[..|code| - 1]) + [Plain(Encode(code[|code| - 1]))]
  }

  // ---- Arithmetic of the algorithm ----

  function Magnitude(x: int): nat { if x < 0 then -x else x }

  /** `std::countr_zero`. */
  function Zeros(x: int): nat
    requires x != 0
    decreases Magnitude(x)
  {
    if x % 2 == 1 then 0 else 1 + Zeros(x / 2)
  }

  /** The arithmetic shift right by all trailing zeros. */
  function Odd(x: int): int
    requires x != 0
    decreases Magnitude(x)
  {
    if x % 2 == 1 then x else Odd(x / 2)
  }

  /** `(uimm + ((uimm & (1ULL << 11)) << 1)) & 0xffff'ffff'ffff'f000`, as an `int64_t`. */
  function Top64(x: Int64Value): Int64Value {
    var u := Wrap(x);
    Int64(Wrap(u + u / 0x800 % 2 * 0x1000) / 0x1000 * 0x1000)
  }

  /** The same on 32 bits. */
  function Top32(x: int): int { Int32(TopBits(x)) }

  lemma Top64Is(x: Int64Value)
    ensures Top64(x) == Int64(x - Bottom(x)) && Top64(x) % 0x1000 == 0
    ensures Magnitude(Top64(x)) <= Magnitude(x) + 0x800
    ensures Wrap(Top64(x) + Bottom(x)) == Wrap(x)
  {
    hide Wrap, Int64, Top64;
    var q, t := x / 0x1000, x % 0x1000;
    var carry := if t < 0x800 then 0 else 1;
    var n := if x < 0 then 1 else 0;
    Euclid(x, 0x1000);
    Carried(x, q, t, carry);
    Unsigned(x, q, t, carry, n);
    Signed64(q + 0x10_0000_0000_0000 * n + carry, q + carry, n);
    TopBack(x, 0x1000 * (q + carry));
  }

  lemma Carried(x: int, q: int, t: int, carry: int)
    requires x == 0x1000 * q + t && 0 <= t < 0x1000 && carry == if t < 0x800 then 0 else 1
    ensures x - Bottom(x) == 0x1000 * (q + carry)
  {
    Div(x + 0x800, 0x1000, q + carry, t + 0x800 - 0x1000 * carry);
  }

  lemma Unsigned(x: Int64Value, q: int, t: int, carry: int, n: int)
    requires x == 0x1000 * q + t && 0 <= t < 0x1000 && carry == if t < 0x800 then 0 else 1
    requires n == if x < 0 then 1 else 0
    ensures var k := q + 0x10_0000_0000_0000 * n + carry;
            && 0 <= k <= 0x10_0000_0000_0000
            && Top64(x) == Int64(if k == 0x10_0000_0000_0000 then 0 else 0x1000 * k)
  {
    hide Int64;
    var k := q + 0x10_0000_0000_0000 * n;
    var u := Wrap(x);
    Div(x, TWO_64, -n, x + TWO_64 * n);
    Div(u, 0x800, 2 * k + carry, t - 0x800 * carry);
    Div(2 * k + carry, 2, k, carry);
    Rounded(k + carry, t, u + carry * 0x1000);
  }

  lemma Rounded(k: int, t: int, x: int)
    requires 0 <= k <= 0x10_0000_0000_0000 && 0 <= t < 0x1000 && x == 0x1000 * k + t
    ensures Wrap(x) / 0x1000 * 0x1000 == if k == 0x10_0000_0000_0000 then 0 else 0x1000 * k
  {
    if k == 0x10_0000_0000_0000 {
      Div(x, TWO_64, 1, t);
      Div(t, 0x1000, 0, t);
    } else {
      Div(x, TWO_64, 0, x);
      Div(x, 0x1000, k, t);
    }
  }

  lemma Signed64(k: int, q: int, n: int)
    requires k == q + 0x10_0000_0000_0000 * n && 0 <= k <= 0x10_0000_0000_0000 && 0 <= n <= 1
    requires -0x8_0000_0000_0000 <= q <= 0x8_0000_0000_0000
    ensures Int64(if k == 0x10_0000_0000_0000 then 0 else 0x1000 * k) == Int64(0x1000 * q)
    ensures Int64(0x1000 * q) == if q == 0x8_0000_0000_0000 then -0x8000_0000_0000_0000 else 0x1000 * q
  {
    var h := 0x8000_0000_0000_0000;
    if q == 0x8_0000_0000_0000 {
      Div(0x1000 * q + h, TWO_64, 1, 0);
    } else {
      Div(0x1000 * q + h, TWO_64, 0, 0x1000 * q + h);
    }
    if k == 0x10_0000_0000_0000 {
      Div(h, TWO_64, 0, h);
    } else if n == 1 {
      Div(0x1000 * k + h, TWO_64, 1, 0x1000 * q + h);
    }
  }

  lemma TopBack(x: int, y: int)
    requires y == x - Bottom(x)
    ensures Wrap(Int64(y) + Bottom(x)) == Wrap(x)
  {
    var h := 0x8000_0000_0000_0000;
    Euclid(y + h, TWO_64);
    Euclid(x, TWO_64);
    Div(Int64(y) + Bottom(x), TWO_64, x / TWO_64 - (y + h) / TWO_64, x % TWO_64);
  }

  lemma {:induction false} OddParts(x: int)
    requires x != 0
    ensures Odd(x) % 2 == 1 && Shl(Odd(x), Zeros(x)) == x && Magnitude(Odd(x)) <= Magnitude(x)
    decreases Magnitude(x)
  {
    if x % 2 != 1 {
      OddParts(x / 2);
    }
  }

  /** A multiple of 4096 loses at least twelve bits. */
  lemma OddShrinks(x: int)
    requires x != 0 && x % 0x1000 == 0
    ensures 0x1000 * Magnitude(Odd(x)) <= Magnitude(x) && Zeros(x) >= 12
  {
    Halve(x, 12);
  }

  lemma {:induction false} Halve(x: int, n: nat)
    requires x != 0 && n <= 12 && Shl(1, n) > 0 && x % Shl(1, n) == 0
    ensures Shl(1, n) * Magnitude(Odd(x)) <= Magnitude(x) && Zeros(x) >= n
    decreases n
  {
    if n == 0 {
      OddParts(x);
    } else {
      hide Odd, Zeros, Shl;
      var d := HalfScale(n);
      EvenHalf(x, d);
      Halve(x / 2, n - 1);
      OddOfHalf(x);
      Doubled(d, Magnitude(Odd(x)), Magnitude(x / 2));
    }
  }

  lemma HalfScale(n: nat) returns (d: int)
    requires n > 0
    ensures d == Shl(1, n - 1) && Shl(1, n) == 2 * d
  {
    d := Shl(1, n - 1);
  }

  lemma EvenHalf(x: int, d: int)
    requires d > 0 && x % (2 * d) == 0
    ensures x % 2 == 0 && (x / 2) % d == 0
  {
    var q := x / (2 * d);
    Euclid(x, 2 * d);
    assert 2 * d * q == 2 * (d * q);
    Div(x, 2, d * q, 0);
    Div(x / 2, d, q, 0);
  }

  lemma OddOfHalf(x: int)
    requires x != 0 && x % 2 == 0
    ensures x / 2 != 0 && Odd(x) == Odd(x / 2) && Zeros(x) == 1 + Zeros(x / 2) && Magnitude(x) == 2 * Magnitude(x / 2)
  {
  }

  lemma Doubled(d: int, m: int, h: int)
    requires d * m <= h
    ensures 2 * d * m <= 2 * h
  {
    assert 2 * d * m == 2 * (d * m);
  }

  // ---- The code ----

  predicate Fits32(x: int) { -0x8000_0000 <= x < 0x8000_0000 }

  /** The 32-bit `Li` of the base assembler. */
  function Code32(dest: Reg, x: int): seq<Insn>
    requires Fits32(x)
  {
    if -2048 <= x <= 2047 then [Addi(dest, X0, x)]
    else [Lui(dest, Top32(x))] + (if Bottom(x) != 0 then [Addi(dest, dest, Bottom(x))] else [])
  }

  function Rank(x: int): nat {
    if x % 0x1000 != 0 then 2 * Magnitude(x) + 0x2001 else 2 * Magnitude(x)
  }

  lemma RankDrops(x: Int64Value)
    requires !Fits32(x)
    ensures x % 0x1000 != 0 ==> Rank(Top64(x)) < Rank(x)
    ensures x % 0x1000 == 0 ==> Rank(Odd(x)) < Rank(x) && -0x8000_0000_0000_0000 <= Odd(x) < 0x8000_0000_0000_0000
  {
    hide Top64, Odd;
    if x % 0x1000 != 0 {
      Top64Is(x);
    } else {
      OddShrinks(x);
    }
  }

  /** The 64-bit `Li`: peel off low bits and trailing zeros until the rest fits 32 bits. */
  function Code64(dest: Reg, x: Int64Value): seq<Insn>
    decreases Rank(x)
  {
    if Fits32(x) then Code32(dest, x)
    else
      RankDrops(x);
      if x % 0x1000 != 0 then Code64(dest, Top64(x)) + [Addi(dest, dest, Bottom(x))]
      else Code64(dest, Odd(x)) + [Slli(dest, dest, Zeros(x))]
  }

  // ---- It can be encoded, and is short ----

  lemma Top32Is(x: int)
    requires Fits32(x)
    ensures Top32(x) == Top(x)
  {
    hide TopBits, Top;
    TopBitsIsTop(x);
    TopBottom(x);
    SignedPattern(Top(x));
  }

  lemma SignedPattern(v: int)
    requires Fits32(v)
    ensures Int32(MakeRawU(v)) == v
  {
    if v < 0 {
      Div(v, 0x1_0000_0000, -1, v + 0x1_0000_0000);
      Div(v + 0x1_8000_0000, 0x1_0000_0000, 1, v + 0x8000_0000);
    } else {
      Div(v, 0x1_0000_0000, 0, v);
      Div(v + 0x8000_0000, 0x1_0000_0000, 0, v + 0x8000_0000);
    }
  }

  lemma {:induction false} ShlGrows(m: nat, n: nat)
    requires m <= n
    ensures 0 < Shl(1, m) <= Shl(1, n)
    decreases n
  {
    if m < n {
      ShlGrows(m, n - 1);
    } else if n > 0 {
      ShlGrows(m - 1, n - 1);
    }
  }

  lemma {:induction false} ShlTwice(x: int, m: nat, n: nat)
    ensures Shl(Shl(x, m), n) == Shl(x, m + n)
  {
    if n > 0 {
      ShlTwice(x, m, n - 1);
    }
  }

  lemma ShlPowers()
    ensures Shl(1, 32) == 0x1_0000_0000 && Shl(1, 64) == 0x1_0000_0000_0000_0000
  {
    Eight(0);
    Eight(8);
    Eight(16);
    Eight(24);
    Eight(32);
    Eight(40);
    Eight(48);
    Eight(56);
  }

  lemma Eight(n: nat)
    ensures Shl(1, n + 8) == 0x100 * Shl(1, n)
  {
    assert Shl(1, n + 8) == 2 * Shl(1, n + 7) == 4 * Shl(1, n + 6) == 8 * Shl(1, n + 5) == 0x10 * Shl(1, n + 4);
    assert Shl(1, n + 4) == 2 * Shl(1, n + 3) == 4 * Shl(1, n + 2) == 8 * Shl(1, n + 1);
  }

  lemma MagnitudeOfProduct(x: int, d: nat)
    requires x != 0
    ensures Magnitude(x * d) >= d
  {
    if d > 0 {
      if x > 0 {
        MulAtLeast(d, x);
      } else {
        MulAtMost(d, x);
      }
    }
  }

  lemma ZerosBound(x: Int64Value)
    requires x != 0
    ensures Zeros(x) < 64
  {
    hide Shl, Odd, Zeros;
    OddParts(x);
    ShlProduct(Odd(x), Zeros(x));
    MagnitudeOfProduct(Odd(x), ShlOne(Zeros(x)));
    ShlPowers();
    if Zeros(x) >= 64 {
      ShlGrows(64, Zeros(x));
    }
  }

  function ShlOne(n: nat): (d: nat)
    ensures d == Shl(1, n)
  {
    ShlGrows(n, n);
    Shl(1, n)
  }

  lemma {:induction false} CodeIsEmittable(dest: Reg, x: Int64Value)
    ensures AllEmittable(Code64(dest, x))
    decreases Rank(x)
  {
    hide Bottom, Top64, Odd, Zeros;
    if Fits32(x) {
      Top32Is(x);
      TopBottom(x);
    } else if x % 0x1000 != 0 {
      RankDrops(x);
      CodeIsEmittable(dest, Top64(x));
      BottomSmall(x);
    } else {
      RankDrops(x);
      CodeIsEmittable(dest, Odd(x));
      ZerosBound(x);
    }
  }

  lemma BottomSmall(x: int)
    ensures -0x800 <= Bottom(x) < 0x800
  {
  }

  /** How far a constant may be from zero if `n` rounds are to reduce it to 32 bits. */
  function Reach(n: nat): nat {
    if n == 0 then 0x7fff_ffff else 0x1000 * Reach(n - 1)
  }

  /** `Li` emits at most eight instructions. */
  lemma AtMostEight(dest: Reg, x: Int64Value)
    ensures |Code64(dest, x)| <= 8
  {
    hide Code64;
    assert Reach(3) == 0x1000 * Reach(2) == 0x100_0000 * Reach(1) == 0x10_0000_0000 * Reach(0);
    Rounds(dest, x, 3);
  }

  /** A 32-bit constant takes one instruction exactly when one `addi` or one `lui` can load it, and
      else two. */
  lemma OneOrTwo(dest: Reg, x: int)
    requires Fits32(x)
    ensures |Code64(dest, x)| == if -2048 <= x < 2048 || x % 4096 == 0 then 1 else 2
  {
    hide Top32, TopBits;
    Euclid(x, 0x1000);
  }

  /** A round removes at least twelve bits with at most two instructions. */
  lemma {:induction false} Rounds(dest: Reg, x: Int64Value, n: nat)
    requires Magnitude(x) <= Reach(n)
    ensures |Code64(dest, x)| <= 2 + 2 * n
    decreases n, 0
  {
    hide Bottom, Top64, Odd, Zeros, Top32;
    if !Fits32(x) {
      RankDrops(x);
      if x % 0x1000 != 0 {
        Top64Is(x);
        WithinPages(Top64(x), x, Reach(n - 1));
        RoundEnds(dest, Top64(x), n - 1);
      } else {
        RoundEnds(dest, x, n - 1);
      }
    }
  }

  lemma RoundEnds(dest: Reg, y: Int64Value, n: nat)
    requires y % 0x1000 == 0 && Magnitude(y) <= 0x1000 * Reach(n)
    ensures |Code64(dest, y)| <= 3 + 2 * n
    decreases n, 1
  {
    hide Bottom, Top64, Odd, Zeros, Top32;
    if !Fits32(y) {
      RankDrops(y);
      OddShrinks(y);
      Rounds(dest, Odd(y), n);
    }
  }

  lemma WithinPages(y: int, x: int, k: nat)
    requires y % 0x1000 == 0 && Magnitude(y) <= Magnitude(x) + 0x800 && Magnitude(x) <= 0x1000 * k
    ensures Magnitude(y) <= 0x1000 * k
  {
    Euclid(y, 0x1000);
  }

  // ---- It runs ----

  lemma ReadAddi(w: u32, rd: Reg, rs1: Reg, imm: int)
    requires Opcode(w) == 0x13 && Funct3(w) == 0 && Rd(w) == rd && Rs1(w) == rs1 && ImmI(w) == imm
    ensures w % 4 == 3 && DecodeWord(w) == Addi(rd, rs1, imm)
  {
    OpcodeLow(w);
  }

  lemma ReadSlli(w: u32, rd: Reg, rs1: Reg, shamt: nat)
    requires shamt < 64 && Opcode(w) == 0x13 && Funct3(w) == 1 && Rd(w) == rd && Rs1(w) == rs1
    requires Rs2(w) == shamt % 0x20 && Funct7(w) == shamt / 0x20
    ensures w % 4 == 3 && DecodeWord(w) == Slli(rd, rs1, shamt)
  {
    OpcodeLow(w);
  }

  lemma EncodeDecodes(i: Insn)
    requires Emittable(i)
    ensures Encode(i) % 4 == 3 && DecodeWord(Encode(i)) == i
  {
    hide DecodeWord, ImmU, ImmI, Opcode, Rd, Rs1, Rs2, Funct3, Funct7, Layout, MakeRawU, MakeRawI;
    match i {
      case Lui(rd, imm) =>
        UpperRoundTrip(imm, 0x37, rd);
        ReadLui(Encode(i), rd, imm);
      case Addi(rd, rs1, imm) =>
        ImmediateRoundTrip(imm, 0x13, rd, 0, rs1);
        ReadAddi(Encode(i), rd, rs1, imm);
      case Slli(rd, rs1, shamt) =>
        LayoutFields(0x13, rd, 1, rs1, shamt % 0x20, shamt / 0x20);
        ReadSlli(Encode(i), rd, rs1, shamt);
    }
  }

  lemma EmittedSnoc(code: seq<Insn>, i: Insn)
    requires AllEmittable(code) && Emittable(i)
    ensures AllEmittable(code + [i]) && Items(code + [i]) == Items(code) + [Plain(Encode(i))]
    ensures Emitted(Items(code + [i])) == Emitted(Items(code)) + WordBytes(Encode(i))
  {
    hide Emitted, Encode, WordBytes;
    assert (code + [i])[..|code|] == code;
    EmittedConcat(Items(code), [Plain(Encode(i))]);
    ResolvedOne(Plain(Encode(i)), 0, map[]);
  }

  lemma {:induction false} EmittedSize(code: seq<Insn>)
    requires AllEmittable(code)
    ensures |Emitted(Items(code))| == 4 * |code|
    decreases |code|
  {
    hide Emitted, Encode, WordBytes, Emittable;
    if code == [] {
      EmittedLength([]);
      assert Total([]) == 0;
    } else {
      var front, last := code[..|code| - 1], code[|code| - 1];
      assert code == front + [last];
      EmittedSize(front);
      EmittedSnoc(front, last);
      WordBytesLength(Encode(last));
    }
  }

  /** The emitted bytes do to the registers what the instructions say, one step each. */
  lemma {:induction false} RunsStraight(cpu: Cpu, code: seq<Insn>, pc: u64, r: Regs, mem: Memory)
    requires AllEmittable(code) && Holds(mem, pc, Emitted(Items(code)))
    ensures Run(cpu, Running(pc, r, mem), |code|) == Running(Wrap(pc + 4 * |code|), ApplyAll(code, r), mem)
    decreases |code|
  {
    hide Emitted, Encode, WordBytes, Holds, Run, Step, Emittable, Wrap, Items, Apply, DecodeWord;
    if code == [] {
      WrapSmall(pc);
      assert Run(cpu, Running(pc, r, mem), 0) == Running(pc, r, mem) by { RunNone(cpu, Running(pc, r, mem)); }
    } else {
      var front, last := code[..|code| - 1], code[|code| - 1];
      assert code == front + [last];
      EmittedSnoc(front, last);
      EmittedSize(front);
      HoldsPart(mem, pc, Emitted(Items(front)), WordBytes(Encode(last)));
      RunsStraight(cpu, front, pc, r, mem);
      HoldsWrapped(mem, pc + 4 * |front|, WordBytes(Encode(last)));
      LastStep(cpu, last, Wrap(pc + 4 * |front|), ApplyAll(front, r), mem);
      WrapTwice(pc + 4 * |front|, 4);
      RunAdd(cpu, Running(pc, r, mem), |front|, 1);
      RunTwo(cpu, Running(Wrap(pc + 4 * |front|), ApplyAll(front, r), mem));
    }
  }

  lemma RunNone(cpu: Cpu, s: State)
    ensures Run(cpu, s, 0) == s
  {
  }

  lemma LastStep(cpu: Cpu, i: Insn, pc: u64, r: Regs, mem: Memory)
    requires Emittable(i) && Holds(mem, pc, WordBytes(Encode(i)))
    ensures Step(cpu, Running(pc, r, mem)) == Running(Wrap(pc + 4), Apply(i, r), mem)
  {
    hide Encode, WordBytes, Holds, Step, Wrap, DecodeWord;
    EncodeDecodes(i);
    StepWord(cpu, pc, r, mem, Encode(i));
  }

  // ---- What it loads ----

  /** What `lui` and `addi` are short of: `lui` sign-extends an upper part of 2^31. */
  function Error(x: Int64Value): nat
    decreases Rank(x)
  {
    if Fits32(x) then (if x >= 0x7fff_f800 then 0x1_0000_0000 else 0)
    else
      RankDrops(x);
      if x % 0x1000 != 0 then Error(Top64(x))
      else
        Shl(Error(Odd(x)), Zeros(x))
  }

  lemma ApplySnoc(code: seq<Insn>, i: Insn, r: Regs)
    requires AllEmittable(code) && Emittable(i)
    ensures AllEmittable(code + [i]) && ApplyAll(code + [i], r) == Apply(i, ApplyAll(code, r))
  {
    hide Apply, Emittable;
    assert (code + [i])[..|code|] == code;
  }

  lemma ApplyOne(i: Insn, r: Regs)
    requires Emittable(i)
    ensures ApplyAll([i], r) == Apply(i, r)
  {
    hide Apply, Emittable;
    ApplySnoc([], i, r);
    assert [] + [i] == [i];
  }

  lemma Loads32(dest: Reg, x: int, r: Regs)
    requires dest != X0 && Fits32(x)
    ensures AllEmittable(Code32(dest, x))
    ensures ApplyAll(Code32(dest, x), r) == Set(r, dest, Wrap(if x >= 0x7fff_f800 then x - 0x1_0000_0000 else x))
  {
    hide Top32, Bottom, Top, Wrap, ApplyAll;
    Top32Is(x);
    TopBottom(x);
    if -2048 <= x <= 2047 {
      ApplyOne(Addi(dest, X0, x), r);
    } else {
      var lui, add := Lui(dest, Top32(x)), Addi(dest, dest, Bottom(x));
      ApplyOne(lui, r);
      if Bottom(x) != 0 {
        ApplySnoc([lui], add, r);
        WrapTwice(Top(x), Bottom(x));
        assert Code32(dest, x) == [lui] + [add];
      } else {
        assert Code32(dest, x) == [lui];
      }
    }
  }

  lemma WrapShl(v: int, n: nat)
    ensures Wrap(Shl(Wrap(v), n)) == Wrap(Shl(v, n))
  {
    hide Shl;
    var d, q := Shl(1, n), v / TWO_64;
    ShlProduct(Wrap(v), n);
    ShlProduct(v, n);
    Euclid(v, TWO_64);
    Multiples(Wrap(v) * d, q * d, v * d, q, d, Wrap(v), v);
  }

  lemma Multiples(x: int, k: int, y: int, q: int, d: int, w: int, v: int)
    requires x == w * d && k == q * d && y == v * d && v == TWO_64 * q + w
    ensures Wrap(x) == Wrap(y)
  {
    assert y == TWO_64 * k + x;
    Euclid(x, TWO_64);
    Div(y, TWO_64, k + x / TWO_64, x % TWO_64);
  }

  lemma ShlMinus(x: int, y: int, n: nat)
    ensures Shl(x, n) - Shl(y, n) == Shl(x - y, n)
  {
    if n > 0 {
      ShlMinus(x, y, n - 1);
    }
  }

  /** The destination ends up with the constant, short by the error; nothing else changes. */
  lemma {:induction false} Loads64(dest: Reg, x: Int64Value, r: Regs)
    requires dest != X0
    ensures AllEmittable(Code64(dest, x))
    ensures ApplyAll(Code64(dest, x), r) == Set(r, dest, Wrap(x - Error(x)))
    decreases Rank(x)
  {
    hide Bottom, Top64, Odd, Zeros, Wrap, Code32, ApplyAll, Shl;
    CodeIsEmittable(dest, x);
    if Fits32(x) {
      Loads32(dest, x, r);
    } else if x % 0x1000 != 0 {
      RankDrops(x);
      Loads64(dest, Top64(x), r);
      BottomSmall(x);
      ApplySnoc(Code64(dest, Top64(x)), Addi(dest, dest, Bottom(x)), r);
      AddsUp(x, Top64(x), Error(x));
    } else {
      RankDrops(x);
      Loads64(dest, Odd(x), r);
      ZerosBound(x);
      ApplySnoc(Code64(dest, Odd(x)), Slli(dest, dest, Zeros(x)), r);
      ShiftsUp(x);
    }
  }

  lemma AddsUp(x: Int64Value, top: int, e: int)
    requires top == Top64(x)
    ensures Wrap(Wrap(top - e) + Bottom(x)) == Wrap(x - e)
  {
    hide Bottom, Top64, Wrap;
    Top64Is(x);
    WrapTwice(top - e, Bottom(x));
    WrapTwice(top + Bottom(x), -e);
    WrapTwice(x, -e);
    assert top - e + Bottom(x) == top + Bottom(x) + -e;
  }

  lemma ShiftsUp(x: Int64Value)
    requires !Fits32(x) && x % 0x1000 == 0
    ensures -0x8000_0000_0000_0000 <= Odd(x) < 0x8000_0000_0000_0000
    ensures Wrap(Shl(Wrap(Odd(x) - Error(Odd(x))), Zeros(x))) == Wrap(x - Error(x))
  {
    hide Odd, Zeros, Wrap, Shl;
    RankDrops(x);
    OddParts(x);
    var v := Odd(x) - Error(Odd(x));
    WrapShl(v, Zeros(x));
    ShlMinus(Odd(x), Error(Odd(x)), Zeros(x));
  }

  // ---- Exactly when it is right ----

  /** The 32-bit constant the recursion ends with. */
  function Residue(x: Int64Value): (r: int)
    ensures Fits32(r)
    decreases Rank(x)
  {
    if Fits32(x) then x
    else
      RankDrops(x);
      if x % 0x1000 != 0 then Residue(Top64(x)) else Residue(Odd(x))
  }

  /** By how much it is shifted back in all. */
  function Shift(x: Int64Value): nat
    decreases Rank(x)
  {
    if Fits32(x) then 0
    else
      RankDrops(x);
      if x % 0x1000 != 0 then Shift(Top64(x)) else Shift(Odd(x)) + Zeros(x)
  }

  lemma {:induction false} ErrorIs(x: Int64Value)
    ensures Error(x) == if Residue(x) >= 0x7fff_f800 then Shl(0x1_0000_0000, Shift(x)) else 0
    decreases Rank(x)
  {
    hide Top64, Odd, Zeros;
    if !Fits32(x) {
      RankDrops(x);
      if x % 0x1000 != 0 {
        ErrorIs(Top64(x));
      } else {
        ErrorIs(Odd(x));
        ShlTwice(0x1_0000_0000, Shift(Odd(x)), Zeros(x));
        ShlProduct(0, Zeros(x));
      }
    }
  }

  lemma ErrorVanishes(x: int, s: nat)
    ensures Wrap(x - Shl(0x1_0000_0000, s)) == Wrap(x) <==> s >= 32
  {
    hide Shl;
    ShlPowers();
    ShlTwice(1, 32, s);
    Euclid(x, TWO_64);
    if s >= 32 {
      ShlTwice(1, 64, s - 32);
      ShlProduct(TWO_64, s - 32);
      Div(x - TWO_64 * Shl(1, s - 32), TWO_64, x / TWO_64 - Shl(1, s - 32), x % TWO_64);
    } else {
      ShlGrows(0, 32 + s);
      ShlStrict(32 + s, 64);
      NotAMultiple(x, Shl(1, 32 + s));
    }
  }

  lemma ShlStrict(m: nat, n: nat)
    requires m < n
    ensures Shl(1, m) < Shl(1, n)
  {
    ShlGrows(m, n - 1);
  }

  lemma NotAMultiple(x: int, e: int)
    requires 0 < e < TWO_64
    ensures Wrap(x - e) != Wrap(x)
  {
    Euclid(x, TWO_64);
    Euclid(x - e, TWO_64);
  }

  /** `Li` loads `x` exactly, for every `x` whose 32-bit residue is not one of the 2048 values from
      0x7ffff800 on, and for those only if 32 bits or more are shifted back, where the error
      leaves the register. */
  lemma LoadsExactly(cpu: Cpu, dest: Reg, x: Int64Value, pc: u64, r: Regs, mem: Memory) returns (v: u64)
    requires dest != X0
    ensures var code := Code64(dest, x);
            && AllEmittable(code)
            && (Holds(mem, pc, Emitted(Items(code))) ==>
                  Run(cpu, Running(pc, r, mem), |code|) == Running(Wrap(pc + 4 * |code|), Set(r, dest, v), mem))
    ensures v == Wrap(x) <==> Residue(x) < 0x7fff_f800 || Shift(x) >= 32
  {
    hide Code64, Emitted, Holds, Run, Items, Wrap, Residue, Shift, Error, ApplyAll, Shl, Emittable;
    var code := Code64(dest, x);
    v := Wrap(x - Error(x));
    Loads64(dest, x, r);
    if Holds(mem, pc, Emitted(Items(code))) {
      RunsStraight(cpu, code, pc, r, mem);
    }
    ErrorIs(x);
    ErrorVanishes(x, Shift(x));
  }

  // ---- The emitting methods ----

  method Emit(a: Assembler, i: Insn)
    requires a.Valid() && Emittable(i)
    modifies a`code, a`items
    ensures a.Valid() && a.items == old(a.items) + [Plain(Encode(i))]
  {
    a.Emit(Plain(Encode(i)));
  }

  method Li32(a: Assembler, dest: Reg, x: int)
    requires a.Valid() && Fits32(x)
    modifies a`code, a`items
    ensures a.Valid() && AllEmittable(Code32(dest, x)) && a.items == old(a.items) + Items(Code32(dest, x))
  {
    hide Emitted, References, Top32, Bottom, Encode, Top;
    Top32Is(x);
    TopBottom(x);
    ghost var was := a.items;
    if -2048 <= x <= 2047 {
      ItemsOne(Addi(dest, X0, x));
      Emit(a, Addi(dest, X0, x));
    } else {
      var top, bottom := Top32(x), Bottom(x);
      ItemsOne(Lui(dest, top));
      Emit(a, Lui(dest, top));
      if bottom != 0 {
        ItemsSnoc([Lui(dest, top)], Addi(dest, dest, bottom), was);
        Emit(a, Addi(dest, dest, bottom));
      }
    }
  }

  method Li(a: Assembler, dest: Reg, x: Int64Value)
    requires a.Valid()
    modifies a`code, a`items
    ensures a.Valid() && AllEmittable(Code64(dest, x)) && a.items == old(a.items) + Items(Code64(dest, x))
    decreases Rank(x)
  {
    hide Emitted, References, Bottom, Encode, Top64, Odd, Zeros, Items, Code32;
    ghost var was := a.items;
    CodeIsEmittable(dest, x);
    if Fits32(x) {
      Li32(a, dest, x);
    } else {
      RankDrops(x);
      if x % 0x1000 != 0 {
        BottomSmall(x);
        Li(a, dest, Top64(x));
        ItemsSnoc(Code64(dest, Top64(x)), Addi(dest, dest, Bottom(x)), was);
        Emit(a, Addi(dest, dest, Bottom(x)));
      } else {
        ZerosBound(x);
        Li(a, dest, Odd(x));
        ItemsSnoc(Code64(dest, Odd(x)), Slli(dest, dest, Zeros(x)), was);
        Emit(a, Slli(dest, dest, Zeros(x)));
      }
    }
  }

  lemma ItemsOne(i: Insn)
    requires Emittable(i)
    ensures Items([i]) == [Plain(Encode(i))]
  {
    hide Encode, Emittable;
    EmittedSnoc([], i);
    assert [] + [i] == [i];
  }

  lemma ItemsSnoc(code: seq<Insn>, i: Insn, was: seq<Item>)
    requires AllEmittable(code) && Emittable(i)
    ensures AllEmittable(code + [i]) && was + Items(code) + [Plain(Encode(i))] == was + Items(code + [i])
  {
    hide Encode, Emittable, Items;
    EmittedSnoc(code, i);
  }
}
