/** The assembler: a growing code buffer, labels bound to positions in it, and a list of label
    references that `Finalize` patches once every label is bound. */
module Assembler {
  import opened Words
  import opened Encoding
  import opened Isa
  import opened Sequences

  /** A label of the relocator's address map, or one made by `MakeLabel`. */
  datatype Label = Address(a: u64) | Local(n: nat)

  /** A reference at byte `pc` that is to be patched. */
  datatype Jump = Reference(target: Label, pc: nat)

  type Funct3Bits = x: int | 0 <= x < 8

  /** Opcodes whose I-immediate is the low part of a label: loads, FP loads, `addi` and `jalr`. */
  type ReadOpcode = x: int | x == 0x03 || x == 0x07 || x == 0x13 || x == 0x67 witness 0x03

  /** Opcodes whose S-immediate is: stores and FP stores. */
  type WriteOpcode = x: int | x == 0x23 || x == 0x27 witness 0x23

  /** What was emitted, before it became bytes. */
  datatype Item =
    | Half(h: u16)
    | Plain(w: u32)
    | Quad(v: u64)
    | BranchTo(funct3: Funct3Bits, rs1: Reg, rs2: Reg, target: Label)
    | JumpTo(rd: Reg, target: Label)
    | LowRead(read: ReadOpcode, funct3: Funct3Bits, rd: Reg, base: Reg, target: Label)
    | LowWrite(write: WriteOpcode, funct3: Funct3Bits, rs2: Reg, base: Reg, target: Label)
  {
    predicate HasLabel() { BranchTo? || JumpTo? || LowRead? || LowWrite? }

    function Size(): nat {
      match this
      case Half(_) => 2
      case Plain(_) => 4
      case Quad(_) => 8
      case BranchTo(_, _, _, _) => 4
      case JumpTo(_, _) => 4
      case LowRead(_, _, _, _, _) => 8
      case LowWrite(_, _, _, _, _) => 8
    }
  }

  /** `Ld(rd, label)`. */
  function LoadFrom(rd: Reg, target: Label): Item { LowRead(0x03, 3, rd, rd, target) }

  // ---- Bytes before resolution: all immediate places are empty ----

  function AuipcBase(rd: Reg): u32 { 0x17 + 0x80 * rd }
  function ReadBase(op: ReadOpcode, f3: Funct3Bits, rd: Reg, base: Reg): u32 { Layout(op, rd, f3, base, 0, 0) }
  function WriteBase(op: WriteOpcode, f3: Funct3Bits, rs2: Reg, base: Reg): u32 { Layout(op, 0, f3, base, rs2, 0) }
  function JumpBase(rd: Reg): u32 { 0x6f + 0x80 * rd }
  function BranchBase(f3: Funct3Bits, rs1: Reg, rs2: Reg): u32 { Layout(0x63, 0, f3, rs1, rs2, 0) }

  function Raw(i: Item): seq<u8> {
    match i
    case Half(h) => HalfBytes(h)
    case Plain(w) => WordBytes(w)
    case Quad(v) => QuadBytes(v)
    case BranchTo(f3, rs1, rs2, _) => WordBytes(BranchBase(f3, rs1, rs2))
    case JumpTo(rd, _) => WordBytes(JumpBase(rd))
    case LowRead(op, f3, rd, base, _) => WordBytes(AuipcBase(base)) + WordBytes(ReadBase(op, f3, rd, base))
    case LowWrite(op, f3, rs2, base, _) => WordBytes(AuipcBase(base)) + WordBytes(WriteBase(op, f3, rs2, base))
  }

  lemma RawLength(i: Item)
    ensures |Raw(i)| == i.Size()
  {
    hide WordBytes;
    match i {
      case Half(h) =>
      case Plain(w) => WordBytesLength(w);
      case Quad(v) => QuadBytesLength(v);
      case BranchTo(f3, rs1, rs2, _) => WordBytesLength(BranchBase(f3, rs1, rs2));
      case JumpTo(rd, _) => WordBytesLength(JumpBase(rd));
      case LowRead(op, f3, rd, base, _) => WordBytesLength(AuipcBase(base)); WordBytesLength(ReadBase(op, f3, rd, base));
      case LowWrite(op, f3, rs2, base, _) => WordBytesLength(AuipcBase(base)); WordBytesLength(WriteBase(op, f3, rs2, base));
    }
  }

  function Emitted(items: seq<Item>): seq<u8> {
    if items == [] then [] else Raw(items[0]) + Emitted(items[1..])
  }

  function Total(items: seq<Item>): nat {
    if items == [] then 0 else items[0].Size() + Total(items[1..])
  }

  /** The references in `items`, the first of which stands at `at`. */
  function References(items: seq<Item>, at: nat): seq<Jump> {
    if items == [] then []
    else (if items[0].HasLabel() then [Reference(items[0].target, at)] else []) + References(items[1..], at + items[0].Size())
  }

  // ---- Resolution ----

  function WordAt(code: seq<u8>, p: nat): u32
    requires p + 4 <= |code|
  {
    var b0: int, b1: int, b2: int, b3: int := code[p], code[p + 1], code[p + 2], code[p + 3];
    b0 + 0x100 * b1 + 0x1_0000 * b2 + 0x100_0000 * b3
  }

  function SetWord(code: seq<u8>, p: nat, w: u32): (c: seq<u8>)
    requires p + 4 <= |code|
    ensures |c| == |code|
  {
    WordBytesLength(w);
    code[..p] + WordBytes(w) + code[p + 4..]
  }

  /** `(uint32(offset) + (uint32(offset) & (1U << 11)) * 2) & 0xffff'f000U`. */
  function TopBits(offset: int): u32 {
    var u := Wrap32(offset);
    Wrap32(u + u / 0x800 % 2 * 0x1000) / 0x1000 * 0x1000
  }

  datatype Patched = Ok(code: seq<u8>) | CheckFailed

  function OrWord(a: u32, b: u32): u32 {
    Or(a, b) % 0x1_0000_0000
  }

  /** Patching one reference, given its int32 distance: the word found there tells the format
      (bit 4 auipc, else bit 2 jal, else a branch), and for an auipc the next word tells a store
      from a load. */
  function Patch(code: seq<u8>, p: nat, offset: int): Patched
    requires -0x8000_0000 <= offset < 0x8000_0000
  {
    if p + 4 > |code| then CheckFailed
    else
      var w := WordAt(code, p);
      if w / 0x10 % 2 == 1 then
        if AcceptableU(Int32Type, offset) then Ok(SetWord(code, p, OrWord(w, MakeRawU(offset))))
        else
          var first := SetWord(code, p, OrWord(w, TopBits(offset)));
          if p + 8 > |code| then CheckFailed
          else
            var w2 := WordAt(first, p + 4);
            var low := if w2 / 0x20 % 4 == 1 then MakeRawS(Bottom(offset)) else MakeRawI(Bottom(offset));
            Ok(SetWord(first, p + 4, OrWord(w2, low)))
      else if w / 4 % 2 == 1 then
        if AcceptableJ(Int32Type, offset) then Ok(SetWord(code, p, OrWord(w, MakeRawJ(offset)))) else CheckFailed
      else
        if AcceptableB(Int32Type, offset) then Ok(SetWord(code, p, OrWord(w, MakeRawB(offset)))) else CheckFailed
  }

  function PatchAll(code: seq<u8>, jumps: seq<Jump>, labels: map<Label, nat>): Patched {
    if jumps == [] then Ok(code)
    else
      var j := jumps[|jumps| - 1];
      match PatchAll(code, jumps[..|jumps| - 1], labels)
      case CheckFailed => CheckFailed
      case Ok(c) => if j.target in labels then Patch(c, j.pc, Int32(labels[j.target] - j.pc)) else CheckFailed
  }

  // ---- What resolution means ----

  /** The bytes an item stands for when its label is `offset` bytes away. */
  function Resolved(i: Item, offset: int): seq<u8>
    requires -0x8000_0000 <= offset < 0x8000_0000 && InRange(i, offset)
  {
    match i
    case BranchTo(f3, rs1, rs2, _) => WordBytes(BranchWord(f3, rs1, rs2, offset))
    case JumpTo(rd, _) => WordBytes(JalWord(rd, offset))
    case LowRead(op, f3, rd, base, _) => ReadPair(op, f3, rd, base, offset)
    case LowWrite(op, f3, rs2, base, _) => WordBytes(AuipcWord(base, offset)) + WordBytes(WriteWord(op, f3, rs2, base, offset))
    case _ => Raw(i)
  }

  function WriteWord(op: WriteOpcode, f3: Funct3Bits, rs2: Reg, base: Reg, offset: int): u32
    requires -0x8000_0000 <= offset < 0x8000_0000
  {
    TopBottom(offset);
    StoreRoundTrip(Bottom(offset), op, f3, base, rs2);
    Layout(op, 0, f3, base, rs2, 0) + MakeRawS(Bottom(offset))
  }

  predicate InRange(i: Item, offset: int) {
    && (i.BranchTo? ==> offset % 2 == 0 && -0x1000 <= offset < 0x1000)
    && (i.JumpTo? ==> offset % 2 == 0 && -0x10_0000 <= offset < 0x10_0000)
  }

  function OffsetOf(i: Item, at: nat, labels: map<Label, nat>): (d: int)
    ensures -0x8000_0000 <= d < 0x8000_0000
  {
    if i.HasLabel() && i.target in labels then Int32(labels[i.target] - at) else 0
  }

  predicate Resolvable(items: seq<Item>, at: nat, labels: map<Label, nat>)
    decreases |items|
  {
    items == [] ||
    (&& (items[0].HasLabel() ==> items[0].target in labels)
     && InRange(items[0], OffsetOf(items[0], at, labels))
     && Resolvable(items[1..], at + items[0].Size(), labels))
  }

  function ResolvedAll(items: seq<Item>, at: nat, labels: map<Label, nat>): seq<u8>
    requires Resolvable(items, at, labels)
    decreases |items|
  {
    if items == [] then []
    else Resolved(items[0], OffsetOf(items[0], at, labels)) + ResolvedAll(items[1..], at + items[0].Size(), labels)
  }

  // ---- Or into empty places is addition ----

  /** Ors the `rd` and `funct7` places of a word that has them empty. */
  lemma OrRdFunct7(op: int, x: int, rd: int, f7: int)
    requires 0 <= op < 0x80 && 0 <= x < 0x2000 && 0 <= rd < 0x20 && 0 <= f7 < 0x80
    ensures OrWord(op + 0x1000 * x, 0x80 * rd + 0x200_0000 * f7) == op + 0x1000 * x + 0x80 * rd + 0x200_0000 * f7
  {
    hide Or;
    OrSplit7(0x20 * x, op, rd + 0x20 * (0x2000 * f7), 0);
    OrSplit5(x, 0, 0x2000 * f7, rd);
    OrSplit13(0, x, f7, 0);
    OrZero(f7);
    OrZero(x);
    OrZero(rd);
    OrZero(op);
    Div(op + 0x1000 * x + 0x80 * rd + 0x200_0000 * f7, 0x1_0000_0000, 0, op + 0x1000 * x + 0x80 * rd + 0x200_0000 * f7);
  }

  /** Ors a 20-bit upper immediate above an opcode and `rd`. */
  lemma OrUpper(low: int, u: int)
    requires 0 <= low < 0x1000 && 0 <= u < 0x10_0000
    ensures OrWord(low, 0x1000 * u) == low + 0x1000 * u
  {
    hide Or;
    OrSplit12(0, low, u, 0);
    OrZero(low);
    OrZero(u);
    Div(low + 0x1000 * u, 0x1_0000_0000, 0, low + 0x1000 * u);
  }

  /** Ors a 12-bit immediate above the `rs1` place. */
  lemma OrTop(low: int, x: int)
    requires 0 <= low < 0x10_0000 && 0 <= x < 0x1000
    ensures OrWord(low, 0x10_0000 * x) == low + 0x10_0000 * x
  {
    hide Or;
    OrSplit20(0, low, x, 0);
    OrZero(low);
    OrZero(x);
    Div(low + 0x10_0000 * x, 0x1_0000_0000, 0, low + 0x10_0000 * x);
  }

  lemma OrBranch(f3: Funct3Bits, rs1: Reg, rs2: Reg, v: int)
    requires v % 2 == 0 && -0x1000 <= v < 0x1000
    ensures OrWord(BranchBase(f3, rs1, rs2), MakeRawB(v)) == BranchWord(f3, rs1, rs2, v)
  {
    hide OrWord;
    BranchDigits(v);
    var rd := v / 0x800 % 2 + 2 * (v / 2 % 0x10);
    var f7 := v / 0x20 % 0x40 + 0x40 * (v / 0x8000_0000 % 2);
    OrRdFunct7(0x63, f3 + 8 * rs1 + 0x100 * rs2, rd, f7);
  }

  lemma OrWrite(op: WriteOpcode, f3: Funct3Bits, rs2: Reg, base: Reg, v: int)
    requires -0x800 <= v < 0x800
    ensures OrWord(WriteBase(op, f3, rs2, base), MakeRawS(v)) == WriteBase(op, f3, rs2, base) + MakeRawS(v)
  {
    hide OrWord;
    OrRdFunct7(op, f3 + 8 * base + 0x100 * rs2, v % 0x20, v / 0x20 % 0x80);
  }

  lemma OrRead(op: ReadOpcode, f3: Funct3Bits, rd: Reg, base: Reg, v: int)
    ensures OrWord(ReadBase(op, f3, rd, base), MakeRawI(v)) == ReadBase(op, f3, rd, base) + MakeRawI(v)
  {
    hide OrWord;
    OrTop(op + 0x80 * rd + 0x1000 * f3 + 0x8000 * base, v % 0x1000);
  }

  lemma OrJump(rd: Reg, v: int)
    ensures OrWord(JumpBase(rd), MakeRawJ(v)) == JalWord(rd, v)
  {
    hide OrWord;
    var s, a, b, c := v / 0x8000_0000 % 2, v / 2 % 0x400, v / 0x800 % 2, v / 0x1000 % 0x100;
    OrUpper(0x6f + 0x80 * rd, s * 0x8_0000 + a * 0x200 + b * 0x100 + c);
  }

  /** The compensated upper part, as `ResolveJumps` computes it. */
  lemma TopBitsIsTop(offset: int)
    requires -0x8000_0000 <= offset < 0x8000_0000
    ensures TopBits(offset) == MakeRawU(Top(offset)) && TopBits(offset) % 0x1000 == 0
  {
    hide Wrap32, Int32, TopBits, Bottom;
    var n := if offset < 0 then 1 else 0;
    var q, t, carry := TopParts(offset, n);
    TopBitsAre(offset, n, q, t, carry);
    PatternOfInt32(0x1000 * (q + carry));
    PatternShift(q + carry, n);
  }

  /** The offset in multiples of 0x1000, rounded to the nearest. */
  lemma TopParts(offset: int, n: int) returns (q: int, t: int, carry: int)
    requires -0x8000_0000 <= offset < 0x8000_0000 && n == if offset < 0 then 1 else 0
    ensures offset == 0x1000 * q + t && 0 <= t < 0x1000 && carry == if t < 0x800 then 0 else 1
    ensures 0 <= q + 0x10_0000 * n < 0x10_0000 && offset - Bottom(offset) == 0x1000 * (q + carry)
  {
    q, t := offset / 0x1000, offset % 0x1000;
    carry := if t < 0x800 then 0 else 1;
    Euclid(offset, 0x1000);
    Div(offset + 0x800, 0x1000, q + carry, t + 0x800 - 0x1000 * carry);
  }

  lemma TopBitsAre(offset: int, n: int, q: int, t: int, carry: int)
    requires -0x8000_0000 <= offset < 0x8000_0000 && n == if offset < 0 then 1 else 0
    requires offset == 0x1000 * q + t && 0 <= t < 0x1000 && carry == if t < 0x800 then 0 else 1
    requires 0 <= q + 0x10_0000 * n < 0x10_0000
    ensures TopBits(offset) == Wrap32(0x1000 * (q + carry + 0x10_0000 * n)) && TopBits(offset) % 0x1000 == 0
  {
    var u := offset + 0x1_0000_0000 * n;
    Div(offset, 0x1_0000_0000, -n, u);
    CarryBit(u, q + 0x10_0000 * n, t, carry);
    TopBitsStep(q + 0x10_0000 * n + carry, t, u + carry * 0x1000);
  }

  lemma CarryBit(u: int, k: int, t: int, carry: int)
    requires u == 0x1000 * k + t && 0 <= t < 0x1000 && carry == if t < 0x800 then 0 else 1
    ensures u / 0x800 % 2 == carry
  {
    Div(u, 0x800, 2 * k + carry, t - 0x800 * carry);
    Div(2 * k + carry, 2, k, carry);
  }

  lemma TopBitsStep(k: int, t: int, x: int)
    requires 0 <= k <= 0x10_0000 && 0 <= t < 0x1000 && x == 0x1000 * k + t
    ensures Wrap32(x) / 0x1000 * 0x1000 == Wrap32(0x1000 * k) && Wrap32(0x1000 * k) % 0x1000 == 0
  {
    if k == 0x10_0000 {
      Div(x, 0x1_0000_0000, 1, t);
      Div(t, 0x1000, 0, t);
      Div(0x1000 * k, 0x1_0000_0000, 1, 0);
    } else {
      Div(x, 0x1_0000_0000, 0, x);
      Div(x, 0x1000, k, t);
      Div(0x1000 * k, 0x1_0000_0000, 0, 0x1000 * k);
      Div(0x1000 * k, 0x1000, k, 0);
    }
  }

  lemma PatternOfInt32(x: int)
    ensures Wrap32(Int32(x)) == Wrap32(x)
  {
    var m := 0x1_0000_0000;
    Euclid(x + 0x8000_0000, m);
    Euclid(Int32(x), m);
    Div(x, m, Int32(x) / m + (x + 0x8000_0000) / m, Int32(x) % m);
  }

  lemma PatternShift(k: int, n: int)
    ensures Wrap32(0x1000 * (k + 0x10_0000 * n)) == Wrap32(0x1000 * k)
  {
    var m := 0x1_0000_0000;
    Euclid(0x1000 * k, m);
    Div(0x1000 * (k + 0x10_0000 * n), m, 0x1000 * k / m + n, 0x1000 * k % m);
  }

  // ---- One reference ----

  lemma WordAtBytes(a: seq<u8>, w: u32, b: seq<u8>)
    ensures |a| + 4 <= |a + WordBytes(w) + b| && WordAt(a + WordBytes(w) + b, |a|) == w
  {
    var lo, hi := w % 0x1_0000, w / 0x1_0000;
    assert WordBytes(w) == [lo % 0x100, lo / 0x100, hi % 0x100, hi / 0x100];
    var c := a + WordBytes(w) + b;
    assert c[|a|] == lo % 0x100 && c[|a| + 1] == lo / 0x100 && c[|a| + 2] == hi % 0x100 && c[|a| + 3] == hi / 0x100;
  }

  lemma SetWordBytes(a: seq<u8>, w: u32, b: seq<u8>, v: u32)
    ensures |a| + 4 <= |a + WordBytes(w) + b|
    ensures SetWord(a + WordBytes(w) + b, |a|, v) == a + WordBytes(v) + b
  {
    hide WordBytes;
    WordBytesLength(w);
    var c := a + WordBytes(w) + b;
    assert c[..|a|] == a && c[|a| + 4..] == b;
  }

  /** The format bits `ResolveJumps` looks at are bits of the opcode. */
  lemma FormatBits(op: int, k: int)
    requires 0 <= op < 0x80
    ensures (op + 0x80 * k) / 0x10 % 2 == op / 0x10 % 2 && (op + 0x80 * k) / 4 % 2 == op / 4 % 2
    ensures (op + 0x80 * k) / 0x20 % 4 == op / 0x20
  {
    var x := op + 0x80 * k;
    Div(x, 0x10, 8 * k + op / 0x10, op % 0x10);
    Div(8 * k + op / 0x10, 2, 4 * k + op / 0x10 / 2, op / 0x10 % 2);
    Div(x, 4, 0x20 * k + op / 4, op % 4);
    Div(0x20 * k + op / 4, 2, 0x10 * k + op / 4 / 2, op / 4 % 2);
    Div(x, 0x20, 4 * k + op / 0x20, op % 0x20);
    Div(4 * k + op / 0x20, 4, k, op / 0x20);
  }

  lemma PatchBranch(a: seq<u8>, f3: Funct3Bits, rs1: Reg, rs2: Reg, offset: int, b: seq<u8>)
    requires -0x8000_0000 <= offset < 0x8000_0000
    ensures Patch(a + WordBytes(BranchBase(f3, rs1, rs2)) + b, |a|, offset)
            == if offset % 2 == 0 && -0x1000 <= offset < 0x1000 then Ok(a + WordBytes(BranchWord(f3, rs1, rs2, offset)) + b)
               else CheckFailed
  {
    hide WordBytes, WordAt, SetWord, BranchWord, OrWord, MakeRawB, MakeRawJ, MakeRawU, MakeRawI, MakeRawS, TopBits, Bottom;
    hide AcceptableB, AcceptableJ, AcceptableU;
    var w := BranchBase(f3, rs1, rs2);
    WordAtBytes(a, w, b);
    FormatBits(0x63, 0x20 * (f3 + 8 * rs1 + 0x100 * rs2));
    AcceptedExactlyWhenRepresentable(Int32Type, offset);
    if offset % 2 == 0 && -0x1000 <= offset < 0x1000 {
      OrBranch(f3, rs1, rs2, offset);
      SetWordBytes(a, w, b, BranchWord(f3, rs1, rs2, offset));
    }
  }

  lemma PatchJump(a: seq<u8>, rd: Reg, offset: int, b: seq<u8>)
    requires -0x8000_0000 <= offset < 0x8000_0000
    ensures Patch(a + WordBytes(JumpBase(rd)) + b, |a|, offset)
            == if offset % 2 == 0 && -0x10_0000 <= offset < 0x10_0000 then Ok(a + WordBytes(JalWord(rd, offset)) + b)
               else CheckFailed
  {
    hide WordBytes, WordAt, SetWord, OrWord, MakeRawB, MakeRawJ, MakeRawU, MakeRawI, MakeRawS, TopBits, Bottom;
    hide AcceptableB, AcceptableJ, AcceptableU, JalWord;
    var w := JumpBase(rd);
    WordAtBytes(a, w, b);
    FormatBits(0x6f, rd);
    AcceptedExactlyWhenRepresentable(Int32Type, offset);
    if offset % 2 == 0 && -0x10_0000 <= offset < 0x10_0000 {
      OrJump(rd, offset);
      SetWordBytes(a, w, b, JalWord(rd, offset));
    }
  }

  /** The low half of a pair, with its immediate still empty and with it filled in. */
  function Filled(store: bool, w2: u32, offset: int): u32 {
    OrWord(w2, if store then MakeRawS(Bottom(offset)) else MakeRawI(Bottom(offset)))
  }

  lemma OrAuipc(rd: Reg, offset: int)
    requires -0x8000_0000 <= offset < 0x8000_0000
    ensures OrWord(AuipcBase(rd), TopBits(offset)) == AuipcWord(rd, offset)
    ensures offset % 0x1000 == 0 ==> TopBits(offset) == MakeRawU(offset) && Bottom(offset) == 0
  {
    hide OrWord, TopBits, MakeRawU, Top, Bottom;
    TopBitsIsTop(offset);
    TopBottom(offset);
    var u := TopBits(offset) / 0x1000;
    OrUpper(0x17 + 0x80 * rd, u);
    if offset % 0x1000 == 0 {
      WholePages(offset);
    }
  }

  lemma WholePages(offset: int)
    requires -0x8000_0000 <= offset < 0x8000_0000 && offset % 0x1000 == 0
    ensures Top(offset) == offset && Bottom(offset) == 0
  {
    Div(offset + 0x800, 0x1000, offset / 0x1000, 0x800);
    Div(offset + 0x8000_0000, 0x1_0000_0000, 0, offset + 0x8000_0000);
  }

  /** An offset of whole pages is a U-immediate by itself: the second word stays as it is. */
  lemma PatchPages(a: seq<u8>, rd: Reg, rest: seq<u8>, offset: int)
    requires -0x8000_0000 <= offset < 0x8000_0000 && offset % 0x1000 == 0
    ensures Patch(a + WordBytes(AuipcBase(rd)) + rest, |a|, offset) == Ok(a + WordBytes(AuipcWord(rd, offset)) + rest)
  {
    hide WordBytes, WordAt, SetWord, OrWord, MakeRawB, MakeRawJ, MakeRawU, MakeRawI, MakeRawS, TopBits, Bottom;
    hide AcceptableB, AcceptableJ, AcceptableU, AcceptableI, AuipcWord, AuipcBase;
    WordAtBytes(a, AuipcBase(rd), rest);
    AuipcFormat(rd);
    AcceptedExactlyWhenRepresentable(Int32Type, offset);
    OrAuipc(rd, offset);
    SetWordBytes(a, AuipcBase(rd), rest, AuipcWord(rd, offset));
  }

  lemma PatchSplit(a: seq<u8>, rd: Reg, w2: u32, offset: int, b: seq<u8>)
    requires -0x8000_0000 <= offset < 0x8000_0000 && offset % 0x1000 != 0
    ensures Patch(a + WordBytes(AuipcBase(rd)) + (WordBytes(w2) + b), |a|, offset)
            == Ok(a + WordBytes(AuipcWord(rd, offset)) + WordBytes(Filled(w2 / 0x20 % 4 == 1, w2, offset)) + b)
  {
    hide WordBytes, WordAt, SetWord, OrWord, MakeRawB, MakeRawJ, MakeRawU, MakeRawI, MakeRawS, TopBits, Bottom;
    hide AcceptableB, AcceptableJ, AcceptableU, AcceptableI, AuipcWord, AuipcBase;
    var w, v := AuipcBase(rd), AuipcWord(rd, offset);
    var rest := WordBytes(w2) + b;
    var code := a + WordBytes(w) + rest;
    WordAtBytes(a, w, rest);
    AuipcFormat(rd);
    AcceptedExactlyWhenRepresentable(Int32Type, offset);
    OrAuipc(rd, offset);
    SetWordBytes(a, w, rest, v);
    WordBytesLength(v);
    WordBytesLength(w);
    WordBytesLength(w2);
    var next := a + WordBytes(v);
    assert a + WordBytes(v) + rest == next + WordBytes(w2) + b;
    WordAtBytes(next, w2, b);
    SetWordBytes(next, w2, b, Filled(w2 / 0x20 % 4 == 1, w2, offset));
    assert |code| >= |a| + 8;
  }

  lemma PatchPair(a: seq<u8>, rd: Reg, w2: u32, offset: int, b: seq<u8>)
    requires -0x8000_0000 <= offset < 0x8000_0000
    requires Filled(w2 / 0x20 % 4 == 1, w2, 0) == w2
    ensures Patch(a + (WordBytes(AuipcBase(rd)) + WordBytes(w2)) + b, |a|, offset)
            == Ok(a + (WordBytes(AuipcWord(rd, offset)) + WordBytes(Filled(w2 / 0x20 % 4 == 1, w2, offset))) + b)
  {
    hide Patch, WordBytes, OrWord, MakeRawI, MakeRawS, Bottom, AuipcWord, AuipcBase;
    var v2 := Filled(w2 / 0x20 % 4 == 1, w2, offset);
    Regroup(a, WordBytes(AuipcBase(rd)), WordBytes(w2), b);
    Regroup(a, WordBytes(AuipcWord(rd, offset)), WordBytes(v2), b);
    if offset % 0x1000 == 0 {
      WholePages(0);
      WholePages(offset);
      PatchPages(a, rd, WordBytes(w2) + b, offset);
    } else {
      PatchSplit(a, rd, w2, offset, b);
    }
  }

  lemma AuipcFormat(rd: Reg)
    ensures AuipcBase(rd) / 0x10 % 2 == 1
  {
    FormatBits(0x17, rd);
  }

  lemma Regroup(a: seq<u8>, x: seq<u8>, y: seq<u8>, b: seq<u8>)
    ensures a + (x + y) + b == a + x + (y + b) == a + x + y + b
  {
  }

  lemma PatchItem(a: seq<u8>, x: Item, b: seq<u8>, offset: int)
    requires x.HasLabel() && -0x8000_0000 <= offset < 0x8000_0000
    ensures Patch(a + Raw(x) + b, |a|, offset) == if InRange(x, offset) then Ok(a + Resolved(x, offset) + b) else CheckFailed
  {
    hide Patch, WordBytes, BranchWord, JalWord, BranchBase, JumpBase, AuipcBase, ReadBase, WriteBase, AuipcWord, Filled;
    match x {
      case BranchTo(f3, rs1, rs2, _) => PatchBranch(a, f3, rs1, rs2, offset, b);
      case JumpTo(rd, _) => PatchJump(a, rd, offset, b);
      case LowRead(op, f3, rd, base, _) =>
        ReadFilled(op, f3, rd, base, offset);
        PatchPair(a, base, ReadBase(op, f3, rd, base), offset, b);
      case LowWrite(op, f3, rs2, base, _) =>
        WriteFilled(op, f3, rs2, base, offset);
        PatchPair(a, base, WriteBase(op, f3, rs2, base), offset, b);
    }
  }

  lemma ReadFilled(op: ReadOpcode, f3: Funct3Bits, rd: Reg, base: Reg, offset: int)
    requires -0x8000_0000 <= offset < 0x8000_0000
    ensures var w := ReadBase(op, f3, rd, base);
            && w / 0x20 % 4 != 1 && Filled(false, w, 0) == w
            && Filled(false, w, offset) == ReadWord(op, f3, rd, base, offset)
  {
    hide OrWord;
    FormatBits(op, rd + 0x20 * (f3 + 8 * base));
    OrRead(op, f3, rd, base, Bottom(offset));
    OrRead(op, f3, rd, base, 0);
    assert Bottom(0) == 0;
  }

  lemma WriteFilled(op: WriteOpcode, f3: Funct3Bits, rs2: Reg, base: Reg, offset: int)
    requires -0x8000_0000 <= offset < 0x8000_0000
    ensures var w := WriteBase(op, f3, rs2, base);
            && w / 0x20 % 4 == 1 && Filled(true, w, 0) == w
            && Filled(true, w, offset) == WriteWord(op, f3, rs2, base, offset)
  {
    hide OrWord;
    FormatBits(op, 0x20 * (f3 + 8 * base + 0x100 * rs2));
    TopBottom(offset);
    OrWrite(op, f3, rs2, base, Bottom(offset));
    OrWrite(op, f3, rs2, base, 0);
    assert Bottom(0) == 0;
  }

  // ---- All references ----

  lemma {:induction false} EmittedConcat(a: seq<Item>, b: seq<Item>)
    ensures Emitted(a + b) == Emitted(a) + Emitted(b)
    ensures Total(a + b) == Total(a) + Total(b)
  {
    hide Raw;
    if a == [] {
      assert a + b == b;
    } else {
      assert (a + b)[1..] == a[1..] + b;
      EmittedConcat(a[1..], b);
    }
  }

  lemma {:induction false} EmittedLength(items: seq<Item>)
    ensures |Emitted(items)| == Total(items)
  {
    hide Raw;
    if items != [] {
      RawLength(items[0]);
      EmittedLength(items[1..]);
    }
  }

  lemma {:induction false} ReferencesConcat(a: seq<Item>, b: seq<Item>, at: nat)
    ensures References(a + b, at) == References(a, at) + References(b, at + Total(a))
    decreases |a|
  {
    hide References, Total;
    if a == [] {
      assert a + b == b;
      ReferencesCons([], at);
    } else {
      assert (a + b)[1..] == a[1..] + b;
      ReferencesCons(a, at);
      ReferencesCons(a + b, at);
      ReferencesConcat(a[1..], b, at + a[0].Size());
    }
  }

  lemma ReferencesCons(items: seq<Item>, at: nat)
    ensures items == [] ==> References(items, at) == [] && Total(items) == 0
    ensures items != [] ==>
              && Total(items) == items[0].Size() + Total(items[1..])
              && References(items, at)
                 == (if items[0].HasLabel() then [Reference(items[0].target, at)] else [])
                    + References(items[1..], at + items[0].Size())
  {
  }

  lemma {:induction false} ResolvedConcat(a: seq<Item>, b: seq<Item>, at: nat, labels: map<Label, nat>)
    ensures Resolvable(a + b, at, labels) <==> Resolvable(a, at, labels) && Resolvable(b, at + Total(a), labels)
    ensures Resolvable(a + b, at, labels) ==>
              ResolvedAll(a + b, at, labels) == ResolvedAll(a, at, labels) + ResolvedAll(b, at + Total(a), labels)
    decreases |a|
  {
    hide Resolved, InRange, OffsetOf, Resolvable, ResolvedAll, Total;
    if a == [] {
      assert a + b == b;
      NothingResolved(at, labels);
    } else {
      assert (a + b)[1..] == a[1..] + b;
      ResolvedCons(a, at, labels);
      ResolvedCons(a + b, at, labels);
      ResolvedConcat(a[1..], b, at + a[0].Size(), labels);
    }
  }

  lemma NothingResolved(at: nat, labels: map<Label, nat>)
    ensures Resolvable([], at, labels) && ResolvedAll([], at, labels) == [] && Total([]) == 0
  {
  }

  /** The definitions, one item at a time. */
  lemma ResolvedCons(items: seq<Item>, at: nat, labels: map<Label, nat>)
    requires items != []
    ensures var i, next := items[0], at + items[0].Size();
            && Total(items) == i.Size() + Total(items[1..])
            && (Resolvable(items, at, labels)
                <==> (i.HasLabel() ==> i.target in labels) && InRange(i, OffsetOf(i, at, labels)) && Resolvable(items[1..], next, labels))
            && (Resolvable(items, at, labels) ==>
                ResolvedAll(items, at, labels) == Resolved(i, OffsetOf(i, at, labels)) + ResolvedAll(items[1..], next, labels))
  {
    hide Resolved, InRange, OffsetOf;
  }

  lemma ResolvedLength(i: Item, offset: int)
    requires -0x8000_0000 <= offset < 0x8000_0000 && InRange(i, offset)
    ensures |Resolved(i, offset)| == i.Size()
  {
    hide WordBytes, BranchWord, JalWord, ReadWord, AuipcWord, WriteWord;
    RawLength(i);
    match i {
      case BranchTo(f3, rs1, rs2, _) => WordBytesLength(BranchWord(f3, rs1, rs2, offset));
      case JumpTo(rd, _) => WordBytesLength(JalWord(rd, offset));
      case LowRead(op, f3, rd, base, _) =>
        WordBytesLength(AuipcWord(base, offset));
        WordBytesLength(ReadWord(op, f3, rd, base, offset));
      case LowWrite(op, f3, rs2, base, _) =>
        WordBytesLength(AuipcWord(base, offset));
        WordBytesLength(WriteWord(op, f3, rs2, base, offset));
      case _ =>
    }
  }

  lemma {:induction false} ResolvedAllLength(items: seq<Item>, at: nat, labels: map<Label, nat>)
    requires Resolvable(items, at, labels)
    ensures |ResolvedAll(items, at, labels)| == Total(items)
    decreases |items|
  {
    hide Resolved, InRange, OffsetOf;
    if items != [] {
      ResolvedLength(items[0], OffsetOf(items[0], at, labels));
      ResolvedAllLength(items[1..], at + items[0].Size(), labels);
    }
  }

  lemma ResolvedOne(x: Item, at: nat, labels: map<Label, nat>)
    ensures Emitted([x]) == Raw(x) && Total([x]) == x.Size()
    ensures References([x], at) == if x.HasLabel() then [Reference(x.target, at)] else []
    ensures Resolvable([x], at, labels) <==>
              (x.HasLabel() ==> x.target in labels) && InRange(x, OffsetOf(x, at, labels))
    ensures Resolvable([x], at, labels) ==> ResolvedAll([x], at, labels) == Resolved(x, OffsetOf(x, at, labels))
  {
    hide Raw, Resolved, InRange, OffsetOf;
    assert [x][1..] == [];
  }

  /** Resolution is correct and complete. Patching every recorded reference into the emitted
      bytes succeeds exactly when every label is bound and in range of its format, and then the
      buffer is the items with their true distances and nothing behind them has changed. */
  lemma {:induction false} ResolutionMeaning(items: seq<Item>, labels: map<Label, nat>, b: seq<u8>)
    ensures PatchAll(Emitted(items) + b, References(items, 0), labels)
            == if Resolvable(items, 0, labels) then Ok(ResolvedAll(items, 0, labels) + b) else CheckFailed
    decreases |items|
  {
    hide Patch, Raw, Resolved, InRange, OffsetOf, Resolvable, ResolvedAll, Emitted, References, Total, PatchAll;
    if items == [] {
      NothingToPatch(labels, b);
    } else {
      var front, x := items[..|items| - 1], items[|items| - 1];
      assert items == front + [x];
      var at := Total(front);
      EmittedConcat(front, [x]);
      ReferencesConcat(front, [x], 0);
      ResolvedConcat(front, [x], 0, labels);
      ResolvedOne(x, at, labels);
      assert Emitted(items) + b == Emitted(front) + (Raw(x) + b);
      ResolutionMeaning(front, labels, Raw(x) + b);
      PatchLast(front, x, labels, b);
    }
  }

  lemma NothingToPatch(labels: map<Label, nat>, b: seq<u8>)
    ensures PatchAll(Emitted([]) + b, References([], 0), labels) == Ok(ResolvedAll([], 0, labels) + b)
    ensures Resolvable([], 0, labels)
  {
    assert Emitted([]) + b == b;
  }

  lemma PatchAllSnoc(code: seq<u8>, jumps: seq<Jump>, j: Jump, labels: map<Label, nat>)
    ensures PatchAll(code, jumps + [j], labels)
            == match PatchAll(code, jumps, labels)
               case CheckFailed => CheckFailed
               case Ok(c) => if j.target in labels then Patch(c, j.pc, Int32(labels[j.target] - j.pc)) else CheckFailed
  {
    hide Patch;
    assert (jumps + [j])[..|jumps|] == jumps;
  }

  lemma PatchLast(front: seq<Item>, x: Item, labels: map<Label, nat>, b: seq<u8>)
    requires PatchAll(Emitted(front) + (Raw(x) + b), References(front, 0), labels)
             == if Resolvable(front, 0, labels) then Ok(ResolvedAll(front, 0, labels) + (Raw(x) + b)) else CheckFailed
    ensures var at := Total(front);
            var jumps := References(front, 0) + (if x.HasLabel() then [Reference(x.target, at)] else []);
            PatchAll(Emitted(front) + (Raw(x) + b), jumps, labels)
            == if Resolvable(front, 0, labels) && (x.HasLabel() ==> x.target in labels) && InRange(x, OffsetOf(x, at, labels))
               then Ok(ResolvedAll(front, 0, labels) + Resolved(x, OffsetOf(x, at, labels)) + b) else CheckFailed
  {
    hide Patch, Raw, Resolvable, ResolvedAll, Emitted, References, Total, PatchAll, BranchWord, JalWord, ReadPair, WriteWord;
    hide AuipcWord, WordBytes;
    var at := Total(front);
    var code := Emitted(front) + (Raw(x) + b);
    if Resolvable(front, 0, labels) {
      var done := ResolvedAll(front, 0, labels);
      ResolvedAllLength(front, 0, labels);
      assert done + (Raw(x) + b) == done + Raw(x) + b;
      if x.HasLabel() {
        PatchAllSnoc(code, References(front, 0), Reference(x.target, at), labels);
        if x.target in labels {
          PatchItem(done, x, b, OffsetOf(x, at, labels));
        }
      } else {
        assert References(front, 0) + [] == References(front, 0);
      }
    } else if x.HasLabel() {
      PatchAllSnoc(code, References(front, 0), Reference(x.target, at), labels);
    } else {
      assert References(front, 0) + [] == References(front, 0);
    }
  }

  // ---- The class ----

  class Assembler {
    var code: seq<u8>
    var jumps: seq<Jump>
    var labels: map<Label, nat>
    var locals: nat
    ghost var items: seq<Item>

    ghost predicate Valid()
      reads this
    {
      code == Emitted(items) && jumps == References(items, 0)
    }

    constructor ()
      ensures Valid() && items == [] && labels == map[] && locals == 0
    {
      code, jumps, labels, locals, items := [], [], map[], 0, [];
    }

    /** `pc()`. */
    function Offset(): (n: nat)
      requires Valid()
      reads this
      ensures n == Total(items)
    {
      EmittedLength(items);
      |code|
    }

    /** Emits an item without a label. */
    method Emit(i: Item)
      requires Valid() && !i.HasLabel()
      modifies this`code, this`items
      ensures Valid() && items == old(items) + [i]
    {
      hide Raw, Emitted, References, Total, Resolvable, ResolvedAll, Resolved, InRange;
      EmittedConcat(items, [i]);
      ReferencesConcat(items, [i], 0);
      ResolvedOne(i, Total(items), map[]);
      assert References(items, 0) + [] == References(items, 0);
      code := code + Raw(i);
      items := items + [i];
    }

    method TwoByte(h: u16)
      requires Valid()
      modifies this`code, this`items
      ensures Valid() && items == old(items) + [Half(h)]
    {
      Emit(Half(h));
    }

    method Emit64(v: u64)
      requires Valid()
      modifies this`code, this`items
      ensures Valid() && items == old(items) + [Quad(v)]
    {
      Emit(Quad(v));
    }

    method Jalr(rd: Reg, rs1: Reg)
      requires Valid()
      modifies this`code, this`items
      ensures Valid() && items == old(items) + [Plain(JalrWord(rd, rs1))]
    {
      Emit(Plain(JalrWord(rd, rs1)));
    }

    /** Records the reference, then emits the word or words with empty immediates. */
    method Refer(i: Item)
      requires Valid() && i.HasLabel()
      modifies this`code, this`jumps, this`items
      ensures Valid() && items == old(items) + [i]
    {
      hide Raw, Emitted, References, Total;
      EmittedConcat(items, [i]);
      ReferencesConcat(items, [i], 0);
      ResolvedOne(i, Total(items), map[]);
      jumps := jumps + [Reference(i.target, Offset())];
      code := code + Raw(i);
      items := items + [i];
    }

    method Conditional(funct3: Funct3Bits, rs1: Reg, rs2: Reg, target: Label)
      requires Valid()
      modifies this`code, this`jumps, this`items
      ensures Valid() && items == old(items) + [BranchTo(funct3, rs1, rs2, target)]
    {
      Refer(BranchTo(funct3, rs1, rs2, target));
    }

    method Jal(rd: Reg, target: Label)
      requires Valid()
      modifies this`code, this`jumps, this`items
      ensures Valid() && items == old(items) + [JumpTo(rd, target)]
    {
      Refer(JumpTo(rd, target));
    }

    method Ld(rd: Reg, target: Label)
      requires Valid()
      modifies this`code, this`jumps, this`items
      ensures Valid() && items == old(items) + [LoadFrom(rd, target)]
    {
      Refer(LoadFrom(rd, target));
    }

    /** `Lwu`, and what the load macro defines: `Lb`, `Lbu`, `Lh`, `Lhu` and `Lw` by `funct3`. */
    method Load(funct3: Funct3Bits, rd: Reg, target: Label)
      requires Valid() && (rd == X0 ==> funct3 == 6)
      modifies this`code, this`jumps, this`items
      ensures Valid() && items == old(items) + [LowRead(0x03, funct3, rd, rd, target)]
    {
      Refer(LowRead(0x03, funct3, rd, rd, target));
    }

    /** `Flw` and `Fld`, with `base` for the address. */
    method FpLoad(funct3: Funct3Bits, rd: Reg, target: Label, base: Reg)
      requires Valid() && base != X0
      modifies this`code, this`jumps, this`items
      ensures Valid() && items == old(items) + [LowRead(0x07, funct3, rd, base, target)]
    {
      Refer(LowRead(0x07, funct3, rd, base, target));
    }

    /** `Sb`, `Sh`, `Sw` and `Sd`; only the last does not check its `base`. */
    method Store(funct3: Funct3Bits, rs2: Reg, target: Label, base: Reg)
      requires Valid() && (base == X0 ==> funct3 == 3)
      modifies this`code, this`jumps, this`items
      ensures Valid() && items == old(items) + [LowWrite(0x23, funct3, rs2, base, target)]
    {
      Refer(LowWrite(0x23, funct3, rs2, base, target));
    }

    method FpStore(funct3: Funct3Bits, rs2: Reg, target: Label, base: Reg)
      requires Valid() && base != X0
      modifies this`code, this`jumps, this`items
      ensures Valid() && items == old(items) + [LowWrite(0x27, funct3, rs2, base, target)]
    {
      Refer(LowWrite(0x27, funct3, rs2, base, target));
    }

    method La(rd: Reg, target: Label)
      requires Valid() && rd != X0
      modifies this`code, this`jumps, this`items
      ensures Valid() && items == old(items) + [LowRead(0x13, 0, rd, rd, target)]
    {
      Refer(LowRead(0x13, 0, rd, rd, target));
    }

    method Call(target: Label)
      requires Valid()
      modifies this`code, this`jumps, this`items
      ensures Valid() && items == old(items) + [LowRead(0x67, 0, RA, 6, target)]
    {
      Refer(LowRead(0x67, 0, RA, 6, target));
    }

    method Tail(target: Label)
      requires Valid()
      modifies this`code, this`jumps, this`items
      ensures Valid() && items == old(items) + [LowRead(0x67, 0, X0, 6, target)]
    {
      Refer(LowRead(0x67, 0, X0, 6, target));
    }

    method MakeLabel() returns (l: Label)
      modifies this`locals
      ensures l == Local(old(locals)) && locals == old(locals) + 1
    {
      l := Local(locals);
      locals := locals + 1;
    }

    /** A label is bound once, to the current end of the buffer. */
    method Bind(l: Label)
      requires Valid() && l !in labels
      modifies this`labels
      ensures labels == old(labels)[l := Total(items)]
    {
      labels := labels[l := Offset()];
    }

    /** `ResolveJumps`; `ok` is false where a `CHECK` of the source stops the process. */
    method Finalize() returns (ok: bool)
      requires Valid()
      modifies this`code
      ensures ok <==> Resolvable(items, 0, labels)
      ensures ok ==> code == ResolvedAll(items, 0, labels)
    {
      hide Patch, PatchAll, Resolvable, ResolvedAll, Emitted, References, Int32;
      assert Emitted(items) + [] == Emitted(items);
      ResolutionMeaning(items, labels, []);
      PatchAllEmpty(code, labels);
      ghost var emitted := code;
      var k := 0;
      while k < |jumps|
        invariant 0 <= k <= |jumps| && jumps == old(jumps) && labels == old(labels)
        invariant PatchAll(emitted, jumps[..k], labels) == Ok(code)
      {
        var j := jumps[k];
        PatchAllSnoc(emitted, jumps[..k], j, labels);
        assert jumps[..k] + [j] == jumps[..k + 1];
        if j.target !in labels {
          CheckFailedStays(emitted, jumps, k + 1, labels);
          return false;
        }
        match Patch(code, j.pc, Int32(labels[j.target] - j.pc)) {
          case Ok(c) => code := c;
          case CheckFailed =>
            CheckFailedStays(emitted, jumps, k + 1, labels);
            return false;
        }
        k := k + 1;
      }
      assert jumps[..k] == jumps;
      if Resolvable(items, 0, labels) {
        assert ResolvedAll(items, 0, labels) + [] == ResolvedAll(items, 0, labels);
      }
      ok := true;
    }
  }

  lemma PatchAllEmpty(code: seq<u8>, labels: map<Label, nat>)
    ensures PatchAll(code, [], labels) == Ok(code)
  {
  }

  lemma {:induction false} CheckFailedStays(code: seq<u8>, jumps: seq<Jump>, k: nat, labels: map<Label, nat>)
    requires k <= |jumps| && PatchAll(code, jumps[..k], labels) == CheckFailed
    ensures PatchAll(code, jumps, labels) == CheckFailed
    decreases |jumps|
  {
    hide Patch;
    if k == |jumps| {
      assert jumps[..k] == jumps;
    } else {
      var front := jumps[..|jumps| - 1];
      assert front[..k] == jumps[..k];
      CheckFailedStays(code, front, k, labels);
    }
  }
}
