/** Which prologues are accepted, in terms of the manual's encodings alone. */
module Acceptance {
  import opened Words
  import opened Encoding
  import opened Isa
  import opened OpcodeMap
  import D = Decoder
  import R = Relocation

  // ---- The decoder's switch ----

  /** The bits that the decoder picks are parts of `funct7`. */
  lemma HighBits(w: u32)
    ensures var f7 := Funct7(w);
            && w / 0x200_0000 == f7 && w / 0x200_0000 % 4 == f7 % 4 && w / 0x800_0000 % 4 == f7 / 4 % 4
            && w / 0x1000_0000 % 2 == f7 / 8 % 2 && w / 0x2000_0000 == f7 / 0x10
            && w / 0x8000_0000 == f7 / 0x40 && w / 0x4000_0000 % 2 == f7 / 0x20 % 2
            && w / 0x200_0000 % 0x40 == f7 % 0x40
  {
    var t := w / 0x200_0000;
    assert t < 0x80;
    assert w / 0x800_0000 == t / 4 && w / 0x1000_0000 == t / 8 && w / 0x2000_0000 == t / 0x10;
    assert w / 0x4000_0000 == t / 0x20 && w / 0x8000_0000 == t / 0x40;
  }

  lemma FieldRanges(w: u32)
    ensures 0 <= Opcode(w) < 0x80 && Opcode(w) % 4 == w % 4
    ensures 0 <= Funct3(w) < 8 && 0 <= Funct7(w) < 0x80 && 0 <= Rs2(w) < 0x20
  {
    hide Opcode;
    OpcodeRange(w);
    Euclid(w / 0x1000, 8);
    Euclid(w / 0x200_0000, 0x80);
    Euclid(w / 0x10_0000, 0x20);
  }

  lemma OpcodeRange(w: u32)
    ensures 0 <= Opcode(w) < 0x80 && Opcode(w) % 4 == w % 4
  {
    Euclid(w, 0x80);
    Euclid(w % 0x80, 4);
    Div(w, 4, 0x20 * (w / 0x80) + w % 0x80 / 4, w % 0x80 % 4);
  }

  lemma OpFpExactly(w: u32)
    ensures D.DecodeOpFp(w)
            == if ReservedFp(Funct7(w) / 4, Funct7(w) % 4, Rs2(w), Funct3(w)) then [D.Undefined] else [D.PositionIndependent]
  {
    hide Funct3, Funct7, Rs2;
    FieldRanges(w);
    HighBits(w);
  }

  lemma OpVExactly(w: u32)
    ensures D.DecodeOpV(w)
            == if Funct3(w) == 7 && Funct7(w) / 0x20 == 2 && Funct7(w) % 0x20 != 0 then [] else [D.PositionIndependent]
  {
    hide Funct3, Funct7;
    FieldRanges(w);
    HighBits(w);
  }

  lemma MemoryExactly(w: u32)
    ensures D.DecodeVectorMemory(w)
            == if VectorWidth(Funct3(w)) && Funct7(w) / 8 % 2 == 1 then [D.Undefined] else [D.PositionIndependent]
  {
    hide Funct3, Funct7;
    FieldRanges(w);
    HighBits(w);
  }

  /** Every 32-bit encoding makes one callback for a skipped instruction, or `Undefined`, or none, or
      uses its address, and which it is the manual's fields say. */
  lemma BaseExactly(w: u32)
    requires w % 4 == 3
    ensures D.DecodeBaseInstruction(w) == [D.Undefined] <==> Reserved(w)
    ensures D.DecodeBaseInstruction(w) == [] <==> Unnoticed(w)
    ensures D.DecodeBaseInstruction(w) == [D.PositionIndependent] <==> !Reserved(w) && !Unnoticed(w) && !UsesPc(w)
  {
    hide Opcode, Funct3, Funct7, Rs2, Rd, Rs1;
    hide DecodeUpperImm, DecodeBranchOffset, DecodeJalrOffset, DecodeJumpOffset;
    hide D.DecodeOpFp, D.DecodeOpV, D.DecodeVectorMemory, ReservedFp, VectorWidth;
    FieldRanges(w);
    OpFpExactly(w);
    OpVExactly(w);
    MemoryExactly(w);
  }

  lemma MiscAluExactly(h: u16)
    ensures D.DecodeCompressedMiscAlu(h)
            == if h / 0x400 % 8 == 7 && (h / 0x20 % 4 == 2 || (h / 0x20 % 4 == 3 && h / 4 % 8 >= 5)) then [D.Undefined]
               else [D.PositionIndependent]
  {
    var g := h / 0x400;
    assert h / 0x1000 == g / 4;
    assert g % 8 == 4 * (g / 4 % 2) + g % 4;
  }

  /** So does every 16-bit encoding, but that some make the callback twice. */
  lemma CompressedExactly(h: u16)
    requires h % 4 != 3
    ensures D.DecodeCompressedInstruction(h) == [D.Undefined] <==> CompressedReserved(h)
    ensures D.DecodeCompressedInstruction(h) == [D.PositionIndependent, D.PositionIndependent] <==> CompressedNop(h)
    ensures D.DecodeCompressedInstruction(h) == [D.PositionIndependent]
            <==> !CompressedReserved(h) && !CompressedNop(h) && !CompressedUsesPc(h)
  {
    hide D.DecodeCompressedMiscAlu, D.DecodeCompressedJ, D.DecodeCompressedB;
    MiscAluExactly(h);
    assert h / 0x400 % 8 == 7 && h / 0x2000 == 4 <==> h / 0x400 == 0x27;
    Ebreak(h);
  }

  /** The fields of 0x9002, `c.ebreak`, and of 0x8082, `c.jr ra`. */
  lemma Ebreak(h: u16)
    ensures h == 0x9002 <==>
              h % 4 == 2 && h / 0x2000 == 4 && h / 0x1000 % 2 == 1 && h / 0x80 % 0x20 == 0 && h / 4 % 0x20 == 0
    ensures h == 0x8082 <==>
              h % 4 == 2 && h / 0x2000 == 4 && h / 0x1000 % 2 == 0 && h / 0x80 % 0x20 == 1 && h / 4 % 0x20 == 0
  {
    var a, b, c, d, e := h % 4, h / 4 % 0x20, h / 0x80 % 0x20, h / 0x1000 % 2, h / 0x2000;
    HalfParts(h);
    if a == 2 && b == 0 && e == 4 {
      assert h == 0x8002 + 0x80 * c + 0x1000 * d;
    }
  }

  lemma HalfParts(h: u16)
    ensures h == h % 4 + 4 * (h / 4 % 0x20) + 0x80 * (h / 0x80 % 0x20) + 0x1000 * (h / 0x1000 % 2) + 0x2000 * (h / 0x2000)
  {
    var x, y, z := h / 4, h / 0x80, h / 0x1000;
    assert x / 0x20 == y && y / 0x20 == z && z / 2 == h / 0x2000;
    assert h == 4 * x + h % 4 && x == 0x20 * y + x % 0x20 && y == 0x20 * z + y % 0x20 && z == 2 * (h / 0x2000) + z % 2;
  }

  // ---- The callbacks of any encoding ----

  /** No callback, the wrong number of them, or one that is a refusal before a return. */
  lemma CallbacksExactly(lo: u16, hi: u16)
    ensures D.Decode(lo, hi) == [D.Undefined] <==> IsReserved(lo, hi)
    ensures D.Decode(lo, hi) == [] <==> IsUnnoticed(lo, hi)
    ensures D.Decode(lo, hi) == [D.PositionIndependent, D.PositionIndependent] <==> IsNop(lo, hi)
    ensures D.Decode(lo, hi) == [D.PositionIndependent]
            <==> !IsReserved(lo, hi) && !IsUnnoticed(lo, hi) && !IsNop(lo, hi) && !IsUsingPc(lo, hi)
  {
    hide Reserved, Unnoticed, UsesPc, CompressedReserved, CompressedNop, CompressedUsesPc;
    hide D.DecodeBaseInstruction, D.DecodeCompressedInstruction;
    if lo % 4 == 3 {
      WordLow(lo, hi);
      BaseExactly(Word(lo, hi));
      NotDouble(Word(lo, hi));
    } else {
      CompressedExactly(lo);
      NotSilent(lo);
    }
  }

  lemma WordLow(lo: u16, hi: u16)
    ensures Word(lo, hi) % 4 == lo % 4 && Word(lo, hi) == lo + 0x1_0000 * hi
  {
    Div(Word(lo, hi), 4, 0x4000 * hi + lo / 4, lo % 4);
  }

  lemma NotDouble(w: u32)
    ensures |D.DecodeBaseInstruction(w)| <= 1
  {
    hide Opcode, Funct3, Funct7, Rs2, Rd, Rs1;
    hide DecodeUpperImm, DecodeBranchOffset, DecodeJalrOffset, DecodeJumpOffset;
  }

  lemma NotSilent(h: u16)
    ensures |D.DecodeCompressedInstruction(h)| >= 1
  {
    hide D.DecodeCompressedJ, D.DecodeCompressedB;
  }

  /** What chapter 24 lists, the decoder skips. */
  lemma ListedIsSkipped(lo: u16, hi: u16)
    requires lo % 4 == 3 && Listed(lo + 0x1_0000 * hi)
    ensures D.Decode(lo, hi) == [D.PositionIndependent]
  {
    hide D.Decode, Opcode, Funct3, Funct7, Rs2, Rd, Rs1;
    CallbacksExactly(lo, hi);
    FieldRanges(lo + 0x1_0000 * hi);
    ListedIsNotReserved(lo + 0x1_0000 * hi);
  }

  lemma ListedIsNotReserved(w: u32)
    requires Listed(w)
    ensures !Reserved(w) && !Unnoticed(w) && !UsesPc(w)
  {
    hide Opcode, Funct3, Funct7, Rs2;
    FieldRanges(w);
  }

  // ---- The return that lets undefined encodings pass ----

  lemma WordParts(w: u32)
    ensures w == Opcode(w) + 0x80 * Rd(w) + 0x1000 * Funct3(w) + 0x8000 * Rs1(w) + 0x10_0000 * (w / 0x10_0000)
  {
    var a, b, c, d := w / 0x80, w / 0x1000, w / 0x8000, w / 0x10_0000;
    assert a / 0x20 == b && b / 8 == c && c / 0x20 == d;
    assert w == 0x80 * a + w % 0x80 && a == 0x20 * b + a % 0x20 && b == 8 * c + b % 8 && c == 0x20 * d + c % 0x20;
  }

  /** The one word of `jalr x0, 0(ra)`. */
  lemma ReturnWord(w: u32)
    ensures w == 0x8067 <==> Opcode(w) == JALR && Funct3(w) == 0 && Rd(w) == 0 && Rs1(w) == 1 && DecodeJalrOffset(w) == 0
  {
    hide DecodeJalrOffset, Opcode, Funct3, Rd, Rs1, ImmI;
    WordParts(w);
    DecoderExtractsI(w);
    ZeroImmediate(w);
    if w == 0x8067 {
      ReturnFields();
    }
  }

  lemma ReturnFields()
    ensures Opcode(0x8067) == 0x67 && Funct3(0x8067) == 0 && Rd(0x8067) == 0 && Rs1(0x8067) == 1 && ImmI(0x8067) == 0
  {
    hide Opcode, Funct3, Rd, Rs1, Rs2, Funct7;
    LayoutFields(0x67, 0, 0, 1, 0, 0);
    assert Layout(0x67, 0, 0, 1, 0, 0) == 0x8067;
  }

  lemma ZeroImmediate(w: u32)
    ensures ImmI(w) == 0 <==> w / 0x10_0000 == 0
  {
    hide Rs2, Funct7;
    FieldRanges(w);
    TopTwelve(w);
  }

  /** The groups with reserved encodings make no other callback. */
  lemma OnlySkips(w: u32)
    ensures JustSkips(D.DecodeOpFp(w)) && JustSkips(D.DecodeOpV(w)) && JustSkips(D.DecodeVectorMemory(w))
    ensures JustSkips(D.DecodeOp(w)) && JustSkips(D.DecodeAmo(w))
  {
  }

  predicate JustSkips(cs: seq<D.Callback>) {
    cs == [D.PositionIndependent] || cs == [D.Undefined] || cs == []
  }

  /** The decoder names a return exactly at the two encodings of `ret`. */
  lemma ReturnExactly(lo: u16, hi: u16)
    ensures D.Decode(lo, hi) == [D.JumpAndLinkRegister(0, 1, 0)] <==> IsReturn(lo, hi)
  {
    hide D.DecodeBaseInstruction, D.DecodeCompressedInstruction;
    if lo % 4 == 3 {
      WordLow(lo, hi);
      BaseReturn(Word(lo, hi));
      assert lo + 0x1_0000 * hi == 0x8067 <==> lo == 0x8067 && hi == 0;
    } else {
      CompressedReturn(lo);
    }
  }

  lemma BaseReturn(w: u32)
    requires w % 4 == 3
    ensures D.DecodeBaseInstruction(w) == [D.JumpAndLinkRegister(0, 1, 0)] <==> w == 0x8067
  {
    hide Opcode, Funct3, Funct7, Rd, Rs1, Rs2;
    hide DecodeUpperImm, DecodeBranchOffset, DecodeJalrOffset, DecodeJumpOffset;
    hide D.DecodeOpFp, D.DecodeOpV, D.DecodeVectorMemory, D.DecodeOp, D.DecodeAmo;
    ReturnWord(w);
    FieldRanges(w);
    OnlySkips(w);
  }

  lemma CompressedReturn(h: u16)
    requires h % 4 != 3
    ensures D.DecodeCompressedInstruction(h) == [D.JumpAndLinkRegister(0, 1, 0)] <==> h == 0x8082
  {
    hide D.DecodeCompressedJ, D.DecodeCompressedB, D.DecodeCompressedMiscAlu;
    Ebreak(h);
    MiscAluExactly(h);
  }

  /** A branch of the decoder has an invalid condition exactly at `funct3` 2 and 3. */
  lemma BadBranchExactly(lo: u16, hi: u16)
    ensures (|D.Decode(lo, hi)| == 1 && D.Decode(lo, hi)[0].CompareAndBranch? && !IsBranchFunct3(D.Decode(lo, hi)[0].opcode))
            <==> IsBadBranch(lo, hi)
  {
    hide Opcode, Funct3, Funct7, Rd, Rs1, Rs2, D.DecodeCompressedJ, D.DecodeCompressedB;
    hide DecodeUpperImm, DecodeBranchOffset, DecodeJalrOffset, DecodeJumpOffset;
    hide D.DecodeOpFp, D.DecodeOpV, D.DecodeVectorMemory, D.DecodeOp, D.DecodeAmo, D.DecodeCompressedMiscAlu;
    if lo % 4 == 3 {
      WordLow(lo, hi);
      FieldRanges(Word(lo, hi));
      OnlySkips(Word(lo, hi));
    } else {
      MiscAluExactly(lo);
    }
  }

  // ---- What is accepted ----

  /** One instruction is accepted exactly when it makes one callback and, if it is reserved or a branch
      without condition, a return came before; and only a return is remembered. */
  lemma AcceptedByEncoding(c: R.Code, returned: bool)
    ensures R.After(c, returned).state in {R.Skipped, R.Relocated}
            <==> !IsUnnoticed(c.lo, c.hi) && !IsNop(c.lo, c.hi)
                 && (IsReserved(c.lo, c.hi) || IsBadBranch(c.lo, c.hi) ==> returned)
    ensures R.After(c, returned).state in {R.Skipped, R.Relocated} ==>
              (R.After(c, returned).returned <==> returned || IsReturn(c.lo, c.hi))
  {
    hide D.Decode, IsUnnoticed, IsNop, IsReserved, IsBadBranch, IsReturn, IsUsingPc;
    var cs := D.Decode(c.lo, c.hi);
    R.AcceptedExactly(c, returned);
    CallbacksExactly(c.lo, c.hi);
    ReturnExactly(c.lo, c.hi);
    BadBranchExactly(c.lo, c.hi);
    CallbackCount(c.lo, c.hi);
    if |cs| == 1 {
      assert cs == [cs[0]];
      R.HandleOne(R.Consumer(R.None, returned), cs);
    }
  }

  /** A call of the decoder makes one callback but for the two exceptions. */
  lemma CallbackCount(lo: u16, hi: u16)
    ensures var cs := D.Decode(lo, hi); |cs| == 1 || cs == [] || cs == [D.PositionIndependent, D.PositionIndependent]
  {
    hide D.DecodeCompressedJ, D.DecodeCompressedB, D.DecodeBaseInstruction;
    NotDouble(Word(lo, hi));
  }

  /** Instruction `i` of `p` may stand there. */
  ghost predicate MayStand(p: seq<R.Code>, i: nat, returned: bool)
    requires i < |p|
  {
    && !IsUnnoticed(p[i].lo, p[i].hi) && !IsNop(p[i].lo, p[i].hi)
    && (IsReserved(p[i].lo, p[i].hi) || IsBadBranch(p[i].lo, p[i].hi) ==> returned || ReturnBefore(p, i))
  }

  ghost predicate ReturnBefore(p: seq<R.Code>, i: nat)
    requires i <= |p|
  {
    exists j :: 0 <= j < i && IsReturn(p[j].lo, p[j].hi)
  }

  /** Exactly which prologues are accepted: those without a double callback, without the one silent
      encoding, and without reserved encodings ahead of the first `ret`. */
  lemma {:induction false} AcceptedPrologues(p: seq<R.Code>, returned: bool)
    ensures R.Accepted(p, returned) <==> forall i :: 0 <= i < |p| ==> MayStand(p, i, returned)
    decreases |p|
  {
    hide IsUnnoticed, IsNop, IsReserved, IsBadBranch, IsReturn, R.After;
    if p != [] {
      var c, rest := p[0], p[1..];
      AcceptedByEncoding(c, returned);
      var after := returned || IsReturn(c.lo, c.hi);
      AcceptedPrologues(rest, after);
      NothingBefore(p);
      forall i: nat | i < |rest| ensures MayStand(rest, i, after) <==> MayStand(p, i + 1, returned) {
        LaterReturn(p, i);
      }
      if R.Accepted(p, returned) {
        forall i | 0 <= i < |p| ensures MayStand(p, i, returned) {
          assert i > 0 ==> MayStand(rest, i - 1, after);
        }
      }
      if forall i :: 0 <= i < |p| ==> MayStand(p, i, returned) {
        assert MayStand(p, 0, returned);
        forall i | 0 <= i < |rest| ensures MayStand(rest, i, after) {
          assert MayStand(p, i + 1, returned);
        }
      }
    }
  }

  lemma NothingBefore(p: seq<R.Code>)
    ensures !ReturnBefore(p, 0)
  {
  }

  lemma LaterReturn(p: seq<R.Code>, i: nat)
    requires i < |p| - 1
    ensures ReturnBefore(p, i + 1) <==> IsReturn(p[0].lo, p[0].hi) || ReturnBefore(p[1..], i)
  {
    hide IsReturn;
    if ReturnBefore(p, i + 1) && !IsReturn(p[0].lo, p[0].hi) {
      var j :| 0 <= j < i + 1 && IsReturn(p[j].lo, p[j].hi);
      assert IsReturn(p[1..][j - 1].lo, p[1..][j - 1].hi);
    }
    if ReturnBefore(p[1..], i) {
      var j :| 0 <= j < i && IsReturn(p[1..][j].lo, p[1..][j].hi);
      assert IsReturn(p[j + 1].lo, p[j + 1].hi);
    }
  }

  /** So the relocator takes every prologue of listed instructions, compressed ones that are neither
      reserved nor `c.nop`, and valid jumps and branches. */
  lemma OrdinaryPrologueAccepted(original: seq<u16>, size: int, a: u64)
    requires 2 * |original| >= size + 2
    requires forall c :: c in R.Prefix(original, size) ==> Ordinary(c)
    ensures R.Relocate(original, size, a).Installed?
  {
    hide R.Prefix, R.Block, R.Accepted, Ordinary;
    var p := R.Prefix(original, size);
    AcceptedPrologues(p, false);
    forall i: nat | i < |p| ensures MayStand(p, i, false) {
      OrdinaryMayStand(p, i);
    }
  }

  /** A listed instruction, a valid use of the pc, or a 16-bit instruction. */
  predicate Ordinary(c: R.Code) {
    if c.lo % 4 == 3 then
      var w := c.lo + 0x1_0000 * c.hi;
      Listed(w) || (UsesPc(w) && !IsBadBranch(c.lo, c.hi))
    else !CompressedReserved(c.lo) && !CompressedNop(c.lo)
  }

  lemma OrdinaryMayStand(p: seq<R.Code>, i: nat)
    requires i < |p| && Ordinary(p[i])
    ensures MayStand(p, i, false)
  {
    hide Opcode, Funct3, Funct7, Rs2, CompressedReserved, CompressedNop;
    var w: int := p[i].lo + 0x1_0000 * p[i].hi;
    if p[i].lo % 4 == 3 {
      FieldRanges(w);
      if Listed(w) {
        ListedIsNotReserved(w);
      }
    }
  }
}
