/** What the relocator promises: which prologues it accepts, the block it builds, and the
    proof that running the block means the same as running the prologue. */
module Relocation {
  import opened Words
  import opened Isa
  import opened Sequences
  import D = Decoder
  import Encoding

  // ---- The prologue ----

  /** One instruction; `hi` is zero for a 16-bit encoding. */
  datatype Code = Code(lo: u16, hi: u16)
  {
    function Size(): (n: int)
      ensures n == 2 || n == 4
    {
      Length(lo)
    }

    function Insn(): (i: Insn)
      ensures i.Branch? ==> IsBranchFunct3(i.funct3)
    {
      DecodeLength(lo, hi);
      Decode(lo, hi)
    }
  }

  /** The whole instructions the loop consumes while `size` is positive. */
  function Prefix(original: seq<u16>, size: int): (p: seq<Code>)
    requires 2 * |original| >= size + 2
    decreases |original|
  {
    if size <= 0 then []
    else
      var n := Length(original[0]);
      [Code(original[0], if n == 4 then original[1] else 0)] + Prefix(original[n / 2..], size - n)
  }

  function Overwritten(p: seq<Code>): nat {
    if p == [] then 0 else p[0].Size() + Overwritten(p[1..])
  }

  /** The consumed bytes cover the request and exceed it by at most one halfword. */
  lemma {:induction false} OverwrittenBounds(original: seq<u16>, size: int)
    requires 2 * |original| >= size + 2 && size >= 0 && size % 2 == 0
    ensures size <= Overwritten(Prefix(original, size)) <= size + 2
    decreases |original|
  {
    if size > 0 {
      var n := Length(original[0]);
      assert Prefix(original, size)[1..] == Prefix(original[n / 2..], size - n);
      if size - n >= 0 {
        OverwrittenBounds(original[n / 2..], size - n);
      }
    }
  }

  // ---- Acceptance: the consumer's state machine ----

  datatype Progress = None | Skipped | Relocated | Error
  datatype Consumer = Consumer(state: Progress, returned: bool)

  function SetNewState(c: Consumer, s: Progress): Consumer {
    c.(state := if c.state == None then s else Error)
  }

  function Undefined(c: Consumer): Consumer {
    SetNewState(c, if c.returned then Skipped else Error)
  }

  function Handle(c: Consumer, cb: D.Callback): Consumer {
    match cb
    case PositionIndependent => SetNewState(c, Skipped)
    case Auipc(_, _) => SetNewState(c, Relocated)
    case CompareAndBranch(opcode, _, _, _) =>
      if IsBranchFunct3(opcode) then SetNewState(c, Relocated) else Undefined(c)
    case JumpAndLink(_, _) => SetNewState(c, Relocated)
    case JumpAndLinkRegister(dst, base, offset) =>
      SetNewState(c.(returned := c.returned || (dst == 0 && base == 1 && offset == 0)), Skipped)
    case Undefined => Undefined(c)
  }

  function HandleAll(c: Consumer, cs: seq<D.Callback>): Consumer
    decreases |cs|
  {
    if cs == [] then c else HandleAll(Handle(c, cs[0]), cs[1..])
  }

  function After(c: Code, returned: bool): Consumer {
    HandleAll(Consumer(None, returned), D.Decode(c.lo, c.hi))
  }

  /** `Relocate` succeeds on `p` when entered with the `returned_` flag. */
  predicate Accepted(p: seq<Code>, returned: bool) {
    p == [] ||
    (After(p[0], returned).state in {Skipped, Relocated} && Accepted(p[1..], After(p[0], returned).returned))
  }

  // ---- The block ----

  /** The callback that decides how an accepted instruction is translated. */
  function Shape(c: Code): (cb: D.Callback)
    ensures cb.CompareAndBranch? ==> IsBranchFunct3(cb.opcode)
  {
    var cs := D.Decode(c.lo, c.hi);
    if |cs| == 1 && (cs[0].CompareAndBranch? ==> IsBranchFunct3(cs[0].opcode)) then cs[0] else D.PositionIndependent
  }

  function ChunkSize(c: Code): nat {
    match Shape(c)
    case Auipc(_, _) => 8
    case CompareAndBranch(_, _, _, _) => 20
    case JumpAndLink(_, _) => 12
    case _ => c.Size()
  }

  function BodySize(p: seq<Code>): nat {
    if p == [] then 0 else ChunkSize(p[0]) + BodySize(p[1..])
  }

  /** The absolute addresses an instruction at `pc` refers to. */
  function Targets(c: Code, pc: u64): set<u64> {
    match Shape(c)
    case Auipc(_, imm) => {Wrap(pc + imm)}
    case CompareAndBranch(_, _, _, offset) => {Wrap(pc + offset)}
    case JumpAndLink(_, offset) => {Wrap(pc + offset)}
    case _ => {}
  }

  function AllTargets(p: seq<Code>, pc: u64): set<u64> {
    if p == [] then {pc} else Targets(p[0], pc) + AllTargets(p[1..], Wrap(pc + p[0].Size()))
  }

  function IndexOf(keys: seq<u64>, a: u64): (i: nat)
    requires a in keys
    ensures i < |keys| && keys[i] == a
  {
    if keys[0] == a then 0 else 1 + IndexOf(keys[1..], a)
  }

  /** Distance from `at` to the literal `a` of a pool that starts at `base`. */
  function Distance(keys: seq<u64>, base: nat, at: nat, a: u64): (d: int)
    ensures -0x8000_0000 <= d < 0x8000_0000
  {
    if a in keys then Int32(base + 8 * IndexOf(keys, a) - at) else 0
  }

  function CopyBytes(c: Code): seq<u8> {
    if c.Size() == 4 then HalfBytes(c.lo) + HalfBytes(c.hi) else HalfBytes(c.lo)
  }

  /** The translation of one instruction that stood at `pc`, placed at `at`. */
  function Chunk(c: Code, pc: u64, at: nat, keys: seq<u64>, base: nat): seq<u8> {
    match Shape(c)
    case Auipc(dst, imm) => LoadPair(dst, Distance(keys, base, at, Wrap(pc + imm)))
    case CompareAndBranch(opcode, src1, src2, offset) =>
      WordBytes(BranchWord(opcode, src1, src2, 8)) + WordBytes(JalWord(X0, 16))
      + FarJump(X0, Distance(keys, base, at + 8, Wrap(pc + offset)))
    case JumpAndLink(dst, offset) => FarJump(dst, Distance(keys, base, at, Wrap(pc + offset)))
    case _ => CopyBytes(c)
  }

  function Body(p: seq<Code>, pc: u64, at: nat, keys: seq<u64>, base: nat): seq<u8> {
    if p == [] then FarJump(X0, Distance(keys, base, at, pc))
    else Chunk(p[0], pc, at, keys, base) + Body(p[1..], Wrap(pc + p[0].Size()), at + ChunkSize(p[0]), keys, base)
  }

  function PoolBytes(keys: seq<u64>): seq<u8> {
    if keys == [] then [] else PoolBytes(keys[..|keys| - 1]) + QuadBytes(keys[|keys| - 1])
  }

  /** The block for prologue `p` at address `a`, with its literals in the order `keys`. */
  function Block(p: seq<Code>, a: u64, keys: seq<u64>): seq<u8> {
    Body(p, a, 0, keys, BodySize(p) + 12) + PoolBytes(keys)
  }

  function BlockSize(p: seq<Code>, keys: seq<u64>): nat { BodySize(p) + 12 + 8 * |keys| }

  lemma ChunkLength(c: Code, pc: u64, at: nat, keys: seq<u64>, base: nat)
    ensures |Chunk(c, pc, at, keys, base)| == ChunkSize(c)
  {
    hide LoadPair, WordBytes, BranchWord, JalWord, JalrWord, FarJump, Shape, Distance;
    match Shape(c) {
      case Auipc(dst, imm) => LoadPairLength(dst, Distance(keys, base, at, Wrap(pc + imm)));
      case CompareAndBranch(opcode, src1, src2, offset) =>
        WordBytesLength(BranchWord(opcode, src1, src2, 8));
        WordBytesLength(JalWord(X0, 16));
        FarJumpLength(X0, Distance(keys, base, at + 8, Wrap(pc + offset)));
      case JumpAndLink(dst, offset) => FarJumpLength(dst, Distance(keys, base, at, Wrap(pc + offset)));
      case _ =>
    }
  }

  lemma {:induction false} BodyLength(p: seq<Code>, pc: u64, at: nat, keys: seq<u64>, base: nat)
    ensures |Body(p, pc, at, keys, base)| == BodySize(p) + 12
  {
    hide Chunk, FarJump, ChunkSize;
    if p == [] {
      FarJumpLength(X0, Distance(keys, base, at, pc));
    } else {
      ChunkLength(p[0], pc, at, keys, base);
      BodyLength(p[1..], Wrap(pc + p[0].Size()), at + ChunkSize(p[0]), keys, base);
    }
  }

  lemma {:induction false} PoolLength(keys: seq<u64>)
    ensures |PoolBytes(keys)| == 8 * |keys|
  {
    hide QuadBytes;
    if keys != [] {
      PoolLength(keys[..|keys| - 1]);
      QuadBytesLength(keys[|keys| - 1]);
    }
  }

  lemma {:induction false} PoolSlot(keys: seq<u64>, i: nat)
    requires i < |keys|
    ensures 8 * i + 8 <= |PoolBytes(keys)|
    ensures PoolBytes(keys)[8 * i..8 * i + 8] == QuadBytes(keys[i])
  {
    hide QuadBytes;
    var front, last := keys[..|keys| - 1], keys[|keys| - 1];
    PoolLength(keys);
    PoolLength(front);
    QuadBytesLength(last);
    if i < |front| {
      PoolSlot(front, i);
      assert PoolBytes(keys)[8 * i..8 * i + 8] == PoolBytes(front)[8 * i..8 * i + 8];
    } else {
      assert PoolBytes(keys)[8 * i..8 * i + 8] == QuadBytes(last);
    }
  }

  // ---- Running the prologue where it was ----

  /** How control leaves the prologue: `index` instructions were executed; the last of them, if
      it was a call, wrote the address of the next one into `link`. */
  datatype Exit = Left(pc: u64, regs: Regs, mem: Memory, index: nat, link: Reg) | Faulted

  function LinkOf(i: Insn): Reg {
    match i
    case Jal(rd, _, _) => rd
    case Jalr(rd, _, _, _) => rd
    case _ => X0
  }

  function Later(e: Exit): Exit {
    match e
    case Left(pc, r, mem, index, link) => Left(pc, r, mem, index + 1, link)
    case Faulted => Faulted
  }

  function RunOriginal(cpu: Cpu, p: seq<Code>, pc: u64, r: Regs, mem: Memory): Exit
    decreases |p|
  {
    if p == [] then Left(pc, r, mem, 0, X0)
    else
      match Exec(cpu, p[0].Insn(), pc, r, mem)
      case Fall(r', mem') => Later(RunOriginal(cpu, p[1..], Wrap(pc + p[0].Size()), r', mem'))
      case Jump(t, r', mem') => Left(t, r', mem', 1, LinkOf(p[0].Insn()))
      case Trap => Faulted
  }

  /** Byte position in the block of instruction number `k`. */
  function Position(p: seq<Code>, k: nat): nat
    requires k <= |p|
  {
    if k == 0 then 0 else ChunkSize(p[0]) + Position(p[1..], k - 1)
  }

  /** No store of this run hits the relocated block at `base`. */
  ghost predicate Spares(cpu: Cpu, p: seq<Code>, pc: u64, r: Regs, mem: Memory, block: seq<u8>, home: u64)
    decreases |p|
  {
    Holds(mem, home, block) &&
    (p != [] ==>
      match Exec(cpu, p[0].Insn(), pc, r, mem)
      case Fall(r', mem') => Spares(cpu, p[1..], Wrap(pc + p[0].Size()), r', mem', block, home)
      case _ => true)
  }

  predicate NoAuipcIntoZero(p: seq<Code>) {
    forall i :: 0 <= i < |p| ==> !(p[i].Insn().Auipc? && p[i].Insn().rd == X0)
  }

  /** `auipc x0` does nothing, but its translation reads through x0 the low page address left of
      its literal's distance; this says that the doubleword there can be read. */
  ghost predicate ZeroLoadReadable(c: Code, pc: u64, at: nat, keys: seq<u64>, base: nat, mem: Memory) {
    c.Insn().Auipc? && c.Insn().rd == X0 ==> HasDouble(mem, Bottom(Distance(keys, base, at, Wrap(pc + c.Insn().imm))))
  }

  /** The same for every `auipc x0` this run meets. */
  ghost predicate ZeroLoadsReadable(cpu: Cpu, p: seq<Code>, pc: u64, r: Regs, mem: Memory, at: nat, keys: seq<u64>, base: nat)
    decreases |p|
  {
    p == [] ||
    (&& ZeroLoadReadable(p[0], pc, at, keys, base, mem)
     && match Exec(cpu, p[0].Insn(), pc, r, mem)
        case Fall(r', mem') =>
          ZeroLoadsReadable(cpu, p[1..], Wrap(pc + p[0].Size()), r', mem', at + ChunkSize(p[0]), keys, base)
        case _ => true)
  }

  /** The state after leaving the block, against the state after leaving the prologue: t3 is
      free, and the link register holds the image of the original return address. */
  ghost predicate SameButScratch(original: Regs, relocated: Regs, link: Reg, image: int) {
    && (forall i: Reg :: i != T3 && i != link ==> relocated[i] == original[i])
    && (link != X0 ==> relocated[link] == image)
  }

  // ---- One instruction ----

  ghost predicate PositionIndependent(i: Insn) {
    i.Lui? || i.Ld? || i.Addi? || i.Slli? || i.Other?
  }

  lemma ExecAnywhere(cpu: Cpu, i: Insn, pc: u64, pc': u64, r: Regs, mem: Memory)
    requires PositionIndependent(i)
    ensures Exec(cpu, i, pc, r, mem) == Exec(cpu, i, pc', r, mem)
    ensures !Exec(cpu, i, pc, r, mem).Jump?
  {
  }

  /** An accepted instruction is translated according to what it is. */
  lemma ShapeOfAccepted(c: Code, returned: bool)
    requires After(c, returned).state in {Skipped, Relocated}
    ensures match c.Insn()
            case Auipc(rd, imm) => Shape(c) == D.Auipc(rd, imm)
            case Jal(rd, offset, _) => Shape(c) == D.JumpAndLink(rd, offset)
            case Branch(f3, rs1, rs2, offset, _) => Shape(c) == D.CompareAndBranch(f3, rs1, rs2, offset)
            case _ => Shape(c).PositionIndependent? || Shape(c).JumpAndLinkRegister? || Shape(c).Undefined?
  {
    hide D.Decode, Decode;
    D.DecoderDescribes(c.lo, c.hi);
    SingleCallback(D.Decode(c.lo, c.hi), returned);
  }

  /** Two callbacks collide in `SetNewState`, none leaves `kNone`: both are refused. */
  lemma SingleCallback(cs: seq<D.Callback>, returned: bool)
    requires HandleAll(Consumer(None, returned), cs).state in {Skipped, Relocated}
    ensures |cs| == 1
  {
    if |cs| >= 2 {
      var c1 := Handle(Consumer(None, returned), cs[0]);
      var c2 := Handle(c1, cs[1]);
      assert cs[1..][0] == cs[1];
      StaysInError(c2, cs[1..][1..]);
    }
  }

  lemma {:induction false} StaysInError(c: Consumer, cs: seq<D.Callback>)
    requires c.state == Error
    ensures HandleAll(c, cs).state == Error
    decreases |cs|
  {
    if cs != [] {
      StaysInError(Handle(c, cs[0]), cs[1..]);
    }
  }

  /** The literals of the pool are in memory. */
  ghost predicate PoolHeld(mem: Memory, home: u64, base: nat, keys: seq<u64>) {
    forall i :: 0 <= i < |keys| ==> Holds(mem, home + base + 8 * i, QuadBytes(keys[i]))
  }

  /** The literal for `a` is where its distance says. */
  lemma LiteralHeld(mem: Memory, home: u64, base: nat, keys: seq<u64>, at: nat, a: u64)
    requires PoolHeld(mem, home, base, keys) && a in keys && at <= base && base + 8 * |keys| < 0x7fff_f800
    ensures 0 <= Distance(keys, base, at, a) < 0x7fff_f800
    ensures Holds(mem, home + at + Distance(keys, base, at, a), QuadBytes(a))
  {
    hide Holds, QuadBytes;
    var i := IndexOf(keys, a);
    var d := base + 8 * i - at;
    Div(d + 0x8000_0000, 0x1_0000_0000, 0, d + 0x8000_0000);
    assert keys[i] == a;
    assert home + at + d == home + base + 8 * i;
  }

  /** `s` is what the relocated machine should be in after an original instruction had effect
      `e`, when the next instruction's translation starts at address `next`. */
  ghost predicate Matches(e: Effect, s: State, next: u64, link: Reg) {
    match e
    case Fall(r, mem) => s == Running(next, r, mem)
    case Jump(t, r, mem) => s.Running? && s.pc == t && s.mem == mem && SameButScratch(r, s.regs, link, next)
    case Trap => s == Trapped
  }

  lemma CopyIsWord(c: Code)
    requires c.Size() == 4
    ensures CopyBytes(c) == WordBytes(Word(c.lo, c.hi)) && Word(c.lo, c.hi) % 4 == 3
  {
    var w := Word(c.lo, c.hi);
    Div(w, 0x1_0000, c.hi, c.lo);
    Div(w, 4, 0x4000 * c.hi + c.lo / 4, c.lo % 4);
  }

  lemma CopyStep(cpu: Cpu, c: Code, pc: u64, r: Regs, mem: Memory)
    requires Holds(mem, pc, CopyBytes(c))
    ensures Step(cpu, Running(pc, r, mem)) == Continue(Exec(cpu, c.Insn(), pc, r, mem), pc, c.Size())
  {
    hide Exec, WordBytes, HalfBytes, Step, DecodeWord, DecodeCompressed, Holds;
    if c.Size() == 4 {
      CopyIsWord(c);
      StepWord(cpu, pc, r, mem, Word(c.lo, c.hi));
    } else {
      StepHalf(cpu, pc, r, mem, c.lo);
    }
  }

  lemma CopySimulates(cpu: Cpu, c: Code, returned: bool, pc: u64, here: u64, r: Regs, mem: Memory)
    requires After(c, returned).state in {Skipped, Relocated}
    requires PositionIndependent(c.Insn()) || c.Insn().Jalr?
    requires Holds(mem, here, CopyBytes(c)) && here + c.Size() < TWO_64
    ensures Matches(Exec(cpu, c.Insn(), pc, r, mem), Run(cpu, Running(here, r, mem), 1), here + c.Size(), LinkOf(c.Insn()))
  {
    hide Step, CopyBytes, Decode, After;
    CopyStep(cpu, c, here, r, mem);
    RunTwo(cpu, Running(here, r, mem));
    WrapSmall(here + c.Size());
    if c.Insn().Jalr? {
      DecodeLength(c.lo, c.hi);
    } else {
      ExecAnywhere(cpu, c.Insn(), pc, here, r, mem);
    }
  }

  lemma AuipcSimulates(cpu: Cpu, rd: Reg, imm: int, pc: u64, here: u64, r: Regs, mem: Memory, d: int)
    requires rd != X0 && 0 <= d < 0x7fff_f800 && here + 8 < TWO_64
    requires Holds(mem, here, LoadPair(rd, d)) && Holds(mem, here + d, QuadBytes(Wrap(pc + imm)))
    ensures Matches(Exec(cpu, Auipc(rd, imm), pc, r, mem), Run(cpu, Running(here, r, mem), 2), here + 8, X0)
  {
    hide Run, LoadPair, QuadBytes, Holds, Wrap;
    LoadPairSteps(cpu, here, r, mem, rd, d, Wrap(pc + imm));
  }

  /** What becomes of `auipc x0`. */
  lemma AuipcIntoZero(cpu: Cpu, imm: int, pc: u64, here: u64, r: Regs, mem: Memory, d: int)
    requires 0 <= d < 0x7fff_f800 && here + 8 < TWO_64 && Holds(mem, here, LoadPair(X0, d))
    ensures var s := Run(cpu, Running(here, r, mem), 2);
            if HasDouble(mem, Bottom(d)) then Matches(Exec(cpu, Auipc(X0, imm), pc, r, mem), s, here + 8, X0)
            else s == Trapped
  {
    hide Run, LoadPair, Holds, Wrap, HasDouble, Bottom;
    LoadPairIntoZero(cpu, here, r, mem, d);
  }

  lemma JalSimulates(cpu: Cpu, rd: Reg, offset: int, n: int, pc: u64, here: u64, r: Regs, mem: Memory, d: int)
    requires pc % 2 == 0 && offset % 2 == 0 && 0 <= d < 0x7fff_f800 && here + 12 < TWO_64
    requires Holds(mem, here, FarJump(rd, d)) && Holds(mem, here + d, QuadBytes(Wrap(pc + offset)))
    ensures Matches(Exec(cpu, Jal(rd, offset, n), pc, r, mem), Run(cpu, Running(here, r, mem), 3), here + 12, rd)
  {
    hide Run, FarJump, QuadBytes, Holds, Wrap;
    EvenTarget(pc, offset);
    FarJumpSteps(cpu, here, r, mem, rd, d, Wrap(pc + offset));
  }

  lemma EvenTarget(pc: u64, offset: int)
    requires pc % 2 == 0 && offset % 2 == 0
    ensures Wrap(pc + offset) % 2 == 0
  {
    Euclid(pc + offset, TWO_64);
    var q := (pc + offset) / TWO_64;
    Div(Wrap(pc + offset), 2, pc / 2 + offset / 2 - 0x8000_0000_0000_0000 * q, 0);
  }

  /** The two words in front of a far jump: the branch skips to it, the jump skips over it. */
  function BranchHead(f3: int, rs1: Reg, rs2: Reg): seq<u8>
    requires IsBranchFunct3(f3)
  {
    WordBytes(BranchWord(f3, rs1, rs2, 8)) + WordBytes(JalWord(X0, 16))
  }

  lemma BranchHeadSteps(cpu: Cpu, f3: int, rs1: Reg, rs2: Reg, here: u64, r: Regs, mem: Memory)
    requires IsBranchFunct3(f3) && here + 20 < TWO_64
    requires Holds(mem, here, BranchHead(f3, rs1, rs2))
    ensures Taken(f3, r[rs1], r[rs2]) ==> Run(cpu, Running(here, r, mem), 1) == Running(here + 8, r, mem)
    ensures !Taken(f3, r[rs1], r[rs2]) ==> Run(cpu, Running(here, r, mem), 2) == Running(here + 20, r, mem)
  {
    hide Step, WordBytes, BranchWord, JalWord, Holds, DecodeWord, Taken, Run;
    var branch, jump := BranchWord(f3, rs1, rs2, 8), JalWord(X0, 16);
    HoldsPart(mem, here, WordBytes(branch), WordBytes(jump));
    WordBytesLength(branch);
    BranchWordDecodes(f3, rs1, rs2, 8);
    StepWord(cpu, here, r, mem, branch);
    JalWordDecodes(X0, 16);
    StepWord(cpu, here + 4, r, mem, jump);
    WrapSmall(here + 8);
    WrapSmall(here + 4);
    WrapSmall(here + 20);
    RunTwo(cpu, Running(here, r, mem));
  }

  lemma BranchSimulates(cpu: Cpu, f3: int, rs1: Reg, rs2: Reg, offset: int, n: int, pc: u64, here: u64, r: Regs,
                        mem: Memory, d: int) returns (steps: nat)
    requires IsBranchFunct3(f3) && pc % 2 == 0 && offset % 2 == 0 && 0 <= d < 0x7fff_f800 && here + 20 < TWO_64
    requires Holds(mem, here, BranchHead(f3, rs1, rs2)) && Holds(mem, here + 8, FarJump(X0, d))
    requires Holds(mem, here + 8 + d, QuadBytes(Wrap(pc + offset)))
    ensures Matches(Exec(cpu, Branch(f3, rs1, rs2, offset, n), pc, r, mem), Run(cpu, Running(here, r, mem), steps),
                    here + 20, X0)
  {
    hide Run, FarJump, BranchHead, QuadBytes, Holds, Wrap, Taken;
    BranchHeadSteps(cpu, f3, rs1, rs2, here, r, mem);
    if Taken(f3, r[rs1], r[rs2]) {
      EvenTarget(pc, offset);
      FarJumpSteps(cpu, here + 8, r, mem, X0, d, Wrap(pc + offset));
      RunAdd(cpu, Running(here, r, mem), 1, 3);
      steps := 4;
    } else {
      steps := 2;
    }
  }

  lemma OffsetsAreEven(c: Code)
    ensures c.Insn().Jal? ==> c.Insn().offset % 2 == 0
    ensures c.Insn().Branch? ==> c.Insn().offset % 2 == 0
  {
    hide ImmCJ, ImmCB, Encoding.ImmJ, Encoding.ImmB;
    CompressedEven(c.lo);
    WordEven(Word(c.lo, c.hi));
  }

  lemma CompressedEven(h: u16)
    ensures ImmCJ(h) % 2 == 0 && ImmCB(h) % 2 == 0
  {
    var j := -0x400 * (h / 0x1000 % 2) + 8 * (h / 0x800 % 2) + 0x80 * (h / 0x200 % 4) + 0x200 * (h / 0x100 % 2)
             + 0x20 * (h / 0x80 % 2) + 0x40 * (h / 0x40 % 2) + h / 8 % 8 + 0x10 * (h / 4 % 2);
    Div(ImmCJ(h), 2, j, 0);
    var b := -0x80 * (h / 0x1000 % 2) + 4 * (h / 0x400 % 4) + 0x20 * (h / 0x20 % 4) + h / 8 % 4 + 0x10 * (h / 4 % 2);
    Div(ImmCB(h), 2, b, 0);
  }

  lemma WordEven(w: u32)
    ensures Encoding.ImmJ(w) % 2 == 0 && Encoding.ImmB(w) % 2 == 0
  {
    hide Encoding.Imm20, Encoding.Funct7, Encoding.Rd;
    var u, f7, rd := Encoding.Imm20(w), Encoding.Funct7(w), Encoding.Rd(w);
    Div(Encoding.ImmJ(w), 2, -0x8_0000 * (u / 0x8_0000) + 0x800 * (u % 0x100) + 0x400 * (u / 0x100 % 2) + u / 0x200 % 0x400, 0);
    Div(Encoding.ImmB(w), 2, -0x800 * (f7 / 0x40) + 0x400 * (rd % 2) + 0x10 * (f7 % 0x40) + rd / 2, 0);
  }

  /** Where a block may stand: below the top of the address space, and short enough for the
      auipc pairs to reach its pool. */
  ghost predicate Fits(home: u64, base: nat, keys: seq<u64>) {
    base + 8 * |keys| < 0x7fff_f800 && home + base + 8 * |keys| < TWO_64
  }

  lemma ChunkSimulates(cpu: Cpu, c: Code, returned: bool, pc: u64, at: nat, keys: seq<u64>, base: nat, home: u64,
                       r: Regs, mem: Memory) returns (steps: nat)
    requires After(c, returned).state in {Skipped, Relocated}
    requires pc % 2 == 0 && (forall t :: t in Targets(c, pc) ==> t in keys)
    requires Fits(home, base, keys) && at + ChunkSize(c) + 12 <= base
    requires Holds(mem, home + at, Chunk(c, pc, at, keys, base)) && PoolHeld(mem, home, base, keys)
    ensures home + at + ChunkSize(c) < TWO_64
    ensures var s := Run(cpu, Running(home + at, r, mem), steps);
            if ZeroLoadReadable(c, pc, at, keys, base, mem)
            then Matches(Exec(cpu, c.Insn(), pc, r, mem), s, home + at + ChunkSize(c), LinkOf(c.Insn()))
            else s == Trapped
  {
    hide After, Holds, LoadPair, FarJump, Run, Exec, Distance, QuadBytes, WordBytes, PoolHeld, Matches, Decode;
    hide BranchWord, JalWord, CopyBytes, Shape, Wrap, HasDouble, Bottom;
    ShapeOfAccepted(c, returned);
    OffsetsAreEven(c);
    match c.Insn() {
      case Auipc(rd, imm) =>
        var t := Wrap(pc + imm);
        LiteralHeld(mem, home, base, keys, at, t);
        if rd == X0 {
          AuipcIntoZero(cpu, imm, pc, home + at, r, mem, Distance(keys, base, at, t));
        } else {
          AuipcSimulates(cpu, rd, imm, pc, home + at, r, mem, Distance(keys, base, at, t));
        }
        steps := 2;
      case Jal(rd, offset, n) =>
        var t := Wrap(pc + offset);
        LiteralHeld(mem, home, base, keys, at, t);
        JalSimulates(cpu, rd, offset, n, pc, home + at, r, mem, Distance(keys, base, at, t));
        steps := 3;
      case Branch(f3, rs1, rs2, offset, n) =>
        var t := Wrap(pc + offset);
        var d := Distance(keys, base, at + 8, t);
        LiteralHeld(mem, home, base, keys, at + 8, t);
        HoldsPart(mem, home + at, BranchHead(f3, rs1, rs2), FarJump(X0, d));
        WordBytesLength(BranchWord(f3, rs1, rs2, 8));
        WordBytesLength(JalWord(X0, 16));
        steps := BranchSimulates(cpu, f3, rs1, rs2, offset, n, pc, home + at, r, mem, d);
      case _ =>
        CopySimulates(cpu, c, returned, pc, home + at, r, mem);
        steps := 1;
    }
  }

  // ---- The whole prologue ----

  ghost predicate ExitMatches(e: Exit, s: State, p: seq<Code>, here: int) {
    match e
    case Left(t, r, mem, index, link) =>
      && index <= |p|
      && s.Running? && s.pc == t && s.mem == mem
      && SameButScratch(r, s.regs, link, here + Position(p, index))
    case Faulted => s == Trapped
  }

  lemma PositionOfRest(p: seq<Code>, k: nat)
    requires 0 < k <= |p|
    ensures Position(p, k) == ChunkSize(p[0]) + Position(p[1..], k - 1)
  {
  }

  /** The part of the block that belongs to the rest of the prologue. */
  ghost predicate SplitAt(block: seq<u8>, front: seq<u8>, p: seq<Code>, pc: u64, keys: seq<u64>, base: nat) {
    block == front + (Body(p, pc, |front|, keys, base) + PoolBytes(keys)) && |front| + BodySize(p) + 12 == base
  }

  lemma SplitHolds(mem: Memory, home: u64, block: seq<u8>, front: seq<u8>, p: seq<Code>, pc: u64, keys: seq<u64>, base: nat)
    requires SplitAt(block, front, p, pc, keys, base) && Holds(mem, home, block)
    ensures Holds(mem, home + |front|, Body(p, pc, |front|, keys, base)) && PoolHeld(mem, home, base, keys)
  {
    hide Holds, Body, PoolBytes, QuadBytes;
    var body := Body(p, pc, |front|, keys, base);
    BodyLength(p, pc, |front|, keys, base);
    HoldsPart(mem, home, front, body + PoolBytes(keys));
    HoldsPart(mem, home + |front|, body, PoolBytes(keys));
    forall i | 0 <= i < |keys| ensures Holds(mem, home + base + 8 * i, QuadBytes(keys[i])) {
      PoolSlot(keys, i);
      HoldsSlice(mem, home + base, PoolBytes(keys), 8 * i, 8 * i + 8);
    }
  }

  lemma BodyCons(p: seq<Code>, pc: u64, at: nat, keys: seq<u64>, base: nat)
    requires p != []
    ensures Body(p, pc, at, keys, base) == Chunk(p[0], pc, at, keys, base)
            + Body(p[1..], Wrap(pc + p[0].Size()), at + ChunkSize(p[0]), keys, base)
    ensures BodySize(p) == ChunkSize(p[0]) + BodySize(p[1..])
  {
    hide Chunk, ChunkSize, Wrap;
  }

  lemma SplitNext(block: seq<u8>, front: seq<u8>, p: seq<Code>, pc: u64, keys: seq<u64>, base: nat)
    requires p != [] && SplitAt(block, front, p, pc, keys, base)
    ensures SplitAt(block, front + Chunk(p[0], pc, |front|, keys, base), p[1..], Wrap(pc + p[0].Size()), keys, base)
    ensures |front + Chunk(p[0], pc, |front|, keys, base)| == |front| + ChunkSize(p[0])
  {
    hide Chunk, ChunkSize, PoolBytes, Wrap, Body, BodySize;
    var chunk := Chunk(p[0], pc, |front|, keys, base);
    ChunkLength(p[0], pc, |front|, keys, base);
    BodyCons(p, pc, |front|, keys, base);
    Reassociate(front, chunk, Body(p[1..], Wrap(pc + p[0].Size()), |front| + ChunkSize(p[0]), keys, base), PoolBytes(keys));
  }

  lemma Reassociate(a: seq<u8>, b: seq<u8>, c: seq<u8>, d: seq<u8>)
    ensures a + ((b + c) + d) == (a + b) + (c + d)
  {
  }

  lemma ExitLater(e: Exit, s: State, p: seq<Code>, here: int)
    requires p != [] && ExitMatches(e, s, p[1..], here + ChunkSize(p[0]))
    ensures ExitMatches(Later(e), s, p, here)
  {
    hide ChunkSize, SameButScratch;
    if e.Left? {
      PositionOfRest(p, e.index + 1);
    }
  }

  lemma ExitNow(e: Effect, s: State, p: seq<Code>, here: int, next: u64, link: Reg)
    requires p != [] && !e.Fall? && Matches(e, s, next, link) && next == here + ChunkSize(p[0])
    ensures e.Jump? ==> ExitMatches(Left(e.target, e.regs, e.mem, 1, link), s, p, here)
    ensures e.Trap? ==> ExitMatches(Faulted, s, p, here)
  {
    hide ChunkSize, SameButScratch;
    assert Position(p, 1) == ChunkSize(p[0]) + Position(p[1..], 0);
  }

  lemma EndSimulates(cpu: Cpu, pc: u64, here: u64, r: Regs, mem: Memory, d: int)
    requires pc % 2 == 0 && 0 <= d < 0x7fff_f800 && here + 12 < TWO_64
    requires Holds(mem, here, FarJump(X0, d)) && Holds(mem, here + d, QuadBytes(pc))
    ensures ExitMatches(RunOriginal(cpu, [], pc, r, mem), Run(cpu, Running(here, r, mem), 3), [], here)
  {
    hide Run, FarJump, QuadBytes, Holds;
    FarJumpSteps(cpu, here, r, mem, X0, d, pc);
  }

  /** From the start of any instruction's translation on, the block does what the rest of the
      prologue does. */
  lemma {:induction false} SimulatesFrom(cpu: Cpu, p: seq<Code>, returned: bool, pc: u64, front: seq<u8>, keys: seq<u64>,
                                         base: nat, block: seq<u8>, home: u64, r: Regs, mem: Memory) returns (steps: nat)
    requires Accepted(p, returned) && pc % 2 == 0
    requires forall t :: t in AllTargets(p, pc) ==> t in keys
    requires Fits(home, base, keys) && SplitAt(block, front, p, pc, keys, base)
    requires Spares(cpu, p, pc, r, mem, block, home)
    ensures var s := Run(cpu, Running(home + |front|, r, mem), steps);
            if ZeroLoadsReadable(cpu, p, pc, r, mem, |front|, keys, base)
            then ExitMatches(RunOriginal(cpu, p, pc, r, mem), s, p, home + |front|)
            else s == Trapped
    decreases |p|
  {
    hide Holds, Run, Exec, Distance, QuadBytes, FarJump, Chunk, ChunkSize, Targets, PoolHeld, After, Wrap, SplitAt, Fits;
    hide Decode, PoolBytes, ExitMatches, SameButScratch, Body, BodySize, LinkOf, ZeroLoadReadable;
    SplitHolds(mem, home, block, front, p, pc, keys, base);
    if p == [] {
      EndFits(keys, base, home, front, pc, mem, block);
      EndSimulates(cpu, pc, home + |front|, r, mem, Distance(keys, base, |front|, pc));
      steps := 3;
    } else {
      var c, at := p[0], |front|;
      var next := Wrap(pc + c.Size());
      RestFits(keys, base, home, front, p, pc, block);
      ChunkLength(c, pc, at, keys, base);
      BodyCons(p, pc, at, keys, base);
      HoldsPart(mem, home + at, Chunk(c, pc, at, keys, base), Body(p[1..], next, at + ChunkSize(c), keys, base));
      steps := ChunkSimulates(cpu, c, returned, pc, at, keys, base, home, r, mem);
      if !ZeroLoadReadable(c, pc, at, keys, base, mem) {
        return;
      }
      match Exec(cpu, c.Insn(), pc, r, mem) {
        case Fall(r', mem') =>
          EvenTarget(pc, c.Size());
          SplitNext(block, front, p, pc, keys, base);
          var more := SimulatesFrom(cpu, p[1..], After(c, returned).returned, next,
                                    front + Chunk(c, pc, at, keys, base), keys, base, block, home, r', mem');
          RunAdd(cpu, Running(home + at, r, mem), steps, more);
          steps := steps + more;
          if ZeroLoadsReadable(cpu, p[1..], next, r', mem', at + ChunkSize(c), keys, base) {
            ExitLater(RunOriginal(cpu, p[1..], next, r', mem'), Run(cpu, Running(home + at, r, mem), steps), p, home + at);
          }
        case _ =>
          ExitNow(Exec(cpu, c.Insn(), pc, r, mem), Run(cpu, Running(home + at, r, mem), steps), p, home + at,
                  home + at + ChunkSize(c), LinkOf(c.Insn()));
      }
    }
  }

  lemma RestFits(keys: seq<u64>, base: nat, home: u64, front: seq<u8>, p: seq<Code>, pc: u64, block: seq<u8>)
    requires p != [] && SplitAt(block, front, p, pc, keys, base) && Fits(home, base, keys)
    ensures |front| + ChunkSize(p[0]) + 12 <= base && home + |front| < TWO_64
  {
    hide ChunkSize, Body, PoolBytes;
  }

  lemma EndFits(keys: seq<u64>, base: nat, home: u64, front: seq<u8>, pc: u64, mem: Memory, block: seq<u8>)
    requires SplitAt(block, front, [], pc, keys, base) && Fits(home, base, keys) && pc in keys
    requires PoolHeld(mem, home, base, keys)
    ensures Body([], pc, |front|, keys, base) == FarJump(X0, Distance(keys, base, |front|, pc))
    ensures home + |front| + 12 < TWO_64 && 0 <= Distance(keys, base, |front|, pc) < 0x7fff_f800
    ensures Holds(mem, home + |front| + Distance(keys, base, |front|, pc), QuadBytes(pc))
  {
    hide PoolHeld, Holds, Distance, QuadBytes, FarJump, PoolBytes;
    LiteralHeld(mem, home, base, keys, |front|, pc);
  }

  // ---- The specification of `Relocate` ----

  ghost function Least(s: set<u64>): (m: u64)
    requires s != {}
    ensures m in s && forall x :: x in s ==> m <= x
  {
    LeastExists(s);
    var m :| m in s && forall x :: x in s ==> m <= x;
    m
  }

  lemma LeastExists(s: set<u64>)
    requires s != {}
    ensures exists m :: m in s && forall x :: x in s ==> m <= x
  {
    var m := FindLeast(s);
  }

  lemma {:induction false} FindLeast(s: set<u64>) returns (m: u64)
    requires s != {}
    ensures m in s && forall x :: x in s ==> m <= x
  {
    m :| m in s;
    var rest := s - {m};
    if rest != {} {
      var other := FindLeast(rest);
      forall x | x in s ensures (if m <= other then m else other) <= x {
        assert x == m || x in rest;
      }
      m := if m <= other then m else other;
    } else {
      forall x | x in s ensures m <= x {
        assert x == m || x in rest;
      }
    }
  }

  /** The iteration order of `std::map<uint64_t, Label>`. */
  ghost function Ascending(s: set<u64>): (keys: seq<u64>)
    ensures |keys| == |s| && forall a :: a in s <==> a in keys
  {
    if s == {} then [] else [Least(s)] + Ascending(s - {Least(s)})
  }

  datatype Result = Refused | Installed(overwritten: nat, block: seq<u8>)

  /** `RV64Relocator::Relocate`. */
  ghost function Relocate(original: seq<u16>, size: int, a: u64): Result
    requires 2 * |original| >= size + 2
  {
    var p := Prefix(original, size);
    if !Accepted(p, false) then Refused
    else Installed(Overwritten(p), Block(p, a, Ascending(AllTargets(p, a))))
  }

  /** The block of `p`, relocated from `a`, can read what its stand-ins for `auipc x0` read. */
  ghost predicate StandInsReadable(cpu: Cpu, p: seq<Code>, a: u64, r: Regs, mem: Memory) {
    ZeroLoadsReadable(cpu, p, a, r, mem, 0, Ascending(AllTargets(p, a)), BodySize(p) + 12)
  }

  /** Relocation preserves meaning. For every accepted prologue, every place the block may be
      installed and every start state, running the block leaves it exactly as running the
      prologue leaves the prologue: same pc, same memory and same registers except t3 and the
      link register, and it faults when the prologue faults. The one exception is exact: the
      block also faults at an executed `auipc x0` whose stand-in address cannot be read. */
  lemma RelocationPreservesMeaning(cpu: Cpu, original: seq<u16>, size: int, a: u64, home: u64, r: Regs, mem: Memory)
    returns (steps: nat)
    requires 2 * |original| >= size + 2 && a % 2 == 0
    requires Relocate(original, size, a).Installed?
    requires var p := Prefix(original, size); Fits(home, BodySize(p) + 12, Ascending(AllTargets(p, a)))
    requires Spares(cpu, Prefix(original, size), a, r, mem, Relocate(original, size, a).block, home)
    ensures var p, s := Prefix(original, size), Run(cpu, Running(home, r, mem), steps);
            if StandInsReadable(cpu, p, a, r, mem)
            then ExitMatches(RunOriginal(cpu, p, a, r, mem), s, p, home)
            else s == Trapped
  {
    hide Run, Body, PoolBytes, Exec, Accepted, Spares, Fits, ExitMatches, RunOriginal, AllTargets, ZeroLoadsReadable;
    var p := Prefix(original, size);
    var keys := Ascending(AllTargets(p, a));
    var block := Block(p, a, keys);
    assert block == [] + (Body(p, a, 0, keys, BodySize(p) + 12) + PoolBytes(keys));
    steps := SimulatesFrom(cpu, p, false, a, [], keys, BodySize(p) + 12, block, home, r, mem);
  }

  /** Without `auipc x0`, which no compiler emits, the exception cannot arise. */
  lemma {:induction false} NothingReadThroughZero(cpu: Cpu, p: seq<Code>, pc: u64, r: Regs, mem: Memory, at: nat,
                                                  keys: seq<u64>, base: nat)
    requires NoAuipcIntoZero(p)
    ensures ZeroLoadsReadable(cpu, p, pc, r, mem, at, keys, base)
    decreases |p|
  {
    hide Exec, HasDouble, Distance, Decode, ChunkSize;
    if p != [] {
      assert !(p[0].Insn().Auipc? && p[0].Insn().rd == X0);
      match Exec(cpu, p[0].Insn(), pc, r, mem) {
        case Fall(r', mem') =>
          NothingReadThroughZero(cpu, p[1..], Wrap(pc + p[0].Size()), r', mem', at + ChunkSize(p[0]), keys, base);
        case _ =>
      }
    }
  }

  lemma ReadableWithoutAuipc(cpu: Cpu, p: seq<Code>, a: u64, r: Regs, mem: Memory)
    ensures NoAuipcIntoZero(p) ==> StandInsReadable(cpu, p, a, r, mem)
  {
    hide NoAuipcIntoZero, ZeroLoadsReadable, AllTargets, Ascending, BodySize;
    if NoAuipcIntoZero(p) {
      NothingReadThroughZero(cpu, p, a, r, mem, 0, Ascending(AllTargets(p, a)), BodySize(p) + 12);
    }
  }

  // ---- Inside the block ----

  /** The registers and memory after the first `k` instructions, if they all fall through. */
  function FallsThrough(cpu: Cpu, p: seq<Code>, pc: u64, r: Regs, mem: Memory, k: nat): Outcome
    requires k <= |p|
    decreases k
  {
    if k == 0 then Done(r, mem)
    else
      match Exec(cpu, p[0].Insn(), pc, r, mem)
      case Fall(r', mem') => FallsThrough(cpu, p[1..], Wrap(pc + p[0].Size()), r', mem', k - 1)
      case _ => Fault
  }

  /** At every fall-through boundary the simulation is exact: all registers, t3 included; unless an
      `auipc x0` before it met an unreadable address, and then the block has faulted. */
  lemma {:induction false} ExactAtBoundary(cpu: Cpu, p: seq<Code>, returned: bool, pc: u64, front: seq<u8>, keys: seq<u64>,
                                           base: nat, block: seq<u8>, home: u64, r: Regs, mem: Memory, k: nat)
    returns (steps: nat)
    requires k <= |p| && FallsThrough(cpu, p, pc, r, mem, k).Done?
    requires Accepted(p, returned) && pc % 2 == 0
    requires forall t :: t in AllTargets(p, pc) ==> t in keys
    requires Fits(home, base, keys) && SplitAt(block, front, p, pc, keys, base)
    requires Spares(cpu, p, pc, r, mem, block, home)
    ensures var here := home + |front| + Position(p, k);
            here < TWO_64 && FallsThrough(cpu, p, pc, r, mem, k).Done?
            && Run(cpu, Running(home + |front|, r, mem), steps)
               == if ZeroLoadsReadable(cpu, p[..k], pc, r, mem, |front|, keys, base)
                  then Running(here, FallsThrough(cpu, p, pc, r, mem, k).regs, FallsThrough(cpu, p, pc, r, mem, k).mem)
                  else Trapped
    decreases k
  {
    hide Holds, Run, Exec, Distance, QuadBytes, FarJump, Chunk, ChunkSize, Targets, PoolHeld, After, Wrap, SplitAt, Fits;
    hide Decode, PoolBytes, ExitMatches, SameButScratch, Body, BodySize, LinkOf, ZeroLoadReadable;
    SplitHolds(mem, home, block, front, p, pc, keys, base);
    if k == 0 {
      StartFits(keys, base, home, front, p, pc, block);
      steps := 0;
      NoSteps(cpu, Running(home + |front|, r, mem));
    } else {
      var c, at := p[0], |front|;
      var next := Wrap(pc + c.Size());
      RestFits(keys, base, home, front, p, pc, block);
      ChunkLength(c, pc, at, keys, base);
      BodyCons(p, pc, at, keys, base);
      HoldsPart(mem, home + at, Chunk(c, pc, at, keys, base), Body(p[1..], next, at + ChunkSize(c), keys, base));
      assert p[..k][0] == c && p[..k][1..] == p[1..][..k - 1];
      steps := ChunkSimulates(cpu, c, returned, pc, at, keys, base, home, r, mem);
      var e := Exec(cpu, c.Insn(), pc, r, mem);
      EvenTarget(pc, c.Size());
      SplitNext(block, front, p, pc, keys, base);
      var more := ExactAtBoundary(cpu, p[1..], After(c, returned).returned, next, front + Chunk(c, pc, at, keys, base),
                                  keys, base, block, home, e.regs, e.mem, k - 1);
      RunAdd(cpu, Running(home + at, r, mem), steps, more);
      if !ZeroLoadReadable(c, pc, at, keys, base, mem) {
        StaysTrapped(cpu, more);
      }
      steps := steps + more;
    }
  }

  lemma {:induction false} StaysTrapped(cpu: Cpu, n: nat)
    ensures Run(cpu, Trapped, n) == Trapped
    decreases n
  {
    if n > 0 {
      StaysTrapped(cpu, n - 1);
    }
  }

  lemma NoSteps(cpu: Cpu, s: State)
    ensures Run(cpu, s, 0) == s
  {
  }

  lemma StartFits(keys: seq<u64>, base: nat, home: u64, front: seq<u8>, p: seq<Code>, pc: u64, block: seq<u8>)
    requires SplitAt(block, front, p, pc, keys, base) && Fits(home, base, keys)
    ensures home + |front| < TWO_64
  {
    hide BodySize, Body, PoolBytes;
  }

  /** The link register of the original run is the address of the instruction after the call, so
      the image in `ExitMatches` is where that same instruction's translation starts. */
  lemma {:induction false} OriginalLink(cpu: Cpu, p: seq<Code>, pc: u64, r: Regs, mem: Memory)
    ensures var e := RunOriginal(cpu, p, pc, r, mem);
            e.Left? ==> e.index <= |p| && (e.link != X0 ==> e.regs[e.link] == Wrap(pc + Overwritten(p[..e.index])))
    decreases |p|
  {
    hide Decode;
    if p != [] {
      var e := Exec(cpu, p[0].Insn(), pc, r, mem);
      if e.Fall? {
        var next := Wrap(pc + p[0].Size());
        OriginalLink(cpu, p[1..], next, e.regs, e.mem);
        var rest := RunOriginal(cpu, p[1..], next, e.regs, e.mem);
        if rest.Left? {
          OverwrittenPart(p, rest.index);
          WrapTwice(pc + p[0].Size(), Overwritten(p[1..][..rest.index]));
        }
      } else if e.Jump? {
        OverwrittenPart(p, 0);
        DecodeLength(p[0].lo, p[0].hi);
      }
    }
  }

  lemma OverwrittenPart(p: seq<Code>, k: nat)
    requires k < |p|
    ensures Overwritten(p[..k + 1]) == p[0].Size() + Overwritten(p[1..][..k])
    ensures Overwritten(p[1..][..0]) == 0
  {
    assert p[..k + 1][1..] == p[1..][..k];
  }

  // ---- The original run is a run of the machine ----

  /** Every instruction of the prologue is intact in memory when control reaches it. */
  ghost predicate Stands(cpu: Cpu, p: seq<Code>, pc: u64, r: Regs, mem: Memory)
    decreases |p|
  {
    p != [] ==>
      && Holds(mem, pc, CopyBytes(p[0]))
      && match Exec(cpu, p[0].Insn(), pc, r, mem)
         case Fall(r', mem') => Stands(cpu, p[1..], Wrap(pc + p[0].Size()), r', mem')
         case _ => true
  }

  function StateOf(e: Exit): State {
    match e
    case Left(pc, r, mem, _, _) => Running(pc, r, mem)
    case Faulted => Trapped
  }

  /** `RunOriginal` is what the machine does at the prologue's own address. */
  lemma {:induction false} OriginalInPlace(cpu: Cpu, p: seq<Code>, pc: u64, r: Regs, mem: Memory) returns (steps: nat)
    requires Stands(cpu, p, pc, r, mem)
    ensures Run(cpu, Running(pc, r, mem), steps) == StateOf(RunOriginal(cpu, p, pc, r, mem))
    decreases |p|
  {
    hide Run, Step, Holds, CopyBytes, Exec, Decode, Wrap;
    if p == [] {
      steps := 0;
      NoSteps(cpu, Running(pc, r, mem));
    } else {
      CopyStep(cpu, p[0], pc, r, mem);
      RunTwo(cpu, Running(pc, r, mem));
      match Exec(cpu, p[0].Insn(), pc, r, mem) {
        case Fall(r', mem') =>
          var next := Wrap(pc + p[0].Size());
          var more := OriginalInPlace(cpu, p[1..], next, r', mem');
          RunAdd(cpu, Running(pc, r, mem), 1, more);
          steps := 1 + more;
        case _ =>
          steps := 1;
      }
    }
  }

  /** Two runs of one machine: from the prologue's own address and from the block, in the same
      memory, control arrives at the same pc with the same memory, and the registers agree but
      for t3 and the link; one faults exactly when the other does, but for the exception above. The
      link is the register that the last instruction, a call, wrote (x0 if it was none), and instead
      of the address behind the call it holds that of the next instruction's translation. */
  lemma BothRunsAgree(cpu: Cpu, original: seq<u16>, size: int, a: u64, home: u64, r: Regs, mem: Memory)
    returns (there: nat, here: nat, link: Reg, image: int)
    requires 2 * |original| >= size + 2 && a % 2 == 0
    requires Relocate(original, size, a).Installed?
    requires var p := Prefix(original, size); Fits(home, BodySize(p) + 12, Ascending(AllTargets(p, a)))
    requires Stands(cpu, Prefix(original, size), a, r, mem)
    requires Spares(cpu, Prefix(original, size), a, r, mem, Relocate(original, size, a).block, home)
    ensures var x, y := Run(cpu, Running(a, r, mem), there), Run(cpu, Running(home, r, mem), here);
            if StandInsReadable(cpu, Prefix(original, size), a, r, mem) then
              && (x == Trapped <==> y == Trapped)
              && (x.Running? && y.Running? ==>
                    x.pc == y.pc && x.mem == y.mem && SameButScratch(x.regs, y.regs, link, image))
            else y == Trapped
    ensures var p := Prefix(original, size);
            var e := RunOriginal(cpu, p, a, r, mem);
            && Run(cpu, Running(a, r, mem), there) == StateOf(e)
            && (e.Left? ==> e.index <= |p| && link == e.link && image == home + Position(p, e.index))
            && (NoAuipcIntoZero(p) ==> StandInsReadable(cpu, p, a, r, mem))
  {
    hide Run, Body, PoolBytes, Exec, Accepted, Spares, Fits, RunOriginal, AllTargets, ZeroLoadsReadable, Stands, NoAuipcIntoZero;
    hide Relocate, BodySize, Ascending, StandInsReadable;
    var p := Prefix(original, size);
    there := OriginalInPlace(cpu, p, a, r, mem);
    here := RelocationPreservesMeaning(cpu, original, size, a, home, r, mem);
    ReadableWithoutAuipc(cpu, p, a, r, mem);
    OriginalLink(cpu, p, a, r, mem);
    var e := RunOriginal(cpu, p, a, r, mem);
    link, image := if e.Left? then e.link else X0, if e.Left? then home + Position(p, e.index) else 0;
  }

  // ---- What is refused ----

  /** An instruction is accepted exactly when it makes one callback and, if that is `Undefined`
      or a branch without a valid condition, a return came before it. */
  lemma AcceptedExactly(c: Code, returned: bool)
    ensures var cs := D.Decode(c.lo, c.hi);
            After(c, returned).state in {Skipped, Relocated}
            <==> |cs| == 1 && (cs[0].Undefined? || (cs[0].CompareAndBranch? && !IsBranchFunct3(cs[0].opcode)) ==> returned)
  {
    hide D.Decode;
    var cs := D.Decode(c.lo, c.hi);
    if After(c, returned).state in {Skipped, Relocated} {
      SingleCallback(cs, returned);
    }
    if |cs| == 1 {
      HandleOne(Consumer(None, returned), cs);
    }
  }

  lemma HandleOne(c: Consumer, cs: seq<D.Callback>)
    requires |cs| == 1
    ensures HandleAll(c, cs) == Handle(c, cs[0])
  {
    hide Handle;
    assert cs[1..] == [];
  }

  /** `c.addi` without register or immediate, `c.nop` among them, makes two callbacks: whatever
      stands before it, a prologue that contains it is refused. */
  lemma NopRefused(lo: u16, hi: u16, returned: bool)
    requires lo % 4 == 1 && lo / 0x2000 == 0 && (lo / 0x80 % 0x20 == 0 || (lo / 4 % 0x20 == 0 && lo / 0x1000 % 2 == 0))
    ensures After(Code(lo, hi), returned).state == Error
  {
    var cs := D.Decode(lo, hi);
    var c := Consumer(None, returned);
    assert cs[1..][0] == cs[1] && cs[1..][1..] == [];
    assert HandleAll(c, cs) == HandleAll(Handle(c, cs[0]), cs[1..]) == HandleAll(Handle(Handle(c, cs[0]), cs[1]), []);
  }

  /** A usual prologue, `addi sp, sp, -16; sd ra, 8(sp)`, is accepted. */
  lemma UsualPrologueAccepted(a: u64)
    ensures Relocate([0x1141, 0xe406, 0x8082], 4, a).Installed?
    ensures NoAuipcIntoZero(Prefix([0x1141, 0xe406, 0x8082], 4))
  {
    hide Block, Ascending, AllTargets;
    var push, save := Code(0x1141, 0), Code(0xe406, 0);
    UsualPrefix();
    AcceptedExactly(push, false);
    AcceptedExactly(save, After(push, false).returned);
    assert D.Decode(0x1141, 0) == [D.PositionIndependent] && D.Decode(0xe406, 0) == [D.PositionIndependent];
    assert Accepted([save], After(push, false).returned) by { assert [save][1..] == []; }
    assert [push, save][1..] == [save];
  }

  lemma UsualPrefix()
    ensures Prefix([0x1141, 0xe406, 0x8082], 4) == [Code(0x1141, 0), Code(0xe406, 0)]
  {
    var original: seq<u16> := [0x1141, 0xe406, 0x8082];
    assert original[1..] == [0xe406, 0x8082];
    assert Prefix(original[1..], 2) == [Code(0xe406, 0)] + Prefix(original[1..][1..], 0);
  }

  // ---- Sizes ----

  lemma ChunkSizeBound(c: Code)
    ensures ChunkSize(c) <= 10 * c.Size()
  {
    hide Shape;
  }

  lemma {:induction false} BodySizeBound(p: seq<Code>, pc: u64)
    ensures BodySize(p) <= 10 * Overwritten(p) && 2 * |p| <= Overwritten(p) && |AllTargets(p, pc)| <= |p| + 1
    decreases |p|
  {
    hide ChunkSize, Targets, Wrap;
    if p != [] {
      ChunkSizeBound(p[0]);
      OneTarget(p[0], pc);
      BodySizeBound(p[1..], Wrap(pc + p[0].Size()));
      UnionBound(Targets(p[0], pc), AllTargets(p[1..], Wrap(pc + p[0].Size())));
    }
  }

  lemma OneTarget(c: Code, pc: u64)
    ensures |Targets(c, pc)| <= 1
  {
    hide Shape, Wrap;
  }

  lemma UnionBound(a: set<u64>, b: set<u64>)
    ensures |a + b| <= |a| + |b|
  {
    assert a + b == a + (b - a);
  }

  /** For the largest request, 18 bytes, the block has at most 312 bytes: only its place near the
      top of the address space can keep it from fitting. */
  lemma FitsWhenSmall(original: seq<u16>, size: int, a: u64, home: u64)
    requires 2 * |original| >= size + 2 && 0 <= size <= 18 && size % 2 == 0 && home + 312 < TWO_64
    ensures var p := Prefix(original, size); Fits(home, BodySize(p) + 12, Ascending(AllTargets(p, a)))
  {
    hide Prefix, BodySize, AllTargets, Ascending;
    OverwrittenBounds(original, size);
    BodySizeBound(Prefix(original, size), a);
  }
}
