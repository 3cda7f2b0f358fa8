/** A whole call of the backup: the machine that runs the relocated block and goes on in the patched
    function, against the machine that runs the function as it was. */
module WholeCall {
  import opened Encoding
  import opened Words
  import opened Isa
  import opened Sequences
  import opened Wrappers
  import R = Relocation
  import H = Hooking
  import A = Assembler
  import T = Trampoline

  // ---- Two machines whose memories differ in the overwritten bytes alone ----

  predicate Within(x: int, a: u64, n: nat) { H.Behind(x, a) < n }

  ghost predicate SameOutside(m: Memory, m': Memory, a: u64, n: nat) {
    m.Keys == m'.Keys && forall x :: x in m && !Within(x, a, n) ==> m[x] == m'[x]
  }

  ghost predicate SameRegs(r: Regs, r': Regs, free: set<Reg>) {
    forall i: Reg :: i !in free ==> r[i] == r'[i]
  }

  ghost predicate Alike(s: State, s': State, free: set<Reg>, a: u64, n: nat) {
    match s
    case Running(pc, r, mem) =>
      s'.Running? && s'.pc == pc && SameRegs(r, s'.regs, free) && SameOutside(mem, s'.mem, a, n)
    case Trapped => s' == Trapped
  }

  ghost predicate OutcomesAlike(o: Outcome, o': Outcome, free: set<Reg>, a: u64, n: nat) {
    match o
    case Done(r, mem) => o'.Done? && SameRegs(r, o'.regs, free) && SameOutside(mem, o'.mem, a, n)
    case Fault => o' == Fault
  }

  ghost predicate EffectsAlike(e: Effect, e': Effect, free: set<Reg>, a: u64, n: nat) {
    match e
    case Fall(r, mem) => e'.Fall? && SameRegs(r, e'.regs, free) && SameOutside(mem, e'.mem, a, n)
    case Jump(t, r, mem) => e'.Jump? && t == e'.target && SameRegs(r, e'.regs, free) && SameOutside(mem, e'.mem, a, n)
    case Trap => e' == Trap
  }

  /** The instruction reads neither a register of `free` nor one of the `n` bytes at `a`. */
  ghost predicate Ignores(cpu: Cpu, i: Insn, r: Regs, mem: Memory, free: set<Reg>, a: u64, n: nat) {
    match i
    case Jalr(_, rs1, _, _) => rs1 !in free
    case Branch(_, rs1, rs2, _, _) => rs1 !in free && rs2 !in free
    case Ld(_, rs1, offset) => rs1 !in free && H.Apart(Wrap(r[rs1] + offset), 8, a, n)
    case Addi(_, rs1, _) => rs1 !in free
    case Slli(_, rs1, _) => rs1 !in free
    case Other(lo, hi, _) =>
      forall r', mem' | SameRegs(r', r, free) && SameOutside(mem', mem, a, n) ::
        OutcomesAlike(cpu.other(lo, hi, r', mem'), cpu.other(lo, hi, r, mem), free, a, n)
    case _ => true
  }

  /** The next instruction stands outside the `n` bytes at `a` and ignores them. */
  ghost predicate Outside(cpu: Cpu, s: State, free: set<Reg>, a: u64, n: nat) {
    s.Running? && HasHalf(s.mem, s.pc) ==>
      && H.Apart(s.pc, 2, a, n)
      && var lo := HalfAt(s.mem, s.pc);
         if lo % 4 != 3 then Ignores(cpu, Decode(lo, 0), s.regs, s.mem, free, a, n)
         else if HasHalf(s.mem, s.pc + 2) then
           && H.Apart(s.pc, 4, a, n)
           && Ignores(cpu, Decode(lo, HalfAt(s.mem, s.pc + 2)), s.regs, s.mem, free, a, n)
         else true
  }

  /** Whatever register `x` held before, and all else that may differ, the next step leaves one value
      there. */
  ghost predicate Settles(cpu: Cpu, s: State, free: set<Reg>, a: u64, n: nat, x: Reg) {
    forall s' | Alike(s', s, free, a, n) && Step(cpu, s').Running? && Step(cpu, s).Running? ::
      Step(cpu, s').regs[x] == Step(cpu, s).regs[x]
  }

  /** The registers that may differ after the next step. */
  ghost function Still(cpu: Cpu, s: State, free: set<Reg>, a: u64, n: nat): set<Reg> {
    set x | x in free && !Settles(cpu, s, free, a, n, x)
  }

  /** For `k` steps control stays outside the `n` bytes at `a`, and nothing reads them or a register
      that may differ. */
  ghost predicate StaysOutside(cpu: Cpu, s: State, free: set<Reg>, a: u64, n: nat, k: nat)
    decreases k
  {
    k > 0 ==>
      Outside(cpu, s, free, a, n) && StaysOutside(cpu, Step(cpu, s), Still(cpu, s, free, a, n), a, n, k - 1)
  }

  /** The registers that may differ after `k` steps. */
  ghost function StillAfter(cpu: Cpu, s: State, free: set<Reg>, a: u64, n: nat, k: nat): (still: set<Reg>)
    ensures still <= free
    decreases k
  {
    if k == 0 then free else StillAfter(cpu, Step(cpu, s), Still(cpu, s, free, a, n), a, n, k - 1)
  }

  lemma SetAlike(r: Regs, r': Regs, rd: Reg, v: u64, free: set<Reg>)
    requires SameRegs(r, r', free)
    ensures SameRegs(Set(r, rd, v), Set(r', rd, v), free)
  {
  }

  lemma HalfAlike(m: Memory, m': Memory, a: u64, n: nat, pc: u64, i: nat, x: int)
    requires SameOutside(m, m', a, n) && Wrap(x) == Wrap(pc + i)
    requires H.ClearOf(pc, i, a, n) && H.ClearOf(pc, i + 1, a, n)
    ensures HasHalf(m, x) <==> HasHalf(m', x)
    ensures HasHalf(m, x) ==> HalfAt(m, x) == HalfAt(m', x)
  {
    hide Wrap, H.Behind;
    WrapTwice(x, 1);
    WrapTwice(pc + i, 1);
    assert Wrap(x + 1) == Wrap(pc + (i + 1));
  }

  lemma QuarterAlike(m: Memory, m': Memory, a: u64, n: nat, x: int, i: nat)
    requires SameOutside(m, m', a, n) && H.Apart(Wrap(x), 8, a, n) && i < 7
    ensures HasHalf(m, x + i) <==> HasHalf(m', x + i)
    ensures HasHalf(m, x + i) ==> HalfAt(m, x + i) == HalfAt(m', x + i)
  {
    hide Wrap, HasHalf, HalfAt, SameOutside, H.ClearOf;
    assert H.ClearOf(Wrap(x), i, a, n) && H.ClearOf(Wrap(x), i + 1, a, n);
    WrapTwice(x, i);
    HalfAlike(m, m', a, n, Wrap(x), i, x + i);
  }

  lemma DoubleAlike(m: Memory, m': Memory, a: u64, n: nat, x: int)
    requires SameOutside(m, m', a, n) && H.Apart(Wrap(x), 8, a, n)
    ensures HasDouble(m, x) <==> HasDouble(m', x)
    ensures HasDouble(m, x) ==> DoubleAt(m, x) == DoubleAt(m', x)
  {
    hide HasHalf, HalfAt, SameOutside, H.Apart;
    QuarterAlike(m, m', a, n, x, 0);
    QuarterAlike(m, m', a, n, x, 2);
    QuarterAlike(m, m', a, n, x, 4);
    QuarterAlike(m, m', a, n, x, 6);
    assert x + 0 == x;
  }

  /** One instruction has like effects on like machines. */
  lemma ExecAlike(cpu: Cpu, i: Insn, pc: u64, r: Regs, mem: Memory, r': Regs, mem': Memory, free: set<Reg>, a: u64, n: nat)
    requires i.Branch? ==> IsBranchFunct3(i.funct3)
    requires SameRegs(r, r', free) && SameOutside(mem, mem', a, n) && Ignores(cpu, i, r', mem', free, a, n)
    ensures EffectsAlike(Exec(cpu, i, pc, r, mem), Exec(cpu, i, pc, r', mem'), free, a, n)
  {
    hide SameRegs, SameOutside, Wrap, HasDouble, DoubleAt, Set, H.Apart, Shl;
    match i {
      case Lui(rd, imm) => SetAlike(r, r', rd, Wrap(imm), free);
      case Auipc(rd, imm) => SetAlike(r, r', rd, Wrap(pc + imm), free);
      case Jal(rd, _, len) => SetAlike(r, r', rd, Wrap(pc + len), free);
      case Jalr(rd, rs1, _, len) =>
        SameAt(r, r', free, rs1);
        SetAlike(r, r', rd, Wrap(pc + len), free);
      case Branch(_, rs1, rs2, _, _) =>
        SameAt(r, r', free, rs1);
        SameAt(r, r', free, rs2);
      case Ld(rd, rs1, offset) =>
        SameAt(r, r', free, rs1);
        DoubleAlike(mem, mem', a, n, r[rs1] + offset);
        if HasDouble(mem, r[rs1] + offset) {
          SetAlike(r, r', rd, DoubleAt(mem, r[rs1] + offset), free);
        }
      case Addi(rd, rs1, imm) =>
        SameAt(r, r', free, rs1);
        SetAlike(r, r', rd, Wrap(r[rs1] + imm), free);
      case Slli(rd, rs1, shamt) =>
        SameAt(r, r', free, rs1);
        SetAlike(r, r', rd, Wrap(Shl(r[rs1], shamt)), free);
      case Other(lo, hi, _) =>
        assert OutcomesAlike(cpu.other(lo, hi, r, mem), cpu.other(lo, hi, r', mem'), free, a, n);
    }
  }

  lemma SameAt(r: Regs, r': Regs, free: set<Reg>, i: Reg)
    requires SameRegs(r, r', free) && i !in free
    ensures r[i] == r'[i]
  {
  }

  /** One step takes like machines to like machines. */
  lemma StepAlike(cpu: Cpu, s: State, s': State, free: set<Reg>, a: u64, n: nat)
    requires Alike(s, s', free, a, n) && Outside(cpu, s', free, a, n)
    ensures Alike(Step(cpu, s), Step(cpu, s'), free, a, n)
  {
    hide SameRegs, SameOutside, Wrap, HasHalf, HalfAt, H.ClearOf, Decode, Exec, Ignores, EffectsAlike;
    match s {
      case Trapped =>
      case Running(pc, r, mem) =>
        var r', mem' := s'.regs, s'.mem;
        KeysAlike(mem, mem', a, n, pc);
        if HasHalf(mem', pc) {
          assert H.ClearOf(pc, 0, a, n) && H.ClearOf(pc, 1, a, n);
          assert pc + 0 == pc;
          HalfAlike(mem, mem', a, n, pc, 0, pc);
          var lo := HalfAt(mem', pc);
          if lo % 4 != 3 {
            DecodeLength(lo, 0);
            ExecAlike(cpu, Decode(lo, 0), pc, r, mem, r', mem', free, a, n);
            ContinueAlike(Exec(cpu, Decode(lo, 0), pc, r, mem), Exec(cpu, Decode(lo, 0), pc, r', mem'), pc, 2, free, a, n);
          } else {
            KeysAlike(mem, mem', a, n, pc + 2);
            if HasHalf(mem', pc + 2) {
              assert H.ClearOf(pc, 2, a, n) && H.ClearOf(pc, 3, a, n);
              HalfAlike(mem, mem', a, n, pc, 2, pc + 2);
              var i := Decode(lo, HalfAt(mem', pc + 2));
              DecodeLength(lo, HalfAt(mem', pc + 2));
              ExecAlike(cpu, i, pc, r, mem, r', mem', free, a, n);
              ContinueAlike(Exec(cpu, i, pc, r, mem), Exec(cpu, i, pc, r', mem'), pc, 4, free, a, n);
            }
          }
        }
    }
  }

  lemma KeysAlike(m: Memory, m': Memory, a: u64, n: nat, x: int)
    requires SameOutside(m, m', a, n)
    ensures HasHalf(m, x) <==> HasHalf(m', x)
  {
    hide Wrap;
    assert forall k :: k in m <==> k in m.Keys;
  }

  lemma ContinueAlike(e: Effect, e': Effect, pc: u64, len: int, free: set<Reg>, a: u64, n: nat)
    requires EffectsAlike(e, e', free, a, n)
    ensures Alike(Continue(e, pc, len), Continue(e', pc, len), free, a, n)
  {
    hide SameRegs, SameOutside;
  }

  /** And a register that the step settles is the same afterwards. */
  lemma StepSettles(cpu: Cpu, s: State, s': State, free: set<Reg>, a: u64, n: nat)
    requires Alike(s, s', free, a, n) && Outside(cpu, s', free, a, n)
    ensures Alike(Step(cpu, s), Step(cpu, s'), Still(cpu, s', free, a, n), a, n)
  {
    hide Outside, Step, SameOutside;
    StepAlike(cpu, s, s', free, a, n);
    forall x: Reg | x in free && x !in Still(cpu, s', free, a, n) && Step(cpu, s).Running?
      ensures Step(cpu, s).regs[x] == Step(cpu, s').regs[x]
    {
      assert Settles(cpu, s', free, a, n, x);
    }
  }

  /** An instruction that computes its result from what it may read settles its destination: `li t3`,
      a load or an `auipc` into t3 end the time in which t3 may differ. */
  lemma ResultSettles(cpu: Cpu, s: State, c: R.Code, free: set<Reg>, a: u64, n: nat, x: Reg)
    requires s.Running? && Holds(s.mem, s.pc, R.CopyBytes(c)) && H.Apart(s.pc, c.Size(), a, n)
    requires ResultOf(c.Insn()) == x && x != X0 && Ignores(cpu, c.Insn(), s.regs, s.mem, free, a, n)
    ensures Settles(cpu, s, free, a, n, x)
  {
    hide SameRegs, SameOutside, Wrap, Holds, Step, Exec, R.CopyBytes, H.Apart, Ignores, Decode;
    forall s' | Alike(s', s, free, a, n) && Step(cpu, s').Running? && Step(cpu, s).Running?
      ensures Step(cpu, s').regs[x] == Step(cpu, s).regs[x]
    {
      CopyLength(c);
      HoldsAlike(s'.mem, s.mem, a, n, s.pc, R.CopyBytes(c));
      R.CopyStep(cpu, c, s.pc, s.regs, s.mem);
      R.CopyStep(cpu, c, s.pc, s'.regs, s'.mem);
      ExecAlike(cpu, c.Insn(), s.pc, s'.regs, s'.mem, s.regs, s.mem, free, a, n);
      SameResult(cpu, c.Insn(), s.pc, s'.regs, s'.mem, s.regs, s.mem, free, a, n);
    }
  }

  /** The register a concrete instruction writes. */
  function ResultOf(i: Insn): Reg {
    match i
    case Lui(rd, _) => rd
    case Auipc(rd, _) => rd
    case Jal(rd, _, _) => rd
    case Jalr(rd, _, _, _) => rd
    case Ld(rd, _, _) => rd
    case Addi(rd, _, _) => rd
    case Slli(rd, _, _) => rd
    case _ => X0
  }

  lemma SameResult(cpu: Cpu, i: Insn, pc: u64, r: Regs, mem: Memory, r': Regs, mem': Memory, free: set<Reg>, a: u64, n: nat)
    requires i.Branch? ==> IsBranchFunct3(i.funct3)
    requires SameRegs(r, r', free) && SameOutside(mem, mem', a, n) && Ignores(cpu, i, r', mem', free, a, n)
    requires ResultOf(i) != X0
    ensures var e, e' := Exec(cpu, i, pc, r, mem), Exec(cpu, i, pc, r', mem');
            (e.Fall? && e'.Fall?) || (e.Jump? && e'.Jump?) ==> e.regs[ResultOf(i)] == e'.regs[ResultOf(i)]
  {
    hide SameRegs, SameOutside, Wrap, HasDouble, DoubleAt, H.Apart, Shl;
    match i {
      case Jalr(_, rs1, _, _) => SameAt(r, r', free, rs1);
      case Ld(_, rs1, offset) =>
        SameAt(r, r', free, rs1);
        DoubleAlike(mem, mem', a, n, r[rs1] + offset);
      case Addi(_, rs1, _) => SameAt(r, r', free, rs1);
      case Slli(_, rs1, _) => SameAt(r, r', free, rs1);
      case _ =>
    }
  }

  /** Any number of steps takes like machines to like machines, and what may differ only shrinks. */
  lemma {:induction false} RunAlike(cpu: Cpu, s: State, s': State, free: set<Reg>, a: u64, n: nat, k: nat)
    requires Alike(s, s', free, a, n) && StaysOutside(cpu, s', free, a, n, k)
    ensures Alike(Run(cpu, s, k), Run(cpu, s', k), StillAfter(cpu, s', free, a, n, k), a, n)
    decreases k
  {
    hide Alike, Outside, Step, Still;
    if k > 0 {
      StepSettles(cpu, s, s', free, a, n);
      RunAlike(cpu, Step(cpu, s), Step(cpu, s'), Still(cpu, s', free, a, n), a, n, k - 1);
    }
  }

  // ---- The prologue ----

  /** The bytes at `a` are the same in both. */
  ghost predicate SameInside(m: Memory, m': Memory, a: u64, n: nat) {
    forall x :: x in m && Within(x, a, n) ==> x in m' && m[x] == m'[x]
  }

  /** The prologue, run in place, neither reads the bytes it stands in as data nor writes them, and
      does not write the block. */
  ghost predicate Quiet(cpu: Cpu, p: seq<R.Code>, pc: u64, r: Regs, mem: Memory, a: u64, n: nat, block: seq<u8>, home: u64)
    decreases |p|
  {
    p != [] ==>
      && Ignores(cpu, p[0].Insn(), r, mem, {}, a, n)
      && match Exec(cpu, p[0].Insn(), pc, r, mem)
         case Fall(r', mem') =>
           && SameInside(mem, mem', a, n) && Holds(mem', home, block)
           && Quiet(cpu, p[1..], Wrap(pc + p[0].Size()), r', mem', a, n, block, home)
         case _ => true
  }

  ghost predicate ExitsAlike(e: R.Exit, e': R.Exit, a: u64, n: nat) {
    match e
    case Left(pc, r, mem, index, link) =>
      e'.Left? && e'.pc == pc && e'.regs == r && e'.index == index && e'.link == link && SameOutside(mem, e'.mem, a, n)
    case Faulted => e' == R.Exit.Faulted
  }

  lemma SameEverywhere(r: Regs, r': Regs)
    requires SameRegs(r, r', {})
    ensures r == r'
  {
    forall i: int | 0 <= i < 32 ensures r[i] == r'[i] {
      var j: Reg := i;
      assert r[j] == r'[j];
    }
  }

  lemma HoldsAlike(m: Memory, m': Memory, a: u64, n: nat, p: u64, bytes: seq<u8>)
    requires SameOutside(m, m', a, n) && H.Apart(p, |bytes|, a, n) && Holds(m', p, bytes)
    ensures Holds(m, p, bytes)
  {
    hide Wrap, H.Behind;
    forall i | 0 <= i < |bytes| ensures ByteAt(m, p + i, bytes[i]) {
      assert ByteAt(m', p + i, bytes[i]) && H.ClearOf(p, i, a, n);
    }
  }

  /** The prologue's instructions mean the same in both memories, and the block is spared. */
  lemma {:induction false} QuietAlike(cpu: Cpu, p: seq<R.Code>, pc: u64, r: Regs, mem: Memory, mem': Memory, a: u64, n: nat,
                                      block: seq<u8>, home: u64)
    requires Quiet(cpu, p, pc, r, mem', a, n, block, home) && SameOutside(mem, mem', a, n)
    requires Holds(mem', home, block) && H.Apart(home, |block|, a, n)
    ensures R.Spares(cpu, p, pc, r, mem, block, home)
    ensures ExitsAlike(R.RunOriginal(cpu, p, pc, r, mem), R.RunOriginal(cpu, p, pc, r, mem'), a, n)
    decreases |p|
  {
    hide Holds, H.Apart, SameOutside, SameInside, Exec, Ignores, Decode, Wrap;
    HoldsAlike(mem, mem', a, n, home, block);
    if p != [] {
      var i := p[0].Insn();
      assert SameRegs(r, r, {});
      ExecAlike(cpu, i, pc, r, mem, r, mem', {}, a, n);
      var e, e' := Exec(cpu, i, pc, r, mem), Exec(cpu, i, pc, r, mem');
      match e {
        case Fall(r1, m1) =>
          SameEverywhere(r1, e'.regs);
          QuietAlike(cpu, p[1..], Wrap(pc + p[0].Size()), r1, m1, e'.mem, a, n, block, home);
        case Jump(_, r1, _) => SameEverywhere(r1, e'.regs);
        case Trap =>
      }
    }
  }

  /** The instructions of `p` stand one behind the other from `pc` on. */
  ghost predicate InPlace(mem: Memory, pc: u64, p: seq<R.Code>)
    decreases |p|
  {
    p != [] ==> Holds(mem, pc, R.CopyBytes(p[0])) && InPlace(mem, Wrap(pc + p[0].Size()), p[1..])
  }

  lemma HoldsKept(m: Memory, m': Memory, a: u64, n: nat, at: nat, bytes: seq<u8>)
    requires SameInside(m, m', a, n) && at + |bytes| <= n <= TWO_64 && Holds(m, Wrap(a + at), bytes)
    ensures Holds(m', Wrap(a + at), bytes)
  {
    hide Wrap, H.Behind;
    forall i | 0 <= i < |bytes| ensures ByteAt(m', Wrap(a + at) + i, bytes[i]) {
      WrapTwice(a + at, i);
      H.BehindForward(a, at + i);
      assert a + at + i == a + (at + i);
      assert ByteAt(m, Wrap(a + at) + i, bytes[i]);
    }
  }

  lemma CopyLength(c: R.Code)
    ensures |R.CopyBytes(c)| == c.Size()
  {
  }

  lemma Advance(a: u64, at: nat, d: nat)
    ensures Wrap(Wrap(a + at) + d) == Wrap(a + (at + d))
  {
    WrapTwice(a + at, d);
    assert a + at + d == a + (at + d);
  }

  lemma {:induction false} InPlaceKept(m: Memory, m': Memory, a: u64, n: nat, at: nat, p: seq<R.Code>)
    requires SameInside(m, m', a, n) && at + R.Overwritten(p) <= n <= TWO_64 && InPlace(m, Wrap(a + at), p)
    ensures InPlace(m', Wrap(a + at), p)
    decreases |p|
  {
    hide Wrap, Holds, SameInside, R.CopyBytes;
    if p != [] {
      CopyLength(p[0]);
      HoldsKept(m, m', a, n, at, R.CopyBytes(p[0]));
      Advance(a, at, p[0].Size());
      InPlaceKept(m, m', a, n, at + p[0].Size(), p[1..]);
    }
  }

  /** A quiet prologue that stands at `a` goes on standing there. */
  lemma {:induction false} QuietStands(cpu: Cpu, p: seq<R.Code>, at: nat, r: Regs, mem: Memory, a: u64, n: nat,
                                       block: seq<u8>, home: u64)
    requires at + R.Overwritten(p) <= n <= TWO_64 && InPlace(mem, Wrap(a + at), p)
    requires Quiet(cpu, p, Wrap(a + at), r, mem, a, n, block, home)
    ensures R.Stands(cpu, p, Wrap(a + at), r, mem)
    decreases |p|
  {
    hide Wrap, Holds, SameInside, Exec, Ignores, Decode, R.CopyBytes;
    if p != [] {
      match Exec(cpu, p[0].Insn(), Wrap(a + at), r, mem) {
        case Fall(r', mem') =>
          Advance(a, at, p[0].Size());
          InPlaceKept(mem, mem', a, n, at + p[0].Size(), p[1..]);
          QuietStands(cpu, p[1..], at + p[0].Size(), r', mem', a, n, block, home);
        case _ =>
      }
    }
  }

  lemma HalfHeld(mem: Memory, a: u64, i: nat)
    requires H.MappedAt(mem, a, 2 * i) && H.MappedAt(mem, a, 2 * i + 1)
    ensures Holds(mem, Wrap(a + 2 * i), HalfBytes(H.HalfOf(mem, a, i)))
  {
    hide Wrap;
    var low: int, high: int := H.Byte(mem, a, 2 * i), H.Byte(mem, a, 2 * i + 1);
    Div(low + 0x100 * high, 0x100, high, low);
    Advance(a, 2 * i, 0);
    Advance(a, 2 * i, 1);
    assert HalfBytes(H.HalfOf(mem, a, i)) == [low, high];
    assert ByteAt(mem, Wrap(a + 2 * i) + 0, low) && ByteAt(mem, Wrap(a + 2 * i) + 1, high);
  }

  /** The instruction read at halfword `k`. */
  function CodeAt(h: seq<u16>, k: nat): R.Code
    requires k + 1 < |h|
  {
    R.Code(h[k], if Length(h[k]) == 4 then h[k + 1] else 0)
  }

  lemma CodeHeld(mem: Memory, a: u64, m: nat, k: nat)
    requires k + 1 < m && H.Mapped(mem, a, 2 * m)
    ensures Holds(mem, Wrap(a + 2 * k), R.CopyBytes(CodeAt(H.Halves(mem, a, m), k)))
  {
    hide Wrap, Holds, H.HalfOf, HalfBytes;
    var h := H.Halves(mem, a, m);
    assert h[k] == H.HalfOf(mem, a, k) && h[k + 1] == H.HalfOf(mem, a, k + 1);
    assert H.MappedAt(mem, a, 2 * k) && H.MappedAt(mem, a, 2 * k + 1);
    assert H.MappedAt(mem, a, 2 * (k + 1)) && H.MappedAt(mem, a, 2 * (k + 1) + 1);
    HalfHeld(mem, a, k);
    HalfHeld(mem, a, k + 1);
    Advance(a, 2 * k, 2);
    assert 2 * k + 2 == 2 * (k + 1);
    if Length(h[k]) == 4 {
      HalfLength(h[k]);
      HoldsTwo(mem, Wrap(a + 2 * k), HalfBytes(h[k]), HalfBytes(h[k + 1]));
    }
  }

  lemma HalfLength(h: u16)
    ensures |HalfBytes(h)| == 2
  {
  }

  /** The relocator's prologue stands where its halfwords were read. */
  lemma {:induction false} PrefixInPlace(mem: Memory, a: u64, m: nat, k: nat, size: int)
    requires k <= m && 2 * (m - k) >= size + 2 && H.Mapped(mem, a, 2 * m)
    ensures InPlace(mem, Wrap(a + 2 * k), R.Prefix(H.Halves(mem, a, m)[k..], size))
    decreases m - k
  {
    hide Wrap, Holds, H.Mapped, R.CopyBytes, H.Halves;
    if size > 0 {
      var h := H.Halves(mem, a, m);
      var len := Length(h[k]);
      assert h[k..][0] == h[k] && h[k..][1] == h[k + 1];
      CodeHeld(mem, a, m, k);
      assert R.Prefix(h[k..], size) == [CodeAt(h, k)] + R.Prefix(h[k..][len / 2..], size - len);
      assert h[k..][len / 2..] == h[k + len / 2..];
      Advance(a, 2 * k, len);
      PrefixInPlace(mem, a, m, k + len / 2, size - len);
      assert 2 * k + len == 2 * (k + len / 2);
    }
  }

  lemma HoldsTwo(mem: Memory, p: u64, x: seq<u8>, y: seq<u8>)
    requires |x| == 2 && Holds(mem, p, x) && Holds(mem, Wrap(p + 2), y)
    ensures Holds(mem, p, x + y)
  {
    hide Wrap;
    forall i | 0 <= i < |x + y| ensures ByteAt(mem, p + i, (x + y)[i]) {
      if i < 2 {
        assert ByteAt(mem, p + i, x[i]);
      } else {
        WrapTwice(p + 2, i - 2);
        assert p + 2 + (i - 2) == p + i;
        assert ByteAt(mem, Wrap(p + 2) + (i - 2), y[i - 2]);
      }
    }
  }

  // ---- The whole call ----

  /** The prologue that `DoHook` relocated. */
  function Prologue(before: Memory, info: H.HookInfo): seq<R.Code> {
    R.Prefix(H.Halves(before, info.address, H.READ_TEST), T.FirstSize(T.Suggested(info.address, info.trampoline)))
  }

  /** The memory as it would be without the patch: the saved bytes in place. */
  function Unhooked(after: Memory, info: H.HookInfo): Memory {
    H.Copied(after, info.address, info.backup)
  }

  lemma UnhookedAlike(after: Memory, info: H.HookInfo)
    ensures SameOutside(after, Unhooked(after, info), info.address, |info.backup|)
  {
    hide H.Behind;
  }

  lemma HalvesKept(before: Memory, info: H.HookInfo, block: seq<u8>)
    requires H.Placed(before, info, block)
    ensures H.Halves(H.Copied(before, info.relocated, block), info.address, H.READ_TEST)
            == H.Halves(before, info.address, H.READ_TEST)
  {
    hide H.Byte, H.Copied, H.Mapped, H.Apart, Wrap;
    var middle := H.Copied(before, info.relocated, block);
    forall i | 0 <= i < H.READ_TEST ensures H.HalfOf(middle, info.address, i) == H.HalfOf(before, info.address, i) {
      H.ApartAt(info.address, 2 * H.READ_TEST, info.relocated, |block|, 2 * i);
      H.ApartAt(info.address, 2 * H.READ_TEST, info.relocated, |block|, 2 * i + 1);
      H.ByteKept(before, info.relocated, block, info.address, 2 * i);
      H.ByteKept(before, info.relocated, block, info.address, 2 * i + 1);
    }
  }

  /** What holds where both calls start. */
  lemma Beginning(before: Memory, after: Memory, info: H.HookInfo, n: nat, block: seq<u8>)
    requires H.Hooked(before, after, info, n, block) && H.Placed(before, info, block)
    ensures var plain := Unhooked(after, info);
            && SameOutside(after, plain, info.address, n)
            && InPlace(plain, info.address, Prologue(before, info)) && R.Overwritten(Prologue(before, info)) == n
            && n <= 28
            && H.Apart(info.relocated, |block|, info.address, n) && Holds(plain, info.relocated, block)
  {
    hide T.First, T.Suggested, H.Copied, H.Halves, H.Saved, Holds, H.Mapped, H.Apart, R.Prefix, R.Accepted, R.Block;
    hide SameOutside, InPlace, R.Overwritten;
    var a, size := info.address, T.FirstSize(T.Suggested(info.address, info.trampoline));
    H.HookIsUndone(before, after, info, n, block);
    UnhookedAlike(after, info);
    H.CopiedHolds(before, info.relocated, block);
    H.ApartPart(info.relocated, |block|, a, 2 * H.READ_TEST, n);
    H.MappedPart(before, a, 2 * H.READ_TEST, 2 * H.READ_TEST, info.relocated, block);
    HalvesKept(before, info, block);
    PrefixInPlace(Unhooked(after, info), a, H.READ_TEST, 0, size);
    var h := H.Halves(before, a, H.READ_TEST);
    assert h[0..] == h;
    WrapSmall(a);
  }

  /** What may differ where the prologue is left: t3, and the link if it was left by a call. */
  ghost function Loose(e: R.Exit): set<Reg> {
    if e.Left? && e.link != X0 then {T3, e.link} else {T3}
  }

  /** The link of a call is the return address, in the block the place where the next instruction's
      translation stands. */
  ghost predicate Linked(e: R.Exit, s: State, p: seq<R.Code>, a: u64, home: int) {
    e.Left? && e.link != X0 ==>
      && s.Running? && e.index <= |p|
      && s.regs[e.link] == home + R.Position(p, e.index) && e.regs[e.link] == Wrap(a + R.Overwritten(p[..e.index]))
  }

  /** A call of the backup in the patched memory is a call of the function as it was. Both leave
      the prologue for the same place, and from there on, for as long as control stays outside
      the overwritten bytes and nothing reads them or what may differ, the two runs go the same
      way: same pc, same memory but the overwritten bytes, and the same registers but t3, until it
      is written, and the link of a call that left the prologue. The backup faults instead at an
      `auipc x0` whose stand-in address cannot be read. */
  lemma BackupIsTheFunction(cpu: Cpu, before: Memory, after: Memory, info: H.HookInfo, n: nat, block: seq<u8>, r: Regs)
    returns (there: nat, here: nat)
    requires H.Hooked(before, after, info, n, block) && H.Placed(before, info, block) && info.relocated + 312 < TWO_64
    requires Quiet(cpu, Prologue(before, info), info.address, r, Unhooked(after, info), info.address, n, block, info.relocated)
    ensures var e := R.RunOriginal(cpu, Prologue(before, info), info.address, r, Unhooked(after, info));
            && Run(cpu, Running(info.address, r, Unhooked(after, info)), there) == R.StateOf(e)
            && if R.StandInsReadable(cpu, Prologue(before, info), info.address, r, after) then
                 && Linked(e, Run(cpu, Running(info.relocated, r, after), here), Prologue(before, info), info.address,
                           info.relocated)
                 && forall k: nat | StaysOutside(cpu, R.StateOf(e), Loose(e), info.address, n, k) ::
                      Alike(Run(cpu, Running(info.relocated, r, after), here + k),
                            Run(cpu, Running(info.address, r, Unhooked(after, info)), there + k),
                            StillAfter(cpu, R.StateOf(e), Loose(e), info.address, n, k), info.address, n)
               else Run(cpu, Running(info.relocated, r, after), here) == Trapped
  {
    hide Run, H.Hooked, H.Placed, Quiet, R.RunOriginal, R.Spares, R.Stands, InPlace, SameOutside, StaysOutside, Holds;
    hide Alike, R.ExitMatches, Prologue, ExitsAlike, R.Overwritten, H.Apart, R.StandInsReadable, Loose, StillAfter, Linked;
    var p, a, plain := Prologue(before, info), info.address, Unhooked(after, info);
    Beginning(before, after, info, n, block);
    QuietAlike(cpu, p, a, r, after, plain, a, n, block, info.relocated);
    WrapSmall(a);
    assert a + 0 == a;
    QuietStands(cpu, p, 0, r, plain, a, n, block, info.relocated);
    there := R.OriginalInPlace(cpu, p, a, r, plain);
    here := BackupArrives(cpu, before, after, info, n, block, r);
    var s, s', e := Running(info.relocated, r, after), Running(a, r, plain), R.RunOriginal(cpu, p, a, r, plain);
    if R.StandInsReadable(cpu, p, a, r, after) {
      R.OriginalLink(cpu, p, a, r, plain);
      ArrivalsAlike(R.RunOriginal(cpu, p, a, r, after), e, Run(cpu, s, here), p, a, info.relocated, n);
      forall k: nat | StaysOutside(cpu, R.StateOf(e), Loose(e), a, n, k)
        ensures Alike(Run(cpu, s, here + k), Run(cpu, s', there + k), StillAfter(cpu, R.StateOf(e), Loose(e), a, n, k), a, n)
      {
        RunAlike(cpu, Run(cpu, s, here), R.StateOf(e), Loose(e), a, n, k);
        RunAdd(cpu, s, here, k);
        RunAdd(cpu, s', there, k);
      }
    }
  }

  lemma BackupArrives(cpu: Cpu, before: Memory, after: Memory, info: H.HookInfo, n: nat, block: seq<u8>, r: Regs)
    returns (here: nat)
    requires H.Hooked(before, after, info, n, block) && H.Placed(before, info, block) && info.relocated + 312 < TWO_64
    requires R.Spares(cpu, Prologue(before, info), info.address, r, after, block, info.relocated)
    ensures var s := Run(cpu, Running(info.relocated, r, after), here);
            if R.StandInsReadable(cpu, Prologue(before, info), info.address, r, after)
            then R.ExitMatches(R.RunOriginal(cpu, Prologue(before, info), info.address, r, after), s,
                               Prologue(before, info), info.relocated)
            else s == Trapped
  {
    hide Run, H.Hooked, H.Placed, R.Spares, R.StandInsReadable, R.ExitMatches, R.RunOriginal, H.Halves, T.Suggested, R.Prefix;
    here := H.BackupRunsPrologue(cpu, before, after, info, n, block, r);
  }

  lemma ArrivalsAlike(e: R.Exit, e': R.Exit, s: State, p: seq<R.Code>, a: u64, home: int, n: nat)
    requires ExitsAlike(e, e', a, n) && R.ExitMatches(e, s, p, home)
    requires e'.Left? && e'.link != X0 ==> e'.index <= |p| && e'.regs[e'.link] == Wrap(a + R.Overwritten(p[..e'.index]))
    ensures Alike(s, R.StateOf(e'), Loose(e'), a, n) && Linked(e', s, p, a, home)
  {
    hide SameOutside, Wrap, R.Overwritten, R.Position;
    match e {
      case Left(_, r, _, _, link) =>
        forall i: Reg | i !in Loose(e') ensures s.regs[i] == r[i] {
          if i == X0 {
            assert s.regs[0] == 0 && r[0] == 0;
          }
        }
      case Faulted =>
    }
  }

  // ---- A call that leaves the prologue and returns ----

  /** Whatever may differ, the next step leaves register `x` alone. */
  ghost predicate Spared(cpu: Cpu, s: State, free: set<Reg>, a: u64, n: nat, x: Reg) {
    forall s' | Alike(s', s, free, a, n) && s'.Running? && Step(cpu, s').Running? :: Step(cpu, s').regs[x] == s'.regs[x]
  }

  ghost predicate SparedFor(cpu: Cpu, s: State, free: set<Reg>, a: u64, n: nat, x: Reg, k: nat)
    decreases k
  {
    k > 0 ==> Spared(cpu, s, free, a, n, x) && SparedFor(cpu, Step(cpu, s), Still(cpu, s, free, a, n), a, n, x, k - 1)
  }

  lemma {:induction false} RegisterStays(cpu: Cpu, s: State, s': State, free: set<Reg>, a: u64, n: nat, x: Reg, k: nat)
    requires Alike(s, s', free, a, n) && StaysOutside(cpu, s', free, a, n, k) && SparedFor(cpu, s', free, a, n, x, k)
    ensures Run(cpu, s, k).Running? ==> s.Running? && Run(cpu, s, k).regs[x] == s.regs[x]
    decreases k
  {
    hide Alike, Outside, Step, Still;
    if k > 0 {
      StepSettles(cpu, s, s', free, a, n);
      RegisterStays(cpu, Step(cpu, s), Step(cpu, s'), Still(cpu, s', free, a, n), a, n, x, k - 1);
      TrapStays(cpu, s);
    }
  }

  lemma TrapStays(cpu: Cpu, s: State)
    ensures Step(cpu, s).Running? ==> s.Running?
  {
    hide Exec;
  }

  lemma AlikeItself(s: State, free: set<Reg>, a: u64, n: nat)
    ensures Alike(s, s, free, a, n)
  {
  }

  /** The prologue left by a call whose callee returns through the link, which it did not touch: the
      function goes on at the return address, the backup at the translation of the instruction that
      stood there, and all else agrees as before. */
  lemma CallReturns(cpu: Cpu, before: Memory, after: Memory, info: H.HookInfo, n: nat, block: seq<u8>, r: Regs,
                    e: R.Exit, k: nat, c: R.Code)
    returns (there: nat, here: nat)
    requires H.Hooked(before, after, info, n, block) && H.Placed(before, info, block) && info.relocated + 312 < TWO_64
    requires Quiet(cpu, Prologue(before, info), info.address, r, Unhooked(after, info), info.address, n, block, info.relocated)
    requires info.address % 2 == 0 && info.relocated % 2 == 0
    requires R.StandInsReadable(cpu, Prologue(before, info), info.address, r, after)
    requires e == R.RunOriginal(cpu, Prologue(before, info), info.address, r, Unhooked(after, info)) && e.Left? && e.link != X0
    requires StaysOutside(cpu, R.StateOf(e), Loose(e), info.address, n, k)
    requires SparedFor(cpu, R.StateOf(e), Loose(e), info.address, n, e.link, k)
    requires ReturnsAt(Run(cpu, R.StateOf(e), k), c, e.link, info.address, n)
    ensures var s := Run(cpu, Running(info.relocated, r, after), here);
            var s' := Run(cpu, Running(info.address, r, Unhooked(after, info)), there);
            && s.Running? && s'.Running? && e.index <= |Prologue(before, info)|
            && s'.pc == Wrap(info.address + R.Overwritten(Prologue(before, info)[..e.index]))
            && s.pc == info.relocated + R.Position(Prologue(before, info), e.index)
            && SameRegs(s.regs, s'.regs, Loose(e)) && SameOutside(s.mem, s'.mem, info.address, n)
  {
    hide Run, H.Hooked, H.Placed, Quiet, R.RunOriginal, SameOutside, StaysOutside, SparedFor, Holds, SameRegs;
    hide R.CopyBytes, H.Apart, Decode, Prologue, R.Overwritten, R.Position, R.StandInsReadable, Loose, StillAfter, Step, Wrap;
    there, here := BackupIsTheFunction(cpu, before, after, info, n, block, r);
    var a, p := info.address, Prologue(before, info);
    var s, s' := Running(info.relocated, r, after), Running(a, r, Unhooked(after, info));
    var arrived, left := Run(cpu, s, here), R.StateOf(e);
    assert Alike(Run(cpu, s, here + 0), Run(cpu, s', there + 0), StillAfter(cpu, left, Loose(e), a, n, 0), a, n) by {
      StayingForNothing(cpu, left, Loose(e), a, n);
    }
    StayingForNothing(cpu, left, Loose(e), a, n);
    RegisterStays(cpu, arrived, left, Loose(e), a, n, e.link, k);
    AlikeItself(left, Loose(e), a, n);
    RegisterStays(cpu, left, left, Loose(e), a, n, e.link, k);
    RunAdd(cpu, s, here, k);
    RunAdd(cpu, s', there, k);
    var x, x' := Run(cpu, arrived, k), Run(cpu, left, k);
    Widen(x, x', StillAfter(cpu, left, Loose(e), a, n, k), Loose(e), a, n);
    ReturnPlaces(p, e, a, info.relocated);
    Return(cpu, x, x', c, e.link, Loose(e), a, n);
    RunAdd(cpu, s, here + k, 1);
    RunAdd(cpu, s', there + k, 1);
    RunTwo(cpu, x);
    RunTwo(cpu, x');
    there, here := there + k + 1, here + k + 1;
  }

  /** A `jalr x0` through the link stands at the pc, outside the overwritten bytes. */
  ghost predicate ReturnsAt(s: State, c: R.Code, link: Reg, a: u64, n: nat) {
    s.Running? && Holds(s.mem, s.pc, R.CopyBytes(c)) && H.Apart(s.pc, c.Size(), a, n) && c.Insn() == Jalr(X0, link, 0, c.Size())
  }

  lemma StayingForNothing(cpu: Cpu, s: State, free: set<Reg>, a: u64, n: nat)
    ensures StaysOutside(cpu, s, free, a, n, 0) && StillAfter(cpu, s, free, a, n, 0) == free
  {
  }

  lemma Widen(s: State, s': State, free: set<Reg>, more: set<Reg>, a: u64, n: nat)
    requires Alike(s, s', free, a, n) && free <= more
    ensures Alike(s, s', more, a, n)
  {
    hide SameOutside;
  }

  lemma Return(cpu: Cpu, s: State, s': State, c: R.Code, link: Reg, free: set<Reg>, a: u64, n: nat)
    requires Alike(s, s', free, a, n) && ReturnsAt(s', c, link, a, n)
    requires s.Running? && s.regs[link] % 2 == 0 && s'.regs[link] % 2 == 0
    ensures Step(cpu, s) == Running(s.regs[link], s.regs, s.mem) && Step(cpu, s') == Running(s'.regs[link], s'.regs, s'.mem)
  {
    hide SameRegs, SameOutside, Holds, Step, R.CopyBytes, H.Apart, Decode, Wrap;
    CopyLength(c);
    HoldsAlike(s.mem, s'.mem, a, n, s.pc, R.CopyBytes(c));
    R.CopyStep(cpu, c, s.pc, s.regs, s.mem);
    R.CopyStep(cpu, c, s.pc, s'.regs, s'.mem);
    WrapSmall(s.regs[link]);
    WrapSmall(s'.regs[link]);
  }

  /** Both return addresses are even. */
  lemma ReturnPlaces(p: seq<R.Code>, e: R.Exit, a: u64, home: u64)
    requires a % 2 == 0 && home % 2 == 0 && e.Left? && e.index <= |p|
    ensures (home + R.Position(p, e.index)) % 2 == 0 && Wrap(a + R.Overwritten(p[..e.index])) % 2 == 0
  {
    hide R.Position, R.Overwritten, Wrap;
    EvenPosition(p, e.index);
    EvenOverwritten(p[..e.index]);
    R.EvenTarget(a, R.Overwritten(p[..e.index]));
  }

  lemma {:induction false} EvenPosition(p: seq<R.Code>, k: nat)
    requires k <= |p|
    ensures R.Position(p, k) % 2 == 0
    decreases k
  {
    hide R.ChunkSize;
    if k > 0 {
      EvenChunk(p[0]);
      EvenPosition(p[1..], k - 1);
    }
  }

  lemma EvenChunk(c: R.Code)
    ensures R.ChunkSize(c) % 2 == 0
  {
    hide R.Shape;
  }

  lemma {:induction false} EvenOverwritten(p: seq<R.Code>)
    ensures R.Overwritten(p) % 2 == 0
    decreases |p|
  {
    if p != [] {
      EvenOverwritten(p[1..]);
    }
  }

  // ---- Control that comes back into the overwritten bytes ----

  function Pushed(r: Regs): Regs {
    var sp: int := r[2];
    Set(r, 2, Wrap(sp - 16))
  }

  /** A hart on which `addi sp, sp, -16` does what it says and the reserved encoding 0x0010 is
      illegal. */
  function Plain(lo: u16, hi: u16, r: Regs, mem: Memory): Outcome {
    if lo == 0x0010 then Fault
    else Done(if lo == 0x1141 then Pushed(r) else r, mem)
  }

  const HART := Cpu(Plain)

  /** `addi sp, sp, -16` and a jump to itself. */
  const LOOP: seq<R.Code> := [R.Code(0x1141, 0), R.Code(0xa001, 0)]

  lemma LoopPrefix(h: seq<u16>)
    requires |h| > 2 && h[0] == 0x1141 && h[1] == 0xa001
    ensures R.Prefix(h, 4) == LOOP
  {
    assert h[1..][0] == 0xa001;
    assert R.Prefix(h[1..], 2) == [R.Code(0xa001, 0)] + R.Prefix(h[1..][1..], 0);
  }

  lemma LoopDecodes()
    ensures R.Code(0x1141, 0).Insn() == Other(0x1141, 0, 2) && R.Code(0xa001, 0).Insn() == Jal(X0, 0, 2)
    ensures R.Code(0x1141, 0).Size() == 2 && R.Code(0xa001, 0).Size() == 2
    ensures DecodeCompressed(0x0010) == Other(0x0010, 0, 2)
  {
    hide DecodeWord, DecodeCompressed;
    PushDecodes();
    JumpDecodes();
  }

  lemma PushDecodes()
    ensures DecodeCompressed(0x1141) == Other(0x1141, 0, 2) && DecodeCompressed(0x0010) == Other(0x0010, 0, 2)
  {
    hide ImmCJ, ImmCB;
  }

  lemma JumpDecodes()
    ensures DecodeCompressed(0xa001) == Jal(X0, 0, 2)
  {
    hide ImmCB;
  }

  /** The function itself loops for ever at its second instruction. */
  lemma {:induction false} LoopLoops(a: u64, r: Regs, mem: Memory, k: nat)
    requires InPlace(mem, a, LOOP)
    ensures Run(HART, Running(a, r, mem), k + 1) == Running(Wrap(a + 2), Pushed(r), mem)
    decreases k
  {
    hide Run, Step, Wrap, Holds, Decode, Exec, R.CopyBytes, Set;
    LoopDecodes();
    assert LOOP[1..] == [R.Code(0xa001, 0)] && LOOP[0] == R.Code(0x1141, 0);
    if k == 0 {
      R.CopyStep(HART, LOOP[0], a, r, mem);
      RunTwo(HART, Running(a, r, mem));
      ExecLoop(a, r, mem);
    } else {
      LoopLoops(a, r, mem, k - 1);
      RunAdd(HART, Running(a, r, mem), k, 1);
      R.CopyStep(HART, R.Code(0xa001, 0), Wrap(a + 2), Pushed(r), mem);
      RunTwo(HART, Running(Wrap(a + 2), Pushed(r), mem));
      ExecLoop(Wrap(a + 2), Pushed(r), mem);
    }
  }

  lemma ExecLoop(pc: u64, r: Regs, mem: Memory)
    ensures Exec(HART, Other(0x1141, 0, 2), pc, r, mem) == Fall(Pushed(r), mem)
    ensures Exec(HART, Jal(X0, 0, 2), pc, r, mem) == Jump(pc, r, mem)
  {
    WrapSmall(pc);
  }

  lemma LoopRuns(a: u64, r: Regs, mem: Memory, block: seq<u8>, home: u64, n: nat)
    requires Holds(mem, home, block)
    ensures R.RunOriginal(HART, LOOP, a, r, mem) == R.Left(Wrap(a + 2), Pushed(r), mem, 2, X0)
    ensures R.Spares(HART, LOOP, a, r, mem, block, home) && R.NoAuipcIntoZero(LOOP)
    ensures Quiet(HART, LOOP, a, r, mem, a, n, block, home)
  {
    hide Wrap, Holds, Decode, Exec, SameOutside, Set;
    LoopDecodes();
    ExecLoop(a, r, mem);
    ExecLoop(Wrap(a + 2), Pushed(r), mem);
    PushIgnores(r, mem, a, n);
    var rest := LOOP[1..];
    assert rest == [R.Code(0xa001, 0)] && LOOP[0] == R.Code(0x1141, 0);
    assert R.RunOriginal(HART, rest, Wrap(a + 2), Pushed(r), mem) == R.Left(Wrap(a + 2), Pushed(r), mem, 1, X0);
    assert R.Spares(HART, rest, Wrap(a + 2), Pushed(r), mem, block, home);
    assert Quiet(HART, rest, Wrap(a + 2), Pushed(r), mem, a, n, block, home);
  }

  lemma PushIgnores(r: Regs, mem: Memory, a: u64, n: nat)
    ensures Ignores(HART, Other(0x1141, 0, 2), r, mem, {}, a, n)
  {
    hide SameOutside, Set;
    forall r', mem' | SameRegs(r', r, {}) && SameOutside(mem', mem, a, n)
      ensures OutcomesAlike(HART.other(0x1141, 0, r', mem'), HART.other(0x1141, 0, r, mem), {}, a, n)
    {
      SameEverywhere(r', r);
    }
  }

  lemma NearWord(address: u64, target: u64)
    requires target == address + 0x800 && address % 2 == 0
    ensures T.Suggested(address, target) == T.PC20
    ensures T.First(address, target, T.PC20) == Some(WordBytes(0x0010_006f))
  {
    hide A.OrWord, WordBytes, Int64, AcceptableJ, MakeRawJ;
    var off := Int64(target - address);
    assert off == 0x800 by { assert target - address == 0x800; Int64Of800(); }
    T.JumpRuns(HART, address, target, seq(32, _ => 0), map[]);
    A.OrJump(X0, off);
    assert A.JumpBase(X0) == 0x6f && JalWord(X0, 0x800) == 0x0010_006f by { JalOf800(); }
  }

  lemma Int64Of800()
    ensures Int64(0x800) == 0x800
  {
  }

  lemma JalOf800()
    ensures A.JumpBase(X0) == 0x6f && JalWord(X0, 0x800) == 0x0010_006f
  {
  }

  /** The upper half of the four-byte patch for a distance of 0x800. */
  lemma PatchUpper(address: u64, mem: Memory)
    requires Holds(mem, address, WordBytes(0x0010_006f))
    ensures Holds(mem, Wrap(address + 2), HalfBytes(0x0010))
  {
    hide Wrap, Holds;
    assert WordBytes(0x0010_006f) == HalfBytes(0x006f) + HalfBytes(0x0010);
    HoldsPart(mem, address, HalfBytes(0x006f), HalfBytes(0x0010));
    HoldsWrapped(mem, address + 2, HalfBytes(0x0010));
  }

  /** Why control must stay outside: the function `addi sp, sp, -16; 1: j 1b`, hooked with a
      trampoline 0x800 bytes further on. All else that `BackupIsTheFunction` asks for holds. The
      function loops for ever; its backup jumps to the `j`, where now the second half of the patch
      stands, and faults. */
  lemma LoopIntoPatch(before: Memory, after: Memory, info: H.HookInfo, n: nat, block: seq<u8>, r: Regs) returns (here: nat)
    requires H.Hooked(before, after, info, n, block) && H.Placed(before, info, block) && info.relocated + 312 < TWO_64
    requires info.address % 2 == 0 && info.trampoline == info.address + 0x800
    requires H.Halves(before, info.address, H.READ_TEST)[0] == 0x1141 && H.Halves(before, info.address, H.READ_TEST)[1] == 0xa001
    ensures R.StandInsReadable(HART, Prologue(before, info), info.address, r, after)
    ensures Quiet(HART, Prologue(before, info), info.address, r, Unhooked(after, info), info.address, n, block, info.relocated)
    ensures R.RunOriginal(HART, Prologue(before, info), info.address, r, Unhooked(after, info))
            == R.Left(Wrap(info.address + 2), Pushed(r), Unhooked(after, info), 2, X0)
    ensures forall k: nat | k > 0 ::
              Run(HART, Running(info.address, r, Unhooked(after, info)), k)
              == Running(Wrap(info.address + 2), Pushed(r), Unhooked(after, info))
    ensures Run(HART, Running(info.relocated, r, after), here) == Trapped
  {
    hide Run, H.Hooked, H.Placed, Quiet, R.RunOriginal, R.Spares, InPlace, SameOutside, Holds, H.Halves, Wrap, T.First;
    hide R.NoAuipcIntoZero, R.StandInsReadable, R.Overwritten, H.Apart, Unhooked, T.Suggested, R.Prefix, Step, R.ExitMatches;
    var plain := Unhooked(after, info);
    NearWord(info.address, info.trampoline);
    LoopPrefix(H.Halves(before, info.address, H.READ_TEST));
    Beginning(before, after, info, n, block);
    LoopRuns(info.address, r, plain, block, info.relocated, n);
    forall k: nat | k > 0 ensures Run(HART, Running(info.address, r, plain), k) == Running(Wrap(info.address + 2), Pushed(r), plain) {
      LoopLoops(info.address, r, plain, k - 1);
    }
    H.HookIsUndone(before, after, info, n, block);
    PatchUpper(info.address, after);
    LoopRuns(info.address, r, after, block, info.relocated, n);
    R.ReadableWithoutAuipc(HART, LOOP, info.address, r, after);
    here := BackupArrives(HART, before, after, info, n, block, r);
    var s := Run(HART, Running(info.relocated, r, after), here);
    Arrived(R.RunOriginal(HART, LOOP, info.address, r, after), s, info.relocated);
    FaultsHere(s);
    RunAdd(HART, Running(info.relocated, r, after), here, 1);
    RunTwo(HART, s);
    here := here + 1;
  }

  lemma Arrived(e: R.Exit, s: State, home: int)
    requires R.ExitMatches(e, s, LOOP, home) && e.Left?
    ensures s.Running? && s.pc == e.pc && s.mem == e.mem
  {
  }

  lemma FaultsHere(s: State)
    requires s.Running? && Holds(s.mem, s.pc, HalfBytes(0x0010))
    ensures Step(HART, s) == Trapped
  {
    hide Holds, Step, Decode, DecodeCompressed, HalfBytes, R.Code.Insn;
    LoopDecodes();
    StepHalf(HART, s.pc, s.regs, s.mem, 0x0010);
  }
}
