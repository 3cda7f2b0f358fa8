/** The first trampoline: which jump is suggested, the bytes written for it, and what the machine
    does when it runs them. */
module Trampoline {
  import opened Words
  import opened Encoding
  import opened Isa
  import opened Sequences
  import opened Wrappers
  import A = Assembler

  datatype Kind = Wide | PC20 | PC32 | VA32

  /** `GetSuggestedTrampolineType`. */
  function Suggested(address: u64, target: u64): Kind {
    var off := Int64(target - address);
    if -0xffffe <= off <= 0xffffe then PC20
    else if target < 0x7fff_f800 then VA32
    else if 0 < off < 0x7fff_f800 then PC32
    else Wide
  }

  /** `GetFirstTrampolineSize`; the packed `WideTrampoline` has 18 bytes. */
  function FirstSize(kind: Kind): nat {
    match kind
    case PC20 => 4
    case PC32 => 8
    case VA32 => 8
    case Wide => 18
  }

  /** `Write32BitJumpInstruction`; `None` where an immediate is not acceptable. */
  function Write32(op: int, v: u32): Option<seq<u8>>
    requires 0 <= op < 0x80
  {
    var carry := v % 0x1000 >= 0x800;
    var base := if carry then v / 0x1000 + 1 else v / 0x1000;
    var add := if carry then v % 0x1000 - 0x1000 else v % 0x1000;
    var upper := Wrap32(base * 0x1000);
    if AcceptableU(UInt32Type, upper) && AcceptableI(Int32Type, add) then
      var first := A.OrWord(A.OrWord(op, 0x80 * T3), MakeRawU(upper));
      var second := A.OrWord(A.OrWord(0x67, 0x8000 * T3), MakeRawI(add));
      Some(WordBytes(first) + WordBytes(second))
    else None
  }

  /** `WriteFirstTrampoline`: the bytes copied to `address`; `None` where it aborts. */
  function First(address: u64, target: u64, kind: Kind): Option<seq<u8>> {
    var off := Int64(target - address);
    match kind
    case PC20 =>
      if -0xffffe <= off <= 0xffffe && AcceptableJ(Int64Type, off) then
        Some(WordBytes(A.OrWord(0x6f, MakeRawJ(off))))
      else None
    case PC32 => if 0 < off < 0x7fff_f800 then Write32(0x17, off) else None
    case VA32 => if target < 0x7fff_f800 then Write32(0x37, target) else None
    case Wide => Some(WordBytes(0x00000e17) + WordBytes(0x00ae3e03) + HalfBytes(0x8e02) + QuadBytes(target))
  }

  // ---- The two words ----

  /** Fields above the opcode do not meet it. */
  lemma OrOpcode(op: int, k: nat)
    requires 0 <= op < 0x80 && k < 0x2_0000
    ensures A.OrWord(op, 0x80 * k) == op + 0x80 * k
  {
    hide Or;
    OrSplit7(0, op, k, 0);
    OrZero(op);
    OrZero(k);
    Div(op + 0x80 * k, 0x1_0000_0000, 0, op + 0x80 * k);
  }

  /** The two words of `Write32`: both immediates are acceptable, and they add up to `v`. */
  lemma Write32Words(op: int, v: u32)
    requires 0 <= op < 0x80 && v < 0x7fff_f800
    ensures Write32(op, v).Some?
    ensures var top, add := v - Bottom(v), Bottom(v);
            && top % 0x1000 == 0 && 0 <= top < 0x8000_0000 && -0x800 <= add < 0x800
            && op + 0x80 * T3 + MakeRawU(top) < 0x1_0000_0000
            && Layout(0x67, 0, 0, T3, 0, 0) + MakeRawI(add) < 0x1_0000_0000
            && Write32(op, v).value == WordBytes(op + 0x80 * T3 + MakeRawU(top))
                                       + WordBytes(Layout(0x67, 0, 0, T3, 0, 0) + MakeRawI(add))
  {
    hide A.OrWord, WordBytes, AcceptableU, AcceptableI;
    var q, t := v / 0x1000, v % 0x1000;
    var carry := if t >= 0x800 then 1 else 0;
    Euclid(v, 0x1000);
    Div(v + 0x800, 0x1000, q + carry, t + 0x800 - 0x1000 * carry);
    var top, add := 0x1000 * (q + carry), t - 0x1000 * carry;
    assert Bottom(v) == add;
    Div(top, 0x1_0000_0000, 0, top);
    Div(top, 0x1000, q + carry, 0);
    AcceptedExactlyWhenRepresentable(UInt32Type, top);
    AcceptedExactlyWhenRepresentable(Int32Type, add);
    UpperRoundTrip(top, op, T3);
    ImmediateRoundTrip(add, 0x67, 0, 0, T3);
    OrOpcode(op, T3);
    OrOpcode(0x67, 0x100 * T3);
    UpperRaw(top, q + carry);
    A.OrUpper(op + 0x80 * T3, q + carry);
    A.OrTop(0x67 + 0x8000 * T3, add % 0x1000);
  }

  lemma UpperRaw(top: int, k: int)
    requires top == 0x1000 * k && 0 <= top < 0x8000_0000
    ensures MakeRawU(top) == 0x1000 * k
  {
    Div(top, 0x1_0000_0000, 0, top);
    Div(top, 0x1000, k, 0);
  }

  /** Adding the 64-bit distance to where it was measured from leads to the target. */
  lemma OffsetBack(address: u64, target: u64)
    ensures Wrap(address + Int64(target - address)) == target
    ensures address % 2 == 0 && target % 2 == 0 ==> Int64(target - address) % 2 == 0
  {
    var m, x := TWO_64, target - address;
    Euclid(x + 0x8000_0000_0000_0000, m);
    var q := (x + 0x8000_0000_0000_0000) / m;
    assert Int64(x) == x - m * q;
    Div(address + Int64(x), m, -q, target);
    if address % 2 == 0 && target % 2 == 0 {
      Div(Int64(x), 2, target / 2 - address / 2 - 0x8000_0000_0000_0000 * q, 0);
    }
  }

  lemma JumpRuns(cpu: Cpu, address: u64, target: u64, r: Regs, mem: Memory)
    requires address % 2 == 0 && target % 2 == 0 && -0xffffe <= Int64(target - address) <= 0xffffe
    ensures First(address, target, PC20).Some?
    ensures Holds(mem, address, First(address, target, PC20).value) ==>
              Run(cpu, Running(address, r, mem), 1) == Running(target, r, mem)
  {
    hide A.OrWord, WordBytes, AcceptableJ, MakeRawJ, Int64, Wrap, Holds, Run, Step, DecodeWord;
    var off := Int64(target - address);
    OffsetBack(address, target);
    Representable(off);
    A.OrJump(X0, off);
    JalWordDecodes(X0, off);
    if Holds(mem, address, First(address, target, PC20).value) {
      StepWord(cpu, address, r, mem, JalWord(X0, off));
      RunTwo(cpu, Running(address, r, mem));
    }
  }

  lemma Representable(off: int)
    requires -0xffffe <= off <= 0xffffe && off % 2 == 0
    ensures AcceptableJ(Int64Type, off)
  {
    hide AcceptableJ;
    AcceptedExactlyWhenRepresentable(Int64Type, off);
  }

  /** `jalr zero, t3, add` after `t3` was given the upper part. */
  lemma JalrRuns(cpu: Cpu, here: u64, add: int, r: Regs, mem: Memory, target: u64)
    requires -0x800 <= add < 0x800 && target % 2 == 0 && Wrap(r[T3] + add) == target
    requires Layout(0x67, 0, 0, T3, 0, 0) + MakeRawI(add) < 0x1_0000_0000
    requires Holds(mem, here, WordBytes(Layout(0x67, 0, 0, T3, 0, 0) + MakeRawI(add)))
    ensures Step(cpu, Running(here, r, mem)) == Running(target, r, mem)
  {
    hide WordBytes, MakeRawI, Wrap, Holds, Step, DecodeWord, Layout, Opcode, Funct3, Rd, Rs1, ImmI;
    ImmediateRoundTrip(add, 0x67, 0, 0, T3);
    var w := Layout(0x67, 0, 0, T3, 0, 0) + MakeRawI(add);
    ReadJalr(w, X0, T3, add);
    StepWord(cpu, here, r, mem, w);
  }

  /** The first word: `auipc t3, top` or `lui t3, top`. */
  lemma UpperRuns(cpu: Cpu, op: int, here: u64, top: int, r: Regs, mem: Memory)
    requires (op == 0x17 || op == 0x37) && top % 0x1000 == 0 && 0 <= top < 0x8000_0000
    requires op + 0x80 * T3 + MakeRawU(top) < 0x1_0000_0000
    requires Holds(mem, here, WordBytes(op + 0x80 * T3 + MakeRawU(top)))
    ensures Step(cpu, Running(here, r, mem))
            == Running(Wrap(here + 4), Set(r, T3, Wrap(if op == 0x17 then here + top else top)), mem)
  {
    hide WordBytes, MakeRawU, Wrap, Holds, Step, DecodeWord, Opcode, Rd, ImmU;
    UpperRoundTrip(top, op, T3);
    var w := op + 0x80 * T3 + MakeRawU(top);
    if op == 0x17 {
      ReadAuipc(w, T3, top);
    } else {
      ReadLui(w, T3, top);
    }
    StepWord(cpu, here, r, mem, w);
  }

  /** Two instructions reach `origin + v`, having changed t3 only. */
  lemma Write32Runs(cpu: Cpu, op: int, address: u64, v: u32, r: Regs, mem: Memory, target: u64) returns (t3: u64)
    requires (op == 0x17 || op == 0x37) && v < 0x7fff_f800 && target % 2 == 0
    requires Wrap((if op == 0x17 then address else 0) + v) == target
    ensures Write32(op, v).Some?
    ensures Holds(mem, address, Write32(op, v).value) ==>
              Run(cpu, Running(address, r, mem), 2) == Running(target, Set(r, T3, t3), mem)
  {
    hide WordBytes, MakeRawU, MakeRawI, Wrap, Holds, Step, Run, Layout, Bottom, Write32;
    Write32Words(op, v);
    var top, add := v - Bottom(v), Bottom(v);
    var origin := if op == 0x17 then address else 0;
    t3 := Wrap(origin + top);
    var first, second := op + 0x80 * T3 + MakeRawU(top), Layout(0x67, 0, 0, T3, 0, 0) + MakeRawI(add);
    if Holds(mem, address, Write32(op, v).value) {
      HoldsPart(mem, address, WordBytes(first), WordBytes(second));
      WordBytesLength(first);
      HoldsWrapped(mem, address + 4, WordBytes(second));
      UpperRuns(cpu, op, address, top, r, mem);
      WrapTwice(origin + top, add);
      assert origin + top + add == origin + v;
      JalrRuns(cpu, Wrap(address + 4), add, Set(r, T3, t3), mem, target);
      RunTwo(cpu, Running(address, r, mem));
    }
  }

  // ---- The wide form ----

  lemma WideWords()
    ensures DecodeWord(0x00000e17) == Auipc(T3, 0) && DecodeWord(0x00ae3e03) == Ld(T3, T3, 10)
    ensures DecodeCompressed(0x8e02) == Jalr(X0, T3, 0, 2)
  {
  }

  lemma {:induction false} RunThree(cpu: Cpu, s: State)
    ensures Run(cpu, s, 3) == Step(cpu, Step(cpu, Step(cpu, s)))
  {
    hide Step;
    RunTwo(cpu, Step(cpu, s));
    assert Run(cpu, s, 3) == Run(cpu, Step(cpu, s), 2);
  }

  lemma WideParts(mem: Memory, address: u64, target: u64)
    requires Holds(mem, address, First(address, target, Wide).value)
    ensures Holds(mem, address, WordBytes(0x00000e17)) && Holds(mem, Wrap(address + 4), WordBytes(0x00ae3e03))
    ensures Holds(mem, Wrap(address + 8), HalfBytes(0x8e02)) && Holds(mem, address + 10, QuadBytes(target))
  {
    hide WordBytes, HalfBytes, QuadBytes, Holds, Wrap;
    var a, b, c, d := WordBytes(0x00000e17), WordBytes(0x00ae3e03), HalfBytes(0x8e02), QuadBytes(target);
    WordBytesLength(0x00000e17);
    WordBytesLength(0x00ae3e03);
    assert |c| == 2 by { HalfLength(0x8e02); }
    HoldsPart(mem, address, a + b + c, d);
    HoldsPart(mem, address, a + b, c);
    HoldsPart(mem, address, a, b);
    HoldsWrapped(mem, address + 4, b);
    HoldsWrapped(mem, address + 8, c);
  }

  lemma HalfLength(h: u16)
    ensures |HalfBytes(h)| == 2
  {
  }

  /** `auipc t3, 0; ld t3, 10(t3); jr t3` and the literal behind it. */
  lemma WideRuns(cpu: Cpu, address: u64, target: u64, r: Regs, mem: Memory)
    requires target % 2 == 0 && Holds(mem, address, First(address, target, Wide).value)
    ensures Run(cpu, Running(address, r, mem), 3) == Running(target, Set(r, T3, target), mem)
  {
    hide WordBytes, HalfBytes, QuadBytes, Holds, Wrap, Step, Run, DecodeWord, DecodeCompressed, HasDouble, DoubleAt, First;
    WideParts(mem, address, target);
    WideWords();
    var r1, r2 := Set(r, T3, Wrap(address + 0)), Set(r, T3, target);
    StepWord(cpu, address, r, mem, 0x00000e17);
    assert Step(cpu, Running(address, r, mem)) == Running(Wrap(address + 4), r1, mem);
    StepWord(cpu, Wrap(address + 4), r1, mem, 0x00ae3e03);
    HoldsQuad(mem, address + 10, target);
    WrapTwice(address + 0, 10);
    var base: int := r1[T3];
    SameDouble(mem, base + 10, address + 10);
    WrapTwice(address + 4, 4);
    assert Set(r1, T3, target) == r2;
    assert Step(cpu, Running(Wrap(address + 4), r1, mem)) == Running(Wrap(address + 8), r2, mem);
    StepHalf(cpu, Wrap(address + 8), r2, mem, 0x8e02);
    WrapSmall(target);
    RunThree(cpu, Running(address, r, mem));
  }

  // ---- The suggested trampoline ----

  /** For every even address and even target the suggested kind never aborts, has the size the
      relocator is asked for, and its bytes lead from `address` to `target` with nothing changed
      but t3. */
  lemma SuggestedReaches(cpu: Cpu, address: u64, target: u64, r: Regs, mem: Memory) returns (steps: nat, t3: u64)
    requires address % 2 == 0 && target % 2 == 0
    ensures var kind := Suggested(address, target);
            && First(address, target, kind).Some? && |First(address, target, kind).value| == FirstSize(kind)
            && (Holds(mem, address, First(address, target, kind).value) ==>
                  Run(cpu, Running(address, r, mem), steps) == Running(target, if steps == 1 then r else Set(r, T3, t3), mem))
  {
    hide Run, Holds, WordBytes, HalfBytes, QuadBytes, Write32, Int64, Wrap;
    var off := Int64(target - address);
    FirstLength(address, target, Suggested(address, target));
    OffsetBack(address, target);
    match Suggested(address, target) {
      case PC20 =>
        JumpRuns(cpu, address, target, r, mem);
        steps, t3 := 1, 0;
      case VA32 =>
        WrapSmall(target);
        t3 := Write32Runs(cpu, 0x37, address, target, r, mem, target);
        steps := 2;
      case PC32 =>
        t3 := Write32Runs(cpu, 0x17, address, off, r, mem, target);
        steps := 2;
      case Wide =>
        if Holds(mem, address, First(address, target, Wide).value) {
          WideRuns(cpu, address, target, r, mem);
        }
        steps, t3 := 3, target;
    }
  }

  lemma FirstLength(address: u64, target: u64, kind: Kind)
    ensures First(address, target, kind).Some? ==> |First(address, target, kind).value| == FirstSize(kind)
  {
    hide A.OrWord, MakeRawJ, MakeRawU, MakeRawI, AcceptableJ, AcceptableU, AcceptableI, Int64;
  }

  /** Writing aborts exactly when the target is out of the kind's reach, or at an odd distance for `jal`. */
  lemma WrittenExactly(address: u64, target: u64, kind: Kind)
    ensures var off := Int64(target - address);
            First(address, target, kind).Some? <==>
              match kind
              case PC20 => Near(off) && off % 2 == 0
              case PC32 => 0 < off < 0x7fff_f800
              case VA32 => target < 0x7fff_f800
              case Wide => true
  {
    hide Int64, A.OrWord, WordBytes, AcceptableJ, MakeRawJ, Write32;
    var off := Int64(target - address);
    match kind {
      case PC20 => AcceptedExactlyWhenRepresentable(Int64Type, off);
      case PC32 =>
        if 0 < off < 0x7fff_f800 {
          Write32Words(0x17, off);
        }
      case VA32 =>
        if target < 0x7fff_f800 {
          Write32Words(0x37, target);
        }
      case Wide =>
    }
  }

  /** The suggestion by the bytes it costs: 4 exactly within 0xffffe of the function, else 8 exactly
      for a target below 0x7ffff800 or less than 0x7ffff800 behind the function, else 18. */
  lemma SuggestedCosts(address: u64, target: u64)
    ensures var d, size := target - address, FirstSize(Suggested(address, target));
            && size == (if Near(d) || Near(d + 0x1_0000_0000_0000_0000) || Near(d - 0x1_0000_0000_0000_0000) then 4
                        else if target < 0x7fff_f800 || 0 < d < 0x7fff_f800 || 0 < d + 0x1_0000_0000_0000_0000 < 0x7fff_f800 then 8
                        else 18)
  {
    hide Int64;
    SignedDistance(target - address);
  }

  /** A distance that one `jal` is used for. */
  predicate Near(d: int) { -1048574 <= d <= 1048574 }

  lemma SignedDistance(d: int)
    requires -0x1_0000_0000_0000_0000 < d < 0x1_0000_0000_0000_0000
    ensures Int64(d) == if d < -0x8000_0000_0000_0000 then d + 0x1_0000_0000_0000_0000
                        else if d >= 0x8000_0000_0000_0000 then d - 0x1_0000_0000_0000_0000 else d
  {
    var x := d + 0x8000_0000_0000_0000;
    var k := if x < 0 then -1 else if x >= TWO_64 then 1 else 0;
    Div(x, TWO_64, k, x - TWO_64 * k);
  }

  // ---- Where the second trampoline may be ----

  /** A page size the kernel uses. */
  predicate IsPageSize(page: int) {
    page == 0x1000 || page == 0x2000 || page == 0x4000 || page == 0x8000 || page == 0x1_0000
  }

  datatype Range = Range(start: u64, end: u64)

  /** The range `AllocSecondTrampoline` asks for, in `uintptr_t` arithmetic. */
  function Requested(kind: Kind, address: u64): Range
    requires kind != Wide
  {
    match kind
    case PC20 => Range(Wrap(address - 0xffffe), Wrap(address + 0xffffe))
    case PC32 => Range(address, Wrap(address + 0x7fff_f800))
    case VA32 => Range(0, 0x7fff_f800)
  }

  /** `__builtin_align_up` and `__builtin_align_down`. */
  function PageRange(range: Range, page: int): Range
    requires IsPageSize(page)
  {
    var up := Wrap(range.start + page - 1);
    Euclid(up, page);
    Euclid(range.end, page);
    FloorIsNat(up, page);
    FloorIsNat(range.end, page);
    Range(up - up % page, range.end - range.end % page)
  }

  lemma FloorIsNat(x: u64, page: int)
    requires page > 0
    ensures 0 <= x - x % page <= x
  {
    Euclid(x, page);
    if x / page <= -1 {
      MulAtMost(page, x / page);
    } else if x / page >= 1 {
      MulAtLeast(page, x / page);
    }
  }

  /** The filter of the ranged `Memory::Alloc` on an existing heap. */
  predicate HeapFits(heapStart: u64, heapSize: nat, range: Range) {
    heapStart >= range.start && heapStart + heapSize <= range.end
  }

  lemma PageRangeBounds(range: Range, page: int)
    requires IsPageSize(page)
    ensures PageRange(range, page).end <= range.end
    ensures PageRange(range, page).start >= range.start || range.start > 0x1_0000_0000_0000_0000 - page
  {
    var m := TWO_64;
    var x := range.start + page - 1;
    if x < m {
      Div(x, m, 0, x);
      Euclid(x, page);
    }
  }

  /** A trampoline that the ranged allocation placed is never so far away that the wide form is
      needed, so the relocator is asked for at most 8 bytes, wherever the function is. */
  lemma RangedNeverWide(kind: Kind, address: u64, page: int, heapStart: u64, heapSize: nat, trampoline: u64)
    requires kind != Wide && IsPageSize(page)
    requires HeapFits(heapStart, heapSize, PageRange(Requested(kind, address), page))
    requires heapStart <= trampoline < heapStart + heapSize
    ensures Suggested(address, trampoline) != Wide && FirstSize(Suggested(address, trampoline)) <= 8
  {
    hide PageRange, Int64;
    PageRangeBounds(Requested(kind, address), page);
    match kind {
      case VA32 =>
      case PC20 => NearNeverWide(address, page, PageRange(Requested(PC20, address), page), heapStart, heapSize, trampoline);
      case PC32 => AboveNeverWide(address, page, PageRange(Requested(PC32, address), page), heapStart, heapSize, trampoline);
    }
  }

  /** The range is no narrower than it must be. Unless the ends turn over, the one for `kPC20` holds
      exactly the places that one `jal` is suggested for, and those for `kPC32` and `kVA32` hold every
      place that is suggested that kind, and besides only places with a shorter one. */
  lemma RequestedExactly(kind: Kind, address: u64, place: u64)
    requires kind != Wide
    ensures var r, k := Requested(kind, address), Suggested(address, place);
            match kind
            case PC20 => 1048574 <= address < 0x1_0000_0000_0000_0000 - 1048574 ==> (r.start <= place <= r.end <==> k == PC20)
            case VA32 => (k == VA32 ==> r.start <= place < r.end) && (r.start <= place < r.end ==> k == VA32 || k == PC20)
            case PC32 => address < 0x1_0000_0000_0000_0000 - 0x7fff_f800 ==>
                           && (k == PC32 ==> r.start <= place < r.end)
                           && (r.start <= place < r.end <==> 0 <= place - address < 0x7fff_f800)
                           && (r.start <= place < r.end ==> k != Wide)
  {
    hide Int64;
    SignedDistance(place - address);
    if 1048574 <= address < 0x1_0000_0000_0000_0000 - 1048574 {
      WrapAround(address - 0xffffe);
      WrapAround(address + 0xffffe);
    }
    WrapAround(address + 0x7fff_f800);
  }

  /** Rounding the range to pages turns no heap away: heaps are whole pages. */
  lemma RoundingLosesNoHeap(range: Range, page: int, heapStart: u64, heapSize: nat)
    requires IsPageSize(page) && heapStart % page == 0 && heapSize % page == 0
    requires range.start <= 0x1_0000_0000_0000_0000 - page
    ensures HeapFits(heapStart, heapSize, PageRange(range, page))
            <==> range.start <= heapStart && heapStart + heapSize <= range.end
  {
    hide PageRange;
    PageRangeBounds(range, page);
    PageRangeIs(range, page);
    var r, h, n := PageRange(range, page), heapStart / page, heapSize / page;
    Euclid(heapStart, page);
    Euclid(heapSize, page);
    assert page * (h + n) == page * h + page * n;
    if heapStart >= range.start {
      NextMultiple(page, h, r.start / page, range.start);
    }
    if heapStart + heapSize <= range.end {
      NextMultiple(page, r.end / page, h + n, r.end);
    }
  }

  lemma PageRangeIs(range: Range, page: int)
    requires IsPageSize(page) && range.start <= 0x1_0000_0000_0000_0000 - page
    ensures var r := PageRange(range, page);
            && r.start == page * (r.start / page) && r.end == page * (r.end / page)
            && r.start < range.start + page && r.end > range.end - page
  {
    var x, e := range.start + page - 1, range.end;
    Div(x, TWO_64, 0, x);
    Euclid(x, page);
    Euclid(e, page);
    Div(x - x % page, page, x / page, 0);
    Div(e - e % page, page, e / page, 0);
  }

  /** A multiple at or above `x` is at or above the first one. */
  lemma NextMultiple(page: int, k: int, first: int, x: int)
    requires page > 0 && page * k >= x && page * first < x + page
    ensures page * k >= page * first
  {
    if k < first {
      assert page * (first - k) == page * first - page * k;
      MulAtLeast(page, first - k);
    }
  }

  lemma Distance(address: u64, target: u64)
    ensures -0x8000_0000_0000_0000 <= target - address < 0x8000_0000_0000_0000 ==> Int64(target - address) == target - address
  {
    var x := target - address + 0x8000_0000_0000_0000;
    if 0 <= x < TWO_64 {
      Div(x, TWO_64, 0, x);
    }
  }

  lemma NearNeverWide(address: u64, page: int, range: Range, heapStart: u64, heapSize: nat, trampoline: u64)
    requires IsPageSize(page) && range.end <= Requested(PC20, address).end
    requires range.start >= Requested(PC20, address).start || Requested(PC20, address).start > 0x1_0000_0000_0000_0000 - page
    requires HeapFits(heapStart, heapSize, range) && heapStart <= trampoline < heapStart + heapSize
    ensures Suggested(address, trampoline) == PC20
  {
    hide Int64;
    Distance(address, trampoline);
    WrapAround(address - 0xffffe);
    WrapAround(address + 0xffffe);
  }

  lemma AboveNeverWide(address: u64, page: int, range: Range, heapStart: u64, heapSize: nat, trampoline: u64)
    requires IsPageSize(page) && range.end <= Requested(PC32, address).end
    requires range.start >= Requested(PC32, address).start || Requested(PC32, address).start > 0x1_0000_0000_0000_0000 - page
    requires HeapFits(heapStart, heapSize, range) && heapStart <= trampoline < heapStart + heapSize
    ensures Suggested(address, trampoline) != Wide
  {
    hide Int64;
    Distance(address, trampoline);
    WrapAround(address + 0x7fff_f800);
  }

  lemma WrapAround(x: int)
    requires -0x1_0000_0000_0000_0000 <= x < 0x2_0000_0000_0000_0000
    ensures Wrap(x) == if x < 0 then x + 0x1_0000_0000_0000_0000 else if x >= 0x1_0000_0000_0000_0000 then x - 0x1_0000_0000_0000_0000 else x
  {
    if x < 0 {
      Div(x, TWO_64, -1, x + TWO_64);
    } else if x >= TWO_64 {
      Div(x, TWO_64, 1, x - TWO_64);
    } else {
      Div(x, TWO_64, 0, x);
    }
  }
}
