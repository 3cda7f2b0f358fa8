/** `DoHook` on code memory: relocate the prologue, save it, patch a jump over it; and `Unhook`,
    which writes the saved bytes back. */
module Hooking {
  import opened Words
  import opened Isa
  import opened Sequences
  import opened Wrappers
  import Relocation
  import Relocator
  import T = Trampoline

  /** The halfwords `DoHook` tests for readability before anything else. */
  const READ_TEST: nat := 16

  // ---- Code memory ----

  /** How far `x` lies behind `a`, around the top of the address space. */
  function Behind(x: int, a: u64): u64 { Wrap(x - a) }

  /** `Memory::Copy`: memory with `bytes` written at `a`. */
  function Copied(mem: Memory, a: u64, bytes: seq<u8>): Memory {
    map x | x in mem :: if Behind(x, a) < |bytes| then bytes[Behind(x, a)] else mem[x]
  }

  predicate MappedAt(mem: Memory, a: u64, i: int) { Wrap(a + i) in mem }

  predicate Mapped(mem: Memory, a: u64, n: nat) {
    forall i :: 0 <= i < n ==> MappedAt(mem, a, i)
  }

  /** The byte `i` behind `a`; reads of unmapped bytes do not come up. */
  function Byte(mem: Memory, a: u64, i: int): u8 {
    if MappedAt(mem, a, i) then mem[Wrap(a + i)] else 0
  }

  function Saved(mem: Memory, a: u64, n: nat): (bytes: seq<u8>)
    ensures |bytes| == n
  {
    seq(n, i => Byte(mem, a, i))
  }

  function Halves(mem: Memory, a: u64, n: nat): (h: seq<u16>)
    ensures |h| == n
  {
    seq(n, i => HalfOf(mem, a, i))
  }

  function HalfOf(mem: Memory, a: u64, i: int): u16 {
    var low: int, high: int := Byte(mem, a, 2 * i), Byte(mem, a, 2 * i + 1);
    low + 0x100 * high
  }

  lemma BehindForward(a: u64, i: nat)
    requires i < TWO_64
    ensures Behind(Wrap(a + i), a) == i
  {
    var origin: int := a;
    WrapTwice(origin + i, 0 - origin);
    WrapSmall(i);
    assert a + i - a == i;
  }

  lemma ForwardBehind(x: u64, a: u64)
    ensures Wrap(a + Behind(x, a)) == x
  {
    WrapTwice(x - a, a);
    WrapSmall(x);
    assert x - a + a == x;
  }

  lemma CopiedHolds(mem: Memory, a: u64, bytes: seq<u8>)
    requires Mapped(mem, a, |bytes|) && |bytes| <= TWO_64
    ensures Holds(Copied(mem, a, bytes), a, bytes)
  {
    hide Wrap, Behind;
    forall i | 0 <= i < |bytes| ensures ByteAt(Copied(mem, a, bytes), a + i, bytes[i]) {
      BehindForward(a, i);
      assert MappedAt(mem, a, i);
    }
  }

  predicate ClearOf(p: u64, i: int, a: u64, n: nat) { Behind(Wrap(p + i), a) >= n }

  /** The `m` bytes at `p` are not among the `n` bytes at `a`. */
  ghost predicate Apart(p: u64, m: nat, a: u64, n: nat) {
    forall i :: 0 <= i < m ==> ClearOf(p, i, a, n)
  }

  /** Bytes at `p` survive a write that does not touch them. */
  lemma CopiedSpares(mem: Memory, a: u64, bytes: seq<u8>, p: u64, other: seq<u8>)
    requires Holds(mem, p, other) && Apart(p, |other|, a, |bytes|)
    ensures Holds(Copied(mem, a, bytes), p, other)
  {
    hide Wrap, Behind;
    forall i | 0 <= i < |other| ensures ByteAt(Copied(mem, a, bytes), p + i, other[i]) {
      assert ByteAt(mem, p + i, other[i]) && ClearOf(p, i, a, |bytes|);
    }
  }

  /** Only canonical addresses carry memory. */
  ghost predicate Canonical(mem: Memory) {
    forall x :: x in mem ==> 0 <= x < 0x1_0000_0000_0000_0000
  }

  /** Patching and writing the saved bytes back is the identity on code memory, as long as what
      was saved covers the patch. */
  lemma RestoreUndoesPatch(mem: Memory, a: u64, patch: seq<u8>, n: nat)
    requires Canonical(mem) && Mapped(mem, a, n) && |patch| <= n
    ensures Copied(Copied(mem, a, patch), a, Saved(mem, a, n)) == mem
  {
    hide Wrap, Behind;
    var back := Copied(Copied(mem, a, patch), a, Saved(mem, a, n));
    forall x | x in mem ensures back[x] == mem[x] {
      ForwardBehind(x, a);
      assert Behind(x, a) < n ==> MappedAt(mem, a, Behind(x, a));
    }
  }

  // ---- DoHook and Unhook ----

  /** `self` is where the record itself was allocated. */
  datatype HookInfo = HookInfo(self: u64, address: u64, trampoline: u64, relocated: u64, backup: seq<u8>)

  class Process {
    var mem: Memory
    var hooks: map<u64, HookInfo>     // `hooks_`, by function address
    var live: set<u64>                 // trampolines and blocks that are allocated

    constructor (m: Memory)
      ensures mem == m && hooks == map[] && live == {}
    {
      mem, hooks, live := m, map[], {};
    }

    /** The part of `DoHook` before the handle: the record of the function. A function that has one
        keeps it. Otherwise the allocator gives the second trampoline and the relocated block the
        places `trampoline` and `home`, and the record `self`. A function that cannot be read, whose
        prologue is refused, or that is not `writable` keeps its code; a refusal keeps the
        trampoline allocated. */
    method DoHook(address: u64, trampoline: u64, home: u64, self: u64, writable: bool) returns (info: Option<HookInfo>)
      requires address % 2 == 0 && trampoline % 2 == 0
      modifies this
      ensures address in old(hooks) ==>
                info == Some(old(hooks)[address]) && mem == old(mem) && hooks == old(hooks) && live == old(live)
      ensures address !in old(hooks) && !Mapped(old(mem), address, 32) ==>
                info == None && mem == old(mem) && hooks == old(hooks) && live == old(live)
      ensures var kind := T.Suggested(address, trampoline);
              address !in old(hooks) && Mapped(old(mem), address, 32) ==>
                match Relocation.Relocate(Halves(old(mem), address, READ_TEST), T.FirstSize(kind), address)
                case Refused =>
                  info == None && mem == old(mem) && hooks == old(hooks) && live == old(live) + {trampoline}
                case Installed(n, block) =>
                  && T.First(address, trampoline, kind).Some?
                  && n <= 28
                  && var ready := Copied(old(mem), home, block);
                     var created := HookInfo(self, address, trampoline, home, Saved(ready, address, n));
                     if writable then
                       && info == Some(created) && hooks == old(hooks)[address := created]
                       && mem == Copied(ready, address, T.First(address, trampoline, kind).value)
                       && live == old(live) + {trampoline, home}
                     else
                       && info == None && hooks == old(hooks)[address := created] - {self}
                       && mem == ready && live == old(live) - {trampoline, home}
    {
      hide T.First, T.Suggested, Relocation.Relocate, Copied, Saved, Halves, Wrap, Mapped;
      if address in hooks {
        return Some(hooks[address]);
      }
      if !Mapped(mem, address, 2 * READ_TEST) {
        return None;
      }
      live := live + {trampoline};
      var kind := T.Suggested(address, trampoline);
      NeverAborts(address, trampoline);
      var size := T.FirstSize(kind);
      var n, block := Relocator.RV64Relocator.Relocate(Halves(mem, address, READ_TEST), size, address);
      InstalledSize(Halves(mem, address, READ_TEST), size, address);
      if n == 0 {
        return None;
      }
      live := live + {home};
      mem := Copied(mem, home, block);
      var created := HookInfo(self, address, trampoline, home, Saved(mem, address, n));
      hooks := hooks[address := created];
      if !writable {
        Unhook(created, false, writable);
        return None;
      }
      info := Some(created);
      mem := Copied(mem, address, T.First(address, trampoline, kind).value);
    }

    /** `HookInfo::Unhook`: unless nothing was patched yet, the saved code comes back; a function
        that is not `writable` keeps the jump. Trampoline and block are freed. The registry, which
        goes by function addresses, is asked to erase the key `this`. */
    method Unhook(info: HookInfo, initialized: bool, writable: bool)
      modifies this
      ensures mem == if initialized && writable then Copied(old(mem), info.address, info.backup) else old(mem)
      ensures hooks == old(hooks) - {info.self} && live == old(live) - {info.trampoline, info.relocated}
    {
      if initialized {
        if writable {
          mem := Copied(mem, info.address, info.backup);
        }
      }
      live := live - {info.trampoline, info.relocated};
      hooks := hooks - {info.self};
    }
  }

  lemma NeverAborts(address: u64, trampoline: u64)
    requires address % 2 == 0 && trampoline % 2 == 0
    ensures T.First(address, trampoline, T.Suggested(address, trampoline)).Some?
  {
    hide T.First, T.Suggested;
    var cpu := Cpu((_, _, _, _) => Fault);
    var steps, t3 := T.SuggestedReaches(cpu, address, trampoline, seq(32, _ => 0), map[]);
  }

  /** A success overwrites something, and what is saved covers the patch and fits the
      28 bytes of `kMaxFirstTrampolineSize`. */
  lemma InstalledSize(original: seq<u16>, size: nat, a: u64)
    requires |original| == READ_TEST && (size == 4 || size == 8 || size == 18)
    ensures var r := Relocation.Relocate(original, size, a);
            r.Installed? ==> size <= r.overwritten <= size + 2 && 0 < r.overwritten <= 28
  {
    hide Relocation.Prefix, Relocation.Accepted, Relocation.Block, Relocation.AllTargets;
    Relocation.OverwrittenBounds(original, size);
  }

  // ---- What a hooked function does ----

  /** What `DoHook` returned and left behind, as its postcondition says. */
  ghost predicate Hooked(before: Memory, after: Memory, info: HookInfo, n: nat, block: seq<u8>) {
    var kind := T.Suggested(info.address, info.trampoline);
    && info.address % 2 == 0 && info.trampoline % 2 == 0
    && Relocation.Relocate(Halves(before, info.address, READ_TEST), T.FirstSize(kind), info.address)
       == Relocation.Installed(n, block)
    && T.First(info.address, info.trampoline, kind).Some?
    && info.backup == Saved(Copied(before, info.relocated, block), info.address, n)
    && after == Copied(Copied(before, info.relocated, block), info.address,
                       T.First(info.address, info.trampoline, kind).value)
  }

  /** The block has a place of its own. */
  ghost predicate Placed(mem: Memory, info: HookInfo, block: seq<u8>) {
    && Canonical(mem) && Mapped(mem, info.address, 2 * READ_TEST)
    && Mapped(mem, info.relocated, |block|) && |block| <= TWO_64
    && Apart(info.relocated, |block|, info.address, 2 * READ_TEST)
    && Apart(info.address, 2 * READ_TEST, info.relocated, |block|)
  }

  lemma ApartPart(p: u64, m: nat, a: u64, n: nat, k: nat)
    requires Apart(p, m, a, n) && k <= n
    ensures Apart(p, m, a, k)
  {
    forall i | 0 <= i < m ensures ClearOf(p, i, a, k) {
      assert ClearOf(p, i, a, n);
    }
  }

  lemma MappedPart(mem: Memory, a: u64, n: nat, k: nat, home: u64, block: seq<u8>)
    requires Mapped(mem, a, n) && k <= n
    ensures Mapped(Copied(mem, home, block), a, k)
  {
    hide Behind;
    forall i | 0 <= i < k ensures MappedAt(Copied(mem, home, block), a, i) {
      assert MappedAt(mem, a, i);
    }
  }

  /** A byte that a write does not cover reads as before. */
  lemma ByteKept(mem: Memory, a: u64, bytes: seq<u8>, p: u64, i: int)
    requires ClearOf(p, i, a, |bytes|)
    ensures Byte(Copied(mem, a, bytes), p, i) == Byte(mem, p, i)
  {
    hide Wrap, Behind;
  }

  lemma PatchSize(original: seq<u16>, address: u64, trampoline: u64, n: nat, block: seq<u8>)
    requires |original| == READ_TEST
    requires var kind := T.Suggested(address, trampoline);
             Relocation.Relocate(original, T.FirstSize(kind), address) == Relocation.Installed(n, block)
             && T.First(address, trampoline, kind).Some?
    ensures |T.First(address, trampoline, T.Suggested(address, trampoline)).value| <= n <= 28
  {
    hide T.First, Relocation.Relocate;
    var kind := T.Suggested(address, trampoline);
    T.FirstLength(address, trampoline, kind);
    InstalledSize(original, T.FirstSize(kind), address);
  }

  /** After the first hook the jump and the block are in place, the code behind the overwritten
      instructions is what it was, what was saved is the function's own code, and unhooking
      leaves nothing but the block's bytes different from before. */
  lemma HookIsUndone(before: Memory, after: Memory, info: HookInfo, n: nat, block: seq<u8>)
    requires Hooked(before, after, info, n, block) && Placed(before, info, block)
    ensures Holds(after, info.address, T.First(info.address, info.trampoline, T.Suggested(info.address, info.trampoline)).value)
    ensures Holds(after, info.relocated, block)
    ensures n <= 28 && info.backup == Saved(before, info.address, n)
    ensures forall i :: n <= i < 2 * READ_TEST ==> Byte(after, info.address, i) == Byte(before, info.address, i)
    ensures Copied(after, info.address, info.backup) == Copied(before, info.relocated, block)
  {
    hide T.First, T.Suggested, Relocation.Relocate, Copied, Halves, Wrap, Holds, Mapped, Apart, Byte;
    var kind := T.Suggested(info.address, info.trampoline);
    var patch := T.First(info.address, info.trampoline, kind).value;
    var middle := Copied(before, info.relocated, block);
    PatchSize(Halves(before, info.address, READ_TEST), info.address, info.trampoline, n, block);
    CopiedHolds(before, info.relocated, block);
    MappedPart(before, info.address, 2 * READ_TEST, |patch|, info.relocated, block);
    MappedPart(before, info.address, 2 * READ_TEST, n, info.relocated, block);
    CopiedHolds(middle, info.address, patch);
    ApartPart(info.relocated, |block|, info.address, 2 * READ_TEST, |patch|);
    CopiedSpares(middle, info.address, patch, info.relocated, block);
    CanonicalKept(before, info.relocated, block);
    RestoreUndoesPatch(middle, info.address, patch, n);
    SavedKept(before, info, block, n);
    forall i | n <= i < 2 * READ_TEST ensures Byte(after, info.address, i) == Byte(before, info.address, i) {
      BehindPatch(info.address, i, |patch|);
      ByteKept(middle, info.address, patch, info.address, i);
      ApartAt(info.address, 2 * READ_TEST, info.relocated, |block|, i);
      ByteKept(before, info.relocated, block, info.address, i);
    }
  }

  /** A function hooked, unhooked and hooked again: the registry still has the first record, unless
      the function is where the record is, so the second hook gets that one back. The function keeps
      its own code, and the record's trampoline and block are no longer allocated. */
  method HookAgain(p: Process, address: u64, trampoline: u64, home: u64, self: u64, trampoline': u64, home': u64, self': u64)
    returns (first: Option<HookInfo>, second: Option<HookInfo>, ghost n: nat, ghost block: seq<u8>)
    requires address % 2 == 0 && trampoline % 2 == 0 && trampoline' % 2 == 0 && address !in p.hooks
    requires Mapped(p.mem, address, 2 * READ_TEST)
    requires var kind := T.Suggested(address, trampoline);
             Relocation.Relocate(Halves(p.mem, address, READ_TEST), T.FirstSize(kind), address).Installed?
    modifies p
    ensures Relocation.Relocate(Halves(old(p.mem), address, READ_TEST), T.FirstSize(T.Suggested(address, trampoline)), address)
            == Relocation.Installed(n, block)
    ensures first.Some? && first.value.address == address && first.value.self == self
    ensures first.value.trampoline == trampoline && first.value.relocated == home
    ensures address != self ==> second == first && trampoline !in p.live && home !in p.live
    ensures address != self && Placed(old(p.mem), first.value, block) ==> p.mem == Copied(old(p.mem), home, block)
  {
    hide T.First, T.Suggested, Relocation.Relocate, Copied, Saved, Halves, Wrap, Mapped, Placed;
    var kind := T.Suggested(address, trampoline);
    ghost var installed := Relocation.Relocate(Halves(p.mem, address, READ_TEST), T.FirstSize(kind), address);
    n, block := installed.overwritten, installed.block;
    ghost var before := p.mem;
    first := p.DoHook(address, trampoline, home, self, true);
    if Placed(before, first.value, block) {
      HookIsUndone(before, p.mem, first.value, n, block);
    }
    p.Unhook(first.value, true, true);
    second := p.DoHook(address, trampoline', home', self', true);
  }

  lemma CanonicalKept(mem: Memory, a: u64, bytes: seq<u8>)
    requires Canonical(mem)
    ensures Canonical(Copied(mem, a, bytes))
  {
    hide Behind;
  }

  lemma ApartAt(p: u64, m: nat, a: u64, n: nat, i: int)
    requires Apart(p, m, a, n) && 0 <= i < m
    ensures ClearOf(p, i, a, n)
  {
  }

  lemma BehindPatch(a: u64, i: nat, n: nat)
    requires n <= i < TWO_64
    ensures ClearOf(a, i, a, n)
  {
    hide Behind;
    BehindForward(a, i);
  }

  lemma SavedKept(before: Memory, info: HookInfo, block: seq<u8>, n: nat)
    requires Placed(before, info, block) && n <= 2 * READ_TEST
    ensures Saved(Copied(before, info.relocated, block), info.address, n) == Saved(before, info.address, n)
  {
    hide Copied, Wrap, Byte, Apart, Mapped;
    forall i | 0 <= i < n
      ensures Byte(Copied(before, info.relocated, block), info.address, i) == Byte(before, info.address, i)
    {
      ApartAt(info.address, 2 * READ_TEST, info.relocated, |block|, i);
      ByteKept(before, info.relocated, block, info.address, i);
    }
  }

  /** Calling the hooked function leads to the second trampoline, with nothing changed but t3. */
  lemma CallReachesTrampoline(cpu: Cpu, before: Memory, after: Memory, info: HookInfo, n: nat, block: seq<u8>, r: Regs)
    returns (steps: nat, t3: u64)
    requires Hooked(before, after, info, n, block) && Placed(before, info, block)
    ensures Run(cpu, Running(info.address, r, after), steps)
            == Running(info.trampoline, if steps == 1 then r else Set(r, T3, t3), after)
  {
    hide Run, T.First, T.Suggested, Relocation.Relocate, Copied, Halves, Saved, Holds, Placed;
    HookIsUndone(before, after, info, n, block);
    steps, t3 := T.SuggestedReaches(cpu, info.address, info.trampoline, r, after);
  }

  /** Calling the backup, in the patched memory, does what the overwritten prologue did, up to the
      first exit from it, and arrives where that exit leads; it faults at an `auipc x0` whose
      stand-in address cannot be read. */
  lemma BackupRunsPrologue(cpu: Cpu, before: Memory, after: Memory, info: HookInfo, n: nat, block: seq<u8>, r: Regs)
    returns (steps: nat)
    requires Hooked(before, after, info, n, block) && Placed(before, info, block)
    requires info.relocated + 312 < TWO_64
    requires var p := Relocation.Prefix(Halves(before, info.address, READ_TEST),
                                        T.FirstSize(T.Suggested(info.address, info.trampoline)));
             Relocation.Spares(cpu, p, info.address, r, after, block, info.relocated)
    ensures var p := Relocation.Prefix(Halves(before, info.address, READ_TEST),
                                       T.FirstSize(T.Suggested(info.address, info.trampoline)));
            var s := Run(cpu, Running(info.relocated, r, after), steps);
            if Relocation.StandInsReadable(cpu, p, info.address, r, after)
            then Relocation.ExitMatches(Relocation.RunOriginal(cpu, p, info.address, r, after), s, p, info.relocated)
            else s == Trapped
  {
    hide Run, T.First, T.Suggested, Copied, Halves, Saved, Placed, Relocation.Prefix, Relocation.Accepted, Relocation.Spares;
    hide Relocation.ExitMatches, Relocation.RunOriginal, Relocation.AllTargets, Relocation.Ascending, Relocation.Fits;
    hide Relocation.Block, Relocation.StandInsReadable, Relocation.BodySize;
    var original, size := Halves(before, info.address, READ_TEST), T.FirstSize(T.Suggested(info.address, info.trampoline));
    var p := Relocation.Prefix(original, size);
    Relocation.FitsWhenSmall(original, size, info.address, info.relocated);
    steps := Relocation.RelocationPreservesMeaning(cpu, original, size, info.address, info.relocated, r, after);
  }
}
