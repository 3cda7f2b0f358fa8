/** `RV64Relocator`: the loop that decodes, copies or rewrites each instruction, and the proof
    that what it leaves in the buffer is the block of `Relocation.Relocate`. */
module Relocator {
  import opened Words
  import opened Isa
  import opened Sequences
  import opened Assembler
  import opened Relocation
  import D = Decoder

  // ---- What the handlers emit ----

  function CallbackItems(cb: D.Callback, pc: u64, n: nat): seq<Item> {
    match cb
    case Auipc(dst, imm) => [LoadFrom(dst, Address(Wrap(pc + imm)))]
    case CompareAndBranch(opcode, src1, src2, offset) =>
      if IsBranchFunct3(opcode) then
        [BranchTo(opcode, src1, src2, Local(n + 1)), JumpTo(X0, Local(n)),
         LoadFrom(T3, Address(Wrap(pc + offset))), Plain(JalrWord(X0, T3))]
      else []
    case JumpAndLink(dst, offset) => [LoadFrom(T3, Address(Wrap(pc + offset))), Plain(JalrWord(dst, T3))]
    case _ => []
  }

  function CallbackLocals(cb: D.Callback): nat {
    if cb.CompareAndBranch? then 2 else 0
  }

  function CallbackTargets(cb: D.Callback, pc: u64): set<u64> {
    match cb
    case Auipc(_, imm) => {Wrap(pc + imm)}
    case CompareAndBranch(opcode, _, _, offset) => if IsBranchFunct3(opcode) then {Wrap(pc + offset)} else {}
    case JumpAndLink(_, offset) => {Wrap(pc + offset)}
    case _ => {}
  }

  /** The two local labels of a branch, when its translation starts at `at`. */
  function CallbackLabels(cb: D.Callback, at: nat, n: nat): map<Label, nat> {
    if cb.CompareAndBranch? && IsBranchFunct3(cb.opcode) then map[Local(n + 1) := at + 8, Local(n) := at + 20] else map[]
  }

  function CopyItems(c: Code): seq<Item> {
    if c.Size() == 4 then [Half(c.lo), Half(c.hi)] else [Half(c.lo)]
  }

  /** The key a `std::map` iterator visits first. */
  method First(s: set<u64>) returns (m: u64)
    requires s != {}
    ensures m in s && forall x :: x in s ==> m <= x
  {
    LeastExists(s);
    m :| m in s && forall x :: x in s ==> m <= x;
  }

  class RV64Relocator {
    const assembler: Assembler
    var addresses: set<u64>
    var pc: u64
    var state: Progress
    var returned: bool

    ghost predicate Valid()
      reads this, assembler
    {
      assembler.Valid()
    }

    constructor (a: Assembler)
      requires a.Valid()
      ensures Valid() && assembler == a && addresses == {} && state == None && !returned
    {
      assembler := a;
      addresses, pc, state, returned := {}, 0, None, false;
    }

    method SetNewState(s: Progress)
      modifies this`state
      ensures state == if old(state) == None then s else Error
    {
      if state == None {
        state := s;
      } else {
        state := Error;
      }
    }

    method Undefined()
      modifies this`state
      ensures Consumer(state, returned) == Relocation.Undefined(Consumer(old(state), returned))
    {
      if returned {
        SetNewState(Skipped);
      } else {
        SetNewState(Error);
      }
    }

    method Auipc(dst: Reg, imm: int)
      requires Valid()
      modifies this`state, this`addresses, assembler`code, assembler`jumps, assembler`items
      ensures Handled(D.Auipc(dst, imm), old(state), old(returned), old(addresses), old(assembler.items),
                      old(assembler.labels), old(assembler.locals))
    {
      addresses := addresses + {Wrap(pc + imm)};
      assembler.Ld(dst, Address(Wrap(pc + imm)));
      SetNewState(Relocated);
    }

    method JumpAddress(rd: Reg, a: u64)
      requires Valid()
      modifies this`addresses, assembler`code, assembler`jumps, assembler`items
      ensures Valid() && addresses == old(addresses) + {a}
      ensures assembler.items == old(assembler.items) + [LoadFrom(T3, Address(a)), Plain(JalrWord(rd, T3))]
    {
      addresses := addresses + {a};
      assembler.Ld(T3, Address(a));
      assembler.Jalr(rd, T3);
    }

    method JumpAndLink(dst: Reg, offset: int)
      requires Valid()
      modifies this`state, this`addresses, assembler`code, assembler`jumps, assembler`items
      ensures Handled(D.JumpAndLink(dst, offset), old(state), old(returned), old(addresses), old(assembler.items),
                      old(assembler.labels), old(assembler.locals))
    {
      JumpAddress(dst, Wrap(pc + offset));
      SetNewState(Relocated);
    }

    method JumpAndLinkRegister(dst: Reg, base: Reg, offset: int)
      requires Valid()
      modifies this`state, this`returned
      ensures Handled(D.JumpAndLinkRegister(dst, base, offset), old(state), old(returned), old(addresses),
                      old(assembler.items), old(assembler.labels), old(assembler.locals))
    {
      if dst == 0 && base == 1 && offset == 0 {
        returned := true;
      }
      SetNewState(Skipped);
    }

    method CompareAndBranch(opcode: int, src1: Reg, src2: Reg, offset: int)
      requires Valid() && FreshLocals()
      modifies this`state, this`addresses
      modifies assembler`code, assembler`jumps, assembler`items, assembler`labels, assembler`locals
      ensures Handled(D.CompareAndBranch(opcode, src1, src2, offset), old(state), old(returned), old(addresses),
                      old(assembler.items), old(assembler.labels), old(assembler.locals))
    {
      hide Emitted, References, JalrWord, Wrap, Total;
      ghost var was := assembler.items;
      var target := Wrap(pc + offset);
      var past := assembler.MakeLabel();
      var branch := assembler.MakeLabel();
      var known := EmitBranch(opcode, src1, src2, branch);
      if !known {
        Undefined();
        return;
      }
      assembler.Jal(X0, past);
      ghost var b, j := BranchTo(opcode, src1, src2, branch), JumpTo(X0, past);
      TotalTwo(was, b, j);
      assembler.Bind(branch);
      JumpAddress(X0, target);
      ghost var l, p := LoadFrom(T3, Address(target)), Plain(JalrWord(X0, T3));
      TotalTwo(was + [b] + [j], l, p);
      TwoMore(was + [b] + [j], l, p);
      FourMore(was, b, j, l, p);
      assembler.Bind(past);
      SetNewState(Relocated);
    }

    /** The opcode switch of `CompareAndBranch`; the forms against zero encode the same word. */
    method EmitBranch(opcode: int, src1: Reg, src2: Reg, branch: Label) returns (known: bool)
      requires Valid()
      modifies assembler`code, assembler`jumps, assembler`items
      ensures Valid() && known == IsBranchFunct3(opcode)
      ensures assembler.items == old(assembler.items) + (if known then [BranchTo(opcode, src1, src2, branch)] else [])
    {
      known := true;
      match opcode {
        case 0 => assembler.Conditional(0, src1, src2, branch);
        case 1 => assembler.Conditional(1, src1, src2, branch);
        case 4 => assembler.Conditional(4, src1, src2, branch);
        case 5 => assembler.Conditional(5, src1, src2, branch);
        case 6 => assembler.Conditional(6, src1, src2, branch);
        case 7 => assembler.Conditional(7, src1, src2, branch);
        case _ => known := false;
      }
    }

    method Callback(cb: D.Callback)
      requires Valid() && FreshLocals()
      modifies this`state, this`addresses, this`returned
      modifies assembler`code, assembler`jumps, assembler`items, assembler`labels, assembler`locals
      ensures Handled(cb, old(state), old(returned), old(addresses), old(assembler.items), old(assembler.labels),
                      old(assembler.locals))
      ensures FreshLocals()
    {
      match cb {
        case PositionIndependent => SetNewState(Skipped);
        case Auipc(dst, imm) => Auipc(dst, imm);
        case CompareAndBranch(opcode, src1, src2, offset) => CompareAndBranch(opcode, src1, src2, offset);
        case JumpAndLink(dst, offset) => JumpAndLink(dst, offset);
        case JumpAndLinkRegister(dst, base, offset) => JumpAndLinkRegister(dst, base, offset);
        case Undefined => Undefined();
      }
    }

    /** `decoder.Decode(address)`: the callbacks, in order. */
    method Decode(c: Code)
      requires Valid() && FreshLocals() && state == None
      modifies this`state, this`addresses, this`returned
      modifies assembler`code, assembler`jumps, assembler`items, assembler`labels, assembler`locals
      ensures Valid() && FreshLocals()
      ensures Consumer(state, returned) == After(c, old(returned))
      ensures var cs := D.Decode(c.lo, c.hi);
              |cs| == 1 ==> Handled(cs[0], None, old(returned), old(addresses), old(assembler.items),
                                    old(assembler.labels), old(assembler.locals))
    {
      hide D.Decode, Handle, Emitted, References, CallbackItems, CallbackTargets, CallbackLabels;
      var cs := D.Decode(c.lo, c.hi);
      var i := 0;
      while i < |cs|
        invariant 0 <= i <= |cs| && Valid() && FreshLocals()
        invariant Consumer(state, returned) == HandleAll(Consumer(None, old(returned)), cs[..i])
        invariant i == 0 ==> addresses == old(addresses) && assembler.items == old(assembler.items)
        invariant i == 0 ==> assembler.labels == old(assembler.labels) && assembler.locals == old(assembler.locals)
        invariant i == 1 ==> Handled(cs[0], None, old(returned), old(addresses), old(assembler.items),
                                     old(assembler.labels), old(assembler.locals))
      {
        HandleSnoc(Consumer(None, old(returned)), cs[..i], cs[i]);
        assert cs[..i] + [cs[i]] == cs[..i + 1];
        Callback(cs[i]);
        i := i + 1;
      }
      assert cs[..i] == cs;
    }

    /** The relocator after it accepted and translated the instructions `done`, which start at `a`. */
    ghost predicate Translated(done: seq<Code>, a: u64)
      reads this, assembler
    {
      && Valid() && FreshLocals() && state == None
      && Accepted(done, false) && returned == ReturnedAfter(done, false)
      && assembler.items == ItemsOf(done, a, 0)
      && assembler.locals == LocalsOf(done)
      && addresses == BodyTargets(done, a)
      && LabelsFit(done, 0, 0, assembler.labels)
    }

    /** One round of the loop in `Relocate`. */
    method TranslateOne(c: Code, address: u64, ghost done: seq<Code>, ghost a: u64) returns (ok: bool)
      requires Translated(done, a) && address == EndPc(done, a)
      modifies this`pc, this`state, this`addresses, this`returned
      modifies assembler`code, assembler`jumps, assembler`items, assembler`labels, assembler`locals
      ensures ok ==> Translated(done + [c], a)
      ensures !ok ==> !Accepted(done + [c], false)
    {
      hide D.Decode, Accepted, ItemsOf, LocalsOf, BodyTargets, LabelsFit, ReturnedAfter, EndPc, After, Total;
      hide Emitted, References, HandleAll, Handle, CallbackItems, CallbackLabels, CallbackTargets, CodeItems, CodeLocals, CopyItems;
      hide Copied, Shape, Targets;
      ghost var before, n := ReturnedAfter(done, false), LocalsOf(done);
      ghost var labels0, items0 := assembler.labels, assembler.items;
      SumsSnoc(done, c, a);
      pc := address;
      Decode(c);
      var was := state;
      state := None;
      if was != Skipped && was != Relocated {
        return false;
      }
      CallbackOfAccepted(c, before, address, n);
      ghost var cb := D.Decode(c.lo, c.hi)[0];
      ItemsSize(done, a, 0);
      LabelsSnoc(done, c, cb, labels0, assembler.labels);
      if was == Skipped {
        CopyCode(c);
      }
      CodeItemsAre(c, address, n, items0, assembler.items);
      ok := true;
    }

    method CopyCode(c: Code)
      requires Valid()
      modifies assembler`code, assembler`items
      ensures Valid() && assembler.items == old(assembler.items) + CopyItems(c)
    {
      if c.Size() == 4 {
        assembler.TwoByte(c.lo);
        assembler.TwoByte(c.hi);
        TwoMore(old(assembler.items), Half(c.lo), Half(c.hi));
      } else {
        assembler.TwoByte(c.lo);
      }
    }

    /** The pool holds `keys`, behind what was there before it. */
    ghost predicate PoolSoFar(keys: seq<u64>, items0: seq<Item>, labels0: map<Label, nat>)
      reads this, assembler
    {
      && Valid()
      && assembler.items == items0 + PoolItems(keys)
      && PoolLabels(keys, Total(items0), assembler.labels)
      && Extends(assembler.labels, labels0)
      && forall l :: l in assembler.labels && l.Address? ==> l.a in keys
    }

    /** One round of the loop in `EmitAddresses`. */
    method EmitAddress(m: u64, ghost keys: seq<u64>, ghost items0: seq<Item>, ghost labels0: map<Label, nat>)
      requires PoolSoFar(keys, items0, labels0) && m !in keys
      modifies assembler`code, assembler`items, assembler`labels
      ensures PoolSoFar(keys + [m], items0, labels0)
    {
      hide Emitted, References, Total, PoolItems, PoolLabels, Raw;
      PoolSnoc(keys, m, items0, Total(items0), assembler.labels);
      assembler.Bind(Address(m));
      assembler.Emit64(m);
    }

    /** The literal pool, in the order of the address map. */
    method EmitAddresses()
      requires Valid() && forall l :: l in assembler.labels ==> l.Local?
      modifies assembler`code, assembler`items, assembler`labels
      ensures Valid() && assembler.items == old(assembler.items) + PoolItems(Ascending(addresses))
      ensures PoolLabels(Ascending(addresses), Total(old(assembler.items)), assembler.labels)
      ensures Extends(assembler.labels, old(assembler.labels))
    {
      hide PoolSoFar, Partway, Ascending, PoolItems, PoolLabels, Extends, Total, Emitted, References;
      ghost var labels0, items0 := assembler.labels, assembler.items;
      ghost var keys: seq<u64> := [];
      var remaining := addresses;
      PoolStarts(items0, labels0);
      PartwayStarts(addresses);
      while remaining != {}
        invariant PoolSoFar(keys, items0, labels0) && Partway(keys, remaining, addresses)
        decreases |remaining|
      {
        var m := First(remaining);
        PartwayNext(keys, remaining, addresses, m);
        EmitAddress(m, keys, items0, labels0);
        keys := keys + [m];
        remaining := remaining - {m};
      }
      PartwayEnds(keys, addresses);
      PoolEnds(keys, items0, labels0);
    }

    lemma PoolStarts(items0: seq<Item>, labels0: map<Label, nat>)
      requires Valid() && forall l :: l in assembler.labels ==> l.Local?
      requires items0 == assembler.items && labels0 == assembler.labels
      ensures PoolSoFar([], items0, labels0)
    {
      hide Emitted, References, Total;
      assert items0 + PoolItems([]) == items0;
    }

    lemma PoolEnds(keys: seq<u64>, items0: seq<Item>, labels0: map<Label, nat>)
      requires PoolSoFar(keys, items0, labels0)
      ensures Valid() && assembler.items == items0 + PoolItems(keys)
      ensures PoolLabels(keys, Total(items0), assembler.labels) && Extends(assembler.labels, labels0)
    {
    }

    /** The whole of `Relocate`: `overwrite` is zero exactly when it refuses, and else the
        assembled code is the specified block. `original` stands for the memory at `a`. */
    static method Relocate(original: seq<u16>, size: int, a: u64) returns (overwrite: nat, block: seq<u8>)
      requires 2 * |original| >= size + 2
      ensures match Relocation.Relocate(original, size, a)
              case Refused => overwrite == 0 && block == []
              case Installed(n, b) => overwrite == n && block == b
    {
      hide Prefix, Accepted, Overwritten, EndPc, Block, Total, ItemsOf, PoolItems, PoolLabels, LabelsFit, Ascending;
      hide Resolvable, ResolvedAll, AllTargets, BodyTargets, Emitted, References, LocalsOf, BodySize, ReturnedAfter, JalrWord;
      var assembler := new Assembler();
      var relocator := new RV64Relocator(assembler);
      var k, left, address := 0, size, a;
      ghost var done: seq<Code> := [];
      overwrite, block := 0, [];
      NothingTranslated(original, size, a);
      while left > 0
        invariant 0 <= k <= |original| && 2 * (|original| - k) >= left + 2
        invariant done + Prefix(original[k..], left) == Prefix(original, size)
        invariant fresh(assembler) && fresh(relocator) && relocator.assembler == assembler
        invariant relocator.Translated(done, a) && address == EndPc(done, a) && overwrite == Overwritten(done)
        decreases left
      {
        var count := D.GetInsnSize(original[k]);
        var c := Code(original[k], if count == 4 then original[k + 1] else 0);
        PrefixNext(original, size, k, left, done, c);
        var ok := relocator.TranslateOne(c, address, done, a);
        if !ok {
          AcceptedConcat(done + [c], Prefix(original[k + count / 2..], left - count), false);
          return 0, [];
        }
        SumsSnoc(done, c, a);
        left := left - count;
        k := k + count / 2;
        address := Wrap(address + count);
        overwrite := overwrite + count;
        done := done + [c];
      }
      NothingLeft(original[k..], left, done);
      assert done == Prefix(original, size);
      relocator.JumpAddress(X0, address);
      TargetsThenEnd(done, a);
      ghost var front := assembler.items;
      FrontIs(front, done, a);
      assert forall l :: l in assembler.labels ==> l.Local?;
      ghost var labels0 := assembler.labels;
      relocator.EmitAddresses();
      LabelsGrow(done, 0, 0, labels0, assembler.labels);
      ResolvedBlock(done, a, Ascending(relocator.addresses), assembler.labels);
      var ok := assembler.Finalize();
      block := assembler.code;
    }

    /** No label that `MakeLabel` is still to hand out is bound. */
    ghost predicate FreshLocals()
      reads this, assembler
    {
      && assembler.locals >= 0
      && forall l :: l in assembler.labels ==> l.Local? && l.n < assembler.locals
    }

    /** The effect of one callback on the relocator and its assembler. */
    ghost predicate Handled(cb: D.Callback, state0: Progress, returned0: bool, addresses0: set<u64>, items0: seq<Item>,
                            labels0: map<Label, nat>, locals0: nat)
      reads this, assembler
    {
      && Valid()
      && Consumer(state, returned) == Handle(Consumer(state0, returned0), cb)
      && addresses == addresses0 + CallbackTargets(cb, pc)
      && assembler.items == items0 + CallbackItems(cb, pc, locals0)
      && assembler.locals == locals0 + CallbackLocals(cb)
      && assembler.labels == labels0 + CallbackLabels(cb, Total(items0), locals0)
    }
  }

  ghost predicate Extends(more: map<Label, nat>, labels: map<Label, nat>) {
    forall l :: l in labels ==> l in more && more[l] == labels[l]
  }

  // ---- Steps of the pool loop ----

  /** The addresses of `all` not in `remaining` were emitted, in ascending order. */
  ghost predicate Partway(keys: seq<u64>, remaining: set<u64>, all: set<u64>) {
    keys + Ascending(remaining) == Ascending(all) && forall k :: k in keys ==> k !in remaining
  }

  lemma PartwayStarts(all: set<u64>)
    ensures Partway([], all, all)
  {
    hide Ascending;
    assert [] + Ascending(all) == Ascending(all);
  }

  lemma PartwayNext(keys: seq<u64>, remaining: set<u64>, all: set<u64>, m: u64)
    requires Partway(keys, remaining, all) && m in remaining && forall x :: x in remaining ==> m <= x
    ensures Partway(keys + [m], remaining - {m}, all) && m !in keys
  {
    hide Ascending;
    AscendingFirst(remaining, m);
    assert keys + ([m] + Ascending(remaining - {m})) == keys + [m] + Ascending(remaining - {m});
  }

  lemma PartwayEnds(keys: seq<u64>, all: set<u64>)
    requires Partway(keys, {}, all)
    ensures keys == Ascending(all)
  {
    assert Ascending({}) == [];
  }

  lemma AscendingFirst(s: set<u64>, m: u64)
    requires m in s && forall x :: x in s ==> m <= x
    ensures Ascending(s) == [m] + Ascending(s - {m})
  {
    hide Least;
    assert Least(s) == m;
  }

  lemma {:induction false} IndexOfSnoc(keys: seq<u64>, m: u64, a: u64)
    requires a in keys || a == m
    ensures IndexOf(keys + [m], a) == if a in keys then IndexOf(keys, a) else |keys|
    decreases |keys|
  {
    if keys == [] {
      assert (keys + [m])[0] == m;
    } else if keys[0] != a {
      assert (keys + [m])[1..] == keys[1..] + [m];
      IndexOfSnoc(keys[1..], m, a);
    }
  }

  /** One more literal: its label is bound to the current end. */
  lemma PoolSnoc(keys: seq<u64>, m: u64, items: seq<Item>, base: nat, labels: map<Label, nat>)
    requires m !in keys && PoolLabels(keys, base, labels) && base == Total(items)
    ensures items + PoolItems(keys) + [Quad(m)] == items + PoolItems(keys + [m])
    ensures PoolLabels(keys + [m], base, labels[Address(m) := Total(items + PoolItems(keys))])
  {
    hide Total, PoolItems, PoolLabels, Emitted, Resolvable, ResolvedAll, PoolBytes;
    PoolBegins(items, keys);
    PoolItemsSnoc(keys, m);
    PoolLabelsSnoc(keys, m, base, labels);
    Associate(items, PoolItems(keys), [Quad(m)]);
  }

  lemma Associate(a: seq<Item>, b: seq<Item>, c: seq<Item>)
    ensures a + (b + c) == a + b + c
  {
  }

  lemma PoolBegins(items: seq<Item>, keys: seq<u64>)
    ensures Total(items + PoolItems(keys)) == Total(items) + 8 * |keys|
  {
    hide Total, PoolItems, Emitted, Resolvable, ResolvedAll, PoolBytes;
    EmittedConcat(items, PoolItems(keys));
    ResolvedPool(keys, 0, map[]);
  }

  lemma PoolItemsSnoc(keys: seq<u64>, m: u64)
    ensures PoolItems(keys + [m]) == PoolItems(keys) + [Quad(m)]
  {
    assert (keys + [m])[..|keys|] == keys;
  }

  lemma PoolLabelsSnoc(keys: seq<u64>, m: u64, base: nat, labels: map<Label, nat>)
    requires m !in keys && PoolLabels(keys, base, labels)
    ensures PoolLabels(keys + [m], base, labels[Address(m) := base + 8 * |keys|])
  {
    hide IndexOf;
    var more := labels[Address(m) := base + 8 * |keys|];
    forall a | a in keys + [m] ensures Address(a) in more && more[Address(a)] == base + 8 * IndexOf(keys + [m], a) {
      IndexOfSnoc(keys, m, a);
    }
  }

  // ---- Steps of the instruction loop ----

  lemma NothingTranslated(original: seq<u16>, size: int, a: u64)
    requires 2 * |original| >= size + 2
    ensures original[0..] == original && [] + Prefix(original, size) == Prefix(original, size)
    ensures Accepted([], false) && ReturnedAfter([], false) == false && ItemsOf([], a, 0) == [] && LocalsOf([]) == 0
    ensures BodyTargets([], a) == {} && LabelsFit([], 0, 0, map[]) && EndPc([], a) == a && Overwritten([]) == 0
  {
  }

  lemma PrefixNext(original: seq<u16>, size: int, k: nat, left: int, done: seq<Code>, c: Code)
    requires k < |original| && left > 0 && 2 * (|original| - k) >= left + 2
    requires var n := Length(original[k]); c == Code(original[k], if n == 4 then original[k + 1] else 0)
    requires 2 * |original| >= size + 2 && done + Prefix(original[k..], left) == Prefix(original, size)
    ensures var n := Length(original[k]);
            && c.Size() == n
            && done + [c] + Prefix(original[k + n / 2..], left - n) == Prefix(original, size)
  {
    hide Prefix;
    var n := Length(original[k]);
    assert original[k..][n / 2..] == original[k + n / 2..];
    PrefixCons(original[k..], left);
    var rest := Prefix(original[k + n / 2..], left - n);
    assert done + ([c] + rest) == done + [c] + rest;
  }

  lemma PrefixCons(original: seq<u16>, size: int)
    requires size > 0 && 2 * |original| >= size + 2
    ensures var n := Length(original[0]);
            Prefix(original, size)
            == [Code(original[0], if n == 4 then original[1] else 0)] + Prefix(original[n / 2..], size - n)
  {
    hide Length;
  }

  lemma NothingLeft(rest: seq<u16>, left: int, done: seq<Code>)
    requires left <= 0 && 2 * |rest| >= left + 2
    ensures done + Prefix(rest, left) == done
  {
  }

  lemma FrontIs(front: seq<Item>, p: seq<Code>, a: u64)
    requires front == ItemsOf(p, a, 0) + EndItems(EndPc(p, a))
    ensures Total(front) == BodySize(p) + 12
  {
    hide ItemsOf, EndPc, JalrWord;
    ItemsSize(p, a, 0);
    EmittedConcat(ItemsOf(p, a, 0), EndItems(EndPc(p, a)));
    TotalOf(EndItems(EndPc(p, a)));
  }

  lemma TotalTwo(a: seq<Item>, x: Item, y: Item)
    ensures Total(a + [x] + [y]) == Total(a) + x.Size() + y.Size()
  {
    hide Total;
    EmittedConcat(a, [x]);
    EmittedConcat(a + [x], [y]);
    ResolvedOne(x, 0, map[]);
    ResolvedOne(y, 0, map[]);
  }

  lemma TwoMore(a: seq<Item>, x: Item, y: Item)
    ensures a + [x, y] == a + [x] + [y]
  {
  }

  lemma FourMore(a: seq<Item>, x: Item, y: Item, z: Item, w: Item)
    ensures a + [x] + [y] + [z] + [w] == a + [x, y, z, w]
  {
  }

  lemma {:induction false} HandleSnoc(c: Consumer, cs: seq<D.Callback>, cb: D.Callback)
    ensures HandleAll(c, cs + [cb]) == Handle(HandleAll(c, cs), cb)
    decreases |cs|
  {
    hide Handle;
    if cs == [] {
      assert cs + [cb] == [cb] && [cb][1..] == [];
    } else {
      assert (cs + [cb])[1..] == cs[1..] + [cb];
      HandleSnoc(Handle(c, cs[0]), cs[1..], cb);
    }
  }

  // ---- What has been consumed so far ----

  predicate Copied(cb: D.Callback) {
    !cb.Auipc? && !cb.CompareAndBranch? && !cb.JumpAndLink?
  }

  function CodeItems(c: Code, pc: u64, n: nat): seq<Item> {
    CallbackItems(Shape(c), pc, n) + (if Copied(Shape(c)) then CopyItems(c) else [])
  }

  function CodeLocals(c: Code): nat {
    var cs := D.Decode(c.lo, c.hi);
    if |cs| == 1 then CallbackLocals(cs[0]) else 0
  }

  function ReturnedAfter(p: seq<Code>, returned: bool): bool {
    if p == [] then returned else ReturnedAfter(p[1..], After(p[0], returned).returned)
  }

  function EndPc(p: seq<Code>, pc: u64): u64 {
    if p == [] then pc else EndPc(p[1..], Wrap(pc + p[0].Size()))
  }

  function LocalsOf(p: seq<Code>): nat {
    if p == [] then 0 else CodeLocals(p[0]) + LocalsOf(p[1..])
  }

  function BodyTargets(p: seq<Code>, pc: u64): set<u64> {
    if p == [] then {} else Targets(p[0], pc) + BodyTargets(p[1..], Wrap(pc + p[0].Size()))
  }

  function ItemsOf(p: seq<Code>, pc: u64, n: nat): seq<Item> {
    if p == [] then []
    else CodeItems(p[0], pc, n) + ItemsOf(p[1..], Wrap(pc + p[0].Size()), n + CodeLocals(p[0]))
  }

  ghost predicate ChunkLabels(c: Code, at: nat, n: nat, labels: map<Label, nat>) {
    Shape(c).CompareAndBranch? ==>
      && Local(n + 1) in labels && labels[Local(n + 1)] == at + 8
      && Local(n) in labels && labels[Local(n)] == at + 20
  }

  ghost predicate LabelsFit(p: seq<Code>, at: nat, n: nat, labels: map<Label, nat>) {
    p == [] ||
    (ChunkLabels(p[0], at, n, labels) && LabelsFit(p[1..], at + ChunkSize(p[0]), n + CodeLocals(p[0]), labels))
  }

  lemma {:induction false} AcceptedConcat(a: seq<Code>, b: seq<Code>, returned: bool)
    ensures Accepted(a + b, returned) <==> Accepted(a, returned) && Accepted(b, ReturnedAfter(a, returned))
    ensures ReturnedAfter(a + b, returned) == ReturnedAfter(b, ReturnedAfter(a, returned))
    decreases |a|
  {
    hide After;
    if a == [] {
      assert a + b == b;
    } else {
      assert (a + b)[1..] == a[1..] + b;
      AcceptedConcat(a[1..], b, After(a[0], returned).returned);
    }
  }

  lemma {:induction false} SumsConcat(a: seq<Code>, b: seq<Code>, pc: u64)
    ensures EndPc(a + b, pc) == EndPc(b, EndPc(a, pc))
    ensures LocalsOf(a + b) == LocalsOf(a) + LocalsOf(b)
    ensures BodyTargets(a + b, pc) == BodyTargets(a, pc) + BodyTargets(b, EndPc(a, pc))
    ensures BodySize(a + b) == BodySize(a) + BodySize(b)
    ensures Overwritten(a + b) == Overwritten(a) + Overwritten(b)
    decreases |a|
  {
    hide CodeLocals, Targets, ChunkSize, Wrap;
    if a == [] {
      assert a + b == b;
    } else {
      assert (a + b)[1..] == a[1..] + b;
      SumsConcat(a[1..], b, Wrap(pc + a[0].Size()));
    }
  }

  lemma {:induction false} ItemsConcat(a: seq<Code>, b: seq<Code>, pc: u64, n: nat)
    ensures ItemsOf(a + b, pc, n) == ItemsOf(a, pc, n) + ItemsOf(b, EndPc(a, pc), n + LocalsOf(a))
    decreases |a|
  {
    hide CodeLocals, CodeItems, Wrap;
    if a == [] {
      assert a + b == b;
    } else {
      assert (a + b)[1..] == a[1..] + b;
      ItemsConcat(a[1..], b, Wrap(pc + a[0].Size()), n + CodeLocals(a[0]));
    }
  }

  lemma {:induction false} LabelsConcat(a: seq<Code>, b: seq<Code>, at: nat, n: nat, labels: map<Label, nat>)
    ensures LabelsFit(a + b, at, n, labels)
            <==> LabelsFit(a, at, n, labels) && LabelsFit(b, at + BodySize(a), n + LocalsOf(a), labels)
    decreases |a|
  {
    hide CodeLocals, ChunkSize, ChunkLabels;
    if a == [] {
      assert a + b == b;
    } else {
      assert (a + b)[1..] == a[1..] + b;
      LabelsConcat(a[1..], b, at + ChunkSize(a[0]), n + CodeLocals(a[0]), labels);
    }
  }

  lemma {:induction false} LabelsGrow(p: seq<Code>, at: nat, n: nat, labels: map<Label, nat>, more: map<Label, nat>)
    requires LabelsFit(p, at, n, labels) && forall l :: l in labels ==> l in more && more[l] == labels[l]
    ensures LabelsFit(p, at, n, more)
    decreases |p|
  {
    hide CodeLocals, ChunkSize, Shape;
    if p != [] {
      LabelsGrow(p[1..], at + ChunkSize(p[0]), n + CodeLocals(p[0]), labels, more);
    }
  }

  /** The sums over one instruction. */
  lemma SumsOfOne(c: Code, pc: u64, at: nat, n: nat, labels: map<Label, nat>)
    ensures EndPc([c], pc) == Wrap(pc + c.Size()) && LocalsOf([c]) == CodeLocals(c)
    ensures BodyTargets([c], pc) == Targets(c, pc) && BodySize([c]) == ChunkSize(c) && Overwritten([c]) == c.Size()
    ensures ItemsOf([c], pc, n) == CodeItems(c, pc, n)
    ensures LabelsFit([c], at, n, labels) <==> ChunkLabels(c, at, n, labels)
  {
    hide CodeLocals, Targets, ChunkSize, ChunkLabels, CodeItems, Wrap;
    assert [c][1..] == [];
  }

  lemma CodeItemsSize(c: Code, pc: u64, n: nat)
    ensures Total(CodeItems(c, pc, n)) == ChunkSize(c)
  {
    hide Shape, Total, Wrap, JalrWord;
    var items := CodeItems(c, pc, n);
    match Shape(c) {
      case Auipc(_, _) => TotalOf(items);
      case CompareAndBranch(_, _, _, _) => TotalOf(items);
      case JumpAndLink(_, _) => TotalOf(items);
      case _ => TotalOf(items);
    }
  }

  lemma {:induction false} TotalOf(items: seq<Item>)
    ensures |items| == 0 ==> Total(items) == 0
    ensures |items| == 1 ==> Total(items) == items[0].Size()
    ensures |items| == 2 ==> Total(items) == items[0].Size() + items[1].Size()
    ensures |items| == 3 ==> Total(items) == items[0].Size() + items[1].Size() + items[2].Size()
    ensures |items| == 4 ==> Total(items) == items[0].Size() + items[1].Size() + items[2].Size() + items[3].Size()
    decreases |items|
  {
    hide Total;
    if items == [] {
      NothingResolved(0, map[]);
    } else {
      ResolvedCons(items, 0, map[]);
      TotalOf(items[1..]);
    }
  }

  lemma {:induction false} ItemsSize(p: seq<Code>, pc: u64, n: nat)
    ensures Total(ItemsOf(p, pc, n)) == BodySize(p)
    decreases |p|
  {
    hide CodeItems, CodeLocals, ChunkSize, Wrap;
    if p != [] {
      CodeItemsSize(p[0], pc, n);
      EmittedConcat(CodeItems(p[0], pc, n), ItemsOf(p[1..], Wrap(pc + p[0].Size()), n + CodeLocals(p[0])));
      ItemsSize(p[1..], Wrap(pc + p[0].Size()), n + CodeLocals(p[0]));
    }
  }

  /** The sums over one more instruction. */
  lemma SumsSnoc(done: seq<Code>, c: Code, a: u64)
    ensures var before := ReturnedAfter(done, false);
            && (Accepted(done + [c], false) <==> Accepted(done, false) && After(c, before).state in {Skipped, Relocated})
            && ReturnedAfter(done + [c], false) == After(c, before).returned
    ensures EndPc(done + [c], a) == Wrap(EndPc(done, a) + c.Size())
    ensures LocalsOf(done + [c]) == LocalsOf(done) + CodeLocals(c)
    ensures BodyTargets(done + [c], a) == BodyTargets(done, a) + Targets(c, EndPc(done, a))
    ensures Overwritten(done + [c]) == Overwritten(done) + c.Size()
    ensures ItemsOf(done + [c], a, 0) == ItemsOf(done, a, 0) + CodeItems(c, EndPc(done, a), LocalsOf(done))
  {
    hide EndPc, LocalsOf, BodyTargets, Overwritten, ItemsOf, CodeItems, CodeLocals, Targets, After, Accepted, ReturnedAfter;
    AcceptedConcat(done, [c], false);
    AcceptedOne(c, ReturnedAfter(done, false));
    SumsConcat(done, [c], a);
    ItemsConcat(done, [c], a, 0);
    SumsOfOne(c, EndPc(done, a), 0, LocalsOf(done), map[]);
  }

  lemma AcceptedOne(c: Code, returned: bool)
    ensures Accepted([c], returned) <==> After(c, returned).state in {Skipped, Relocated}
    ensures ReturnedAfter([c], returned) == After(c, returned).returned
  {
    hide After;
    assert [c][1..] == [];
  }

  /** The one callback of an accepted instruction, against the instruction's shape. */
  lemma CallbackOfAccepted(c: Code, returned: bool, pc: u64, n: nat)
    requires After(c, returned).state in {Skipped, Relocated}
    ensures |D.Decode(c.lo, c.hi)| == 1
    ensures var cb := D.Decode(c.lo, c.hi)[0];
            && (After(c, returned).state == Skipped <==> Copied(Shape(c)))
            && CallbackItems(cb, pc, n) == CallbackItems(Shape(c), pc, n)
            && CallbackTargets(cb, pc) == Targets(c, pc)
            && CallbackLocals(cb) == CodeLocals(c)
            && (Shape(c).CompareAndBranch? ==> cb == Shape(c))
  {
    hide D.Decode, JalrWord, Wrap;
    var cs := D.Decode(c.lo, c.hi);
    SingleCallback(cs, returned);
    HandleOne(Consumer(None, returned), cs);
  }

  lemma CodeItemsAre(c: Code, pc: u64, n: nat, items0: seq<Item>, items: seq<Item>)
    requires items == items0 + CallbackItems(Shape(c), pc, n) + (if Copied(Shape(c)) then CopyItems(c) else [])
          || (items == items0 + CallbackItems(Shape(c), pc, n) && !Copied(Shape(c)))
    ensures items == items0 + CodeItems(c, pc, n)
  {
    hide Shape, CallbackItems, CopyItems, Copied;
  }

  lemma LabelsSnoc(done: seq<Code>, c: Code, cb: D.Callback, labels0: map<Label, nat>, labels: map<Label, nat>)
    requires LabelsFit(done, 0, 0, labels0) && forall l :: l in labels0 ==> l.Local? && l.n < LocalsOf(done)
    requires labels == labels0 + CallbackLabels(cb, BodySize(done), LocalsOf(done))
    requires Shape(c).CompareAndBranch? ==> cb == Shape(c)
    ensures LabelsFit(done + [c], 0, 0, labels)
  {
    hide LabelsFit, LocalsOf, BodySize, Shape;
    LabelsGrow(done, 0, 0, labels0, labels);
    LabelsConcat(done, [c], 0, 0, labels);
    SumsOfOne(c, 0, BodySize(done), LocalsOf(done), labels);
  }

  // ---- From items and labels to the block ----

  function EndItems(pc: u64): seq<Item> { [LoadFrom(T3, Address(pc)), Plain(JalrWord(X0, T3))] }

  function PoolItems(keys: seq<u64>): seq<Item> {
    if keys == [] then [] else PoolItems(keys[..|keys| - 1]) + [Quad(keys[|keys| - 1])]
  }

  ghost predicate PoolLabels(keys: seq<u64>, base: nat, labels: map<Label, nat>) {
    forall a :: a in keys ==> Address(a) in labels && labels[Address(a)] == base + 8 * IndexOf(keys, a)
  }

  lemma OffsetIsDistance(keys: seq<u64>, base: nat, labels: map<Label, nat>, at: nat, a: u64, x: Item)
    requires PoolLabels(keys, base, labels) && a in keys && x.LowRead? && x.target == Address(a)
    ensures x.target in labels && OffsetOf(x, at, labels) == Distance(keys, base, at, a)
  {
    hide Int32, IndexOf;
  }

  lemma ResolvedFarJump(keys: seq<u64>, base: nat, labels: map<Label, nat>, at: nat, a: u64, rd: Reg)
    requires PoolLabels(keys, base, labels) && a in keys
    ensures var items := [LoadFrom(T3, Address(a)), Plain(JalrWord(rd, T3))];
            && Resolvable(items, at, labels) && ResolvedAll(items, at, labels) == FarJump(rd, Distance(keys, base, at, a))
            && Total(items) == 12
  {
    hide ReadWord, WordBytes, JalrWord, Distance, OffsetOf, PoolLabels, Resolvable, ResolvedAll, Total;
    var l, p := LoadFrom(T3, Address(a)), Plain(JalrWord(rd, T3));
    OffsetIsDistance(keys, base, labels, at, a, l);
    ResolvedOne(l, at, labels);
    ResolvedOne(p, at + 8, labels);
    ResolvedConcat([l], [p], at, labels);
    EmittedConcat([l], [p]);
    assert [l] + [p] == [l, p];
  }

  lemma ResolvedLoad(keys: seq<u64>, base: nat, labels: map<Label, nat>, at: nat, a: u64, rd: Reg)
    requires PoolLabels(keys, base, labels) && a in keys
    ensures var items := [LoadFrom(rd, Address(a))];
            Resolvable(items, at, labels) && ResolvedAll(items, at, labels) == LoadPair(rd, Distance(keys, base, at, a))
  {
    hide ReadWord, Distance, OffsetOf, PoolLabels, Resolvable, ResolvedAll, Total;
    OffsetIsDistance(keys, base, labels, at, a, LoadFrom(rd, Address(a)));
    ResolvedOne(LoadFrom(rd, Address(a)), at, labels);
  }

  /** The label machinery gives the conditional branch distance 8 and the jump distance 16. */
  lemma ResolvedBranch(f3: Funct3Bits, rs1: Reg, rs2: Reg, at: nat, n: nat, labels: map<Label, nat>)
    requires IsBranchFunct3(f3)
    requires Local(n + 1) in labels && labels[Local(n + 1)] == at + 8
    requires Local(n) in labels && labels[Local(n)] == at + 20
    ensures var items := [BranchTo(f3, rs1, rs2, Local(n + 1)), JumpTo(X0, Local(n))];
            && Resolvable(items, at, labels) && Total(items) == 8
            && ResolvedAll(items, at, labels) == WordBytes(BranchWord(f3, rs1, rs2, 8)) + WordBytes(JalWord(X0, 16))
  {
    hide WordBytes, BranchWord, JalWord, Resolvable, ResolvedAll, Total;
    var b, j := BranchTo(f3, rs1, rs2, Local(n + 1)), JumpTo(X0, Local(n));
    assert OffsetOf(b, at, labels) == 8;
    assert OffsetOf(j, at + 4, labels) == 16;
    ResolvedOne(b, at, labels);
    ResolvedOne(j, at + 4, labels);
    ResolvedConcat([b], [j], at, labels);
    EmittedConcat([b], [j]);
    assert [b] + [j] == [b, j];
  }

  lemma ResolvedCopy(c: Code, at: nat, labels: map<Label, nat>)
    ensures Resolvable(CopyItems(c), at, labels) && ResolvedAll(CopyItems(c), at, labels) == CopyBytes(c)
  {
    hide HalfBytes, Resolvable, ResolvedAll;
    ResolvedOne(Half(c.lo), at, labels);
    ResolvedOne(Half(c.hi), at + 2, labels);
    if c.Size() == 4 {
      ResolvedConcat([Half(c.lo)], [Half(c.hi)], at, labels);
      assert [Half(c.lo)] + [Half(c.hi)] == CopyItems(c);
    }
  }

  lemma ResolvedChunk(c: Code, pc: u64, at: nat, n: nat, keys: seq<u64>, base: nat, labels: map<Label, nat>)
    requires ChunkLabels(c, at, n, labels) && PoolLabels(keys, base, labels)
    requires forall t :: t in Targets(c, pc) ==> t in keys
    ensures Resolvable(CodeItems(c, pc, n), at, labels)
    ensures ResolvedAll(CodeItems(c, pc, n), at, labels) == Chunk(c, pc, at, keys, base)
  {
    hide Shape, Wrap, Distance, LoadPair, FarJump, WordBytes, BranchWord, JalWord, JalrWord, PoolLabels, CopyBytes;
    hide Resolvable, ResolvedAll, CopyItems, Total;
    match Shape(c) {
      case Auipc(dst, imm) =>
        var t := Wrap(pc + imm);
        ResolvedLoad(keys, base, labels, at, t, dst);
        assert CodeItems(c, pc, n) == [LoadFrom(dst, Address(t))];
      case CompareAndBranch(opcode, src1, src2, offset) =>
        var t := Wrap(pc + offset);
        var head := [BranchTo(opcode, src1, src2, Local(n + 1)), JumpTo(X0, Local(n))];
        var tail := [LoadFrom(T3, Address(t)), Plain(JalrWord(X0, T3))];
        ResolvedBranch(opcode, src1, src2, at, n, labels);
        ResolvedFarJump(keys, base, labels, at + 8, t, X0);
        ResolvedConcat(head, tail, at, labels);
        assert CodeItems(c, pc, n) == head + tail;
      case JumpAndLink(dst, offset) =>
        var t := Wrap(pc + offset);
        ResolvedFarJump(keys, base, labels, at, t, dst);
        assert CodeItems(c, pc, n) == [LoadFrom(T3, Address(t)), Plain(JalrWord(dst, T3))];
      case _ =>
        ResolvedCopy(c, at, labels);
        assert CodeItems(c, pc, n) == CopyItems(c);
    }
  }

  lemma {:induction false} ResolvedBody(p: seq<Code>, pc: u64, at: nat, n: nat, keys: seq<u64>, base: nat,
                                        labels: map<Label, nat>)
    requires LabelsFit(p, at, n, labels) && PoolLabels(keys, base, labels)
    requires forall t :: t in AllTargets(p, pc) ==> t in keys
    ensures Resolvable(ItemsOf(p, pc, n) + EndItems(EndPc(p, pc)), at, labels)
    ensures ResolvedAll(ItemsOf(p, pc, n) + EndItems(EndPc(p, pc)), at, labels) == Body(p, pc, at, keys, base)
    decreases |p|
  {
    hide CodeItems, CodeLocals, Chunk, ChunkSize, ChunkLabels, Targets, PoolLabels, Wrap, EndItems, Resolvable, ResolvedAll, FarJump;
    hide Total, Distance;
    if p == [] {
      EndIsFarJump(keys, base, labels, at, pc);
      assert [] + EndItems(pc) == EndItems(pc);
    } else {
      var c := p[0];
      var next, m := Wrap(pc + c.Size()), n + CodeLocals(c);
      var rest := ItemsOf(p[1..], next, m) + EndItems(EndPc(p, pc));
      assert ItemsOf(p, pc, n) + EndItems(EndPc(p, pc)) == CodeItems(c, pc, n) + rest;
      ResolvedChunk(c, pc, at, n, keys, base, labels);
      CodeItemsSize(c, pc, n);
      ResolvedBody(p[1..], next, at + ChunkSize(c), m, keys, base, labels);
      ResolvedConcat(CodeItems(c, pc, n), rest, at, labels);
    }
  }

  lemma EndIsFarJump(keys: seq<u64>, base: nat, labels: map<Label, nat>, at: nat, pc: u64)
    requires PoolLabels(keys, base, labels) && pc in keys
    ensures Resolvable(EndItems(pc), at, labels)
    ensures ResolvedAll(EndItems(pc), at, labels) == FarJump(X0, Distance(keys, base, at, pc))
    ensures Total(EndItems(pc)) == 12
  {
    hide PoolLabels, FarJump, Distance, Resolvable, ResolvedAll, Total;
    ResolvedFarJump(keys, base, labels, at, pc, X0);
  }

  lemma {:induction false} ResolvedPool(keys: seq<u64>, at: nat, labels: map<Label, nat>)
    ensures Resolvable(PoolItems(keys), at, labels) && ResolvedAll(PoolItems(keys), at, labels) == PoolBytes(keys)
    ensures Total(PoolItems(keys)) == 8 * |keys|
    decreases |keys|
  {
    hide QuadBytes, Resolvable, ResolvedAll, Total, Emitted;
    if keys == [] {
      NothingResolved(at, labels);
    } else {
      var front, last := keys[..|keys| - 1], Quad(keys[|keys| - 1]);
      ResolvedPool(front, at, labels);
      ResolvedOne(last, at + 8 * |front|, labels);
      ResolvedConcat(PoolItems(front), [last], at, labels);
      EmittedConcat(PoolItems(front), [last]);
    }
  }

  lemma {:induction false} TargetsThenEnd(p: seq<Code>, pc: u64)
    ensures AllTargets(p, pc) == BodyTargets(p, pc) + {EndPc(p, pc)}
    decreases |p|
  {
    hide Targets, Wrap;
    if p != [] {
      TargetsThenEnd(p[1..], Wrap(pc + p[0].Size()));
    }
  }

  /** Everything the relocator emitted resolves to the specified block. */
  lemma ResolvedBlock(p: seq<Code>, a: u64, keys: seq<u64>, labels: map<Label, nat>)
    requires LabelsFit(p, 0, 0, labels) && PoolLabels(keys, BodySize(p) + 12, labels)
    requires forall t :: t in AllTargets(p, a) ==> t in keys
    ensures var items := ItemsOf(p, a, 0) + EndItems(EndPc(p, a)) + PoolItems(keys);
            Resolvable(items, 0, labels) && ResolvedAll(items, 0, labels) == Block(p, a, keys)
  {
    hide Body, PoolBytes, ItemsOf, EndItems, PoolItems, Resolvable, ResolvedAll, Total, LabelsFit, PoolLabels, AllTargets;
    var front := ItemsOf(p, a, 0) + EndItems(EndPc(p, a));
    var base := BodySize(p) + 12;
    ResolvedBody(p, a, 0, 0, keys, base, labels);
    ResolvedPool(keys, Total(front), labels);
    ResolvedConcat(front, PoolItems(keys), 0, labels);
  }
}
