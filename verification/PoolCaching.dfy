/** What the pool on its two real stacks is for: a block that is freed is kept in a node and handed
    out again, and the kernel is asked only after an operation found its stack empty. */
module PoolCaching {
  import opened PointerAndCounter
  import opened Wrappers
  import opened PoolOnStacks
  import L = LockFreeStack
  import P = MmapPool

  // ---- Schedules ----

  function Pops(t: Tid): seq<Move> {
    [Move(t, Access(L.Load)), Move(t, Access(L.ReadNext)), Move(t, Access(L.Swap))]
  }

  function Pushes(t: Tid): seq<Move> {
    [Move(t, Access(L.Load)), Move(t, Access(L.Link)), Move(t, Access(L.Swap))]
  }

  /** The accesses of an undisturbed `Free(b)` and of an undisturbed `Alloc`. */
  function FreeMoves(t: Tid, b: Block): seq<Move> {
    [Move(t, BeginFree(b))] + Pops(t) + [Move(t, WriteBlock)] + Pushes(t)
  }

  function AllocMoves(t: Tid): seq<Move> {
    [Move(t, BeginAlloc)] + Pops(t) + [Move(t, ReadBlock)] + Pushes(t)
  }

  function Silents(n: nat): (r: seq<P.Event>)
    ensures |r| == n && forall i :: 0 <= i < n ==> r[i] == P.Silent
  {
    seq(n, _ => P.Silent)
  }

  /** These moves are a run in time from `s`. */
  ghost predicate Leads(align: AlignBits, s: State, moves: seq<Move>, s': State, events: seq<P.Event>) {
    Run(align, s, moves) == Some(Trace(s', events)) && RunInTime(align, s, moves)
  }

  lemma LeadsNowhere(align: AlignBits, s: State)
    ensures Leads(align, s, [], s, [])
  {
  }

  lemma LeadsOn(align: AlignBits, s: State, moves: seq<Move>, now: State, events: seq<P.Event>, m: Move, o: Outcome)
    requires Leads(align, s, moves, now, events) && InTime(align, now, m.thread, m.action)
    requires Step(align, now, m.thread, m.action) == Some(o)
    ensures Leads(align, s, moves + [m], o.state, events + [o.event])
  {
    hide Step, InTime;
    assert (moves + [m])[..|moves|] == moves;
  }

  lemma LeadsThree(align: AlignBits, s: State, moves: seq<Move>, now: State, events: seq<P.Event>, t: Tid, a: seq<Action>,
                   o1: Outcome, o2: Outcome, o3: Outcome)
    requires Leads(align, s, moves, now, events) && |a| == 3
    requires Step(align, now, t, a[0]) == Some(o1) && InTime(align, now, t, a[0])
    requires Step(align, o1.state, t, a[1]) == Some(o2) && InTime(align, o1.state, t, a[1])
    requires Step(align, o2.state, t, a[2]) == Some(o3) && InTime(align, o2.state, t, a[2])
    ensures Leads(align, s, moves + [Move(t, a[0]), Move(t, a[1]), Move(t, a[2])], o3.state,
                  events + [o1.event, o2.event, o3.event])
  {
    hide Step, InTime, Leads;
    var m1, m2, m3 := Move(t, a[0]), Move(t, a[1]), Move(t, a[2]);
    LeadsOn(align, s, moves, now, events, m1, o1);
    LeadsOn(align, s, moves + [m1], o1.state, events + [o1.event], m2, o2);
    LeadsOn(align, s, moves + [m1] + [m2], o2.state, events + [o1.event] + [o2.event], m3, o3);
    assert moves + [m1] + [m2] + [m3] == moves + [m1, m2, m3];
    assert events + [o1.event] + [o2.event] + [o3.event] == events + [o1.event, o2.event, o3.event];
  }

  // ---- One access after the other ----

  function Doing(th: Thread, sub: L.Thread): Thread
    requires th.Popping() || th.Pushing()
  {
    th.(sub := sub)
  }

  function Own(sa: seq<Ptr>, sw: seq<Ptr>, w: Which): seq<Ptr> { if w == Available then sa else sw }

  lemma TopIs(align: AlignBits, s: State, sa: seq<Ptr>, sw: seq<Ptr>, w: Which)
    requires Inv(align, s, sa, sw)
    ensures var own := Own(sa, sw, w);
            if own == [] then UnpackPointer(align, HeadOf(s, w).word) == L.NULL
            else UnpackPointer(align, HeadOf(s, w).word) == own[0] && own[0] != L.NULL && own[0] in s.next
  {
    hide UnpackPointer, UnpackCounter, MaxCounter, L.Distinct, L.ThreadOk, Shape, Packable, Subs, Hands;
  }

  /** What the access is for the stack alone. */
  ghost predicate Shows(align: AlignBits, s: State, t: Tid, a: L.Action, e: L.Event)
    requires t in s.threads && (s.threads[t].Popping() || s.threads[t].Pushing())
  {
    var o := L.Step(align, View(s, s.threads[t].Stack()), t, a);
    o.Some? && o.value.event == e
  }

  /** The two lists after it. */
  lemma ListsAfter(align: AlignBits, s: State, sa: seq<Ptr>, sw: seq<Ptr>, t: Tid, a: L.Action, e: L.Event)
    requires Inv(align, s, sa, sw) && Step(align, s, t, Access(a)).Some? && InTime(align, s, t, Access(a))
    requires Shows(align, s, t, a, e)
    ensures var w := s.threads[t].Stack();
            Inv(align, Step(align, s, t, Access(a)).value.state, if w == Available then StackAfter(sa, e) else sa,
                if w == Without then StackAfter(sw, e) else sw)
  {
    hide Inv, L.Step, View, Accessed, AccessShape, L.InTime, StackAfter, L.Atomic;
    var o := AccessKeeps(align, s, sa, sw, t, a);
  }

  lemma QuietlyAfter(align: AlignBits, s: State, sa: seq<Ptr>, sw: seq<Ptr>, t: Tid, a: L.Action)
    requires Inv(align, s, sa, sw) && Step(align, s, t, Access(a)).Some? && !a.Swap? && Shows(align, s, t, a, L.Silent)
    ensures InTime(align, s, t, Access(a)) && Inv(align, Step(align, s, t, Access(a)).value.state, sa, sw)
  {
    hide Inv, Step, View, Shows;
    ListsAfter(align, s, sa, sw, t, a, L.Silent);
  }

  lemma Loads(align: AlignBits, s: State, sa: seq<Ptr>, sw: seq<Ptr>, t: Tid)
    requires Inv(align, s, sa, sw) && t in s.threads && (s.threads[t].Popping() || s.threads[t].Pushing())
    requires s.threads[t].sub.PopBegun? || s.threads[t].sub.PushBegun?
    ensures var th, h := s.threads[t], HeadOf(s, s.threads[t].Stack());
            Step(align, s, t, Access(L.Load))
            == Some(if th.sub.PushBegun? then Outcome(Goto(s, t, Doing(th, L.PushLoaded(th.sub.chain, h.word))), P.Silent)
                    else if Own(sa, sw, th.Stack()) != [] then Outcome(Goto(s, t, Doing(th, L.PopLoaded(h.word, h.pushes))), P.Silent)
                    else Outcome(Goto(s, t, if th.AllocPop? then AllocMissed else FreeMissed(th.block)), P.Silent))
    ensures var th := s.threads[t];
            Shows(align, s, t, L.Load, if th.sub.PopBegun? && Own(sa, sw, th.Stack()) == [] then L.FoundEmpty else L.Silent)
  {
    hide UnpackPointer, L.Inv, Subs, Hands;
    TopIs(align, s, sa, sw, s.threads[t].Stack());
    assert ThreadOk(s, t);
    InViews(s.threads, s.threads[t].Stack(), t);
  }

  lemma Reads(align: AlignBits, s: State, t: Tid)
    requires t in s.threads && t != REST && s.threads[t].Popping() && s.threads[t].sub.PopLoaded?
    requires UnpackPointer(align, s.threads[t].sub.cmp) in s.next
    ensures var th := s.threads[t];
            Step(align, s, t, Access(L.ReadNext))
            == Some(Outcome(Goto(s, t, Doing(th, L.PopRead(th.sub.cmp, th.sub.seen, s.next[UnpackPointer(align, th.sub.cmp)]))),
                            P.Silent))
    ensures Shows(align, s, t, L.ReadNext, L.Silent)
  {
    hide UnpackPointer, Subs, Hands;
    InViews(s.threads, s.threads[t].Stack(), t);
  }

  lemma Links(align: AlignBits, s: State, t: Tid)
    requires t in s.threads && t != REST && s.threads[t].Pushing() && s.threads[t].sub.PushLoaded?
    requires s.threads[t].sub.chain == [s.threads[t].node]
    ensures var th := s.threads[t];
            Step(align, s, t, Access(L.Link))
            == Some(Outcome(Goto(s.(next := s.next[th.node := UnpackPointer(align, th.sub.cmp)]), t,
                                 Doing(th, L.PushLinked(th.sub.chain, th.sub.cmp))), P.Silent))
    ensures Shows(align, s, t, L.Link, L.Silent)
  {
    hide UnpackPointer, Subs, Hands;
    InViews(s.threads, s.threads[t].Stack(), t);
  }

  /** What a pop or a push leaves alone. */
  predicate Alike(s: State, s': State) {
    s'.cached == s.cached && s'.mapped == s.mapped
  }

  lemma SwapPops(align: AlignBits, s: State, t: Tid)
    requires t in s.threads && t != REST && s.threads[t].Popping() && s.threads[t].sub.PopRead?
    requires s.threads[t].sub.cmp == HeadOf(s, s.threads[t].Stack()).word
    requires s.threads[t].sub.seen == HeadOf(s, s.threads[t].Stack()).pushes
    ensures InTime(align, s, t, Access(L.Swap))
    ensures var th, o, n := s.threads[t], Step(align, s, t, Access(L.Swap)), UnpackPointer(align, s.threads[t].sub.cmp);
            && o.Some? && o.value.event == P.Silent && Alike(s, o.value.state) && o.value.state.held == s.held
            && o.value.state.threads == s.threads[t := if th.AllocPop? then AllocGot(n) else FreeGot(n, th.block)]
    ensures Shows(align, s, t, L.Swap, L.Popped(UnpackPointer(align, s.threads[t].sub.cmp)))
  {
    hide UnpackPointer, UnpackCounter, PackUnsafe, Subs, Hands;
    InViews(s.threads, s.threads[t].Stack(), t);
  }

  lemma SwapPushes(align: AlignBits, s: State, t: Tid)
    requires t in s.threads && t != REST && s.threads[t].Pushing() && s.threads[t].sub.PushLinked?
    requires s.threads[t].sub.cmp == HeadOf(s, s.threads[t].Stack()).word && s.threads[t].sub.chain == [s.threads[t].node]
    ensures InTime(align, s, t, Access(L.Swap))
    ensures var th, o := s.threads[t], Step(align, s, t, Access(L.Swap));
            && o.Some? && Alike(s, o.value.state) && o.value.state.threads == s.threads[t := Idle]
            && (if th.AllocPush? then o.value.event == P.Allocated(th.block) && o.value.state.held == s.held[th.block := t]
                else o.value.event == P.Silent && o.value.state.held == s.held)
    ensures Shows(align, s, t, L.Swap, L.Pushed([s.threads[t].node]))
  {
    hide UnpackPointer, UnpackCounter, PackUnsafe, Subs, Hands, L.Without;
    InViews(s.threads, s.threads[t].Stack(), t);
  }

  lemma NotRest(align: AlignBits, s: State, sa: seq<Ptr>, sw: seq<Ptr>, t: Tid)
    requires Inv(align, s, sa, sw) && t in s.threads
    ensures t != REST && ThreadOk(s, t)
  {
    hide L.Inv, ThreadOk;
  }

  // ---- A whole pop, a whole push ----

  /** The thread takes the top of its stack. */
  lemma PopPhase(align: AlignBits, s0: State, moves: seq<Move>, s: State, events: seq<P.Event>, sa: seq<Ptr>, sw: seq<Ptr>, t: Tid)
    returns (s3: State)
    requires Leads(align, s0, moves, s, events) && Inv(align, s, sa, sw)
    requires t in s.threads && s.threads[t].Popping() && s.threads[t].sub.PopBegun? && Own(sa, sw, s.threads[t].Stack()) != []
    ensures Leads(align, s0, moves + Pops(t), s3, events + [P.Silent, P.Silent, P.Silent])
    ensures Alike(s, s3) && s3.held == s.held
    ensures var th := s.threads[t];
            && s3.threads == s.threads[t := if th.AllocPop? then AllocGot(sa[0]) else FreeGot(sw[0], th.block)]
            && Inv(align, s3, if th.AllocPop? then sa[1..] else sa, if th.AllocPop? then sw else sw[1..])
  {
    hide Inv, Leads, Step, L.Step, InTime, View, Accessed, AccessShape, Shows;
    var th, w := s.threads[t], s.threads[t].Stack();
    var h, n := HeadOf(s, w), Own(sa, sw, w)[0];
    NotRest(align, s, sa, sw, t);
    TopIs(align, s, sa, sw, w);
    Loads(align, s, sa, sw, t);
    QuietlyAfter(align, s, sa, sw, t, L.Load);
    var s1 := Goto(s, t, Doing(th, L.PopLoaded(h.word, h.pushes)));
    Reads(align, s1, t);
    QuietlyAfter(align, s1, sa, sw, t, L.ReadNext);
    var s2 := Goto(s1, t, Doing(th, L.PopRead(h.word, h.pushes, s.next[n])));
    SwapPops(align, s2, t);
    s3 := Step(align, s2, t, Access(L.Swap)).value.state;
    ListsAfter(align, s2, sa, sw, t, L.Swap, L.Popped(n));
    LeadsThree(align, s0, moves, s, events, t, [Access(L.Load), Access(L.ReadNext), Access(L.Swap)],
               Outcome(s1, P.Silent), Outcome(s2, P.Silent), Outcome(s3, P.Silent));
  }

  /** The thread puts its node on top of its stack. */
  lemma PushPhase(align: AlignBits, s0: State, moves: seq<Move>, s: State, events: seq<P.Event>, sa: seq<Ptr>, sw: seq<Ptr>, t: Tid)
    returns (s3: State, e: P.Event)
    requires Leads(align, s0, moves, s, events) && Inv(align, s, sa, sw)
    requires t in s.threads && s.threads[t].Pushing() && s.threads[t].sub.PushBegun?
    ensures Leads(align, s0, moves + Pushes(t), s3, events + [P.Silent, P.Silent, e])
    ensures Alike(s, s3) && s3.threads == s.threads[t := Idle]
    ensures var th := s.threads[t];
            if th.AllocPush? then
              e == P.Allocated(th.block) && s3.held == s.held[th.block := t] && Inv(align, s3, sa, [th.node] + sw)
            else e == P.Silent && s3.held == s.held && Inv(align, s3, [th.node] + sa, sw)
  {
    hide Inv, Leads, Step, L.Step, InTime, View, Accessed, AccessShape, Shows;
    var th, w := s.threads[t], s.threads[t].Stack();
    var h, n := HeadOf(s, w), th.node;
    NotRest(align, s, sa, sw, t);
    Loads(align, s, sa, sw, t);
    QuietlyAfter(align, s, sa, sw, t, L.Load);
    var s1 := Goto(s, t, Doing(th, L.PushLoaded([n], h.word)));
    Links(align, s1, t);
    QuietlyAfter(align, s1, sa, sw, t, L.Link);
    var s2 := Goto(s1.(next := s1.next[n := UnpackPointer(align, h.word)]), t, Doing(th, L.PushLinked([n], h.word)));
    SwapPushes(align, s2, t);
    var o := Step(align, s2, t, Access(L.Swap)).value;
    s3, e := o.state, o.event;
    ListsAfter(align, s2, sa, sw, t, L.Swap, L.Pushed([n]));
    LeadsThree(align, s0, moves, s, events, t, [Access(L.Load), Access(L.Link), Access(L.Swap)],
               Outcome(s1, P.Silent), Outcome(s2, P.Silent), o);
  }

  // ---- Undisturbed operations ----

  lemma MoveOn(align: AlignBits, s: State, sa: seq<Ptr>, sw: seq<Ptr>, t: Tid, a: Action)
    requires Inv(align, s, sa, sw) && !a.Access? && Step(align, s, t, a).Some?
    ensures InTime(align, s, t, a) && Inv(align, Step(align, s, t, a).value.state, sa, sw)
  {
    hide Inv, Step;
    OutsideKeeps(align, s, sa, sw, t, a);
  }

  /** `Free` caches: as long as some node is without a block, an undisturbed `Free(b)` stores `b` in
      the first such node and leaves that node on top of the available ones; the kernel is not asked. */
  lemma FreeCaches(align: AlignBits, s: State, sa: seq<Ptr>, sw: seq<Ptr>, t: Tid, b: Block) returns (s': State)
    requires Inv(align, s, sa, sw) && sw != []
    requires t in s.threads && s.threads[t].Idle? && b in s.held && s.held[b] == t
    ensures Leads(align, s, FreeMoves(t, b), s', [P.Released(b)] + Silents(7))
    ensures Inv(align, s', [sw[0]] + sa, sw[1..]) && s'.cached == s.cached[sw[0] := b]
    ensures s'.threads == s.threads && s'.mapped == s.mapped && s'.held == P.Without(s.held, b)
  {
    hide Inv, Leads, InTime, View, P.Without;
    var n := sw[0];
    LeadsNowhere(align, s);
    MoveOn(align, s, sa, sw, t, BeginFree(b));
    var o1 := Step(align, s, t, BeginFree(b)).value;
    LeadsOn(align, s, [], s, [], Move(t, BeginFree(b)), o1);
    var m, e := [] + [Move(t, BeginFree(b))], [] + [P.Released(b)];
    var s2 := PopPhase(align, s, m, o1.state, e, sa, sw, t);
    m, e := m + Pops(t), e + [P.Silent, P.Silent, P.Silent];
    MoveOn(align, s2, sa, sw[1..], t, WriteBlock);
    var o3 := Step(align, s2, t, WriteBlock).value;
    LeadsOn(align, s, m, s2, e, Move(t, WriteBlock), o3);
    var last;
    s', last := PushPhase(align, s, m + [Move(t, WriteBlock)], o3.state, e + [P.Silent], sa, sw[1..], t);
    assert m + [Move(t, WriteBlock)] + Pushes(t) == FreeMoves(t, b);
    assert e + [P.Silent] + [P.Silent, P.Silent, P.Silent] == [P.Released(b)] + Silents(7);
    assert s'.threads == s.threads;
  }

  /** `Alloc` reuses: as long as a block is cached, an undisturbed `Alloc` returns the one in the
      first available node and leaves that node on top of those without blocks. */
  lemma AllocReuses(align: AlignBits, s: State, sa: seq<Ptr>, sw: seq<Ptr>, t: Tid) returns (s': State)
    requires Inv(align, s, sa, sw) && sa != [] && t in s.threads && s.threads[t].Idle?
    ensures sa[0] in s.cached
    ensures Leads(align, s, AllocMoves(t), s', Silents(7) + [P.Allocated(s.cached[sa[0]])])
    ensures Inv(align, s', sa[1..], [sa[0]] + sw) && s'.cached == s.cached
    ensures s'.threads == s.threads && s'.mapped == s.mapped && s'.held == s.held[s.cached[sa[0]] := t]
  {
    hide Inv, Leads, InTime, View;
    var n := sa[0];
    TopIs(align, s, sa, sw, Available);
    NodesHaveBlocks(align, s, sa, sw, n);
    var b := s.cached[n];
    LeadsNowhere(align, s);
    MoveOn(align, s, sa, sw, t, BeginAlloc);
    var o1 := Step(align, s, t, BeginAlloc).value;
    LeadsOn(align, s, [], s, [], Move(t, BeginAlloc), o1);
    var m, e := [] + [Move(t, BeginAlloc)], [] + [P.Silent];
    var s2 := PopPhase(align, s, m, o1.state, e, sa, sw, t);
    m, e := m + Pops(t), e + [P.Silent, P.Silent, P.Silent];
    MoveOn(align, s2, sa[1..], sw, t, ReadBlock);
    var o3 := Step(align, s2, t, ReadBlock).value;
    LeadsOn(align, s, m, s2, e, Move(t, ReadBlock), o3);
    var last;
    s', last := PushPhase(align, s, m + [Move(t, ReadBlock)], o3.state, e + [P.Silent], sa[1..], sw, t);
    assert m + [Move(t, ReadBlock)] + Pushes(t) == AllocMoves(t);
    assert e + [P.Silent] + [P.Silent, P.Silent, P.Allocated(b)] == Silents(7) + [P.Allocated(b)];
    assert s'.threads == s.threads;
  }

  lemma NodesHaveBlocks(align: AlignBits, s: State, sa: seq<Ptr>, sw: seq<Ptr>, n: Ptr)
    requires Inv(align, s, sa, sw) && n in s.next
    ensures n in s.cached
  {
    hide L.Inv, ThreadOk;
  }

  /** What is freed comes back: an `Alloc` behind a `Free(b)`, nobody in between, returns `b`, by
      whichever threads, and every node is where it was. */
  lemma FreedIsReused(align: AlignBits, s: State, sa: seq<Ptr>, sw: seq<Ptr>, t: Tid, u: Tid, b: Block) returns (s': State)
    requires Inv(align, s, sa, sw) && sw != [] && u in s.threads && s.threads[u].Idle?
    requires t in s.threads && s.threads[t].Idle? && b in s.held && s.held[b] == t
    ensures var now := Run(align, s, FreeMoves(t, b));
            now.Some? && Leads(align, now.value.state, AllocMoves(u), s', Silents(7) + [P.Allocated(b)])
    ensures Inv(align, s', sa, sw) && s'.mapped == s.mapped && s'.held == s.held[b := u]
  {
    hide Inv, Run, RunInTime;
    var s1 := FreeCaches(align, s, sa, sw, t, b);
    s' := AllocReuses(align, s1, [sw[0]] + sa, sw[1..], u);
    assert ([sw[0]] + sa)[1..] == sa && [sw[0]] + sw[1..] == sw;
    assert P.Without(s.held, b)[b := u] == s.held[b := u];
  }

  /** With no node left for it the block goes back to the kernel. */
  lemma FreeUnmaps(align: AlignBits, s: State, sa: seq<Ptr>, t: Tid, b: Block) returns (s': State)
    requires Inv(align, s, sa, []) && t in s.threads && s.threads[t].Idle? && b in s.held && s.held[b] == t
    ensures Leads(align, s, [Move(t, BeginFree(b)), Move(t, Access(L.Load)), Move(t, Unmap)], s',
                  [P.Released(b), P.Silent, P.Unmapped(b)])
    ensures Inv(align, s', sa, []) && s'.cached == s.cached
    ensures s'.threads == s.threads && s'.mapped == s.mapped - {b} && s'.held == P.Without(s.held, b)
  {
    hide Inv, Leads, L.Step, InTime, View, P.Without, Shows, L.Atomic, StackAfter;
    LeadsNowhere(align, s);
    MoveOn(align, s, sa, [], t, BeginFree(b));
    var o1 := Step(align, s, t, BeginFree(b)).value;
    NotRest(align, o1.state, sa, [], t);
    Loads(align, o1.state, sa, [], t);
    LoadInTime(align, o1.state, t);
    EmptyStays();
    ListsAfter(align, o1.state, sa, [], t, L.Load, L.FoundEmpty);
    var s2 := Goto(o1.state, t, FreeMissed(b));
    MoveOn(align, s2, sa, [], t, Unmap);
    var o3 := Step(align, s2, t, Unmap).value;
    s' := o3.state;
    LeadsThree(align, s, [], s, [], t, [BeginFree(b), Access(L.Load), Unmap], o1, Outcome(s2, P.Silent), o3);
    FromNothing([Move(t, BeginFree(b)), Move(t, Access(L.Load)), Move(t, Unmap)], [P.Released(b), P.Silent, P.Unmapped(b)]);
    assert s'.threads == s.threads;
  }

  lemma FromNothing(m: seq<Move>, e: seq<P.Event>)
    ensures [] + m == m && [] + e == e
  {
  }

  lemma EmptyStays()
    ensures StackAfter([], L.FoundEmpty) == []
  {
  }

  lemma LoadInTime(align: AlignBits, s: State, t: Tid)
    ensures InTime(align, s, t, Access(L.Load))
  {
    hide View;
  }

  /** With no block cached the kernel gives a new one, `b`. */
  lemma AllocMaps(align: AlignBits, s: State, sw: seq<Ptr>, t: Tid, b: Block) returns (s': State)
    requires Inv(align, s, [], sw) && t in s.threads && s.threads[t].Idle? && b !in s.mapped
    ensures Leads(align, s, [Move(t, BeginAlloc), Move(t, Access(L.Load)), Move(t, Map(b))], s',
                  [P.Silent, P.Silent, P.Allocated(b)])
    ensures Inv(align, s', [], sw) && s'.cached == s.cached
    ensures s'.threads == s.threads && s'.mapped == s.mapped + {b} && s'.held == s.held[b := t]
  {
    hide Inv, Leads, L.Step, InTime, View, Shows, L.Atomic, StackAfter;
    LeadsNowhere(align, s);
    MoveOn(align, s, [], sw, t, BeginAlloc);
    var o1 := Step(align, s, t, BeginAlloc).value;
    NotRest(align, o1.state, [], sw, t);
    Loads(align, o1.state, [], sw, t);
    LoadInTime(align, o1.state, t);
    EmptyStays();
    ListsAfter(align, o1.state, [], sw, t, L.Load, L.FoundEmpty);
    var s2 := Goto(o1.state, t, AllocMissed);
    MoveOn(align, s2, [], sw, t, Map(b));
    var o3 := Step(align, s2, t, Map(b)).value;
    s' := o3.state;
    LeadsThree(align, s, [], s, [], t, [BeginAlloc, Access(L.Load), Map(b)], o1, Outcome(s2, P.Silent), o3);
    FromNothing([Move(t, BeginAlloc), Move(t, Access(L.Load)), Move(t, Map(b))], [P.Silent, P.Silent, P.Allocated(b)]);
    assert s'.threads == s.threads;
  }

  /** A client may pass its block on at any time. */
  lemma ClientGives(align: AlignBits, s: State, t: Tid, b: Block, to: Tid)
    requires t in s.threads && b in s.held && s.held[b] == t
    ensures Step(align, s, t, Give(b, to)) == Some(Outcome(s.(held := s.held[b := to]), P.Silent))
  {
  }

  // ---- Over every run ----

  ghost predicate AsksKernel(s: State, t: Tid) {
    t in s.threads && (s.threads[t].AllocMissed? || s.threads[t].FreeMissed?)
  }

  /** The thread was in a pop of that operation, and the head word it met was null. */
  ghost predicate MetNull(align: AlignBits, s: State, t: Tid, th: Thread)
    requires t in s.threads
  {
    if th.AllocMissed? then s.threads[t].AllocPop? && UnpackPointer(align, s.available.word) == 0
    else
      && th.FreeMissed? && s.threads[t].FreePop? && s.threads[t].block == th.block
      && UnpackPointer(align, s.without.word) == 0
  }

  /** After the first `i` moves thread `t` stands at `th`. */
  ghost predicate Stands(align: AlignBits, s: State, schedule: seq<Move>, i: nat, t: Tid, th: Thread)
    requires i <= |schedule|
  {
    var r := Run(align, s, schedule[..i]);
    r.Some? && t in r.value.state.threads && r.value.state.threads[t] == th
  }

  /** Move `j` is an access of `t` inside the pop of the operation it is in, and the head word of the
      stack it pops from is null then; from there on `t` has made no other access. */
  ghost predicate MetEmpty(align: AlignBits, s: State, schedule: seq<Move>, j: nat, t: Tid)
    requires j < |schedule| && Run(align, s, schedule).Some? && t in Run(align, s, schedule).value.state.threads
  {
    var th, r := Run(align, s, schedule).value.state.threads[t], Run(align, s, schedule[..j]);
    && schedule[j].thread == t && schedule[j].action.Access? && r.Some? && t in r.value.state.threads
    && MetNull(align, r.value.state, t, th)
    && forall i :: j < i <= |schedule| ==> Stands(align, s, schedule, i, t, th)
  }

  ghost predicate SomeMetEmpty(align: AlignBits, s: State, schedule: seq<Move>, t: Tid)
    requires Run(align, s, schedule).Some? && t in Run(align, s, schedule).value.state.threads
  {
    exists j :: 0 <= j < |schedule| && MetEmpty(align, s, schedule, j, t)
  }

  /** A pop finds nothing only at a null head word. */
  lemma NullWord(align: AlignBits, v: L.State, t: Tid, a: L.Action)
    requires L.Step(align, v, t, a).Some? && L.Step(align, v, t, a).value.event.FoundEmpty?
    ensures UnpackPointer(align, v.head) == 0
  {
    hide UnpackPointer, UnpackCounter, PackUnsafe, L.Without, L.Pushable;
  }

  lemma AccessMoves(s: State, t: Tid, w: Which, o: L.Outcome, u: Tid)
    requires t in s.threads && Accessed(s, t, w, o).Some? && u != t && u in Accessed(s, t, w, o).value.state.threads
    ensures u in s.threads && Accessed(s, t, w, o).value.state.threads[u] == s.threads[u]
  {
  }

  lemma NoMiss(s: State, t: Tid, w: Which, o: L.Outcome)
    requires t in s.threads && Accessed(s, t, w, o).Some? && !o.event.FoundEmpty?
    ensures var s' := Accessed(s, t, w, o).value.state;
            t in s'.threads && !s'.threads[t].AllocMissed? && !s'.threads[t].FreeMissed?
  {
  }

  lemma Miss(s: State, t: Tid, w: Which, o: L.Outcome)
    requires t in s.threads && Accessed(s, t, w, o).Some? && o.event.FoundEmpty?
    ensures var s', was := Accessed(s, t, w, o).value.state, s.threads[t];
            && t in s'.threads
            && if was.AllocPop? then s'.threads[t] == AllocMissed else was.FreePop? && s'.threads[t] == FreeMissed(was.block)
  {
  }

  lemma OtherMoves(align: AlignBits, s: State, m: Move, t: Tid)
    requires !m.action.Access? && Step(align, s, m.thread, m.action).Some?
    requires AsksKernel(Step(align, s, m.thread, m.action).value.state, t)
    ensures t in s.threads && s.threads[t] == Step(align, s, m.thread, m.action).value.state.threads[t]
  {
    hide P.Without;
  }

  /** A thread gets there by one access only. */
  lemma MissedBy(align: AlignBits, s: State, m: Move, t: Tid)
    requires Step(align, s, m.thread, m.action).Some?
    requires AsksKernel(Step(align, s, m.thread, m.action).value.state, t)
    ensures t in s.threads
    ensures var th := Step(align, s, m.thread, m.action).value.state.threads[t];
            s.threads[t] == th || (m.thread == t && m.action.Access? && MetNull(align, s, t, th))
  {
    hide UnpackPointer, L.Step, Accessed, Subs, Hands, P.Without;
    if m.action.Access? {
      var w := s.threads[m.thread].Stack();
      var o := L.Step(align, View(s, w), m.thread, m.action.a).value;
      if m.thread != t {
        AccessMoves(s, m.thread, w, o, t);
      } else if o.event.FoundEmpty? {
        Miss(s, m.thread, w, o);
        NullWord(align, View(s, w), m.thread, m.action.a);
      } else {
        NoMiss(s, m.thread, w, o);
      }
    } else {
      OtherMoves(align, s, m, t);
    }
  }

  /** Whoever is about to ask the kernel found its stack empty in the same operation. */
  lemma {:induction false} MissedWhenEmpty(align: AlignBits, s: State, schedule: seq<Move>, t: Tid)
    requires (forall u :: u in s.threads ==> s.threads[u].Idle?) && Run(align, s, schedule).Some?
    requires AsksKernel(Run(align, s, schedule).value.state, t)
    ensures SomeMetEmpty(align, s, schedule, t)
    decreases |schedule|
  {
    hide Step, UnpackPointer;
    var k := |schedule| - 1;
    var front, last := schedule[..k], schedule[k];
    var was := Run(align, s, front).value.state;
    var th := Run(align, s, schedule).value.state.threads[t];
    assert schedule[..|schedule|] == schedule;
    MissedBy(align, was, last, t);
    if was.threads[t] == th {
      MissedWhenEmpty(align, s, front, t);
      var j :| 0 <= j < |front| && MetEmpty(align, s, front, j, t);
      StillMetEmpty(align, s, schedule, j, t);
    } else {
      assert MetEmpty(align, s, schedule, k, t);
    }
  }

  lemma StillMetEmpty(align: AlignBits, s: State, schedule: seq<Move>, j: nat, t: Tid)
    requires j + 1 < |schedule| && Run(align, s, schedule).Some? && t in Run(align, s, schedule).value.state.threads
    requires var front := schedule[..|schedule| - 1];
             && Run(align, s, front).Some? && t in Run(align, s, front).value.state.threads
             && Run(align, s, front).value.state.threads[t] == Run(align, s, schedule).value.state.threads[t]
             && MetEmpty(align, s, front, j, t)
    ensures MetEmpty(align, s, schedule, j, t)
  {
    hide Run;
    var front := schedule[..|schedule| - 1];
    var th := Run(align, s, schedule).value.state.threads[t];
    assert front[..j] == schedule[..j];
    forall i | j < i <= |schedule| ensures Stands(align, s, schedule, i, t, th) {
      if i < |schedule| {
        assert Stands(align, s, front, i, t, th);
        assert front[..i] == schedule[..i];
      } else {
        assert schedule[..|schedule|] == schedule;
      }
    }
  }

  /** The kernel is asked only when it must be: in every run of the program, each block that is mapped
      and each block that is unmapped belongs to an operation whose own pop met its stack empty. */
  lemma KernelOnlyWhenEmpty(align: AlignBits, s: State, nodes: seq<Ptr>, schedule: seq<Move>, k: nat)
    requires Initial(align, s, nodes) && Run(align, s, schedule).Some? && k < |schedule|
    requires schedule[k].action.Map? || schedule[k].action.Unmap?
    ensures var r, t := Run(align, s, schedule[..k]), schedule[k].thread;
            && r.Some? && t in r.value.state.threads
            && (if schedule[k].action.Map? then r.value.state.threads[t].AllocMissed? else r.value.state.threads[t].FreeMissed?)
            && SomeMetEmpty(align, s, schedule[..k], t)
  {
    hide SomeMetEmpty, Initial, L.Step, View, Accessed, P.Without, L.InTime;
    InitialIdle(align, s, nodes);
    var t := schedule[k].thread;
    RunOfPrefix(align, s, schedule, k);
    var front := schedule[..k + 1];
    assert front[..k] == schedule[..k] && front[k] == schedule[k];
    MissedWhenEmpty(align, s, schedule[..k], t);
  }

  lemma InitialIdle(align: AlignBits, s: State, nodes: seq<Ptr>)
    requires Initial(align, s, nodes)
    ensures forall u :: u in s.threads ==> s.threads[u].Idle?
  {
    hide Built, Zeroed, Packable, L.Distinct;
  }

  lemma {:induction false} RunOfPrefix(align: AlignBits, s: State, schedule: seq<Move>, k: nat)
    requires Run(align, s, schedule).Some? && k < |schedule|
    ensures Run(align, s, schedule[..k + 1]).Some?
    decreases |schedule|
  {
    hide Step;
    if k + 1 == |schedule| {
      assert schedule[..k + 1] == schedule;
    } else {
      RunOfPrefix(align, s, schedule[..|schedule| - 1], k);
      assert schedule[..|schedule| - 1][..k + 1] == schedule[..k + 1];
    }
  }

  /** And an event of that kind is shown by such a move only. */
  lemma KernelEvents(align: AlignBits, s: State, m: Move)
    requires Step(align, s, m.thread, m.action).Some?
    ensures var o := Step(align, s, m.thread, m.action).value;
            && (o.event.Unmapped? <==> m.action.Unmap?)
            && (o.state.mapped - s.mapped != {} ==> m.action.Map?)
            && (s.mapped - o.state.mapped != {} ==> m.action.Unmap?)
  {
    hide L.Step, View, P.Without, Accessed;
    if m.action.Access? {
      KernelUntouched(s, m.thread, s.threads[m.thread].Stack(),
                      L.Step(align, View(s, s.threads[m.thread].Stack()), m.thread, m.action.a).value);
    }
  }

  lemma KernelUntouched(s: State, t: Tid, w: Which, o: L.Outcome)
    requires t in s.threads && Accessed(s, t, w, o).Some?
    ensures Accessed(s, t, w, o).value.state.mapped == s.mapped && !Accessed(s, t, w, o).value.event.Unmapped?
  {
  }
}
