/** `MmapPool` on its two lock-free stacks: two head words over one set of nodes, every step one
    shared access of one thread, and the proof that each run is a run of the pool with atomic
    stacks.

    For either stack the accesses to the other one are steps of the environment: a write of
    `next` by the holder of a node, or a node that changes hands. A thread number that no thread
    has, `REST`, holds the nodes that rest in the other stack. */
module PoolOnStacks {
  import opened Words
  import opened PointerAndCounter
  import opened Wrappers
  import L = LockFreeStack
  import P = MmapPool
  import C = CounterLimit

  type Tid = L.Tid
  type Ptr = L.Ptr
  type Block = P.Block

  const REST: Tid := 0

  /** `g_nodes_with_available_blocks_` and `g_nodes_without_blocks_`. */
  datatype Which = Available | Without
  {
    function Other(): Which { if Available? then Without else Available }
  }

  datatype Place = Resting(which: Which) | InHands(t: Tid)

  /** Where a thread stands in `Alloc` or `Free`, and in the `Pop` or `Push` it is in. */
  datatype Thread =
    | Idle
    | AllocPop(sub: L.Thread)
    | AllocMissed
    | AllocGot(node: Ptr)
    | AllocPush(node: Ptr, block: Block, sub: L.Thread)
    | FreePop(block: Block, sub: L.Thread)
    | FreeMissed(block: Block)
    | FreeGot(node: Ptr, block: Block)
    | FreePush(node: Ptr, block: Block, sub: L.Thread)
  {
    predicate Popping() { AllocPop? || FreePop? }
    predicate Pushing() { AllocPush? || FreePush? }
    predicate HasNode() { AllocGot? || AllocPush? || FreeGot? || FreePush? }

    /** The stack the thread is working on. */
    function Stack(): Which
      requires Popping() || Pushing()
    {
      if AllocPop? || FreePush? then Available else Without
    }

    /** The thread as the given stack sees it. */
    function Sub(w: Which): L.Thread {
      if (Popping() || Pushing()) && Stack() == w then sub else L.Idle
    }

    function Abstract(): P.Thread {
      match this
      case Idle => P.Idle
      case AllocPop(_) => P.AllocBegun
      case AllocMissed => P.AllocMissed
      case AllocGot(n) => P.AllocGot(n)
      case AllocPush(n, b, _) => P.AllocRead(n, b)
      case FreePop(b, _) => P.FreeBegun(b)
      case FreeMissed(b) => P.FreeMissed(b)
      case FreeGot(n, b) => P.FreeGot(n, b)
      case FreePush(n, b, _) => P.FreeSet(n, b)
    }
  }

  datatype Head = Head(word: nat, pushes: nat)

  /** `place` and the push counts are records the program does not keep. */
  datatype State = State(available: Head, without: Head, next: map<Ptr, u64>, cached: map<Ptr, Block>,
                         threads: map<Tid, Thread>, place: map<Ptr, Place>, mapped: set<Block>, held: map<Block, Tid>)

  datatype Action =
    | BeginAlloc
    | BeginFree(block: Block)
    | Access(a: L.Action)         // one access of the running Pop or Push
    | ReadBlock                   // block = node->block
    | WriteBlock                  // node->block = block
    | Map(block: Block)
    | Unmap
    | Give(block: Block, to: Tid)

  datatype Outcome = Outcome(state: State, event: P.Event)

  // ---- One stack's view ----

  function HeadOf(s: State, w: Which): Head { if w == Available then s.available else s.without }

  function Owner(p: Place): Tid { if p.InHands? then p.t else REST }

  function Hands(place: map<Ptr, Place>, w: Which): map<Ptr, Tid> {
    map n | n in place && place[n] != Resting(w) :: Owner(place[n])
  }

  function Subs(threads: map<Tid, Thread>, w: Which): map<Tid, L.Thread> {
    (map t | t in threads :: threads[t].Sub(w))[REST := L.Idle]
  }

  function View(s: State, w: Which): L.State {
    L.State(HeadOf(s, w).word, s.next, Subs(s.threads, w), Hands(s.place, w), HeadOf(s, w).pushes)
  }

  // ---- Steps ----

  function Goto(s: State, t: Tid, th: Thread): State {
    s.(threads := s.threads[t := th])
  }

  function WithHead(s: State, w: Which, o: L.State): State {
    var h := Head(o.head, o.pushes);
    if w == Available then s.(available := h, next := o.next) else s.(without := h, next := o.next)
  }

  /** What thread `t` does after its access to stack `w` had outcome `o`. */
  function Accessed(s: State, t: Tid, w: Which, o: L.Outcome): Option<Outcome>
    requires t in s.threads
  {
    var th, s1 := s.threads[t], WithHead(s, w, o.state);
    match o.event
    case Silent =>
      if (th.Popping() || th.Pushing()) && t in o.state.threads then
        Some(Outcome(Goto(s1, t, th.(sub := o.state.threads[t])), P.Silent))
      else None
    case FoundEmpty =>
      if th.AllocPop? then Some(Outcome(Goto(s1, t, AllocMissed), P.Silent))
      else if th.FreePop? then Some(Outcome(Goto(s1, t, FreeMissed(th.block)), P.Silent))
      else None
    case Popped(n) =>
      var s2 := s1.(place := s.place[n := InHands(t)]);
      if th.AllocPop? then Some(Outcome(Goto(s2, t, AllocGot(n)), P.Silent))
      else if th.FreePop? then Some(Outcome(Goto(s2, t, FreeGot(n, th.block)), P.Silent))
      else None
    case Pushed(_) =>
      if th.AllocPush? then
        var s2 := s1.(place := s.place[th.node := Resting(w)], held := s.held[th.block := t]);
        Some(Outcome(Goto(s2, t, Idle), P.Allocated(th.block)))
      else if th.FreePush? then
        Some(Outcome(Goto(s1.(place := s.place[th.node := Resting(w)]), t, Idle), P.Silent))
      else None
  }

  /** The accesses of `Pop` and `Push` after their beginning. */
  predicate IsAccess(a: L.Action) { a.Load? || a.Link? || a.ReadNext? || a.Swap? || a.Fail? }

  function Step(align: AlignBits, s: State, t: Tid, a: Action): Option<Outcome> {
    if t !in s.threads then None
    else
      var th := s.threads[t];
      match a
      case BeginAlloc => if th.Idle? then Some(Outcome(Goto(s, t, AllocPop(L.PopBegun)), P.Silent)) else None
      case BeginFree(b) =>
        if th.Idle? && b in s.held && s.held[b] == t then
          Some(Outcome(Goto(s.(held := P.Without(s.held, b)), t, FreePop(b, L.PopBegun)), P.Released(b)))
        else None
      case Access(x) =>
        if IsAccess(x) && (th.Popping() || th.Pushing()) then
          match L.Step(align, View(s, th.Stack()), t, x)
          case None => None
          case Some(o) => Accessed(s, t, th.Stack(), o)
        else None
      case ReadBlock =>
        if th.AllocGot? && th.node in s.cached then
          Some(Outcome(Goto(s, t, AllocPush(th.node, s.cached[th.node], L.PushBegun([th.node]))), P.Silent))
        else None
      case WriteBlock =>
        if th.FreeGot? then
          Some(Outcome(Goto(s.(cached := s.cached[th.node := th.block]), t,
                            FreePush(th.node, th.block, L.PushBegun([th.node]))), P.Silent))
        else None
      case Map(b) =>
        if th.AllocMissed? && b !in s.mapped then
          Some(Outcome(Goto(s.(mapped := s.mapped + {b}, held := s.held[b := t]), t, Idle), P.Allocated(b)))
        else None
      case Unmap =>
        if th.FreeMissed? then
          Some(Outcome(Goto(s.(mapped := s.mapped - {th.block}), t, Idle), P.Unmapped(th.block)))
        else None
      case Give(b, to) =>
        if b in s.held && s.held[b] == t then Some(Outcome(s.(held := s.held[b := to]), P.Silent)) else None
  }

  /** No pop of either stack succeeds after a whole turn of that stack's counter. */
  predicate InTime(align: AlignBits, s: State, t: Tid, a: Action) {
    a.Access? && t in s.threads && (s.threads[t].Popping() || s.threads[t].Pushing()) ==>
      L.InTime(align, View(s, s.threads[t].Stack()), t, a.a)
  }

  // ---- The invariant ----

  /** A thread is inside the operation its place in the pool says. */
  ghost predicate ThreadOk(s: State, t: Tid)
    requires t in s.threads
  {
    var th := s.threads[t];
    && (th.Popping() ==> th.sub.PopBegun? || th.sub.PopLoaded? || th.sub.PopRead?)
    && (th.Pushing() ==> (th.sub.PushBegun? || th.sub.PushLoaded? || th.sub.PushLinked?) && th.sub.chain == [th.node])
    && (th.HasNode() ==> th.node in s.place && s.place[th.node] == InHands(t))
  }

  ghost predicate Shape(s: State) {
    && REST !in s.threads
    && s.place.Keys == s.next.Keys && s.cached.Keys == s.next.Keys
    && forall t :: t in s.threads ==> ThreadOk(s, t)
  }

  ghost predicate Inv(align: AlignBits, s: State, sa: seq<Ptr>, sw: seq<Ptr>) {
    Shape(s) && L.Inv(align, View(s, Available), sa) && L.Inv(align, View(s, Without), sw)
  }

  function AbstractThreads(threads: map<Tid, Thread>): map<Tid, P.Thread> {
    map t | t in threads :: threads[t].Abstract()
  }

  /** The pool with atomic stacks that this state stands for. */
  function Abstract(s: State, sa: seq<Ptr>, sw: seq<Ptr>): P.State {
    P.State(sa, sw, s.cached, AbstractThreads(s.threads), s.mapped, s.held)
  }

  // ---- Views after a step ----

  lemma SubsGoto(threads: map<Tid, Thread>, t: Tid, th: Thread, w: Which)
    requires t in threads && t != REST
    ensures Subs(threads[t := th], w) == Subs(threads, w)[t := th.Sub(w)]
    ensures th.Sub(w) == threads[t].Sub(w) ==> Subs(threads[t := th], w) == Subs(threads, w)
  {
    var a, b := Subs(threads[t := th], w), Subs(threads, w)[t := th.Sub(w)];
    assert a.Keys == b.Keys;
    forall u | u in a ensures a[u] == b[u] {
    }
    assert a == b;
    if th.Sub(w) == threads[t].Sub(w) {
      assert b == Subs(threads, w);
    }
  }

  lemma HandsTaken(place: map<Ptr, Place>, w: Which, n: Ptr, t: Tid)
    requires n in place
    ensures Hands(place[n := InHands(t)], w) == Hands(place, w)[n := t]
  {
  }

  lemma HandsRested(place: map<Ptr, Place>, w: Which, n: Ptr)
    requires n in place
    ensures Hands(place[n := Resting(w)], w) == L.Without(Hands(place, w), [n])
    ensures Hands(place[n := Resting(w)], w.Other()) == Hands(place, w.Other())[n := REST]
  {
  }

  lemma AbstractGoto(threads: map<Tid, Thread>, t: Tid, th: Thread)
    requires t in threads
    ensures AbstractThreads(threads[t := th]) == AbstractThreads(threads)[t := th.Abstract()]
    ensures th.Abstract() == threads[t].Abstract() ==> AbstractThreads(threads[t := th]) == AbstractThreads(threads)
  {
    var a := AbstractThreads(threads[t := th]);
    assert a == AbstractThreads(threads)[t := th.Abstract()];
    if th.Abstract() == threads[t].Abstract() {
      assert AbstractThreads(threads)[t := th.Abstract()] == AbstractThreads(threads);
    }
  }

  // ---- Steps that touch no stack ----

  /** `s'` differs from `s`, as far as the stacks are concerned, in one thread's place only. */
  ghost predicate OnlyThread(s: State, s': State, t: Tid, th: Thread) {
    && t in s.threads && t != REST && s'.threads == s.threads[t := th]
    && s'.available == s.available && s'.without == s.without && s'.next == s.next && s'.place == s.place
  }

  lemma ThreadMoves(align: AlignBits, s: State, s': State, t: Tid, th: Thread, w: Which, stack: seq<Ptr>)
    requires L.Inv(align, View(s, w), stack) && OnlyThread(s, s', t, th)
    requires L.ThreadOk(align, View(s, w), stack, t, th.Sub(w))
    ensures L.Inv(align, View(s', w), stack)
  {
    hide L.Inv, L.ThreadOk, Subs, Hands;
    SubsGoto(s.threads, t, th, w);
    InViews(s.threads, w, t);
    L.LocalStep(align, View(s, w), stack, t, th.Sub(w));
  }

  lemma InViews(threads: map<Tid, Thread>, w: Which, t: Tid)
    requires t in threads && t != REST
    ensures t in Subs(threads, w) && Subs(threads, w)[t] == threads[t].Sub(w)
    ensures REST in Subs(threads, w) && Subs(threads, w)[REST] == L.Idle
  {
  }

  /** A node in a thread's hands can be pushed by it. */
  lemma CanPush(s: State, t: Tid, n: Ptr, w: Which)
    requires n in s.place && s.place[n] == InHands(t) && n in s.next
    ensures L.Pushable(View(s, w), t, [n])
  {
  }

  lemma BothStay(align: AlignBits, s: State, s': State, t: Tid, th: Thread, sa: seq<Ptr>, sw: seq<Ptr>)
    requires Inv(align, s, sa, sw) && OnlyThread(s, s', t, th)
    requires forall w: Which :: th.Sub(w).Idle? || th.Sub(w).PopBegun?
                                || (th.Sub(w).PushBegun? && L.Pushable(View(s, w), t, th.Sub(w).chain))
    requires s'.cached.Keys == s.cached.Keys && ThreadOk(s', t)
    ensures Inv(align, s', sa, sw)
  {
    hide L.Inv, View, L.Pushable;
    ThreadMoves(align, s, s', t, th, Available, sa);
    ThreadMoves(align, s, s', t, th, Without, sw);
    forall u | u in s'.threads ensures ThreadOk(s', u) {
      assert u != t ==> ThreadOk(s, u);
    }
  }

  /** Everything but the accesses to the stacks. */
  lemma OutsideKeeps(align: AlignBits, s: State, sa: seq<Ptr>, sw: seq<Ptr>, t: Tid, a: Action)
    requires Inv(align, s, sa, sw) && !a.Access? && Step(align, s, t, a).Some?
    ensures Inv(align, Step(align, s, t, a).value.state, sa, sw)
  {
    hide L.Inv, L.Pushable, View;
    var s' := Step(align, s, t, a).value.state;
    assert ThreadOk(s, t);
    if a.Give? {
      SameViews(align, s, s', sa, sw);
    } else {
      if s.threads[t].HasNode() {
        CanPush(s, t, s.threads[t].node, Available);
        CanPush(s, t, s.threads[t].node, Without);
      }
      BothStay(align, s, s', t, s'.threads[t], sa, sw);
    }
  }

  lemma SameViews(align: AlignBits, s: State, s': State, sa: seq<Ptr>, sw: seq<Ptr>)
    requires Inv(align, s, sa, sw) && s'.threads == s.threads && s'.available == s.available && s'.without == s.without
    requires s'.next == s.next && s'.place == s.place && s'.cached == s.cached
    ensures Inv(align, s', sa, sw)
  {
    hide L.Inv, Subs, Hands;
    assert View(s', Available) == View(s, Available) && View(s', Without) == View(s, Without);
    forall u | u in s'.threads ensures ThreadOk(s', u) {
      assert ThreadOk(s, u);
    }
  }

  // ---- One access of a stack ----

  /** What an access can change of the stack's own view. */
  ghost predicate AccessShape(align: AlignBits, v: L.State, t: Tid, o: L.Outcome) {
    && t in v.threads && t in o.state.threads && o.state.threads == v.threads[t := o.state.threads[t]]
    && (o.event.Silent? ==>
          && o.state.head == v.head && o.state.pushes == v.pushes && o.state.hands == v.hands
          && (o.state.next == v.next
              || (v.threads[t].PushLoaded? && v.threads[t].chain != []
                  && o.state.next == v.next[v.threads[t].chain[|v.threads[t].chain| - 1]
                                            := UnpackPointer(align, v.threads[t].cmp)]))
          && (if v.threads[t].Chain() != []
              then (o.state.threads[t].PushLoaded? || o.state.threads[t].PushLinked?)
                   && o.state.threads[t].chain == v.threads[t].Chain()
              else o.state.threads[t].PopLoaded? || o.state.threads[t].PopRead?))
    && (!o.event.Silent? ==> o.state.threads[t] == L.Idle && o.state.next == v.next)
    && (o.event.FoundEmpty? ==> o.state.head == v.head && o.state.pushes == v.pushes && o.state.hands == v.hands)
    && (o.event.Popped? ==> o.state.pushes == v.pushes && o.state.hands == v.hands[o.event.node := t])
    && (o.event.Pushed? ==> o.event.chain == v.threads[t].Chain() && o.state.hands == L.Without(v.hands, o.event.chain))
    && (o.event.Pushed? <==> !o.event.Silent? && v.threads[t].Chain() != [])
  }

  lemma AccessHasShape(align: AlignBits, v: L.State, t: Tid, a: L.Action)
    requires IsAccess(a) && L.Step(align, v, t, a).Some?
    requires v.threads[t].PushBegun? || v.threads[t].PushLoaded? || v.threads[t].PushLinked? ==> v.threads[t].chain != []
    ensures AccessShape(align, v, t, L.Step(align, v, t, a).value)
  {
    hide UnpackPointer, UnpackCounter, PackUnsafe, L.Without, L.Pushable;
  }

  /** The stack that is accessed sees its own step. */
  lemma OwnView(align: AlignBits, s: State, t: Tid, o: L.Outcome)
    requires Shape(s) && t in s.threads && (s.threads[t].Popping() || s.threads[t].Pushing())
    requires AccessShape(align, View(s, s.threads[t].Stack()), t, o)
    requires o.event.Popped? ==> o.event.node in s.place
    ensures var r := Accessed(s, t, s.threads[t].Stack(), o);
            r.Some? && View(r.value.state, s.threads[t].Stack()) == o.state
  {
    hide Subs, Hands, L.Without, UnpackPointer;
    var th, w := s.threads[t], s.threads[t].Stack();
    assert ThreadOk(s, t);
    InViews(s.threads, w, t);
    var r := Accessed(s, t, w, o);
    SubsGoto(s.threads, t, r.value.state.threads[t], w);
    match o.event {
      case Popped(n) => HandsTaken(s.place, w, n, t);
      case Pushed(_) => HandsRested(s.place, w, th.node);
      case _ =>
    }
  }

  /** Its step is, for the other stack, a write by the holder of a node, a node that changes hands,
      or nothing. */
  lemma OtherKeeps(align: AlignBits, s: State, t: Tid, o: L.Outcome, stack: seq<Ptr>)
    requires Shape(s) && t in s.threads && (s.threads[t].Popping() || s.threads[t].Pushing())
    requires AccessShape(align, View(s, s.threads[t].Stack()), t, o)
    requires o.event.Popped? ==> o.event.node in s.place && s.place[o.event.node] == Resting(s.threads[t].Stack())
    requires L.Inv(align, View(s, s.threads[t].Stack().Other()), stack)
    ensures var r := Accessed(s, t, s.threads[t].Stack(), o);
            r.Some? && L.Inv(align, View(r.value.state, s.threads[t].Stack().Other()), stack)
  {
    hide Subs, Hands, L.Without, UnpackPointer, L.Inv;
    var th, w := s.threads[t], s.threads[t].Stack();
    var x := w.Other();
    assert ThreadOk(s, t);
    InViews(s.threads, w, t);
    InViews(s.threads, x, t);
    var s' := Accessed(s, t, w, o).value.state;
    SubsGoto(s.threads, t, s'.threads[t], x);
    match o.event {
      case Silent =>
        if o.state.next != s.next {
          HandsOf(s.place, x, th.node, t);
          L.ScribbleKeeps(align, View(s, x), stack, t, th.node, UnpackPointer(align, th.sub.cmp));
          assert View(s', x) == View(s, x).(next := o.state.next);
        } else {
          assert View(s', x) == View(s, x);
        }
      case FoundEmpty => assert View(s', x) == View(s, x);
      case Popped(n) =>
        RestingHands(s.place, x, n);
        HandsTaken(s.place, x, n, t);
        L.GiveKeeps(align, View(s, x), stack, REST, n, t);
        assert View(s', x) == View(s, x).(hands := View(s, x).hands[n := t]);
      case Pushed(_) =>
        HandsOf(s.place, x, th.node, t);
        HandsRested(s.place, w, th.node);
        L.GiveKeeps(align, View(s, x), stack, t, th.node, REST);
        assert View(s', x) == View(s, x).(hands := View(s, x).hands[th.node := REST]);
    }
  }

  lemma HandsOf(place: map<Ptr, Place>, w: Which, n: Ptr, t: Tid)
    requires n in place && place[n] == InHands(t)
    ensures n in Hands(place, w) && Hands(place, w)[n] == t
  {
  }

  lemma RestingHands(place: map<Ptr, Place>, x: Which, n: Ptr)
    requires n in place && place[n] == Resting(x.Other())
    ensures n in Hands(place, x) && Hands(place, x)[n] == REST
  {
  }

  /** What a stack holds rests in it. */
  lemma InStackRests(align: AlignBits, s: State, w: Which, stack: seq<Ptr>, n: Ptr)
    requires L.Inv(align, View(s, w), stack) && n in stack && s.place.Keys == s.next.Keys
    ensures n in s.place && s.place[n] == Resting(w)
  {
    hide UnpackPointer, UnpackCounter, MaxCounter, L.Distinct, L.ThreadOk, Packable, Subs, Hands;
    L.ListedNodes(s.next, UnpackPointer(align, HeadOf(s, w).word), stack);
    NotInHands(s.place, w, n);
  }

  lemma NotInHands(place: map<Ptr, Place>, w: Which, n: Ptr)
    requires n in place && n !in Hands(place, w)
    ensures place[n] == Resting(w)
  {
  }

  lemma ShapeKept(align: AlignBits, s: State, t: Tid, o: L.Outcome)
    requires Shape(s) && t in s.threads && (s.threads[t].Popping() || s.threads[t].Pushing())
    requires AccessShape(align, View(s, s.threads[t].Stack()), t, o)
    requires o.event.Popped? ==> o.event.node in s.place && s.place[o.event.node] == Resting(s.threads[t].Stack())
    ensures var r := Accessed(s, t, s.threads[t].Stack(), o); r.Some? && Shape(r.value.state)
  {
    hide Subs, Hands, L.Without, UnpackPointer, ThreadOk, AccessShape, Accessed;
    var r := Accessed(s, t, s.threads[t].Stack(), o);
    NodesSame(align, s, t, o);
    OwnThreadOk(align, s, t, o);
    forall u | u in r.value.state.threads ensures ThreadOk(r.value.state, u) {
      if u != t {
        OtherThreadOk(align, s, t, o, u);
      }
    }
  }

  lemma NodesSame(align: AlignBits, s: State, t: Tid, o: L.Outcome)
    requires Shape(s) && t in s.threads && (s.threads[t].Popping() || s.threads[t].Pushing())
    requires AccessShape(align, View(s, s.threads[t].Stack()), t, o)
    requires o.event.Popped? ==> o.event.node in s.place
    ensures var r := Accessed(s, t, s.threads[t].Stack(), o);
            && r.Some? && r.value.state.place.Keys == s.place.Keys && r.value.state.next.Keys == s.next.Keys
            && r.value.state.cached == s.cached && r.value.state.threads.Keys == s.threads.Keys
  {
    hide Subs, Hands, L.Without, UnpackPointer;
    assert ThreadOk(s, t);
    InViews(s.threads, s.threads[t].Stack(), t);
  }

  lemma OwnThreadOk(align: AlignBits, s: State, t: Tid, o: L.Outcome)
    requires Shape(s) && t in s.threads && (s.threads[t].Popping() || s.threads[t].Pushing())
    requires AccessShape(align, View(s, s.threads[t].Stack()), t, o) && Accessed(s, t, s.threads[t].Stack(), o).Some?
    ensures var s' := Accessed(s, t, s.threads[t].Stack(), o).value.state; t in s'.threads && ThreadOk(s', t)
  {
    hide Subs, Hands, L.Without, UnpackPointer;
    assert ThreadOk(s, t);
    InViews(s.threads, s.threads[t].Stack(), t);
  }

  lemma OtherThreadOk(align: AlignBits, s: State, t: Tid, o: L.Outcome, u: Tid)
    requires Shape(s) && t in s.threads && (s.threads[t].Popping() || s.threads[t].Pushing())
    requires Accessed(s, t, s.threads[t].Stack(), o).Some? && u in s.threads && u != t
    requires o.event.Popped? ==> o.event.node in s.place && s.place[o.event.node] == Resting(s.threads[t].Stack())
    ensures var s' := Accessed(s, t, s.threads[t].Stack(), o).value.state; u in s'.threads && ThreadOk(s', u)
  {
    hide Subs, Hands, L.Without, UnpackPointer;
    assert ThreadOk(s, t) && ThreadOk(s, u);
  }

  /** The stacks after a step. */
  function StackAfter(stack: seq<Ptr>, e: L.Event): seq<Ptr> {
    match L.Atomic(stack, e) case Some(x) => x case None => stack
  }

  /** Every access keeps both stacks' invariants. */
  lemma AccessKeeps(align: AlignBits, s: State, sa: seq<Ptr>, sw: seq<Ptr>, t: Tid, a: L.Action) returns (o: L.Outcome)
    requires Inv(align, s, sa, sw) && Step(align, s, t, Access(a)).Some? && InTime(align, s, t, Access(a))
    ensures L.Step(align, View(s, s.threads[t].Stack()), t, a) == Some(o)
    ensures var th, own := s.threads[t], if s.threads[t].Stack() == Available then sa else sw;
            && L.Atomic(own, o.event).Some?
            && Accessed(s, t, th.Stack(), o).Some?
            && AccessShape(align, View(s, th.Stack()), t, o)
            && Inv(align, Accessed(s, t, th.Stack(), o).value.state, if th.Stack() == Available then StackAfter(sa, o.event) else sa,
                   if th.Stack() == Without then StackAfter(sw, o.event) else sw)
  {
    hide L.Inv, L.Step, L.InTime, View, Accessed, AccessShape, Shape, ThreadOk, L.Atomic;
    var th, w := s.threads[t], s.threads[t].Stack();
    var own := if w == Available then sa else sw;
    o := L.Step(align, View(s, w), t, a).value;
    L.StepKeeps(align, View(s, w), own, t, a);
    SubHasChain(s, t);
    AccessHasShape(align, View(s, w), t, a);
    if o.event.Popped? {
      PoppedWasTop(own, o.event.node);
      PlacesAreNodes(s);
      InStackRests(align, s, w, own, o.event.node);
    }
    OwnView(align, s, t, o);
    OtherKeeps(align, s, t, o, if w == Available then sw else sa);
    ShapeKept(align, s, t, o);
  }

  lemma PlacesAreNodes(s: State)
    requires Shape(s)
    ensures s.place.Keys == s.next.Keys
  {
    hide ThreadOk;
  }

  lemma PoppedWasTop(stack: seq<Ptr>, n: Ptr)
    requires L.Atomic(stack, L.Popped(n)).Some?
    ensures n in stack
  {
  }

  lemma SubHasChain(s: State, t: Tid)
    requires Shape(s) && t in s.threads && (s.threads[t].Popping() || s.threads[t].Pushing())
    ensures var sub := View(s, s.threads[t].Stack()).threads;
            t in sub && sub[t] == s.threads[t].sub
            && (sub[t].PushBegun? || sub[t].PushLoaded? || sub[t].PushLinked? ==> sub[t].chain != [])
  {
    hide Subs, Hands;
    assert ThreadOk(s, t);
    InViews(s.threads, s.threads[t].Stack(), t);
  }

  // ---- Simulation ----

  /** The step of the pool with atomic stacks, if there is one. */
  function AbstractAction(s: State, t: Tid, a: Action): P.Action {
    match a
    case BeginAlloc => P.BeginAlloc
    case BeginFree(b) => P.BeginFree(b)
    case Map(b) => P.Map(b)
    case Give(b, to) => P.Give(b, to)
    case _ => P.Advance
  }

  /** Outside the stacks, step for step. */
  lemma OutsideSimulates(align: AlignBits, s: State, sa: seq<Ptr>, sw: seq<Ptr>, t: Tid, a: Action)
    requires Shape(s) && !a.Access? && Step(align, s, t, a).Some?
    ensures var o := Step(align, s, t, a).value;
            P.Step(Abstract(s, sa, sw), t, AbstractAction(s, t, a))
            == Some(P.Outcome(Abstract(o.state, sa, sw), o.event))
  {
    hide AbstractThreads, P.Without;
    var s' := Step(align, s, t, a).value.state;
    assert ThreadOk(s, t);
    InAbstract(s.threads, t);
    AbstractGoto(s.threads, t, s'.threads[t]);
  }

  lemma InAbstract(threads: map<Tid, Thread>, t: Tid)
    requires t in threads
    ensures t in AbstractThreads(threads) && AbstractThreads(threads)[t] == threads[t].Abstract()
  {
  }

  /** An access of a stack is a step of the pool exactly when it completes a pop or a push. */
  lemma AccessSimulates(align: AlignBits, s: State, sa: seq<Ptr>, sw: seq<Ptr>, t: Tid, o: L.Outcome)
    requires Shape(s) && t in s.threads && (s.threads[t].Popping() || s.threads[t].Pushing())
    requires AccessShape(align, View(s, s.threads[t].Stack()), t, o) && Accessed(s, t, s.threads[t].Stack(), o).Some?
    requires L.Atomic(if s.threads[t].Stack() == Available then sa else sw, o.event).Some?
    ensures var r, w := Accessed(s, t, s.threads[t].Stack(), o).value, s.threads[t].Stack();
            var sa', sw' := if w == Available then StackAfter(sa, o.event) else sa, if w == Without then StackAfter(sw, o.event) else sw;
            if o.event.Silent? then r.event.Silent? && Abstract(r.state, sa', sw') == Abstract(s, sa, sw)
            else P.Step(Abstract(s, sa, sw), t, P.Advance) == Some(P.Outcome(Abstract(r.state, sa', sw'), r.event))
  {
    hide AccessShape, Abstract, P.Step, Accessed, Shape, View, StackAfter, L.Atomic;
    match o.event {
      case Silent => SilentSimulates(s, sa, sw, t, o);
      case FoundEmpty => EmptySimulates(s, sa, sw, t, o);
      case Popped(n) => PoppedSimulates(s, sa, sw, t, o, n);
      case Pushed(chain) =>
        PushedIsNode(align, s, t, o);
        PushedSimulates(s, sa, sw, t, o);
    }
  }

  lemma PushedIsNode(align: AlignBits, s: State, t: Tid, o: L.Outcome)
    requires Shape(s) && t in s.threads && (s.threads[t].Popping() || s.threads[t].Pushing()) && o.event.Pushed?
    requires AccessShape(align, View(s, s.threads[t].Stack()), t, o)
    ensures s.threads[t].Pushing() && o.event.chain == [s.threads[t].node]
  {
    hide Subs, Hands, L.Without, UnpackPointer;
    assert ThreadOk(s, t);
    InViews(s.threads, s.threads[t].Stack(), t);
  }

  lemma SilentSimulates(s: State, sa: seq<Ptr>, sw: seq<Ptr>, t: Tid, o: L.Outcome)
    requires t in s.threads && (s.threads[t].Popping() || s.threads[t].Pushing()) && o.event.Silent?
    requires Accessed(s, t, s.threads[t].Stack(), o).Some?
    ensures StackAfter(sa, o.event) == sa && StackAfter(sw, o.event) == sw
    ensures var r := Accessed(s, t, s.threads[t].Stack(), o).value;
            r.event.Silent? && Abstract(r.state, sa, sw) == Abstract(s, sa, sw)
  {
    hide AbstractThreads;
    var r := Accessed(s, t, s.threads[t].Stack(), o).value;
    AbstractGoto(s.threads, t, r.state.threads[t]);
  }

  lemma EmptySimulates(s: State, sa: seq<Ptr>, sw: seq<Ptr>, t: Tid, o: L.Outcome)
    requires t in s.threads && (s.threads[t].Popping() || s.threads[t].Pushing()) && o.event.FoundEmpty?
    requires Accessed(s, t, s.threads[t].Stack(), o).Some?
    requires L.Atomic(if s.threads[t].Stack() == Available then sa else sw, o.event).Some?
    ensures var r := Accessed(s, t, s.threads[t].Stack(), o).value;
            && P.Step(Abstract(s, sa, sw), t, P.Advance) == Some(P.Outcome(Abstract(r.state, sa, sw), r.event))
            && (s.threads[t].Stack() == Available ==> StackAfter(sa, o.event) == sa)
            && (s.threads[t].Stack() == Without ==> StackAfter(sw, o.event) == sw)
  {
    hide AbstractThreads;
    var r := Accessed(s, t, s.threads[t].Stack(), o).value;
    InAbstract(s.threads, t);
    AbstractGoto(s.threads, t, r.state.threads[t]);
  }

  lemma PoppedSimulates(s: State, sa: seq<Ptr>, sw: seq<Ptr>, t: Tid, o: L.Outcome, n: Ptr)
    requires t in s.threads && (s.threads[t].Popping() || s.threads[t].Pushing()) && o.event == L.Popped(n)
    requires Accessed(s, t, s.threads[t].Stack(), o).Some?
    requires L.Atomic(if s.threads[t].Stack() == Available then sa else sw, o.event).Some?
    ensures var r, w := Accessed(s, t, s.threads[t].Stack(), o).value, s.threads[t].Stack();
            var sa', sw' := if w == Available then StackAfter(sa, o.event) else sa, if w == Without then StackAfter(sw, o.event) else sw;
            P.Step(Abstract(s, sa, sw), t, P.Advance) == Some(P.Outcome(Abstract(r.state, sa', sw'), r.event))
  {
    hide AbstractThreads;
    var r := Accessed(s, t, s.threads[t].Stack(), o).value;
    InAbstract(s.threads, t);
    AbstractGoto(s.threads, t, r.state.threads[t]);
  }

  lemma PushedSimulates(s: State, sa: seq<Ptr>, sw: seq<Ptr>, t: Tid, o: L.Outcome)
    requires t in s.threads && s.threads[t].Pushing() && o.event == L.Pushed([s.threads[t].node])
    requires Accessed(s, t, s.threads[t].Stack(), o).Some?
    ensures var r, w := Accessed(s, t, s.threads[t].Stack(), o).value, s.threads[t].Stack();
            var sa', sw' := if w == Available then StackAfter(sa, o.event) else sa, if w == Without then StackAfter(sw, o.event) else sw;
            P.Step(Abstract(s, sa, sw), t, P.Advance) == Some(P.Outcome(Abstract(r.state, sa', sw'), r.event))
  {
    hide AbstractThreads;
    var r := Accessed(s, t, s.threads[t].Stack(), o).value;
    InAbstract(s.threads, t);
    AbstractGoto(s.threads, t, r.state.threads[t]);
  }

  // ---- The static state ----

  function Reverse(nodes: seq<Ptr>): seq<Ptr> {
    if nodes == [] then [] else [nodes[|nodes| - 1]] + Reverse(nodes[..|nodes| - 1])
  }

  /** `g_nodes_`, zeroed, all in the hands of the one who starts the program. */
  function Zeroed(nodes: seq<Ptr>): L.State {
    L.State(0, map n | n in nodes :: 0, map[REST := L.Idle], map n | n in nodes :: REST, 0)
  }

  /** The constructor of `FreeNodes`: one undisturbed push after the other. */
  function Built(align: AlignBits, v: L.State, nodes: seq<Ptr>): L.State {
    if nodes == [] then v else C.AfterPush(align, Built(align, v, nodes[..|nodes| - 1]), nodes[|nodes| - 1])
  }

  predicate Initial(align: AlignBits, s: State, nodes: seq<Ptr>) {
    var b := Built(align, Zeroed(nodes), nodes);
    && L.Distinct(nodes) && (forall n :: n in nodes ==> Packable(align, n) && n != L.NULL)
    && s.available == Head(0, 0) && s.without == Head(b.head, b.pushes) && s.next == b.next
    && s.cached.Keys == (set n | n in nodes) && s.place == (map n | n in nodes :: Resting(Without))
    && REST !in s.threads && (forall t :: t in s.threads ==> s.threads[t] == Idle)
    && s.mapped == {} && s.held == map[]
  }

  /** The accesses of those pushes, one after the other. */
  function ConstructorMoves(nodes: seq<Ptr>): seq<L.Move> {
    if nodes == [] then []
    else ConstructorMoves(nodes[..|nodes| - 1]) + C.PushMoves(REST, nodes[|nodes| - 1])
  }

  lemma AfterPushOk(align: AlignBits, v: L.State, stack: seq<Ptr>, n: Ptr)
    requires L.MemoryOk(align, v, stack) && n in v.hands && v.hands[n] == REST && n in v.next
    ensures L.MemoryOk(align, C.AfterPush(align, v, n), [n] + stack)
  {
    hide UnpackPointer, UnpackCounter, MaxCounter, PackUnsafe, Packable, L.MemoryOk, L.Without;
    var u := UnpackPointer(align, v.head);
    var linked := v.(next := v.next[n := u]);
    L.HeldWritten(align, v, stack, n, u, linked);
    L.PushMemory(align, linked, stack, REST, [n], C.AfterPush(align, v, n));
  }

  ghost predicate PartlyBuilt(align: AlignBits, all: seq<Ptr>, k: nat, v: L.State)
    requires k <= |all|
  {
    && L.MemoryOk(align, v, Reverse(all[..k]))
    && v.threads == map[REST := L.Idle] && v.next.Keys == (set n | n in all)
    && (forall i :: k <= i < |all| ==> all[i] in v.hands && v.hands[all[i]] == REST)
    && (forall n :: n in v.hands ==> exists i :: k <= i < |all| && all[i] == n)
  }

  lemma ZeroedOk(align: AlignBits, all: seq<Ptr>)
    requires forall n :: n in all ==> Packable(align, n) && n != L.NULL
    ensures PartlyBuilt(align, all, 0, Zeroed(all))
  {
    hide Power, Packable;
    C.ZeroWord(align);
    Div(0, MaxCounter(align), 0, 0);
  }

  lemma {:induction false} BuiltOk(align: AlignBits, all: seq<Ptr>, k: nat)
    requires k <= |all| && L.Distinct(all) && forall n :: n in all ==> Packable(align, n) && n != L.NULL
    ensures PartlyBuilt(align, all, k, Built(align, Zeroed(all), all[..k]))
    ensures var r := L.Run(align, Zeroed(all), ConstructorMoves(all[..k]));
            r.Some? && r.value.state == Built(align, Zeroed(all), all[..k])
    decreases k
  {
    hide L.MemoryOk, Packable, L.Run, C.AfterPush, Zeroed, C.PushMoves;
    if k == 0 {
      ZeroedOk(align, all);
      RunOfNothing(align, Zeroed(all));
      assert all[..0] == [];
    } else {
      BuiltOk(align, all, k - 1);
      var v, n := Built(align, Zeroed(all), all[..k - 1]), all[k - 1];
      assert all[..k][..k - 1] == all[..k - 1];
      BuiltMore(align, all, k - 1, v);
      C.PushRuns(align, v, REST, n);
      C.RunConcat(align, Zeroed(all), ConstructorMoves(all[..k - 1]), C.PushMoves(REST, n));
    }
  }

  lemma RunOfNothing(align: AlignBits, v: L.State)
    ensures L.Run(align, v, []) == Some(L.Trace(v, []))
  {
  }

  lemma BuiltMore(align: AlignBits, all: seq<Ptr>, k: nat, v: L.State)
    requires k < |all| && L.Distinct(all) && PartlyBuilt(align, all, k, v)
    ensures PartlyBuilt(align, all, k + 1, C.AfterPush(align, v, all[k]))
  {
    hide L.MemoryOk, Packable, PackUnsafe, UnpackPointer, UnpackCounter;
    var w := C.AfterPush(align, v, all[k]);
    AfterPushOk(align, v, Reverse(all[..k]), all[k]);
    assert all[..k + 1][..k] == all[..k];
    forall n | n in w.hands ensures exists i :: k + 1 <= i < |all| && all[i] == n {
      var i :| k <= i < |all| && all[i] == n;
      assert n !in [all[k]];
    }
  }

  lemma {:induction false} ReverseHas(nodes: seq<Ptr>)
    ensures forall n :: n in Reverse(nodes) <==> n in nodes
    decreases |nodes|
  {
    if nodes != [] {
      ReverseHas(nodes[..|nodes| - 1]);
      assert nodes == nodes[..|nodes| - 1] + [nodes[|nodes| - 1]];
    }
  }

  /** The static state satisfies the invariant, and is the pool's initial state. */
  lemma InitialInv(align: AlignBits, s: State, nodes: seq<Ptr>)
    requires Initial(align, s, nodes)
    ensures Inv(align, s, [], Reverse(nodes)) && P.Initial(Abstract(s, [], Reverse(nodes)))
  {
    hide Built, Packable, Zeroed, L.MemoryOk, L.Distinct;
    BuiltOk(align, nodes, |nodes|);
    assert nodes[..|nodes|] == nodes;
    ReverseHas(nodes);
    WithoutView(align, s, nodes);
    AvailableView(align, s, nodes);
    SameDistinct(align, Built(align, Zeroed(nodes), nodes), Reverse(nodes));
    ThreadsIdle(s);
  }

  lemma ThreadsIdle(s: State)
    requires forall t :: t in s.threads ==> s.threads[t] == Idle
    ensures forall t :: t in AbstractThreads(s.threads) ==> AbstractThreads(s.threads)[t].Idle?
    ensures forall t :: t in s.threads ==> ThreadOk(s, t)
    ensures forall w, t :: t in Subs(s.threads, w) ==> Subs(s.threads, w)[t] == L.Idle
  {
  }

  lemma SameDistinct(align: AlignBits, v: L.State, stack: seq<Ptr>)
    requires L.MemoryOk(align, v, stack)
    ensures L.Distinct(stack) && L.Distinct([])
  {
  }

  lemma WithoutView(align: AlignBits, s: State, nodes: seq<Ptr>)
    requires Initial(align, s, nodes) && PartlyBuilt(align, nodes, |nodes|, Built(align, Zeroed(nodes), nodes))
    requires nodes[..|nodes|] == nodes
    ensures L.Inv(align, View(s, Without), Reverse(nodes))
  {
    hide Built, Packable, Zeroed, L.Distinct, UnpackPointer, UnpackCounter, MaxCounter, L.Listed, Subs;
    ThreadsIdle(s);
    assert Hands(s.place, Without) == map[];
    var b := Built(align, Zeroed(nodes), nodes);
    assert b.hands == map[];
  }

  lemma AvailableView(align: AlignBits, s: State, nodes: seq<Ptr>)
    requires Initial(align, s, nodes) && PartlyBuilt(align, nodes, |nodes|, Built(align, Zeroed(nodes), nodes))
    ensures L.Inv(align, View(s, Available), [])
  {
    hide Built, Packable, Zeroed, L.MemoryOk, L.Inv, Subs, Hands;
    ThreadsIdle(s);
    AllResting(s.place);
    L.InitialInv(align, View(s, Available));
  }

  lemma AllResting(place: map<Ptr, Place>)
    requires forall n :: n in place ==> place[n] == Resting(Without)
    ensures Hands(place, Available).Keys == place.Keys
  {
  }

  // ---- Runs ----

  datatype Move = Move(thread: Tid, action: Action)
  datatype Trace = Trace(state: State, events: seq<P.Event>)

  function Run(align: AlignBits, s: State, schedule: seq<Move>): Option<Trace>
    decreases |schedule|
  {
    if schedule == [] then Some(Trace(s, []))
    else
      var last := schedule[|schedule| - 1];
      match Run(align, s, schedule[..|schedule| - 1])
      case None => None
      case Some(tr) =>
        match Step(align, tr.state, last.thread, last.action)
        case None => None
        case Some(o) => Some(Trace(o.state, tr.events + [o.event]))
  }

  predicate RunInTime(align: AlignBits, s: State, schedule: seq<Move>)
    decreases |schedule|
  {
    schedule == [] ||
    (var front, last := schedule[..|schedule| - 1], schedule[|schedule| - 1];
     && RunInTime(align, s, front)
     && (Run(align, s, front).Some? ==> InTime(align, Run(align, s, front).value.state, last.thread, last.action)))
  }

  /** What clients and the kernel see of a run. */
  function Visible(events: seq<P.Event>): seq<P.Event>
    decreases |events|
  {
    if events == [] then []
    else Visible(events[..|events| - 1]) + if events[|events| - 1].Silent? then [] else [events[|events| - 1]]
  }

  lemma VisibleSnoc(events: seq<P.Event>, e: P.Event)
    ensures Visible(events + [e]) == Visible(events) + if e.Silent? then [] else [e]
  {
    assert (events + [e])[..|events|] == events;
  }

  lemma {:induction false} InUseVisible(events: seq<P.Event>)
    ensures P.InUse(events) == P.InUse(Visible(events))
    decreases |events|
  {
    hide Visible, P.InUse;
    if events == [] {
      VisibleNothing();
    } else {
      var front, e := events[..|events| - 1], events[|events| - 1];
      assert events == front + [e];
      InUseVisible(front);
      VisibleSnoc(front, e);
      InUseSnoc(front, e);
      if e.Silent? {
        assert Visible(front) + [] == Visible(front);
      } else {
        InUseSnoc(Visible(front), e);
      }
    }
  }

  lemma VisibleNothing()
    ensures Visible([]) == []
  {
  }

  lemma InUseSnoc(events: seq<P.Event>, e: P.Event)
    ensures P.InUse(events + [e])
            == match P.InUse(events)
               case None => None
               case Some(used) =>
                 match e
                 case Silent => Some(used)
                 case Allocated(b) => if b in used then None else Some(used + {b})
                 case Released(b) => if b in used then Some(used - {b}) else None
                 case Unmapped(b) => if b in used then None else Some(used)
  {
    assert (events + [e])[..|events|] == events;
  }

  /** One step of the two-stack pool is one step of the pool or none. */
  lemma StepSimulates(align: AlignBits, s: State, sa: seq<Ptr>, sw: seq<Ptr>, t: Tid, a: Action)
    returns (sa': seq<Ptr>, sw': seq<Ptr>, stutters: bool)
    requires Inv(align, s, sa, sw) && Step(align, s, t, a).Some? && InTime(align, s, t, a)
    ensures var o := Step(align, s, t, a).value;
            && Inv(align, o.state, sa', sw')
            && if stutters then o.event.Silent? && Abstract(o.state, sa', sw') == Abstract(s, sa, sw)
               else P.Step(Abstract(s, sa, sw), t, AbstractAction(s, t, a))
                    == Some(P.Outcome(Abstract(o.state, sa', sw'), o.event))
  {
    hide Inv, L.Inv, L.Step, View, Accessed, AccessShape, Shape, ThreadOk, L.Atomic, Abstract, P.Step, StackAfter, L.InTime;
    InvHasShape(align, s, sa, sw);
    if a.Access? {
      var o := AccessKeeps(align, s, sa, sw, t, a.a);
      AccessSimulates(align, s, sa, sw, t, o);
      sa' := if s.threads[t].Stack() == Available then StackAfter(sa, o.event) else sa;
      sw' := if s.threads[t].Stack() == Without then StackAfter(sw, o.event) else sw;
      stutters := o.event.Silent?;
    } else {
      OutsideKeeps(align, s, sa, sw, t, a);
      OutsideSimulates(align, s, sa, sw, t, a);
      sa', sw', stutters := sa, sw, false;
    }
  }

  lemma InvHasShape(align: AlignBits, s: State, sa: seq<Ptr>, sw: seq<Ptr>)
    requires Inv(align, s, sa, sw)
    ensures Shape(s)
  {
    hide L.Inv, ThreadOk;
  }

  lemma AbstractRunSnoc(s: P.State, moves: seq<P.Move>, m: P.Move, o: P.Outcome)
    requires P.Run(s, moves).Some? && P.Step(P.Run(s, moves).value.state, m.thread, m.action) == Some(o)
    ensures P.Run(s, moves + [m]) == Some(P.Trace(o.state, P.Run(s, moves).value.events + [o.event]))
  {
    hide P.Step;
    assert (moves + [m])[..|moves|] == moves;
  }

  /** Every run of the pool on its two real stacks, in time on both, is a run of the pool with
      atomic stacks: it ends in the state that this one stands for and shows the same events. */
  lemma {:induction false} RunsAreAtomic(align: AlignBits, s: State, nodes: seq<Ptr>, schedule: seq<Move>)
    returns (sa: seq<Ptr>, sw: seq<Ptr>, moves: seq<P.Move>)
    requires Initial(align, s, nodes) && Run(align, s, schedule).Some? && RunInTime(align, s, schedule)
    ensures var tr, ab := Run(align, s, schedule).value, P.Run(Abstract(s, [], Reverse(nodes)), moves);
            && Inv(align, tr.state, sa, sw)
            && ab.Some? && ab.value.state == Abstract(tr.state, sa, sw) && Visible(ab.value.events) == Visible(tr.events)
    decreases |schedule|
  {
    hide Inv, Step, Abstract, P.Step, InTime, Visible, P.Run, Initial;
    if schedule == [] {
      InitialInv(align, s, nodes);
      sa, sw, moves := [], Reverse(nodes), [];
      AbstractRunOfNothing(Abstract(s, [], Reverse(nodes)));
    } else {
      var front, last := schedule[..|schedule| - 1], schedule[|schedule| - 1];
      sa, sw, moves := RunsAreAtomic(align, s, nodes, front);
      var tr := Run(align, s, front).value;
      var start := Abstract(s, [], Reverse(nodes));
      var o := Step(align, tr.state, last.thread, last.action).value;
      var sa', sw', stutters := StepSimulates(align, tr.state, sa, sw, last.thread, last.action);
      VisibleSnoc(tr.events, o.event);
      if stutters {
        assert Visible(tr.events) + [] == Visible(tr.events);
      } else {
        var m := P.Move(last.thread, AbstractAction(tr.state, last.thread, last.action));
        AbstractRunSnoc(start, moves, m, P.Outcome(Abstract(o.state, sa', sw'), o.event));
        VisibleSnoc(P.Run(start, moves).value.events, o.event);
        moves := moves + [m];
      }
      sa, sw := sa', sw';
    }
  }

  lemma AbstractRunOfNothing(s: P.State)
    ensures P.Run(s, []) == Some(P.Trace(s, []))
  {
  }

  /** The pool's promises for the real stacks. In every interleaving of single accesses, in time on
      both stacks, the lists in memory are what the invariant says, each node is in one of them or
      in one thread's hands, each mapped block is cached in one node of the available list, in one
      operation or at one client, no block is handed out or unmapped while somebody has it, and
      the pool keeps no more blocks than it has nodes. */
  lemma PoolIsSafe(align: AlignBits, s: State, nodes: seq<Ptr>, schedule: seq<Move>)
    returns (sa: seq<Ptr>, sw: seq<Ptr>, at: map<Ptr, P.NodePlace>, where: map<Block, P.BlockPlace>)
    requires Initial(align, s, nodes) && Run(align, s, schedule).Some? && RunInTime(align, s, schedule)
    ensures var tr := Run(align, s, schedule).value;
            && L.Listed(tr.state.next, UnpackPointer(align, tr.state.available.word), sa)
            && L.Listed(tr.state.next, UnpackPointer(align, tr.state.without.word), sw)
            && P.Inv(Abstract(tr.state, sa, sw), at, where) && at.Keys == s.cached.Keys
            && P.InUse(tr.events) == Some(tr.state.held.Keys)
            && |sa| + |sw| <= |s.cached|
  {
    hide Inv, P.Run, Initial, Run, P.NodesOk, P.BlocksOk, P.InUse, Visible, P.Initial, L.Listed;
    var moves;
    sa, sw, moves := RunsAreAtomic(align, s, nodes, schedule);
    InitialInv(align, s, nodes);
    var start := Abstract(s, [], Reverse(nodes));
    at, where := P.PoolIsSafe(start, moves);
    P.CacheIsBounded(start, moves);
    var tr := Run(align, s, schedule).value;
    InUseVisible(tr.events);
    InUseVisible(P.Run(start, moves).value.events);
    ListsInMemory(align, tr.state, sa, sw);
  }

  lemma ListsInMemory(align: AlignBits, s: State, sa: seq<Ptr>, sw: seq<Ptr>)
    requires Inv(align, s, sa, sw)
    ensures L.Listed(s.next, UnpackPointer(align, s.available.word), sa)
    ensures L.Listed(s.next, UnpackPointer(align, s.without.word), sw)
  {
    hide L.Listed, UnpackPointer, UnpackCounter, MaxCounter, L.Distinct, L.ThreadOk;
  }

  /** An access that `Pop` or `Push` makes next never faults: in particular `curr->next` is read
      from a node, whichever stack the thread is working on. */
  lemma NeverFaults(align: AlignBits, s: State, nodes: seq<Ptr>, schedule: seq<Move>, t: Tid)
    requires Initial(align, s, nodes) && Run(align, s, schedule).Some? && RunInTime(align, s, schedule)
    requires var now := Run(align, s, schedule).value.state;
             t in now.threads && now.threads[t].Popping() && now.threads[t].sub.PopLoaded?
    ensures var now := Run(align, s, schedule).value.state;
            UnpackPointer(align, now.threads[t].sub.cmp) in now.next && Step(align, now, t, Access(L.ReadNext)).Some?
  {
    hide Initial, Run, L.MemoryOk, UnpackPointer, UnpackCounter, MaxCounter, P.Run, Hands;
    var sa, sw, moves := RunsAreAtomic(align, s, nodes, schedule);
    var now := Run(align, s, schedule).value.state;
    var w := now.threads[t].Stack();
    assert ThreadOk(now, t);
    InViews(now.threads, w, t);
    var stack := if w == Available then sa else sw;
    assert L.ThreadOk(align, View(now, w), stack, t, View(now, w).threads[t]);
  }
}
