/** The counter bound of `LockFreeStack` is sharp: a run in which exactly `2^kCounterBits` pushes
    come between a pop's load and its compare-and-swap corrupts the stack. */
module CounterLimit {
  import opened Words
  import opened PointerAndCounter
  import opened LockFreeStack
  import opened Wrappers

  const VICTIM: Tid := 0
  const BUSY: Tid := 1

  lemma {:induction false} RunConcat(align: AlignBits, s: State, a: seq<Move>, b: seq<Move>)
    requires Run(align, s, a).Some?
    ensures var mid := Run(align, s, a).value.state;
            && (Run(align, mid, b).Some? <==> Run(align, s, a + b).Some?)
            && (Run(align, mid, b).Some? ==> Run(align, s, a + b).value.state == Run(align, mid, b).value.state)
    decreases |b|
  {
    hide Step;
    if b == [] {
      assert a + b == a;
    } else {
      var front := b[..|b| - 1];
      assert (a + b)[..|a + b| - 1] == a + front;
      RunConcat(align, s, a, front);
    }
  }

  lemma RunSnoc(align: AlignBits, s: State, a: seq<Move>, x: State, m: Move, o: Outcome)
    requires Run(align, s, a).Some? && Run(align, s, a).value.state == x && Step(align, x, m.thread, m.action) == Some(o)
    ensures Run(align, s, a + [m]).Some? && Run(align, s, a + [m]).value.state == o.state
  {
    hide Step;
    assert (a + [m])[..|a|] == a;
  }

  /** Four moves of one thread, given the states between them. */
  lemma RunFour(align: AlignBits, s: State, t: Tid, acts: seq<Action>, outs: seq<Outcome>)
    requires |acts| == |outs| == 4
    requires Step(align, s, t, acts[0]) == Some(outs[0]) && Step(align, outs[0].state, t, acts[1]) == Some(outs[1])
    requires Step(align, outs[1].state, t, acts[2]) == Some(outs[2]) && Step(align, outs[2].state, t, acts[3]) == Some(outs[3])
    ensures var r := Run(align, s, [Move(t, acts[0]), Move(t, acts[1]), Move(t, acts[2]), Move(t, acts[3])]);
            r.Some? && r.value.state == outs[3].state
  {
    hide Step;
    var m1, m2, m3, m4 := Move(t, acts[0]), Move(t, acts[1]), Move(t, acts[2]), Move(t, acts[3]);
    assert Run(align, s, []) == Some(Trace(s, []));
    hide Run;
    RunSnoc(align, s, [], s, m1, outs[0]);
    RunSnoc(align, s, [] + [m1], outs[0].state, m2, outs[1]);
    RunSnoc(align, s, [] + [m1] + [m2], outs[1].state, m3, outs[2]);
    RunSnoc(align, s, [] + [m1] + [m2] + [m3], outs[2].state, m4, outs[3]);
    assert [] + [m1] + [m2] + [m3] + [m4] == [m1, m2, m3, m4];
  }

  function PushMoves(t: Tid, n: Ptr): seq<Move> {
    [Move(t, BeginPush([n])), Move(t, Load), Move(t, Link), Move(t, Swap)]
  }

  function PopMoves(t: Tid): seq<Move> {
    [Move(t, BeginPop), Move(t, Load), Move(t, ReadNext), Move(t, Swap)]
  }

  function AfterPush(align: AlignBits, s: State, n: Ptr): State {
    State(PackUnsafe(align, n, UnpackCounter(align, s.head) + 1), s.next[n := UnpackPointer(align, s.head)], s.threads,
          Without(s.hands, [n]), s.pushes + 1)
  }

  /** An undisturbed push. */
  lemma PushRuns(align: AlignBits, s: State, t: Tid, n: Ptr)
    requires t in s.threads && s.threads[t].Idle? && n in s.hands && s.hands[n] == t && n in s.next
    ensures Run(align, s, PushMoves(t, n)).Some?
    ensures Run(align, s, PushMoves(t, n)).value.state == AfterPush(align, s, n)
  {
    hide UnpackPointer, UnpackCounter, PackUnsafe, Run, Without;
    var s1 := s.(threads := s.threads[t := PushBegun([n])]);
    var s2 := s.(threads := s.threads[t := PushLoaded([n], s.head)]);
    var s3 := s.(next := s.next[n := UnpackPointer(align, s.head)], threads := s.threads[t := PushLinked([n], s.head)]);
    var o1, o2, o3, o4 := Outcome(s1, Silent), Outcome(s2, Silent), Outcome(s3, Silent),
                          Outcome(AfterPush(align, s, n), Pushed([n]));
    assert Step(align, s, t, BeginPush([n])) == Some(o1);
    assert s1.threads[t := PushLoaded([n], s.head)] == s2.threads;
    assert Step(align, s1, t, Load) == Some(o2);
    assert s2.threads[t := PushLinked([n], s.head)] == s3.threads;
    assert Step(align, s2, t, Link) == Some(o3);
    assert s3.threads[t := Idle] == s.threads;
    assert Step(align, s3, t, Swap) == Some(o4);
    RunFour(align, s, t, [BeginPush([n]), Load, Link, Swap], [o1, o2, o3, o4]);
  }

  function AfterPop(align: AlignBits, s: State, t: Tid, n: Ptr): State
    requires n in s.next
  {
    s.(head := PackUnsafe(align, s.next[n], UnpackCounter(align, s.head)), hands := s.hands[n := t])
  }

  /** An undisturbed pop. */
  lemma PopRuns(align: AlignBits, s: State, t: Tid, n: Ptr)
    requires t in s.threads && s.threads[t].Idle? && n == UnpackPointer(align, s.head) && n != NULL && n in s.next
    ensures Run(align, s, PopMoves(t)).Some?
    ensures Run(align, s, PopMoves(t)).value.state == AfterPop(align, s, t, n)
  {
    hide UnpackPointer, UnpackCounter, PackUnsafe, Run;
    var s1 := s.(threads := s.threads[t := PopBegun]);
    var s2 := s.(threads := s.threads[t := PopLoaded(s.head, s.pushes)]);
    var s3 := s.(threads := s.threads[t := PopRead(s.head, s.pushes, s.next[n])]);
    var o1, o2, o3, o4 := Outcome(s1, Silent), Outcome(s2, Silent), Outcome(s3, Silent),
                          Outcome(AfterPop(align, s, t, n), Popped(n));
    assert Step(align, s, t, BeginPop) == Some(o1);
    assert s1.threads[t := PopLoaded(s.head, s.pushes)] == s2.threads;
    assert Step(align, s1, t, Load) == Some(o2);
    assert s2.threads[t := PopRead(s.head, s.pushes, s.next[n])] == s3.threads;
    assert Step(align, s2, t, ReadNext) == Some(o3);
    assert s3.threads[t := Idle] == s.threads;
    assert Step(align, s3, t, Swap) == Some(o4);
    RunFour(align, s, t, [BeginPop, Load, ReadNext, Swap], [o1, o2, o3, o4]);
  }

  // ---- The run ----

  /** The victim holds a head word from when two pushes had been made and believes `b` is behind
      `a`; since then `a` has been pushed again and again, alone, and `b` is in use. */
  predicate Spinning(align: AlignBits, s: State, a: Ptr, b: Ptr, n: nat) {
    && a != b && Packable(align, a) && Packable(align, b) && a != NULL && b != NULL
    && s.head == PackUnsafe(align, a, n) && s.pushes == n
    && s.next.Keys == {a, b} && s.next[a] == NULL
    && s.hands == map[b := BUSY]
    && s.threads == map[VICTIM := PopRead(PackUnsafe(align, a, 2), 2, b), BUSY := Idle]
  }

  /** The busy thread pops `a` and pushes it back. */
  lemma SpinOnce(align: AlignBits, s: State, a: Ptr, b: Ptr, n: nat)
    requires Spinning(align, s, a, b, n)
    ensures var moves := PopMoves(BUSY) + PushMoves(BUSY, a);
            Run(align, s, moves).Some? && Spinning(align, Run(align, s, moves).value.state, a, b, n + 1)
  {
    hide UnpackPointer, UnpackCounter, PackUnsafe, Run, MaxCounter, Packable, Step;
    PackRoundTrip(align, a, n);
    PopRuns(align, s, BUSY, a);
    var s1 := AfterPop(align, s, BUSY, a);
    NullPackable(align);
    PackRoundTrip(align, NULL, UnpackCounter(align, s.head));
    ModTwice(n, MaxCounter(align));
    PushRuns(align, s1, BUSY, a);
    RunConcat(align, s, PopMoves(BUSY), PushMoves(BUSY, a));
    CounterAfterPush(n, MaxCounter(align));
    SameWord(align, a, n % MaxCounter(align) + 1, n + 1);
    var s2 := AfterPush(align, s1, a);
    assert s2.hands == map[b := BUSY];
    assert s2.next.Keys == {a, b};
  }

  lemma {:induction false} Spin(align: AlignBits, s: State, a: Ptr, b: Ptr, n: nat, times: nat) returns (moves: seq<Move>)
    requires Spinning(align, s, a, b, n)
    ensures Run(align, s, moves).Some? && Spinning(align, Run(align, s, moves).value.state, a, b, n + times)
    decreases times
  {
    hide Spinning, Step;
    if times == 0 {
      moves := [];
    } else {
      var front := Spin(align, s, a, b, n, times - 1);
      var mid := Run(align, s, front).value.state;
      SpinOnce(align, mid, a, b, n + times - 1);
      moves := front + (PopMoves(BUSY) + PushMoves(BUSY, a));
      RunConcat(align, s, front, PopMoves(BUSY) + PushMoves(BUSY, a));
    }
  }

  function Start(a: Ptr, b: Ptr): State {
    State(0, map[a := NULL, b := NULL], map[VICTIM := Idle, BUSY := Idle], map[a := BUSY, b := BUSY], 0)
  }

  function TwoPushed(align: AlignBits, a: Ptr, b: Ptr): State {
    State(PackUnsafe(align, a, 2), map[a := b, b := NULL], map[VICTIM := Idle, BUSY := Idle], map[], 2)
  }

  function VictimRead(align: AlignBits, a: Ptr, b: Ptr): State {
    State(PackUnsafe(align, a, 2), map[a := b, b := NULL],
          map[VICTIM := PopRead(PackUnsafe(align, a, 2), 2, b), BUSY := Idle], map[], 2)
  }

  lemma FirstPushes(align: AlignBits, a: Ptr, b: Ptr)
    requires a != b && Packable(align, a) && Packable(align, b) && a != NULL && b != NULL
    ensures var moves := PushMoves(BUSY, b) + PushMoves(BUSY, a);
            Run(align, Start(a, b), moves).Some? && Run(align, Start(a, b), moves).value.state == TwoPushed(align, a, b)
  {
    hide UnpackPointer, UnpackCounter, PackUnsafe, Run, MaxCounter, Packable, Step;
    var s := Start(a, b);
    ZeroWord(align);
    PushRuns(align, s, BUSY, b);
    var s1 := AfterPush(align, s, b);
    PackRoundTrip(align, b, 1);
    PushRuns(align, s1, BUSY, a);
    RunConcat(align, s, PushMoves(BUSY, b), PushMoves(BUSY, a));
    CounterAfterPush(1, MaxCounter(align));
    SameWord(align, a, 1 % MaxCounter(align) + 1, 2);
    var s2 := AfterPush(align, s1, a);
    assert s2.next == map[a := b, b := NULL];
    assert s2.hands == map[];
  }

  lemma ZeroWord(align: AlignBits)
    ensures UnpackPointer(align, 0) == NULL && UnpackCounter(align, 0) == 0
  {
    hide Power;
    Div(0, Power(RealPointerBits(align)), 0, 0);
  }

  lemma VictimReads(align: AlignBits, a: Ptr, b: Ptr)
    requires a != b && Packable(align, a) && a != NULL
    ensures var moves := [Move(VICTIM, BeginPop), Move(VICTIM, Load), Move(VICTIM, ReadNext)];
            && Run(align, TwoPushed(align, a, b), moves).Some?
            && Run(align, TwoPushed(align, a, b), moves).value.state == VictimRead(align, a, b)
  {
    hide UnpackPointer, UnpackCounter, PackUnsafe, MaxCounter, Packable;
    PackRoundTrip(align, a, 2);
    var s := TwoPushed(align, a, b);
    var s1 := s.(threads := s.threads[VICTIM := PopBegun]);
    var s2 := s1.(threads := s1.threads[VICTIM := PopLoaded(s.head, 2)]);
    var s3 := s2.(threads := s2.threads[VICTIM := PopRead(s.head, 2, b)]);
    assert s3 == VictimRead(align, a, b);
    var m1, m2, m3 := Move(VICTIM, BeginPop), Move(VICTIM, Load), Move(VICTIM, ReadNext);
    assert Run(align, s, []) == Some(Trace(s, []));
    hide Run;
    RunSnoc(align, s, [], s, m1, Outcome(s1, Silent));
    RunSnoc(align, s, [] + [m1], s1, m2, Outcome(s2, Silent));
    RunSnoc(align, s, [] + [m1] + [m2], s2, m3, Outcome(s3, Silent));
    assert [] + [m1] + [m2] + [m3] == [m1, m2, m3];
  }

  /** The busy thread empties the stack and pushes `a` alone. */
  lemma Emptied(align: AlignBits, a: Ptr, b: Ptr)
    requires a != b && Packable(align, a) && Packable(align, b) && a != NULL && b != NULL
    ensures var s, moves := VictimRead(align, a, b), PopMoves(BUSY) + (PopMoves(BUSY) + PushMoves(BUSY, a));
            Run(align, s, moves).Some? && Spinning(align, Run(align, s, moves).value.state, a, b, 3)
  {
    hide UnpackPointer, UnpackCounter, PackUnsafe, Run, MaxCounter, Packable, Step;
    var s := VictimRead(align, a, b);
    PackRoundTrip(align, a, 2);
    ModTwice(2, MaxCounter(align));
    PopRuns(align, s, BUSY, a);
    var s1 := AfterPop(align, s, BUSY, a);
    PackRoundTrip(align, b, UnpackCounter(align, s.head));
    PopRuns(align, s1, BUSY, b);
    var s2 := AfterPop(align, s1, BUSY, b);
    NullPackable(align);
    PackRoundTrip(align, NULL, UnpackCounter(align, s1.head));
    PushRuns(align, s2, BUSY, a);
    var s3 := AfterPush(align, s2, a);
    RunConcat(align, s1, PopMoves(BUSY), PushMoves(BUSY, a));
    RunConcat(align, s, PopMoves(BUSY), PopMoves(BUSY) + PushMoves(BUSY, a));
    CounterAfterPush(2, MaxCounter(align));
    SameWord(align, a, 2 % MaxCounter(align) + 1, 3);
    assert s3.hands == map[b := BUSY];
    assert s3.next.Keys == {a, b};
  }

  lemma Compose(align: AlignBits, s: State, a: seq<Move>, x: State, b: seq<Move>, y: State)
    requires Run(align, s, a).Some? && Run(align, s, a).value.state == x
    requires Run(align, x, b).Some? && Run(align, x, b).value.state == y
    ensures Run(align, s, a + b).Some? && Run(align, s, a + b).value.state == y
  {
    hide Run;
    RunConcat(align, s, a, b);
  }

  lemma TurnAround(c: nat)
    requires c > 0
    ensures (c + 2) % c == 2 % c
  {
    Euclid(2, c);
    assert c * (2 / c + 1) == c * (2 / c) + c;
    Div(c + 2, c, 2 / c + 1, 2 % c);
  }

  /** After a whole turn the stale compare-and-swap succeeds, and the node it leaves on top of the
      stack is one that a thread holds. */
  lemma SpinEnds(align: AlignBits, s: State, a: Ptr, b: Ptr)
    requires Spinning(align, s, a, b, MaxCounter(align) + 2)
    ensures var o := Step(align, s, VICTIM, Swap);
            && o.Some? && o.value.event == Popped(a)
            && UnpackPointer(align, o.value.state.head) == b && b in o.value.state.hands
  {
    hide UnpackPointer, UnpackCounter, PackUnsafe, MaxCounter, Packable;
    TurnAround(MaxCounter(align));
    SameWord(align, a, MaxCounter(align) + 2, 2);
    PackRoundTrip(align, a, 2);
    PackRoundTrip(align, b, UnpackCounter(align, s.head));
  }

  /** The bound in `LockFreeStack.InTime` cannot be weakened: for every alignment and any two
      nodes there is a run from the empty stack in which a pop is overtaken by exactly
      `kMaxCounter` pushes, succeeds all the same, and resurrects a node that is in use. */
  lemma WholeTurnCorrupts(align: AlignBits, a: Ptr, b: Ptr) returns (s: State, moves: seq<Move>)
    requires a != b && Packable(align, a) && Packable(align, b) && a != NULL && b != NULL
    ensures Initial(align, s) && Run(align, s, moves).Some?
    ensures var x := Run(align, s, moves).value.state;
            && VICTIM in x.threads && x.threads[VICTIM].PopRead?
            && x.pushes == x.threads[VICTIM].seen + MaxCounter(align)
            && var o := Step(align, x, VICTIM, Swap);
               && o.Some? && o.value.event == Popped(a)
               && UnpackPointer(align, o.value.state.head) == b && b in o.value.state.hands
  {
    hide UnpackPointer, UnpackCounter, PackUnsafe, Run, MaxCounter, Packable, Step;
    s := Start(a, b);
    var s1, s2 := TwoPushed(align, a, b), VictimRead(align, a, b);
    var m1 := PushMoves(BUSY, b) + PushMoves(BUSY, a);
    var m2 := [Move(VICTIM, BeginPop), Move(VICTIM, Load), Move(VICTIM, ReadNext)];
    var m3 := PopMoves(BUSY) + (PopMoves(BUSY) + PushMoves(BUSY, a));
    FirstPushes(align, a, b);
    VictimReads(align, a, b);
    Emptied(align, a, b);
    var s3 := Run(align, s2, m3).value.state;
    var m4 := Spin(align, s3, a, b, 3, MaxCounter(align) - 1);
    var s4 := Run(align, s3, m4).value.state;
    Compose(align, s, m1, s1, m2, s2);
    Compose(align, s, m1 + m2, s2, m3, s3);
    Compose(align, s, m1 + m2 + m3, s3, m4, s4);
    moves := m1 + m2 + m3 + m4;
    SpinEnds(align, s4, a, b);
    StartsEmpty(align, a, b);
  }

  lemma StartsEmpty(align: AlignBits, a: Ptr, b: Ptr)
    requires a != b && Packable(align, a) && Packable(align, b) && a != NULL && b != NULL
    ensures Initial(align, Start(a, b))
  {
    hide Packable;
  }
}
