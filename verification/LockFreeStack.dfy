/** `LockFreeStack`: any number of threads over one packed head word, one atomic access at a
    time, and the proof that every interleaving is a run of an atomic stack.

    The accesses are sequentially consistent, a compare-and-swap may fail spuriously, and the
    holder of a node may overwrite its `next` at any time. */
module LockFreeStack {
  import opened Words
  import opened PointerAndCounter
  import opened Wrappers

  type Tid = nat
  type Ptr = p: int | 0 <= p < 0x1_0000_0000_0000

  const NULL: Ptr := 0

  /** Where a thread stands; `cmp` is its copy of the head word. `seen` is not in the program: it
      is the number of pushes that had succeeded when `cmp` was read. */
  datatype Thread =
    | Idle
    | PushBegun(chain: seq<Ptr>)
    | PushLoaded(chain: seq<Ptr>, cmp: nat)
    | PushLinked(chain: seq<Ptr>, cmp: nat)
    | PopBegun
    | PopLoaded(cmp: nat, seen: nat)
    | PopRead(cmp: nat, seen: nat, next: u64)
  {
    function Chain(): seq<Ptr> {
      match this
      case PushBegun(c) => c
      case PushLoaded(c, _) => c
      case PushLinked(c, _) => c
      case _ => []
    }
  }

  /** `hands` records which thread holds a node that is not in the stack, and `pushes` counts the
      successful pushes; the program stores neither. */
  datatype State = State(head: nat, next: map<Ptr, u64>, threads: map<Tid, Thread>, hands: map<Ptr, Tid>, pushes: nat)

  /** What a scheduled thread does: one shared access, together with the local computation behind it. */
  datatype Action =
    | Scribble(n: Ptr, v: u64)        // the holder uses the node for its own data
    | Give(n: Ptr, to: Tid)           // the holder passes the node on
    | BeginPush(chain: seq<Ptr>)
    | BeginPop
    | Load                            // the first load of the head
    | Link                            // l->next = UnpackPointer(cmp)
    | ReadNext                        // next = curr->next
    | Swap                            // the compare-and-swap, if it succeeds
    | Fail                            // the compare-and-swap fails and reloads cmp

  datatype Event = Silent | Pushed(chain: seq<Ptr>) | Popped(node: Ptr) | FoundEmpty

  datatype Outcome = Outcome(state: State, event: Event)

  /** A chain the caller may hand to `PushRange(p, l)`: nodes it holds, linked from `p` to `l`. */
  predicate Pushable(s: State, t: Tid, chain: seq<Ptr>) {
    && chain != []
    && (forall i :: 0 <= i < |chain| ==> chain[i] in s.hands && s.hands[chain[i]] == t && chain[i] in s.next)
    && (forall i, j :: 0 <= i < j < |chain| ==> chain[i] != chain[j])
    && (forall i :: 0 <= i < |chain| - 1 ==> s.next[chain[i]] == chain[i + 1])
  }

  /** The thread has the head word in `cmp`; a `Pop` that sees null returns at once. */
  function Loaded(s: State, t: Tid, align: AlignBits): Option<Outcome>
    requires t in s.threads
  {
    var ptr := UnpackPointer(align, s.head);
    match s.threads[t]
    case PushBegun(chain) => Some(Outcome(s.(threads := s.threads[t := PushLoaded(chain, s.head)]), Silent))
    case PushLinked(chain, _) => Some(Outcome(s.(threads := s.threads[t := PushLoaded(chain, s.head)]), Silent))
    case PopBegun =>
      if ptr == NULL then Some(Outcome(s.(threads := s.threads[t := Idle]), FoundEmpty))
      else Some(Outcome(s.(threads := s.threads[t := PopLoaded(s.head, s.pushes)]), Silent))
    case PopRead(_, _, _) =>
      if ptr == NULL then Some(Outcome(s.(threads := s.threads[t := Idle]), FoundEmpty))
      else Some(Outcome(s.(threads := s.threads[t := PopLoaded(s.head, s.pushes)]), Silent))
    case _ => None
  }

  /** One step of thread `t`; `None` if the thread cannot do that now. */
  function Step(align: AlignBits, s: State, t: Tid, a: Action): Option<Outcome> {
    if t !in s.threads then None
    else
      var th := s.threads[t];
      match a
      case Scribble(n, v) =>
        if n in s.hands && s.hands[n] == t && n !in th.Chain() then Some(Outcome(s.(next := s.next[n := v]), Silent))
        else None
      case Give(n, to) =>
        if n in s.hands && s.hands[n] == t && n !in th.Chain() then Some(Outcome(s.(hands := s.hands[n := to]), Silent))
        else None
      case BeginPush(chain) =>
        if th.Idle? && Pushable(s, t, chain) then
          Some(Outcome(s.(threads := s.threads[t := PushBegun(chain)]), Silent))
        else None
      case BeginPop =>
        if th.Idle? then Some(Outcome(s.(threads := s.threads[t := PopBegun]), Silent)) else None
      case Load => if th.PushBegun? || th.PopBegun? then Loaded(s, t, align) else None
      case Fail => if th.PushLinked? || th.PopRead? then Loaded(s, t, align) else None
      case Link =>
        if th.PushLoaded? && th.chain != [] then
          var l := th.chain[|th.chain| - 1];
          Some(Outcome(s.(next := s.next[l := UnpackPointer(align, th.cmp)],
                          threads := s.threads[t := PushLinked(th.chain, th.cmp)]), Silent))
        else None
      case ReadNext =>
        if th.PopLoaded? && UnpackPointer(align, th.cmp) in s.next then
          var next := s.next[UnpackPointer(align, th.cmp)];
          Some(Outcome(s.(threads := s.threads[t := PopRead(th.cmp, th.seen, next)]), Silent))
        else None
      case Swap =>
        if th.PushLinked? && th.chain != [] && s.head == th.cmp then
          var xch := PackUnsafe(align, th.chain[0], UnpackCounter(align, th.cmp) + 1);
          Some(Outcome(State(xch, s.next, s.threads[t := Idle], Without(s.hands, th.chain), s.pushes + 1),
                       Pushed(th.chain)))
        else if th.PopRead? && s.head == th.cmp then
          var curr := UnpackPointer(align, th.cmp);
          var xch := PackUnsafe(align, th.next, UnpackCounter(align, th.cmp));
          Some(Outcome(s.(head := xch, threads := s.threads[t := Idle], hands := s.hands[curr := t]), Popped(curr)))
        else None
  }

  function Without(hands: map<Ptr, Tid>, chain: seq<Ptr>): map<Ptr, Tid> {
    map n | n in hands && n !in chain :: hands[n]
  }

  // ---- The atomic stack ----

  /** The effect of an event on a stack whose operations are atomic; `None` if it cannot happen. */
  function Atomic(stack: seq<Ptr>, e: Event): Option<seq<Ptr>> {
    match e
    case Silent => Some(stack)
    case Pushed(chain) => Some(chain + stack)
    case Popped(n) => if stack != [] && stack[0] == n then Some(stack[1..]) else None
    case FoundEmpty => if stack == [] then Some(stack) else None
  }

  // ---- The invariant ----

  /** From `p` on, the `next` fields spell `stack`. */
  predicate Listed(next: map<Ptr, u64>, p: u64, stack: seq<Ptr>)
    decreases |stack|
  {
    if stack == [] then p == NULL
    else p == stack[0] && p != NULL && p in next && Listed(next, next[p], stack[1..])
  }

  predicate Distinct(s: seq<Ptr>) {
    forall i, j :: 0 <= i < j < |s| ==> s[i] != s[j]
  }

  /** What a thread inside `Pop` may rely on: unless a push came in between, the node it looks at
      is the top of the stack or has left it. */
  ghost predicate PopOk(align: AlignBits, s: State, stack: seq<Ptr>, cmp: nat, seen: nat) {
    var curr := UnpackPointer(align, cmp);
    && curr != NULL && curr in s.next
    && seen <= s.pushes && UnpackCounter(align, cmp) == seen % MaxCounter(align)
    && (seen == s.pushes && curr in stack ==> curr == stack[0])
  }

  ghost predicate ThreadOk(align: AlignBits, s: State, stack: seq<Ptr>, t: Tid, th: Thread) {
    match th
    case PushBegun(chain) => Pushable(s, t, chain)
    case PushLoaded(chain, cmp) => Pushable(s, t, chain)
    case PushLinked(chain, cmp) => Pushable(s, t, chain) && s.next[chain[|chain| - 1]] == UnpackPointer(align, cmp)
    case PopLoaded(cmp, seen) => PopOk(align, s, stack, cmp, seen)
    case PopRead(cmp, seen, next) =>
      && PopOk(align, s, stack, cmp, seen)
      && (seen == s.pushes && UnpackPointer(align, cmp) in stack ==> next == s.next[UnpackPointer(align, cmp)])
    case _ => true
  }

  ghost predicate MemoryOk(align: AlignBits, s: State, stack: seq<Ptr>) {
    && (forall n :: n in s.next ==> Packable(align, n) && n != NULL)
    && Listed(s.next, UnpackPointer(align, s.head), stack) && Distinct(stack)
    && UnpackCounter(align, s.head) == s.pushes % MaxCounter(align)
    && s.hands.Keys <= s.next.Keys
    && (forall n :: n in s.next ==> (n in s.hands <==> n !in stack))
  }

  ghost predicate Inv(align: AlignBits, s: State, stack: seq<Ptr>) {
    && MemoryOk(align, s, stack)
    && forall t :: t in s.threads ==> ThreadOk(align, s, stack, t, s.threads[t])
  }

  // ---- Facts about lists ----

  lemma {:induction false} ListedNodes(next: map<Ptr, u64>, p: u64, stack: seq<Ptr>)
    requires Listed(next, p, stack)
    ensures forall n :: n in stack ==> n in next && n != NULL
    decreases |stack|
  {
    if stack != [] {
      ListedNodes(next, next[p], stack[1..]);
      forall n | n in stack ensures n in next && n != NULL {
        assert n == stack[0] || n in stack[1..];
      }
    }
  }

  /** A list depends on the `next` fields of its own nodes only. */
  lemma {:induction false} ListedFrame(next: map<Ptr, u64>, more: map<Ptr, u64>, p: u64, stack: seq<Ptr>)
    requires Listed(next, p, stack)
    requires forall n :: n in stack && n in next ==> n in more && more[n] == next[n]
    ensures Listed(more, p, stack)
    decreases |stack|
  {
    if stack != [] {
      assert stack[0] in stack;
      forall n | n in stack[1..] && n in next ensures n in more && more[n] == next[n] {
        assert n in stack;
      }
      ListedFrame(next, more, next[p], stack[1..]);
    }
  }

  /** A linked chain in front of a list. */
  lemma {:induction false} ListedChain(next: map<Ptr, u64>, chain: seq<Ptr>, p: u64, stack: seq<Ptr>)
    requires chain != [] && Listed(next, p, stack)
    requires forall i :: 0 <= i < |chain| ==> chain[i] in next && chain[i] != NULL
    requires forall i :: 0 <= i < |chain| - 1 ==> next[chain[i]] == chain[i + 1]
    requires next[chain[|chain| - 1]] == p
    ensures Listed(next, chain[0], chain + stack)
    decreases |chain|
  {
    assert (chain + stack)[1..] == chain[1..] + stack;
    if |chain| == 1 {
      assert chain[1..] + stack == stack;
    } else {
      forall i | 0 <= i < |chain[1..]| - 1 ensures next[chain[1..][i]] == chain[1..][i + 1] {
        assert next[chain[i + 1]] == chain[i + 2];
      }
      ListedChain(next, chain[1..], p, stack);
    }
  }

  // ---- One step ----

  /** What other threads may do to a thread: its chain stays untouched, and as long as no push
      succeeds the stack changes at most by losing its top. */
  ghost predicate Bystander(s: State, stack: seq<Ptr>, s': State, stack': seq<Ptr>, t: Tid, th: Thread) {
    && (forall n :: n in th.Chain() && n in s.hands && s.hands[n] == t && n in s.next ==>
          n in s'.hands && s'.hands[n] == t && n in s'.next && s'.next[n] == s.next[n])
    && s.next.Keys <= s'.next.Keys
    && s.pushes <= s'.pushes
    && (s.pushes == s'.pushes ==>
          && (stack' == stack || (stack != [] && stack' == stack[1..]))
          && forall n :: n in stack && n in s.next && n in s'.next ==> s'.next[n] == s.next[n])
  }

  lemma ThreadKept(align: AlignBits, s: State, stack: seq<Ptr>, s': State, stack': seq<Ptr>, t: Tid, th: Thread)
    requires ThreadOk(align, s, stack, t, th) && Distinct(stack) && Bystander(s, stack, s', stack', t, th)
    ensures ThreadOk(align, s', stack', t, th)
  {
    hide UnpackPointer, UnpackCounter, MaxCounter;
    match th {
      case PopLoaded(cmp, seen) => PopKept(align, s, stack, s', stack', t, cmp, seen);
      case PopRead(cmp, seen, next) => PopKept(align, s, stack, s', stack', t, cmp, seen);
      case Idle =>
      case PopBegun =>
      case _ => ChainKept(s, stack, s', stack', t, th);
    }
  }

  lemma ChainKept(s: State, stack: seq<Ptr>, s': State, stack': seq<Ptr>, t: Tid, th: Thread)
    requires Pushable(s, t, th.Chain()) && Bystander(s, stack, s', stack', t, th)
    ensures Pushable(s', t, th.Chain())
    ensures var l := th.Chain()[|th.Chain()| - 1]; s'.next[l] == s.next[l]
  {
    var chain := th.Chain();
    forall i | 0 <= i < |chain|
      ensures chain[i] in s'.hands && s'.hands[chain[i]] == t && chain[i] in s'.next && s'.next[chain[i]] == s.next[chain[i]]
    {
      assert chain[i] in th.Chain();
    }
  }

  lemma PopKept(align: AlignBits, s: State, stack: seq<Ptr>, s': State, stack': seq<Ptr>, t: Tid, cmp: nat, seen: nat)
    requires PopOk(align, s, stack, cmp, seen) && Distinct(stack)
    requires Bystander(s, stack, s', stack', t, PopLoaded(cmp, seen))
    ensures PopOk(align, s', stack', cmp, seen)
    ensures var curr := UnpackPointer(align, cmp);
            seen == s'.pushes && curr in stack' ==> seen == s.pushes && curr in stack && s'.next[curr] == s.next[curr]
  {
    hide UnpackPointer, UnpackCounter, MaxCounter;
    var curr := UnpackPointer(align, cmp);
    if stack != [] {
      TopOnce(stack);
      forall n | n in stack[1..] ensures n in stack {
      }
    }
  }

  lemma TopOnce(stack: seq<Ptr>)
    requires stack != [] && Distinct(stack)
    ensures stack[0] !in stack[1..] && Distinct(stack[1..])
    ensures forall n :: n in stack <==> n == stack[0] || n in stack[1..]
  {
    forall i | 0 <= i < |stack[1..]| ensures stack[1..][i] != stack[0] {
      assert stack[0] != stack[i + 1];
    }
  }

  /** The step leaves every other thread's knowledge intact. */
  lemma OthersKept(align: AlignBits, s: State, stack: seq<Ptr>, s': State, stack': seq<Ptr>, t: Tid)
    requires Inv(align, s, stack) && t in s.threads && s'.threads.Keys == s.threads.Keys
    requires forall u :: u in s.threads && u != t ==> s'.threads[u] == s.threads[u]
    requires forall u :: u in s.threads && u != t ==> Bystander(s, stack, s', stack', u, s.threads[u])
    ensures forall u :: u in s'.threads && u != t ==> ThreadOk(align, s', stack', u, s'.threads[u])
  {
    hide ThreadOk, Bystander, Distinct;
    forall u | u in s'.threads && u != t ensures ThreadOk(align, s', stack', u, s'.threads[u]) {
      ThreadKept(align, s, stack, s', stack', u, s.threads[u]);
    }
  }

  /** `s'` differs from `s` in one thread's place only. */
  lemma LocalStep(align: AlignBits, s: State, stack: seq<Ptr>, t: Tid, th: Thread)
    requires Inv(align, s, stack) && t in s.threads && ThreadOk(align, s, stack, t, th)
    ensures Inv(align, s.(threads := s.threads[t := th]), stack)
  {
    hide Distinct, Listed, UnpackPointer, UnpackCounter, MaxCounter, Pushable, Packable;
    var s' := s.(threads := s.threads[t := th]);
    forall u | u in s.threads ensures ThreadOk(align, s', stack, u, s.threads[u]) {
      Unmoved(align, s, s', stack, u, s.threads[u]);
    }
    Unmoved(align, s, s', stack, t, th);
  }

  lemma Unmoved(align: AlignBits, s: State, s': State, stack: seq<Ptr>, t: Tid, th: Thread)
    requires ThreadOk(align, s, stack, t, th) && s'.next == s.next && s'.hands == s.hands && s'.pushes == s.pushes
    ensures ThreadOk(align, s', stack, t, th)
  {
    hide UnpackPointer, UnpackCounter, MaxCounter;
  }

  lemma LoadKeeps(align: AlignBits, s: State, stack: seq<Ptr>, t: Tid)
    requires Inv(align, s, stack) && t in s.threads && Loaded(s, t, align).Some?
    ensures var o := Loaded(s, t, align).value;
            Atomic(stack, o.event) == Some(stack) && Inv(align, o.state, stack)
  {
    hide Distinct, UnpackPointer, UnpackCounter, MaxCounter, Pushable, Packable;
    ListedNodes(s.next, UnpackPointer(align, s.head), stack);
    var o := Loaded(s, t, align).value;
    LocalStep(align, s, stack, t, o.state.threads[t]);
  }

  lemma ScribbleKeeps(align: AlignBits, s: State, stack: seq<Ptr>, t: Tid, n: Ptr, v: u64)
    requires Inv(align, s, stack) && t in s.threads
    requires n in s.hands && s.hands[n] == t && n !in s.threads[t].Chain()
    ensures Inv(align, s.(next := s.next[n := v]), stack)
  {
    hide Distinct, UnpackPointer, UnpackCounter, MaxCounter, Pushable, Packable, ThreadOk;
    var s' := s.(next := s.next[n := v]);
    ListedFrame(s.next, s'.next, UnpackPointer(align, s.head), stack);
    forall u | u in s.threads ensures ThreadOk(align, s', stack, u, s.threads[u]) {
      ThreadKept(align, s, stack, s', stack, u, s.threads[u]);
    }
  }

  lemma GiveKeeps(align: AlignBits, s: State, stack: seq<Ptr>, t: Tid, n: Ptr, to: Tid)
    requires Inv(align, s, stack) && t in s.threads
    requires n in s.hands && s.hands[n] == t && n !in s.threads[t].Chain()
    ensures Inv(align, s.(hands := s.hands[n := to]), stack)
  {
    hide Distinct, UnpackPointer, UnpackCounter, MaxCounter, Pushable, Packable, ThreadOk, Listed;
    var s' := s.(hands := s.hands[n := to]);
    forall u | u in s.threads ensures ThreadOk(align, s', stack, u, s.threads[u]) {
      ThreadKept(align, s, stack, s', stack, u, s.threads[u]);
    }
  }

  lemma LinkKeeps(align: AlignBits, s: State, stack: seq<Ptr>, t: Tid, chain: seq<Ptr>, cmp: nat)
    requires Inv(align, s, stack) && t in s.threads && s.threads[t] == PushLoaded(chain, cmp)
    ensures chain != []
    ensures var next := s.next[chain[|chain| - 1] := UnpackPointer(align, cmp)];
            Inv(align, s.(next := next, threads := s.threads[t := PushLinked(chain, cmp)]), stack)
  {
    hide Distinct, UnpackPointer, UnpackCounter, MaxCounter, Packable, Listed, MemoryOk, Pushable;
    assert ThreadOk(align, s, stack, t, s.threads[t]);
    LastIsHeld(s, t, chain);
    var l := chain[|chain| - 1];
    var s' := s.(next := s.next[l := UnpackPointer(align, cmp)], threads := s.threads[t := PushLinked(chain, cmp)]);
    HeldWritten(align, s, stack, l, UnpackPointer(align, cmp), s');
    OthersKept(align, s, stack, s', stack, t);
    LastWritten(s, s', t, chain, UnpackPointer(align, cmp));
  }

  lemma LastIsHeld(s: State, t: Tid, chain: seq<Ptr>)
    requires Pushable(s, t, chain)
    ensures chain != []
    ensures var l := chain[|chain| - 1]; l in s.hands && s.hands[l] == t && l in s.next
  {
  }

  /** A write to a node that is in somebody's hands leaves the stack alone. */
  lemma HeldWritten(align: AlignBits, s: State, stack: seq<Ptr>, n: Ptr, v: u64, s': State)
    requires MemoryOk(align, s, stack) && n in s.hands && n in s.next && s'.next == s.next[n := v]
    requires s'.head == s.head && s'.hands == s.hands && s'.pushes == s.pushes
    ensures MemoryOk(align, s', stack) && n !in stack
  {
    hide Distinct, UnpackPointer, UnpackCounter, MaxCounter, Packable, Listed;
    ListedFrame(s.next, s'.next, UnpackPointer(align, s.head), stack);
  }

  /** Writing the last link does not disturb the links before it. */
  lemma LastWritten(s: State, s': State, t: Tid, chain: seq<Ptr>, v: u64)
    requires Pushable(s, t, chain) && s'.hands == s.hands && s'.next == s.next[chain[|chain| - 1] := v]
    ensures Pushable(s', t, chain) && s'.next[chain[|chain| - 1]] == v
  {
    forall i | 0 <= i < |chain| - 1 ensures s'.next[chain[i]] == chain[i + 1] {
      assert chain[i] != chain[|chain| - 1];
    }
  }

  lemma CounterAfterPush(pushes: nat, c: nat)
    requires c > 0
    ensures (pushes % c + 1) % c == (pushes + 1) % c
  {
    var q, m := pushes / c, pushes % c;
    Euclid(pushes, c);
    if m + 1 == c {
      Div(m + 1, c, 1, 0);
      assert c * (q + 1) == c * q + c;
      Div(pushes + 1, c, q + 1, 0);
    } else {
      Div(m + 1, c, 0, m + 1);
      Div(pushes + 1, c, q, m + 1);
    }
  }

  /** Two counts less than a whole turn apart are equal when their remainders are. */
  lemma SameTurn(pushes: nat, seen: nat, c: nat)
    requires c > 0 && seen <= pushes < seen + c && pushes % c == seen % c
    ensures pushes == seen
  {
    Euclid(pushes, c);
    Euclid(seen, c);
    Distribute(c, pushes / c, seen / c);
    OnlyZero(c, pushes / c - seen / c);
  }

  lemma ModTwice(x: nat, c: nat)
    requires c > 0
    ensures x % c % c == x % c
  {
    Euclid(x, c);
    Div(x % c, c, 0, x % c);
  }

  predicate LinkedFor(s: State, t: Tid, chain: seq<Ptr>, cmp: nat, align: AlignBits) {
    Pushable(s, t, chain) && s.next[chain[|chain| - 1]] == UnpackPointer(align, cmp)
  }

  lemma DistinctConcat(chain: seq<Ptr>, stack: seq<Ptr>)
    requires Distinct(chain) && Distinct(stack) && forall n :: n in chain ==> n !in stack
    ensures Distinct(chain + stack)
  {
    var all := chain + stack;
    forall i, j | 0 <= i < j < |all| ensures all[i] != all[j] {
      if i < |chain| <= j {
        assert chain[i] in chain && stack[j - |chain|] in stack;
      }
    }
  }

  lemma PushMemory(align: AlignBits, s: State, stack: seq<Ptr>, t: Tid, chain: seq<Ptr>, s': State)
    requires MemoryOk(align, s, stack) && LinkedFor(s, t, chain, s.head, align)
    requires s'.head == PackUnsafe(align, chain[0], UnpackCounter(align, s.head) + 1)
    requires s'.next == s.next && s'.hands == Without(s.hands, chain) && s'.pushes == s.pushes + 1
    ensures MemoryOk(align, s', chain + stack)
  {
    hide UnpackPointer, UnpackCounter, MaxCounter, PackUnsafe, Packable;
    assert chain[0] in s.next;
    PackRoundTrip(align, chain[0], UnpackCounter(align, s.head) + 1);
    CounterAfterPush(s.pushes, MaxCounter(align));
    ListedChain(s.next, chain, UnpackPointer(align, s.head), stack);
    DistinctConcat(chain, stack);
  }

  lemma PushSwapKeeps(align: AlignBits, s: State, stack: seq<Ptr>, t: Tid, chain: seq<Ptr>)
    requires Inv(align, s, stack) && t in s.threads && s.threads[t] == PushLinked(chain, s.head)
    ensures chain != []
    ensures var xch := PackUnsafe(align, chain[0], UnpackCounter(align, s.head) + 1);
            Inv(align, State(xch, s.next, s.threads[t := Idle], Without(s.hands, chain), s.pushes + 1), chain + stack)
  {
    hide Distinct, UnpackPointer, UnpackCounter, MaxCounter, Packable, Listed, PackUnsafe, MemoryOk;
    assert ThreadOk(align, s, stack, t, s.threads[t]);
    var xch := PackUnsafe(align, chain[0], UnpackCounter(align, s.head) + 1);
    var s' := State(xch, s.next, s.threads[t := Idle], Without(s.hands, chain), s.pushes + 1);
    PushMemory(align, s, stack, t, chain, s');
    OthersKept(align, s, stack, s', chain + stack, t);
  }

  /** A successful pop finds the true successor: the heart of the ABA argument. */
  lemma PopSeesTop(align: AlignBits, s: State, stack: seq<Ptr>, t: Tid)
    requires Inv(align, s, stack) && t in s.threads && s.threads[t].PopRead? && s.threads[t].cmp == s.head
    requires s.pushes < s.threads[t].seen + MaxCounter(align)
    ensures stack != [] && stack[0] == UnpackPointer(align, s.head) && stack[0] in s.next
    ensures s.threads[t].next == s.next[stack[0]]
  {
    hide Distinct, UnpackPointer, UnpackCounter, MaxCounter, Packable;
    assert ThreadOk(align, s, stack, t, s.threads[t]);
    SameTurn(s.pushes, s.threads[t].seen, MaxCounter(align));
  }

  lemma PopMemory(align: AlignBits, s: State, stack: seq<Ptr>, t: Tid, s': State)
    requires MemoryOk(align, s, stack) && stack != [] && stack[0] == UnpackPointer(align, s.head) && stack[0] in s.next
    requires s'.head == PackUnsafe(align, s.next[stack[0]], UnpackCounter(align, s.head))
    requires s'.next == s.next && s'.hands == s.hands[stack[0] := t] && s'.pushes == s.pushes
    ensures MemoryOk(align, s', stack[1..])
  {
    hide UnpackPointer, UnpackCounter, MaxCounter, PackUnsafe, Packable, Distinct;
    var n := s.next[stack[0]];
    assert Listed(s.next, n, stack[1..]);
    NullPackable(align);
    assert Packable(align, n);
    PackRoundTrip(align, n, UnpackCounter(align, s.head));
    ModTwice(s.pushes, MaxCounter(align));
    TopOnce(stack);
    forall m | m in s.next ensures m in s'.hands <==> m !in stack[1..] {
      assert m in stack <==> m == stack[0] || m in stack[1..];
    }
  }

  lemma NullPackable(align: AlignBits)
    ensures Packable(align, NULL)
  {
    hide Power;
    Div(0, Power(align), 0, 0);
  }

  lemma PopSwapKeeps(align: AlignBits, s: State, stack: seq<Ptr>, t: Tid)
    requires Inv(align, s, stack) && t in s.threads && s.threads[t].PopRead? && s.threads[t].cmp == s.head
    requires s.pushes < s.threads[t].seen + MaxCounter(align)
    ensures stack != [] && stack[0] == UnpackPointer(align, s.head)
    ensures var xch := PackUnsafe(align, s.threads[t].next, UnpackCounter(align, s.head));
            Inv(align, s.(head := xch, threads := s.threads[t := Idle], hands := s.hands[stack[0] := t]), stack[1..])
  {
    hide Distinct, UnpackPointer, UnpackCounter, MaxCounter, Packable, PackUnsafe, Listed;
    PopSeesTop(align, s, stack, t);
    var xch := PackUnsafe(align, s.threads[t].next, UnpackCounter(align, s.head));
    var s' := s.(head := xch, threads := s.threads[t := Idle], hands := s.hands[stack[0] := t]);
    PopMemory(align, s, stack, t, s');
    OthersKept(align, s, stack, s', stack[1..], t);
  }

  /** The condition on a run: when a pop's compare-and-swap succeeds, fewer pushes than the
      counter can tell apart came after its load. */
  predicate InTime(align: AlignBits, s: State, t: Tid, a: Action) {
    a.Swap? && t in s.threads && s.threads[t].PopRead? && s.threads[t].cmp == s.head ==>
      s.pushes < s.threads[t].seen + MaxCounter(align)
  }

  /** Nobody waits for anybody: a thread inside an operation has a next access in every state, and a
      compare-and-swap may fail at any time but succeeds on an unchanged head only. */
  lemma NextAccess(align: AlignBits, s: State, stack: seq<Ptr>, t: Tid, a: Action)
    requires Inv(align, s, stack) && t in s.threads && (a.Load? || a.Link? || a.ReadNext? || a.Swap? || a.Fail?)
    ensures Step(align, s, t, a).Some? <==>
              match s.threads[t]
              case Idle => false
              case PushBegun(_) => a == Load
              case PopBegun => a == Load
              case PushLoaded(_, _) => a == Link
              case PopLoaded(_, _) => a == ReadNext
              case PushLinked(_, cmp) => a == Fail || (a == Swap && s.head == cmp)
              case PopRead(cmp, _, _) => a == Fail || (a == Swap && s.head == cmp)
  {
    hide UnpackPointer, UnpackCounter, MaxCounter, PackUnsafe, Without, MemoryOk;
    assert ThreadOk(align, s, stack, t, s.threads[t]);
  }

  /** Between the operations: any idle thread may begin one, and the holder of a node, unless it is
      pushing that node, may write anything to it or pass it on. */
  lemma HolderMay(align: AlignBits, s: State, t: Tid, a: Action)
    requires t in s.threads && (a.BeginPush? || a.BeginPop? || a.Scribble? || a.Give?)
    ensures Step(align, s, t, a)
            == match a
               case BeginPush(chain) =>
                 if s.threads[t] == Idle && Pushable(s, t, chain)
                 then Some(Outcome(s.(threads := s.threads[t := PushBegun(chain)]), Silent)) else None
               case BeginPop =>
                 if s.threads[t] == Idle then Some(Outcome(s.(threads := s.threads[t := PopBegun]), Silent)) else None
               case Scribble(n, v) =>
                 if HeldBy(s, t, n) then Some(Outcome(s.(next := s.next[n := v]), Silent)) else None
               case Give(n, to) =>
                 if HeldBy(s, t, n) then Some(Outcome(s.(hands := s.hands[n := to]), Silent)) else None
               case _ => None
  {
    hide UnpackPointer, UnpackCounter, MaxCounter, PackUnsafe, Without;
  }

  predicate HeldBy(s: State, t: Tid, n: Ptr)
    requires t in s.threads
  {
    n in s.hands && s.hands[n] == t && n !in s.threads[t].Chain()
  }

  /** Every step is a step of the atomic stack. */
  lemma StepKeeps(align: AlignBits, s: State, stack: seq<Ptr>, t: Tid, a: Action)
    requires Inv(align, s, stack) && Step(align, s, t, a).Some? && InTime(align, s, t, a)
    ensures var o := Step(align, s, t, a).value;
            Atomic(stack, o.event).Some? && Inv(align, o.state, Atomic(stack, o.event).value)
  {
    hide Inv, UnpackPointer, UnpackCounter, MaxCounter, PackUnsafe, Without, Pushable;
    match a {
      case Scribble(n, v) => ScribbleKeeps(align, s, stack, t, n, v);
      case Give(n, to) => GiveKeeps(align, s, stack, t, n, to);
      case BeginPush(chain) => LocalStep(align, s, stack, t, PushBegun(chain));
      case BeginPop => LocalStep(align, s, stack, t, PopBegun);
      case Load => LoadKeeps(align, s, stack, t);
      case Fail => LoadKeeps(align, s, stack, t);
      case Link => LinkKeeps(align, s, stack, t, s.threads[t].chain, s.threads[t].cmp);
      case ReadNext => ReadKeeps(align, s, stack, t);
      case Swap =>
        if s.threads[t].PushLinked? {
          PushSwapKeeps(align, s, stack, t, s.threads[t].chain);
        } else {
          PopSwapKeeps(align, s, stack, t);
        }
    }
  }

  lemma ReadKeeps(align: AlignBits, s: State, stack: seq<Ptr>, t: Tid)
    requires Inv(align, s, stack) && t in s.threads && s.threads[t].PopLoaded?
    ensures UnpackPointer(align, s.threads[t].cmp) in s.next
    ensures var th := s.threads[t];
            var read := PopRead(th.cmp, th.seen, s.next[UnpackPointer(align, th.cmp)]);
            Inv(align, s.(threads := s.threads[t := read]), stack)
  {
    hide Distinct, UnpackPointer, UnpackCounter, MaxCounter, Packable, MemoryOk;
    var th := s.threads[t];
    assert ThreadOk(align, s, stack, t, th);
    LocalStep(align, s, stack, t, PopRead(th.cmp, th.seen, s.next[UnpackPointer(align, th.cmp)]));
  }

  // ---- Runs ----

  datatype Move = Move(thread: Tid, action: Action)
  datatype Trace = Trace(state: State, events: seq<Event>)

  /** The run of a schedule; `None` if some move of it is not possible. */
  function Run(align: AlignBits, s: State, schedule: seq<Move>): Option<Trace>
    decreases |schedule|
  {
    if schedule == [] then Some(Trace(s, []))
    else
      var last := schedule[|schedule| - 1];
      match Run(align, s, schedule[..|schedule| - 1])
      case None => None
      case Some(tr) =>
        match Step(align, tr.state, last.thread, last.action)
        case None => None
        case Some(o) => Some(Trace(o.state, tr.events + [o.event]))
  }

  /** No pop of the run is overtaken by a whole turn of the counter. */
  predicate RunInTime(align: AlignBits, s: State, schedule: seq<Move>)
    decreases |schedule|
  {
    schedule == [] ||
    (var front, last := schedule[..|schedule| - 1], schedule[|schedule| - 1];
     && RunInTime(align, s, front)
     && (Run(align, s, front).Some? ==> InTime(align, Run(align, s, front).value.state, last.thread, last.action)))
  }

  /** The atomic stack after these events. */
  function Replay(events: seq<Event>): Option<seq<Ptr>>
    decreases |events|
  {
    if events == [] then Some([])
    else
      match Replay(events[..|events| - 1])
      case None => None
      case Some(stack) => Atomic(stack, events[|events| - 1])
  }

  /** An empty stack, idle threads and nodes in anybody's hands. */
  predicate Initial(align: AlignBits, s: State) {
    && s.head == 0 && s.pushes == 0 && s.hands.Keys == s.next.Keys
    && (forall n :: n in s.next ==> Packable(align, n) && n != NULL)
    && (forall t :: t in s.threads ==> s.threads[t].Idle?)
  }

  lemma InitialInv(align: AlignBits, s: State)
    requires Initial(align, s)
    ensures Inv(align, s, [])
  {
    hide Power;
    Div(0, Power(RealPointerBits(align)), 0, 0);
    Div(0, MaxCounter(align), 0, 0);
  }

  /** Linearizability: every interleaving of any number of threads is a run of the atomic stack.
      Each pop returns the node on top of it, each empty result comes when it is empty, and the
      list in memory is always exactly its contents. */
  lemma {:induction false} RefinesAtomicStack(align: AlignBits, s: State, schedule: seq<Move>)
    requires Initial(align, s) && Run(align, s, schedule).Some? && RunInTime(align, s, schedule)
    ensures var tr := Run(align, s, schedule).value;
            && Replay(tr.events).Some?
            && Listed(tr.state.next, UnpackPointer(align, tr.state.head), Replay(tr.events).value)
            && Inv(align, tr.state, Replay(tr.events).value)
    decreases |schedule|
  {
    hide Step, UnpackPointer, InTime;
    if schedule == [] {
      InitialInv(align, s);
    } else {
      var front, last := schedule[..|schedule| - 1], schedule[|schedule| - 1];
      RefinesAtomicStack(align, s, front);
      var tr := Run(align, s, front).value;
      StepKeeps(align, tr.state, Replay(tr.events).value, last.thread, last.action);
      var o := Step(align, tr.state, last.thread, last.action).value;
      assert (tr.events + [o.event])[..|tr.events|] == tr.events;
    }
  }

  /** No node is lost, duplicated or resurrected: at every moment each node is either in the
      stack, there once and linked there, or in the hands of one thread; and a pop gives a node
      to a thread that takes it out of the stack by the same step. */
  lemma NodesConserved(align: AlignBits, s: State, schedule: seq<Move>)
    requires Initial(align, s) && Run(align, s, schedule).Some? && RunInTime(align, s, schedule)
    ensures var tr := Run(align, s, schedule).value;
            && Replay(tr.events).Some? && Distinct(Replay(tr.events).value)
            && tr.state.next.Keys == s.next.Keys
            && forall n :: n in s.next ==> (n in tr.state.hands <==> n !in Replay(tr.events).value)
  {
    hide Run, Replay, UnpackPointer, UnpackCounter, MaxCounter, ThreadOk, Packable, Listed, Distinct;
    RefinesAtomicStack(align, s, schedule);
    NodesStay(align, s, schedule);
  }

  lemma {:induction false} NodesStay(align: AlignBits, s: State, schedule: seq<Move>)
    requires Initial(align, s) && Run(align, s, schedule).Some? && RunInTime(align, s, schedule)
    ensures Run(align, s, schedule).value.state.next.Keys == s.next.Keys
    decreases |schedule|
  {
    hide UnpackPointer, InTime, Inv, Step, Replay, Initial;
    if schedule != [] {
      var front, last := schedule[..|schedule| - 1], schedule[|schedule| - 1];
      NodesStay(align, s, front);
      RefinesAtomicStack(align, s, front);
      var tr := Run(align, s, front).value;
      SameNodes(align, tr.state, Replay(tr.events).value, last.thread, last.action);
    }
  }

  lemma SameNodes(align: AlignBits, s: State, stack: seq<Ptr>, t: Tid, a: Action)
    requires Inv(align, s, stack) && Step(align, s, t, a).Some?
    ensures Step(align, s, t, a).value.state.next.Keys == s.next.Keys
  {
    hide UnpackPointer, UnpackCounter, MaxCounter, PackUnsafe, Without, Distinct, Listed, Packable;
    if a.Link? {
      assert ThreadOk(align, s, stack, t, s.threads[t]);
    }
  }

  /** The dereference of a stale `curr` in `Pop` always reads a node's memory, never null and
      never anything else: a thread that has loaded the head is never stuck. */
  lemma PopReadsNodes(align: AlignBits, s: State, schedule: seq<Move>, t: Tid)
    requires Initial(align, s) && Run(align, s, schedule).Some? && RunInTime(align, s, schedule)
    requires t in Run(align, s, schedule).value.state.threads
    requires Run(align, s, schedule).value.state.threads[t].PopLoaded?
    ensures Step(align, Run(align, s, schedule).value.state, t, ReadNext).Some?
    ensures UnpackPointer(align, Run(align, s, schedule).value.state.threads[t].cmp) in s.next
  {
    hide Run, Replay, UnpackPointer, UnpackCounter, MaxCounter, Packable, Listed, Distinct;
    RefinesAtomicStack(align, s, schedule);
    NodesStay(align, s, schedule);
    var tr := Run(align, s, schedule).value;
    ReadKeeps(align, tr.state, Replay(tr.events).value, t);
  }

  // ---- Progress ----

  /** The thread's copy of the head word, if it has one. */
  function Copy(th: Thread): Option<nat> {
    match th
    case PushLoaded(_, cmp) => Some(cmp)
    case PushLinked(_, cmp) => Some(cmp)
    case PopLoaded(cmp, _) => Some(cmp)
    case PopRead(cmp, _, _) => Some(cmp)
    case _ => None
  }

  predicate Reads(a: Action) { a.Load? || a.Fail? }

  /** What one step does to the head and to the copies of it. */
  lemma CopyStep(align: AlignBits, s: State, t: Tid, m: Move)
    requires Step(align, s, m.thread, m.action).Some? && t in s.threads
    ensures var s' := Step(align, s, m.thread, m.action).value.state;
            && t in s'.threads
            && (Reads(m.action) || !m.action.Swap? ==> s'.head == s.head)
            && (m.thread != t ==> s'.threads[t] == s.threads[t])
            && (m.thread == t && Copy(s'.threads[t]).Some? ==>
                  if Reads(m.action) then Copy(s'.threads[t]) == Some(s.head)
                  else !m.action.Swap? && Copy(s'.threads[t]) == Copy(s.threads[t]))
  {
    hide UnpackPointer, UnpackCounter, PackUnsafe, Pushable;
  }

  /** The states that a run goes through. */
  function StateAt(align: AlignBits, s: State, schedule: seq<Move>, i: nat): (now: State)
    requires i <= |schedule| && Run(align, s, schedule).Some?
    ensures Run(align, s, schedule[..i]).Some? && now == Run(align, s, schedule[..i]).value.state
  {
    RunPrefix(align, s, schedule, i);
    Run(align, s, schedule[..i]).value.state
  }

  lemma {:induction false} RunPrefix(align: AlignBits, s: State, schedule: seq<Move>, i: nat)
    requires i <= |schedule| && Run(align, s, schedule).Some?
    ensures Run(align, s, schedule[..i]).Some?
    decreases |schedule|
  {
    if i == |schedule| {
      assert schedule[..i] == schedule;
    } else {
      assert schedule[..|schedule| - 1][..i] == schedule[..i];
      RunPrefix(align, s, schedule[..|schedule| - 1], i);
    }
  }

  /** Thread `t` read the head by move `i` and has not tried to swap since. */
  ghost predicate LastRead(align: AlignBits, s: State, schedule: seq<Move>, t: Tid, i: nat) {
    && i < |schedule| && schedule[i].thread == t && Reads(schedule[i].action)
    && forall k :: i < k < |schedule| && schedule[k].thread == t ==> !Reads(schedule[k].action) && !schedule[k].action.Swap?
  }

  /** A compare-and-swap that fails because the head differs from the thread's copy means that
      another thread's compare-and-swap has succeeded since the copy was read. */
  lemma {:induction false} FailureMeansProgress(align: AlignBits, s: State, schedule: seq<Move>, t: Tid) returns (i: nat, j: nat)
    requires Initial(align, s) && Run(align, s, schedule).Some?
    requires t in Run(align, s, schedule).value.state.threads
    requires Copy(Run(align, s, schedule).value.state.threads[t]).Some?
    ensures var now := Run(align, s, schedule).value.state;
            && LastRead(align, s, schedule, t, i)
            && StateAt(align, s, schedule, i).head == Copy(now.threads[t]).value
            && (now.head != Copy(now.threads[t]).value ==>
                  i < j < |schedule| && schedule[j].thread != t && schedule[j].action.Swap?)
    decreases |schedule|
  {
    hide Step, UnpackPointer, Copy, Reads;
    NoCopyAtFirst(align, s, schedule, t);
    var n := |schedule| - 1;
    var front, last := schedule[..n], schedule[n];
    var before, now := Run(align, s, front).value.state, Run(align, s, schedule).value.state;
    SameThreads(align, before, last);
    CopyStep(align, before, t, last);
    if last.thread == t && Reads(last.action) {
      i, j := n, n;
    } else {
      i, j := FailureMeansProgress(align, s, front, t);
      assert schedule[..i] == front[..i];
      if before.head == Copy(before.threads[t]).value {
        j := n;
      }
    }
  }

  lemma NoCopyAtFirst(align: AlignBits, s: State, schedule: seq<Move>, t: Tid)
    requires Initial(align, s) && Run(align, s, schedule).Some?
    requires t in Run(align, s, schedule).value.state.threads
    requires Copy(Run(align, s, schedule).value.state.threads[t]).Some?
    ensures schedule != []
  {
  }

  lemma SameThreads(align: AlignBits, s: State, m: Move)
    requires Step(align, s, m.thread, m.action).Some?
    ensures Step(align, s, m.thread, m.action).value.state.threads.Keys == s.threads.Keys
  {
    hide UnpackPointer, UnpackCounter, PackUnsafe, Pushable;
  }

  /** How often thread `t` had to try again because the head was no longer what it had read. */
  function Retries(align: AlignBits, s: State, schedule: seq<Move>, t: Tid): nat
    requires Run(align, s, schedule).Some?
    decreases |schedule|
  {
    if schedule == [] then 0
    else
      var front, last := schedule[..|schedule| - 1], schedule[|schedule| - 1];
      Retries(align, s, front, t) + if last == Move(t, Fail) && Behind(Run(align, s, front).value.state, t) then 1 else 0
  }

  /** The thread's copy is not the head any more. */
  predicate Behind(s: State, t: Tid) {
    t in s.threads && Copy(s.threads[t]).Some? && Copy(s.threads[t]).value != s.head
  }

  /** The operations that other threads completed. */
  function Successes(schedule: seq<Move>, t: Tid): nat
    decreases |schedule|
  {
    if schedule == [] then 0
    else
      var last := schedule[|schedule| - 1];
      Successes(schedule[..|schedule| - 1], t) + if last.thread != t && last.action.Swap? then 1 else 0
  }

  /** Lock freedom: for every such retry of a thread some other thread has completed a push or a
      pop, a different one each time, in every run. */
  lemma {:induction false} RetriesAreOthersProgress(align: AlignBits, s: State, schedule: seq<Move>, t: Tid)
    requires Initial(align, s) && Run(align, s, schedule).Some?
    ensures Retries(align, s, schedule, t) + (if Behind(Run(align, s, schedule).value.state, t) then 1 else 0)
            <= Successes(schedule, t)
    decreases |schedule|
  {
    hide Step, UnpackPointer, Copy, Reads;
    if schedule == [] {
      NoneBehind(align, s, t);
    } else {
      var front, last := schedule[..|schedule| - 1], schedule[|schedule| - 1];
      RetriesAreOthersProgress(align, s, front, t);
      var before := Run(align, s, front).value.state;
      SameThreads(align, before, last);
      if t in before.threads {
        CopyStep(align, before, t, last);
        ReadsBoth();
      }
    }
  }

  lemma ReadsBoth()
    ensures Reads(Fail) && Reads(Load)
  {
  }

  lemma NoneBehind(align: AlignBits, s: State, t: Tid)
    requires Initial(align, s)
    ensures !Behind(s, t)
  {
  }
}
