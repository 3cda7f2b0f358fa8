/** `MmapPool`: memory blocks cached in a fixed set of nodes that any number of threads move
    between two stacks.

    The stacks are atomic here; `PoolOnStacks` has the real ones, access by access, and shows that
    their runs are runs of this pool. The kernel may return any block that is not mapped. */
module MmapPool {
  import opened Wrappers
  import L = LockFreeStack

  type Tid = L.Tid
  type Node = L.Ptr
  type Block = nat

  datatype Thread =
    | Idle
    | AllocBegun
    | AllocMissed
    | AllocGot(node: Node)
    | AllocRead(node: Node, block: Block)
    | FreeBegun(block: Block)
    | FreeMissed(block: Block)
    | FreeGot(node: Node, block: Block)
    | FreeSet(node: Node, block: Block)
  {
    predicate HasNode() { AllocGot? || AllocRead? || FreeGot? || FreeSet? }
    predicate HasBlock() { AllocRead? || FreeBegun? || FreeMissed? || FreeGot? || FreeSet? }
  }

  /** `cached` is the `block` field of every node; `held` are the blocks the clients have. */
  datatype State = State(available: seq<Node>, without: seq<Node>, cached: map<Node, Block>, threads: map<Tid, Thread>,
                         mapped: set<Block>, held: map<Block, Tid>)

  datatype Action =
    | BeginAlloc
    | BeginFree(block: Block)
    | Advance                     // the next shared access of the running operation
    | Map(block: Block)           // MmapOrDie returns this block
    | Give(block: Block, to: Tid) // a client passes a block on

  datatype Event = Silent | Allocated(block: Block) | Released(block: Block) | Unmapped(block: Block)
  datatype Outcome = Outcome(state: State, event: Event)

  function Without(held: map<Block, Tid>, b: Block): map<Block, Tid> {
    map x | x in held && x != b :: held[x]
  }

  function Goto(s: State, t: Tid, th: Thread): State {
    s.(threads := s.threads[t := th])
  }

  /** The next access of an operation under way. */
  function Advanced(s: State, t: Tid): Option<Outcome>
    requires t in s.threads
  {
    match s.threads[t]
    case AllocBegun =>
      if s.available == [] then Some(Outcome(Goto(s, t, AllocMissed), Silent))
      else Some(Outcome(Goto(s.(available := s.available[1..]), t, AllocGot(s.available[0])), Silent))
    case AllocGot(n) =>
      if n in s.cached then Some(Outcome(Goto(s, t, AllocRead(n, s.cached[n])), Silent)) else None
    case AllocRead(n, b) =>
      Some(Outcome(Goto(s.(without := [n] + s.without, held := s.held[b := t]), t, Idle), Allocated(b)))
    case FreeBegun(b) =>
      if s.without == [] then Some(Outcome(Goto(s, t, FreeMissed(b)), Silent))
      else Some(Outcome(Goto(s.(without := s.without[1..]), t, FreeGot(s.without[0], b)), Silent))
    case FreeMissed(b) => Some(Outcome(Goto(s.(mapped := s.mapped - {b}), t, Idle), Unmapped(b)))
    case FreeGot(n, b) => Some(Outcome(Goto(s.(cached := s.cached[n := b]), t, FreeSet(n, b)), Silent))
    case FreeSet(n, b) => Some(Outcome(Goto(s.(available := [n] + s.available), t, Idle), Silent))
    case _ => None
  }

  function Step(s: State, t: Tid, a: Action): Option<Outcome> {
    if t !in s.threads then None
    else
      match a
      case BeginAlloc => if s.threads[t].Idle? then Some(Outcome(Goto(s, t, AllocBegun), Silent)) else None
      case BeginFree(b) =>
        if s.threads[t].Idle? && b in s.held && s.held[b] == t then
          Some(Outcome(Goto(s.(held := Without(s.held, b)), t, FreeBegun(b)), Released(b)))
        else None
      case Map(b) =>
        if s.threads[t].AllocMissed? && b !in s.mapped then
          Some(Outcome(Goto(s.(mapped := s.mapped + {b}, held := s.held[b := t]), t, Idle), Allocated(b)))
        else None
      case Give(b, to) =>
        if b in s.held && s.held[b] == t then Some(Outcome(s.(held := s.held[b := to]), Silent)) else None
      case Advance => Advanced(s, t)
  }

  // ---- Where everything is ----

  datatype NodePlace = Available | WithoutBlock | InHands(t: Tid)
  datatype BlockPlace = Cached(n: Node) | InOperation(t: Tid) | AtClient(t: Tid)

  /** Every node is in exactly one place. */
  ghost predicate NodesOk(s: State, at: map<Node, NodePlace>) {
    && L.Distinct(s.available) && L.Distinct(s.without)
    && at.Keys == s.cached.Keys
    && (forall n :: n in s.available ==> n in at)
    && (forall n :: n in s.without ==> n in at)
    && (forall n :: n in at ==> (n in s.available <==> at[n] == Available))
    && (forall n :: n in at ==> (n in s.without <==> at[n] == WithoutBlock))
    && (forall t :: t in s.threads && s.threads[t].HasNode() ==> s.threads[t].node in at && at[s.threads[t].node] == InHands(t))
    && (forall n :: n in at && at[n].InHands? ==>
          at[n].t in s.threads && s.threads[at[n].t].HasNode() && s.threads[at[n].t].node == n)
  }

  /** The block a thread carries in the middle of an operation. */
  ghost predicate Carries(s: State, t: Tid, b: Block) {
    && t in s.threads
    && ((s.threads[t].HasBlock() && s.threads[t].block == b)
        || (s.threads[t].AllocGot? && s.threads[t].node in s.cached && s.cached[s.threads[t].node] == b))
  }

  ghost predicate At(s: State, b: Block, p: BlockPlace) {
    match p
    case Cached(n) => n in s.available && n in s.cached && s.cached[n] == b
    case InOperation(t) => Carries(s, t, b)
    case AtClient(t) => b in s.held && s.held[b] == t
  }

  /** Every mapped block is in exactly one place, and no other block is anywhere. */
  ghost predicate BlocksOk(s: State, where: map<Block, BlockPlace>) {
    && where.Keys == s.mapped
    && (forall b, p :: At(s, b, p) <==> b in where && where[b] == p)
    && (forall t :: t in s.threads && s.threads[t].FreeSet? ==>
          s.threads[t].node in s.cached && s.cached[s.threads[t].node] == s.threads[t].block)
  }

  ghost predicate Inv(s: State, at: map<Node, NodePlace>, where: map<Block, BlockPlace>) {
    NodesOk(s, at) && BlocksOk(s, where)
  }

  /** The places after a step. */
  ghost function NodesAfter(s: State, at: map<Node, NodePlace>, t: Tid, a: Action): map<Node, NodePlace> {
    if t !in s.threads || a != Advance then at
    else
      match s.threads[t]
      case AllocBegun => if s.available == [] then at else at[s.available[0] := InHands(t)]
      case AllocRead(n, _) => at[n := WithoutBlock]
      case FreeBegun(_) => if s.without == [] then at else at[s.without[0] := InHands(t)]
      case FreeSet(n, _) => at[n := Available]
      case _ => at
  }

  ghost function BlocksAfter(s: State, where: map<Block, BlockPlace>, t: Tid, a: Action): map<Block, BlockPlace> {
    if t !in s.threads then where
    else
      match a
      case BeginFree(b) => where[b := InOperation(t)]
      case Map(b) => where[b := AtClient(t)]
      case Give(b, to) => where[b := AtClient(to)]
      case BeginAlloc => where
      case Advance =>
        match s.threads[t]
        case AllocBegun =>
          if s.available == [] || s.available[0] !in s.cached then where
          else where[s.cached[s.available[0]] := InOperation(t)]
        case AllocRead(_, b) => where[b := AtClient(t)]
        case FreeMissed(b) => map x | x in where && x != b :: where[x]
        case FreeSet(n, b) => where[b := Cached(n)]
        case _ => where
  }

  lemma DistinctCons(n: Node, s: seq<Node>)
    requires n !in s && L.Distinct(s)
    ensures L.Distinct([n] + s)
  {
    forall i, j | 0 <= i < j < |[n] + s| ensures ([n] + s)[i] != ([n] + s)[j] {
      assert ([n] + s)[j] == s[j - 1] && s[j - 1] in s;
    }
  }

  /** A step that moves no node. */
  lemma NodesUnmoved(s: State, s': State, at: map<Node, NodePlace>, t: Tid, th: Thread)
    requires NodesOk(s, at) && t in s.threads && s'.threads == s.threads[t := th]
    requires s'.available == s.available && s'.without == s.without && s'.cached.Keys == s.cached.Keys
    requires th.HasNode() == s.threads[t].HasNode() && (th.HasNode() ==> th.node == s.threads[t].node)
    ensures NodesOk(s', at)
  {
    hide L.Distinct;
  }

  lemma TakeAvailable(s: State, s': State, at: map<Node, NodePlace>, t: Tid, th: Thread)
    requires NodesOk(s, at) && t in s.threads && s'.threads == s.threads[t := th] && s.available != []
    requires s'.available == s.available[1..] && s'.without == s.without && s'.cached == s.cached
    requires !s.threads[t].HasNode() && th.HasNode() && th.node == s.available[0]
    ensures NodesOk(s', at[s.available[0] := InHands(t)])
  {
    hide L.Distinct;
    L.TopOnce(s.available);
  }

  lemma TakeWithout(s: State, s': State, at: map<Node, NodePlace>, t: Tid, th: Thread)
    requires NodesOk(s, at) && t in s.threads && s'.threads == s.threads[t := th] && s.without != []
    requires s'.without == s.without[1..] && s'.available == s.available && s'.cached == s.cached
    requires !s.threads[t].HasNode() && th.HasNode() && th.node == s.without[0]
    ensures NodesOk(s', at[s.without[0] := InHands(t)])
  {
    hide L.Distinct;
    L.TopOnce(s.without);
  }

  lemma PutAvailable(s: State, s': State, at: map<Node, NodePlace>, t: Tid, n: Node)
    requires NodesOk(s, at) && t in s.threads && s'.threads == s.threads[t := Idle]
    requires s'.available == [n] + s.available && s'.without == s.without && s'.cached == s.cached
    requires s.threads[t].HasNode() && s.threads[t].node == n
    ensures NodesOk(s', at[n := Available])
  {
    hide L.Distinct;
    DistinctCons(n, s.available);
    InFront(n, s.available);
  }

  lemma PutWithout(s: State, s': State, at: map<Node, NodePlace>, t: Tid, n: Node)
    requires NodesOk(s, at) && t in s.threads && s'.threads == s.threads[t := Idle]
    requires s'.without == [n] + s.without && s'.available == s.available && s'.cached == s.cached
    requires s.threads[t].HasNode() && s.threads[t].node == n
    ensures NodesOk(s', at[n := WithoutBlock])
  {
    hide L.Distinct;
    DistinctCons(n, s.without);
    InFront(n, s.without);
  }

  lemma InFront(n: Node, s: seq<Node>)
    ensures forall m :: m in [n] + s <==> m == n || m in s
  {
  }

  lemma NodesKept(s: State, at: map<Node, NodePlace>, t: Tid, a: Action)
    requires NodesOk(s, at) && Step(s, t, a).Some?
    ensures NodesOk(Step(s, t, a).value.state, NodesAfter(s, at, t, a))
  {
    hide NodesOk;
    var s' := Step(s, t, a).value.state;
    if a != Advance {
      if a.Give? {
        SameNodes(s, s', at);
      } else {
        NodesUnmoved(s, s', at, t, s'.threads[t]);
      }
    } else {
      match s.threads[t] {
        case AllocBegun =>
          if s.available == [] {
            NodesUnmoved(s, s', at, t, AllocMissed);
          } else {
            TakeAvailable(s, s', at, t, AllocGot(s.available[0]));
          }
        case AllocRead(n, _) => PutWithout(s, s', at, t, n);
        case FreeBegun(b) =>
          if s.without == [] {
            NodesUnmoved(s, s', at, t, FreeMissed(b));
          } else {
            TakeWithout(s, s', at, t, FreeGot(s.without[0], b));
          }
        case FreeGot(n, b) =>
          NodeKnown(s, at, t);
          NodesUnmoved(s, s', at, t, FreeSet(n, b));
        case FreeSet(n, _) => PutAvailable(s, s', at, t, n);
        case AllocGot(n) => NodesUnmoved(s, s', at, t, s'.threads[t]);
        case FreeMissed(_) => NodesUnmoved(s, s', at, t, s'.threads[t]);
        case _ =>
      }
    }
  }

  lemma SameNodes(s: State, s': State, at: map<Node, NodePlace>)
    requires NodesOk(s, at) && s'.threads == s.threads && s'.available == s.available && s'.without == s.without
    requires s'.cached == s.cached
    ensures NodesOk(s', at)
  {
    hide L.Distinct;
  }

  lemma NodeKnown(s: State, at: map<Node, NodePlace>, t: Tid)
    requires NodesOk(s, at) && t in s.threads && s.threads[t].HasNode()
    ensures s.threads[t].node in s.cached && s.threads[t].node !in s.available && s.threads[t].node !in s.without
    ensures forall u :: u in s.threads && u != t && s.threads[u].HasNode() ==> s.threads[u].node != s.threads[t].node
  {
    hide L.Distinct;
  }

  // ---- Blocks ----

  /** Written blocks: what the operation set stays in the node until it is pushed. */
  ghost predicate WritesOk(s: State) {
    forall t :: t in s.threads && s.threads[t].FreeSet? ==>
      s.threads[t].node in s.cached && s.cached[s.threads[t].node] == s.threads[t].block
  }

  /** `s'` differs from `s` at most in whether `b` is at `p` or at `q`. */
  ghost predicate OnlyMoves(s: State, s': State, b: Block, p: BlockPlace, q: BlockPlace) {
    forall c, x :: !(c == b && (x == p || x == q)) ==> (At(s', c, x) <==> At(s, c, x))
  }

  lemma BlockMoves(s: State, s': State, where: map<Block, BlockPlace>, b: Block, p: BlockPlace, q: BlockPlace)
    requires BlocksOk(s, where) && WritesOk(s') && s'.mapped == s.mapped
    requires At(s, b, p) && p != q && !At(s', b, p) && At(s', b, q) && OnlyMoves(s, s', b, p, q)
    ensures BlocksOk(s', where[b := q])
  {
    hide At;
  }

  lemma BlockComes(s: State, s': State, where: map<Block, BlockPlace>, b: Block, q: BlockPlace)
    requires BlocksOk(s, where) && WritesOk(s') && b !in s.mapped && s'.mapped == s.mapped + {b}
    requires At(s', b, q) && OnlyMoves(s, s', b, q, q)
    ensures BlocksOk(s', where[b := q])
  {
    hide At;
  }

  lemma BlocksStay(s: State, s': State, where: map<Block, BlockPlace>)
    requires BlocksOk(s, where) && WritesOk(s') && s'.mapped == s.mapped
    requires forall c, p :: At(s', c, p) <==> At(s, c, p)
    ensures BlocksOk(s', where)
  {
    hide At;
  }

  lemma BlockGoes(s: State, s': State, where: map<Block, BlockPlace>, b: Block, p: BlockPlace)
    requires BlocksOk(s, where) && WritesOk(s') && s'.mapped == s.mapped - {b}
    requires At(s, b, p) && !At(s', b, p) && OnlyMoves(s, s', b, p, p)
    ensures BlocksOk(s', map x | x in where && x != b :: where[x])
  {
    hide At;
  }

  lemma AllocTakes(s: State, at: map<Node, NodePlace>, where: map<Block, BlockPlace>, t: Tid)
    requires Inv(s, at, where) && t in s.threads && s.threads[t] == AllocBegun && s.available != []
    ensures s.available[0] in s.cached
    ensures BlocksOk(Advanced(s, t).value.state, where[s.cached[s.available[0]] := InOperation(t)])
  {
    hide L.Distinct;
    L.TopOnce(s.available);
    var n := s.available[0];
    assert n in s.available;
    BlockMoves(s, Advanced(s, t).value.state, where, s.cached[n], Cached(n), InOperation(t));
  }

  lemma AllocReturns(s: State, at: map<Node, NodePlace>, where: map<Block, BlockPlace>, t: Tid, n: Node, b: Block)
    requires Inv(s, at, where) && t in s.threads && s.threads[t] == AllocRead(n, b)
    ensures BlocksOk(Advanced(s, t).value.state, where[b := AtClient(t)])
  {
    hide NodesOk;
    assert At(s, b, InOperation(t));
    NotElsewhere(s, where, b, InOperation(t));
    BlockMoves(s, Advanced(s, t).value.state, where, b, InOperation(t), AtClient(t));
  }

  lemma FreeWrites(s: State, at: map<Node, NodePlace>, where: map<Block, BlockPlace>, t: Tid, n: Node, b: Block)
    requires Inv(s, at, where) && t in s.threads && s.threads[t] == FreeGot(n, b)
    ensures BlocksOk(Advanced(s, t).value.state, where)
  {
    hide NodesOk;
    NodeKnown(s, at, t);
    BlocksStay(s, Advanced(s, t).value.state, where);
  }

  lemma FreeCaches(s: State, at: map<Node, NodePlace>, where: map<Block, BlockPlace>, t: Tid, n: Node, b: Block)
    requires Inv(s, at, where) && t in s.threads && s.threads[t] == FreeSet(n, b)
    ensures BlocksOk(Advanced(s, t).value.state, where[b := Cached(n)])
  {
    hide NodesOk;
    NodeKnown(s, at, t);
    InFront(n, s.available);
    assert At(s, b, InOperation(t));
    BlockMoves(s, Advanced(s, t).value.state, where, b, InOperation(t), Cached(n));
  }

  lemma NotElsewhere(s: State, where: map<Block, BlockPlace>, b: Block, p: BlockPlace)
    requires BlocksOk(s, where) && At(s, b, p)
    ensures b in s.mapped && forall q :: q != p ==> !At(s, b, q)
  {
    hide At;
  }

  lemma AdvanceKeepsBlocks(s: State, at: map<Node, NodePlace>, where: map<Block, BlockPlace>, t: Tid)
    requires Inv(s, at, where) && t in s.threads && Advanced(s, t).Some?
    ensures BlocksOk(Advanced(s, t).value.state, BlocksAfter(s, where, t, Advance))
  {
    hide NodesOk, BlocksOk;
    var s' := Advanced(s, t).value.state;
    match s.threads[t] {
      case AllocBegun =>
        if s.available == [] {
          SameBlocks(s, s', where, t);
        } else {
          AllocTakes(s, at, where, t);
        }
      case AllocGot(n) => SameBlocks(s, s', where, t);
      case AllocRead(n, b) => AllocReturns(s, at, where, t, n, b);
      case FreeBegun(b) => SameBlocks(s, s', where, t);
      case FreeMissed(b) => UnmapKeeps(s, where, t, b);
      case FreeGot(n, b) => FreeWrites(s, at, where, t, n, b);
      case FreeSet(n, b) => FreeCaches(s, at, where, t, n, b);
      case _ =>
    }
  }

  /** A step of one thread that changes neither what it carries nor what is cached or held. */
  lemma SameBlocks(s: State, s': State, where: map<Block, BlockPlace>, t: Tid)
    requires BlocksOk(s, where) && t in s.threads && t in s'.threads && s'.threads == s.threads[t := s'.threads[t]]
    requires s'.mapped == s.mapped && s'.held == s.held && s'.cached == s.cached && s'.available == s.available
    requires !s'.threads[t].FreeSet? && forall b :: Carries(s', t, b) <==> Carries(s, t, b)
    ensures BlocksOk(s', where)
  {
    forall c, p ensures At(s', c, p) <==> At(s, c, p) {
    }
    BlocksStay(s, s', where);
  }

  lemma UnmapKeeps(s: State, where: map<Block, BlockPlace>, t: Tid, b: Block)
    requires BlocksOk(s, where) && t in s.threads && s.threads[t] == FreeMissed(b)
    ensures BlocksOk(Advanced(s, t).value.state, map x | x in where && x != b :: where[x])
  {
    assert At(s, b, InOperation(t));
    BlockGoes(s, Advanced(s, t).value.state, where, b, InOperation(t));
  }

  lemma ClientKeepsBlocks(s: State, where: map<Block, BlockPlace>, t: Tid, a: Action)
    requires BlocksOk(s, where) && a != Advance && Step(s, t, a).Some?
    ensures BlocksOk(Step(s, t, a).value.state, BlocksAfter(s, where, t, a))
  {
    var s' := Step(s, t, a).value.state;
    match a {
      case BeginAlloc => SameBlocks(s, s', where, t);
      case BeginFree(b) =>
        assert At(s, b, AtClient(t));
        NotElsewhere(s, where, b, AtClient(t));
        BlockMoves(s, s', where, b, AtClient(t), InOperation(t));
      case Map(b) => BlockComes(s, s', where, b, AtClient(t));
      case Give(b, to) =>
        assert At(s, b, AtClient(t));
        if to == t {
          assert s'.held == s.held;
          BlocksStay(s, s', where);
          assert where[b := AtClient(to)] == where;
        } else {
          BlockMoves(s, s', where, b, AtClient(t), AtClient(to));
        }
    }
  }

  lemma BlocksKept(s: State, at: map<Node, NodePlace>, where: map<Block, BlockPlace>, t: Tid, a: Action)
    requires Inv(s, at, where) && Step(s, t, a).Some?
    ensures BlocksOk(Step(s, t, a).value.state, BlocksAfter(s, where, t, a))
  {
    hide NodesOk, BlocksOk, BlocksAfter;
    if a == Advance {
      AdvanceKeepsBlocks(s, at, where, t);
    } else {
      ClientKeepsBlocks(s, where, t, a);
    }
  }

  /** No step makes a node appear or vanish. */
  lemma SamePlaces(s: State, at: map<Node, NodePlace>, t: Tid, a: Action)
    requires NodesOk(s, at) && Step(s, t, a).Some?
    ensures NodesAfter(s, at, t, a).Keys == at.Keys
  {
    hide L.Distinct;
    if s.available != [] {
      assert s.available[0] in s.available;
    }
    if s.without != [] {
      assert s.without[0] in s.without;
    }
  }

  lemma HeldByEvents(s: State, where: map<Block, BlockPlace>, t: Tid, a: Action, events: seq<Event>)
    requires BlocksOk(s, where) && Step(s, t, a).Some? && InUse(events) == Some(s.held.Keys)
    ensures var o := Step(s, t, a).value; InUse(events + [o.event]) == Some(o.state.held.Keys)
  {
    var o := Step(s, t, a).value;
    assert (events + [o.event])[..|events|] == events;
    match o.event {
      case Allocated(b) =>
        if b in s.held {
          assert At(s, b, AtClient(s.held[b]));
          if a == Advance {
            assert At(s, b, InOperation(t));
          }
        }
        assert s.held[b := t].Keys == s.held.Keys + {b};
      case Unmapped(b) =>
        if b in s.held {
          assert At(s, b, AtClient(s.held[b]));
          assert At(s, b, InOperation(t));
        }
      case Released(b) => assert Without(s.held, b).Keys == s.held.Keys - {b};
      case Silent =>
        if a.Give? {
          assert s.held[a.block := a.to].Keys == s.held.Keys;
        }
    }
  }

  // ---- Runs ----

  datatype Move = Move(thread: Tid, action: Action)
  datatype Trace = Trace(state: State, events: seq<Event>)

  function Run(s: State, schedule: seq<Move>): Option<Trace>
    decreases |schedule|
  {
    if schedule == [] then Some(Trace(s, []))
    else
      var last := schedule[|schedule| - 1];
      match Run(s, schedule[..|schedule| - 1])
      case None => None
      case Some(tr) =>
        match Step(tr.state, last.thread, last.action)
        case None => None
        case Some(o) => Some(Trace(o.state, tr.events + [o.event]))
  }

  /** The blocks a client may use after these events; `None` if a block was handed out twice, or
      came back or was unmapped while it was not the pool's or was a client's. */
  function InUse(events: seq<Event>): Option<set<Block>>
    decreases |events|
  {
    if events == [] then Some({})
    else
      match InUse(events[..|events| - 1])
      case None => None
      case Some(used) =>
        match events[|events| - 1]
        case Silent => Some(used)
        case Allocated(b) => if b in used then None else Some(used + {b})
        case Released(b) => if b in used then Some(used - {b}) else None
        case Unmapped(b) => if b in used then None else Some(used)
  }

  /** The static state: all nodes pushed on the stack of nodes without blocks. */
  predicate Initial(s: State) {
    && s.available == [] && L.Distinct(s.without) && s.cached.Keys == (set n | n in s.without)
    && s.mapped == {} && s.held == map[]
    && forall t :: t in s.threads ==> s.threads[t].Idle?
  }

  ghost function PlacesAtStart(s: State): map<Node, NodePlace> {
    map n | n in s.without :: WithoutBlock
  }

  lemma InitialInv(s: State)
    requires Initial(s)
    ensures Inv(s, PlacesAtStart(s), map[]) && PlacesAtStart(s).Keys == s.cached.Keys
    ensures InUse([]) == Some(s.held.Keys)
  {
    hide L.Distinct;
    assert s.held.Keys == {};
    assert L.Distinct(s.available) by { EmptyDistinct(); }
  }

  lemma EmptyDistinct()
    ensures L.Distinct([])
  {
  }

  /** In every concurrent run each node is in one stack or one thread's hands, each mapped block
      is cached in one node of the available stack, in one operation or at one client, and the
      events alternate as they should: no block is handed out while somebody has it. */
  lemma {:induction false} PoolIsSafe(s: State, schedule: seq<Move>)
    returns (at: map<Node, NodePlace>, where: map<Block, BlockPlace>)
    requires Initial(s) && Run(s, schedule).Some?
    ensures var tr := Run(s, schedule).value;
            && Inv(tr.state, at, where) && at.Keys == s.cached.Keys
            && InUse(tr.events) == Some(tr.state.held.Keys)
    decreases |schedule|
  {
    hide Step, NodesOk, BlocksOk, NodesAfter, BlocksAfter;
    if schedule == [] {
      InitialInv(s);
      at, where := PlacesAtStart(s), map[];
    } else {
      var front, last := schedule[..|schedule| - 1], schedule[|schedule| - 1];
      at, where := PoolIsSafe(s, front);
      var tr := Run(s, front).value;
      var o := Step(tr.state, last.thread, last.action).value;
      NodesKept(tr.state, at, last.thread, last.action);
      BlocksKept(tr.state, at, where, last.thread, last.action);
      SamePlaces(tr.state, at, last.thread, last.action);
      HeldByEvents(tr.state, where, last.thread, last.action, tr.events);
      at, where := NodesAfter(tr.state, at, last.thread, last.action), BlocksAfter(tr.state, where, last.thread, last.action);
    }
  }

  lemma {:induction false} DistinctBound(s: seq<Node>, all: set<Node>)
    requires L.Distinct(s) && forall n :: n in s ==> n in all
    ensures |s| <= |all|
    decreases |s|
  {
    if s != [] {
      L.TopOnce(s);
      DistinctBound(s[1..], all - {s[0]});
    }
  }

  lemma BothStacksDistinct(s: State, at: map<Node, NodePlace>)
    requires NodesOk(s, at)
    ensures L.Distinct(s.available + s.without) && forall n :: n in s.available + s.without ==> n in s.cached
  {
    var both := s.available + s.without;
    forall i, j | 0 <= i < j < |both| ensures both[i] != both[j] {
      if i < |s.available| <= j {
        assert both[i] in s.available && both[j] in s.without;
        assert both[i] in at && both[j] in at;
      }
    }
  }

  /** The pool never keeps more blocks than it has nodes, `kSizeLimit / kBlockSize`. */
  lemma CacheIsBounded(s: State, schedule: seq<Move>)
    requires Initial(s) && Run(s, schedule).Some?
    ensures var now := Run(s, schedule).value.state; |now.available| + |now.without| <= |s.cached|
  {
    hide Run, NodesOk, BlocksOk, L.Distinct;
    var at, where := PoolIsSafe(s, schedule);
    var now := Run(s, schedule).value.state;
    BothStacksDistinct(now, at);
    SameKeys(now, at);
    DistinctBound(now.available + now.without, s.cached.Keys);
  }

  lemma SameKeys(s: State, at: map<Node, NodePlace>)
    requires NodesOk(s, at)
    ensures at.Keys == s.cached.Keys
  {
  }
}
