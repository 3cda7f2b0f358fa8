/** `ForeverAllocator`: a bump allocator over one shared word, for any number of threads, one
    atomic access at a time. The compare-and-swap of the loop is weak, the one that publishes a
    page is strong; pages come from the kernel, fresh, page aligned and below 2^56, the end of
    the user half of the largest RISC-V address space (Sv57). */
module ForeverAllocator {
  import opened Words
  import opened Wrappers

  type Tid = nat

  /** Alignments are powers of two that fit a `size_t`. */
  type AlignBits = k: nat | k < 64

  datatype Thread =
    | Idle
    | Loading(size: nat, align: AlignBits)
    | NeedsPage(size: nat, align: AlignBits)                // the local `curr` is zero
    | HasPage(size: nat, align: AlignBits, page: nat)       // mapped, not yet published
    | LostPage(size: nat, align: AlignBits, page: nat, curr: nat)
    | Trying(size: nat, align: AlignBits, curr: nat)        // the local `curr` is not zero
  {
    predicate OwnsPage() { HasPage? || LostPage? }
  }

  datatype State = State(curr: nat, mapped: set<nat>, threads: map<Tid, Thread>)

  datatype Action =
    | Begin(size: nat, align: AlignBits)
    | Load
    | Map(page: nat)
    | Publish
    | Unmap
    | Swap          // the weak compare-and-swap succeeds
    | Fail          // it fails, perhaps spuriously, and reloads `curr`

  datatype Event = Silent | Allocated(page: nat, start: nat, size: nat, align: AlignBits) | Unmapped(page: nat)
  datatype Outcome = Outcome(state: State, event: Event)

  function AlignDown(x: nat, a: nat): (r: nat)
    requires a > 0
  {
    Euclid(x, a);
    MulNonNegative(a, x / a);
    x - x % a
  }

  lemma MulNonNegative(a: nat, q: int)
    ensures q >= 0 ==> a * q >= 0
  {
  }

  function Align(k: AlignBits): (a: nat)
    ensures a > 0
  {
    Power(k)
  }

  function AlignUp(x: nat, k: AlignBits): nat {
    AlignDown(Wrap(x + Align(k) - 1), Align(k))
  }

  function Next(curr: nat, size: nat, k: AlignBits): u64 {
    Wrap(AlignUp(curr, k) + size)
  }

  function End(curr: nat, pageSize: nat): u64
    requires pageSize > 0
  {
    Wrap(AlignDown(curr, pageSize) + pageSize)
  }

  function Goto(s: State, t: Tid, th: Thread): State {
    s.(threads := s.threads[t := th])
  }

  /** The top of the loop with this local `curr`. */
  function Top(curr: nat, size: nat, align: AlignBits): Thread {
    if curr == 0 then NeedsPage(size, align) else Trying(size, align, curr)
  }

  function Step(pageSize: nat, s: State, t: Tid, a: Action): Option<Outcome>
    requires pageSize > 0
  {
    if t !in s.threads then None
    else
      var th := s.threads[t];
      match a
      case Begin(size, align) =>
        if th.Idle? && 0 < size < pageSize then Some(Outcome(Goto(s, t, Loading(size, align)), Silent)) else None
      case Load =>
        if th.Loading? then Some(Outcome(Goto(s, t, Top(s.curr, th.size, th.align)), Silent)) else None
      case Map(page) =>
        if th.NeedsPage? && page !in s.mapped && page % pageSize == 0 && 0 < page && page + pageSize <= 0x100_0000_0000_0000 then
          Some(Outcome(Goto(s.(mapped := s.mapped + {page}), t, HasPage(th.size, th.align, page)), Silent))
        else None
      case Publish =>
        if !th.HasPage? then None
        else if s.curr == 0 then
          Some(Outcome(Goto(s.(curr := th.page), t, Trying(th.size, th.align, th.page)), Silent))
        else Some(Outcome(Goto(s, t, LostPage(th.size, th.align, th.page, s.curr)), Silent))
      case Unmap =>
        if th.LostPage? then
          Some(Outcome(Goto(s.(mapped := s.mapped - {th.page}), t, Trying(th.size, th.align, th.curr)), Unmapped(th.page)))
        else None
      case Swap =>
        if th.Trying? && s.curr == th.curr then
          var next, end := Next(th.curr, th.size, th.align), End(th.curr, pageSize);
          if end < next then Some(Outcome(s.(curr := 0), Silent))   // the local `curr` stays
          else
            Some(Outcome(Goto(s.(curr := if end == next then 0 else next), t, Idle),
                         Allocated(AlignDown(th.curr, pageSize), AlignUp(th.curr, th.align), th.size, th.align)))
        else None
      case Fail =>
        if th.Trying? then Some(Outcome(Goto(s, t, Top(s.curr, th.size, th.align)), Silent)) else None
  }

  // ---- The invariant ----

  predicate IsPage(pageSize: nat, page: nat)
    requires pageSize > 0
  {
    page % pageSize == 0 && 0 < page && page + pageSize <= 0x100_0000_0000_0000
  }

  /** A block that was returned lies in a mapped page nobody may unmap, below the shared word if
      that points into the same page. */
  ghost predicate BlockOk(pageSize: nat, s: State, b: Event)
    requires pageSize > 0
  {
    b.Allocated? ==>
      && b.page in s.mapped && b.size > 0
      && b.page <= b.start && b.start + b.size <= b.page + pageSize && b.start % Align(b.align) == 0
      && (s.curr != 0 && AlignDown(s.curr, pageSize) == b.page ==> b.start + b.size <= s.curr)
  }

  /** The page a thread has mapped is its own: no block, no shared word and no other thread in it. */
  ghost predicate OwnerOk(pageSize: nat, s: State, events: seq<Event>, t: Tid)
    requires pageSize > 0
  {
    t in s.threads && s.threads[t].OwnsPage() ==>
      var page := s.threads[t].page;
      && page in s.mapped
      && (s.curr != 0 ==> AlignDown(s.curr, pageSize) != page)
      && (forall i :: 0 <= i < |events| && events[i].Allocated? ==> events[i].page != page)
      && (forall u :: u in s.threads && u != t && s.threads[u].OwnsPage() ==> s.threads[u].page != page)
  }

  ghost predicate Separate(events: seq<Event>) {
    forall i, j :: 0 <= i < j < |events| ==> Apart(events[i], events[j])
  }

  ghost predicate Apart(x: Event, y: Event) {
    x.Allocated? && y.Allocated? ==> x.start + x.size <= y.start || y.start + y.size <= x.start
  }

  ghost predicate Inv(pageSize: nat, s: State, events: seq<Event>)
    requires pageSize > 0
  {
    && (forall p :: p in s.mapped ==> IsPage(pageSize, p))
    && (s.curr != 0 ==> AlignDown(s.curr, pageSize) in s.mapped)
    && (forall i :: 0 <= i < |events| ==> BlockOk(pageSize, s, events[i]))
    && (forall t :: t in s.threads ==> OwnerOk(pageSize, s, events, t))
    && (forall t :: t in s.threads && s.threads[t].Trying? ==> s.threads[t].curr != 0)
    && (forall t :: t in s.threads && s.threads[t].LostPage? ==> s.threads[t].curr != 0)
    && (forall t :: t in s.threads && !s.threads[t].Idle? ==> 0 < s.threads[t].size < pageSize)
    && Separate(events)
  }

  // ---- Addresses ----

  lemma AlignDownIs(x: nat, page: nat, pageSize: nat)
    requires pageSize > 0 && page % pageSize == 0 && page <= x < page + pageSize
    ensures AlignDown(x, pageSize) == page
  {
    Euclid(page, pageSize);
    Div(x, pageSize, page / pageSize, x - page);
  }

  lemma AlignDownBounds(x: nat, a: nat)
    requires a > 0
    ensures AlignDown(x, a) <= x < AlignDown(x, a) + a && AlignDown(x, a) % a == 0
  {
    Euclid(x, a);
    Div(x - x % a, a, x / a, 0);
  }

  lemma {:induction false} AlignBound(k: nat)
    requires k < 64
    ensures Shl(1, k) <= 0x8000_0000_0000_0000
  {
    Doubling(k, 63);
    ShlValues(1);
    assert Shl(1, 63) == 0x8000_0000_0000_0000 by { Shl63(); }
  }

  lemma {:induction false} Doubling(k: nat, n: nat)
    requires k <= n
    ensures Shl(1, k) <= Shl(1, n)
    decreases n
  {
    if k < n {
      Doubling(k, n - 1);
      ShlPositive(n - 1);
    }
  }

  lemma Shl63()
    ensures Shl(1, 63) == 0x8000_0000_0000_0000
  {
    ShlValues(1);
    assert Shl(1, 24) == 0x10 * Shl(1, 20) by { FourMore(20); }
    FourMore(24);
    FourMore(28);
    FourMore(32);
    FourMore(36);
    FourMore(40);
    FourMore(44);
    FourMore(48);
    FourMore(52);
    FourMore(56);
    assert Shl(1, 63) == 2 * Shl(1, 62) == 4 * Shl(1, 61) == 8 * Shl(1, 60);
  }

  lemma FourMore(k: nat)
    ensures Shl(1, k + 4) == 0x10 * Shl(1, k)
  {
    assert Shl(1, k + 4) == 2 * Shl(1, k + 3) == 4 * Shl(1, k + 2) == 8 * Shl(1, k + 1);
  }

  /** No 64-bit wrap-around happens, whatever the alignment. */
  lemma NoWrap(pageSize: nat, curr: nat, size: nat, k: AlignBits)
    requires pageSize > 0 && 0 < size < pageSize && IsPage(pageSize, AlignDown(curr, pageSize))
    ensures curr <= AlignUp(curr, k) && AlignUp(curr, k) % Align(k) == 0
    ensures Next(curr, size, k) == AlignUp(curr, k) + size
    ensures End(curr, pageSize) == AlignDown(curr, pageSize) + pageSize
  {
    hide Align, AlignDown, Wrap;
    var a := Align(k);
    AlignUpBounds(curr, k, pageSize);
    Small(AlignUp(curr, k) + size);
    Small(AlignDown(curr, pageSize) + pageSize);
  }

  lemma Small(x: nat)
    requires x < TWO_64
    ensures Wrap(x) == x
  {
    Div(x, TWO_64, 0, x);
  }

  lemma AlignUpBounds(curr: nat, k: AlignBits, pageSize: nat)
    requires pageSize > 0 && IsPage(pageSize, AlignDown(curr, pageSize))
    ensures curr <= AlignUp(curr, k) < curr + Align(k) && AlignUp(curr, k) % Align(k) == 0
    ensures Align(k) <= 0x8000_0000_0000_0000 && curr < 0x100_0000_0000_0000
  {
    hide AlignDown, Wrap, Shl;
    AlignBound(k);
    AlignDownBounds(curr, pageSize);
    Small(curr + Align(k) - 1);
    AlignDownBounds(curr + Align(k) - 1, Align(k));
  }

  // ---- One step ----

  /** The words that stay what they were keep every block and owner as they were. */
  lemma OwnersStay(pageSize: nat, s: State, s': State, events: seq<Event>, t: Tid)
    requires pageSize > 0 && Inv(pageSize, s, events) && t in s.threads && s'.threads.Keys == s.threads.Keys
    requires forall u :: u in s.threads && u != t ==> s'.threads[u] == s.threads[u]
    requires s'.curr == s.curr && s'.mapped == s.mapped && s'.threads[t].OwnsPage() == s.threads[t].OwnsPage()
    requires s'.threads[t].OwnsPage() ==> s'.threads[t].page == s.threads[t].page
    requires s'.threads[t].Trying? || s'.threads[t].LostPage? ==> s'.threads[t].curr != 0
    requires !s'.threads[t].Idle? ==> 0 < s'.threads[t].size < pageSize
    ensures Inv(pageSize, s', events)
  {
    hide AlignDown, Align, IsPage, Separate;
  }

  lemma MapKeeps(pageSize: nat, s: State, s': State, events: seq<Event>, t: Tid, page: nat)
    requires pageSize > 0 && Inv(pageSize, s, events) && Step(pageSize, s, t, Map(page)) == Some(Outcome(s', Silent))
    ensures Inv(pageSize, s', events)
  {
    hide AlignDown, Align, Separate;
  }

  lemma PublishKeeps(pageSize: nat, s: State, s': State, events: seq<Event>, t: Tid)
    requires pageSize > 0 && Inv(pageSize, s, events) && Step(pageSize, s, t, Publish) == Some(Outcome(s', Silent))
    ensures Inv(pageSize, s', events)
  {
    hide AlignDown, Align, Separate;
    assert OwnerOk(pageSize, s, events, t);
    if s.curr == 0 {
      AlignDownIs(s.threads[t].page, s.threads[t].page, pageSize);
    }
  }

  lemma UnmapKeeps(pageSize: nat, s: State, s': State, events: seq<Event>, t: Tid)
    requires pageSize > 0 && Inv(pageSize, s, events) && t in s.threads && s.threads[t].LostPage?
    requires s' == Step(pageSize, s, t, Unmap).value.state
    ensures Inv(pageSize, s', events)
  {
    hide AlignDown, Align, Separate;
    assert OwnerOk(pageSize, s, events, t);
  }

  lemma RetireKeeps(pageSize: nat, s: State, events: seq<Event>)
    requires pageSize > 0 && Inv(pageSize, s, events)
    ensures Inv(pageSize, s.(curr := 0), events)
  {
    hide AlignDown, Align, Separate, IsPage;
  }

  /** The new block is inside the page and above every earlier block of it. */
  lemma AllocateKeeps(pageSize: nat, s: State, s': State, events: seq<Event>, t: Tid, size: nat, k: AlignBits)
    requires pageSize > 0 && Inv(pageSize, s, events) && t in s.threads && s.curr != 0
    requires s.threads[t] == Trying(size, k, s.curr) && Next(s.curr, size, k) <= End(s.curr, pageSize)
    requires var next, end := Next(s.curr, size, k), End(s.curr, pageSize);
             s' == Goto(s.(curr := if end == next then 0 else next), t, Idle)
    ensures Inv(pageSize, s', events + [Allocated(AlignDown(s.curr, pageSize), AlignUp(s.curr, k), size, k)])
  {
    hide AlignDown, Align, AlignUp, Next, End;
    var page := AlignDown(s.curr, pageSize);
    NoWrap(pageSize, s.curr, size, k);
    AlignDownBounds(s.curr, pageSize);
    if s'.curr != 0 {
      AlignDownIs(s'.curr, page, pageSize);
    }
    NewBlock(pageSize, s, s', events, Allocated(page, AlignUp(s.curr, k), size, k));
  }

  lemma NewBlock(pageSize: nat, s: State, s': State, events: seq<Event>, b: Event)
    requires pageSize > 0 && Inv(pageSize, s, events) && b.Allocated? && s.curr != 0
    requires b.page == AlignDown(s.curr, pageSize) && s.curr <= b.start && b.page <= b.start && b.size > 0
    requires b.start + b.size <= b.page + pageSize && b.start % Align(b.align) == 0
    requires s'.curr == 0 || (s'.curr == b.start + b.size && AlignDown(s'.curr, pageSize) == b.page)
    requires s'.mapped == s.mapped
    requires exists t :: t in s.threads && s'.threads == s.threads[t := Idle] && !s.threads[t].OwnsPage()
    ensures Inv(pageSize, s', events + [b])
  {
    hide AlignDown, Align, IsPage;
    var more := events + [b];
    forall i | 0 <= i < |more| ensures BlockOk(pageSize, s', more[i]) {
      if i < |events| {
        assert BlockOk(pageSize, s, events[i]);
      }
    }
    forall i, j | 0 <= i < j < |more| ensures Apart(more[i], more[j]) {
      if j == |events| {
        BlocksApart(pageSize, s, events[i], b);
      }
    }
    forall t | t in s'.threads ensures OwnerOk(pageSize, s', more, t) {
      assert OwnerOk(pageSize, s, events, t);
    }
  }

  lemma BlocksApart(pageSize: nat, s: State, x: Event, b: Event)
    requires pageSize > 0 && b.Allocated? && s.curr != 0 && BlockOk(pageSize, s, x)
    requires forall p :: p in s.mapped ==> IsPage(pageSize, p)
    requires b.page == AlignDown(s.curr, pageSize) && b.page in s.mapped && s.curr <= b.start && b.page <= b.start
    requires b.start + b.size <= b.page + pageSize
    ensures Apart(x, b)
  {
    hide AlignDown, Align;
    if x.Allocated? && x.page != b.page {
      PagesApart(pageSize, x.page, b.page);
    }
  }

  lemma PagesApart(pageSize: nat, x: nat, y: nat)
    requires pageSize > 0 && x % pageSize == 0 && y % pageSize == 0 && x != y
    ensures x + pageSize <= y || y + pageSize <= x
  {
    if x <= y < x + pageSize {
      AlignDownIs(y, x, pageSize);
    } else if y <= x < y + pageSize {
      AlignDownIs(x, y, pageSize);
    }
  }

  lemma StepKeeps(pageSize: nat, s: State, events: seq<Event>, t: Tid, a: Action)
    requires pageSize > 0 && Inv(pageSize, s, events) && Step(pageSize, s, t, a).Some?
    ensures var o := Step(pageSize, s, t, a).value; Inv(pageSize, o.state, events + [o.event])
  {
    hide Inv, Next, End, AlignUp, AlignDown;
    var o := Step(pageSize, s, t, a).value;
    match a {
      case Map(page) => MapKeeps(pageSize, s, o.state, events, t, page);
      case Publish => PublishKeeps(pageSize, s, o.state, events, t);
      case Unmap => UnmapKeeps(pageSize, s, o.state, events, t);
      case Swap =>
        CurrNotZero(pageSize, s, events, t);
        if o.event.Allocated? {
          AllocateKeeps(pageSize, s, o.state, events, t, s.threads[t].size, s.threads[t].align);
        } else {
          RetireKeeps(pageSize, s, events);
        }
      case Begin(_, _) => OwnersStay(pageSize, s, o.state, events, t);
      case _ =>
        SizeKnown(pageSize, s, events, t);
        OwnersStay(pageSize, s, o.state, events, t);
    }
    if !o.event.Allocated? {
      OtherEvent(pageSize, o.state, events, o.event);
    }
  }

  lemma CurrNotZero(pageSize: nat, s: State, events: seq<Event>, t: Tid)
    requires pageSize > 0 && Inv(pageSize, s, events) && t in s.threads && s.threads[t].Trying?
    ensures s.threads[t].curr != 0
  {
  }

  lemma SizeKnown(pageSize: nat, s: State, events: seq<Event>, t: Tid)
    requires pageSize > 0 && Inv(pageSize, s, events) && t in s.threads && !s.threads[t].Idle?
    ensures 0 < s.threads[t].size < pageSize
  {
  }

  lemma OtherEvent(pageSize: nat, s: State, events: seq<Event>, e: Event)
    requires pageSize > 0 && Inv(pageSize, s, events) && !e.Allocated?
    ensures Inv(pageSize, s, events + [e])
  {
    hide AlignDown, Align, IsPage, Apart;
    var more := events + [e];
    forall t | t in s.threads ensures OwnerOk(pageSize, s, more, t) {
      assert OwnerOk(pageSize, s, events, t);
    }
    forall i, j | 0 <= i < j < |more| ensures Apart(more[i], more[j]) {
      if j == |events| {
        NotABlock(more[i], e);
      }
    }
  }

  lemma NotABlock(x: Event, e: Event)
    requires !e.Allocated?
    ensures Apart(x, e)
  {
  }

  // ---- Runs ----

  datatype Move = Move(thread: Tid, action: Action)
  datatype Trace = Trace(state: State, events: seq<Event>)

  function Run(pageSize: nat, s: State, schedule: seq<Move>): Option<Trace>
    requires pageSize > 0
    decreases |schedule|
  {
    if schedule == [] then Some(Trace(s, []))
    else
      var last := schedule[|schedule| - 1];
      match Run(pageSize, s, schedule[..|schedule| - 1])
      case None => None
      case Some(tr) =>
        match Step(pageSize, tr.state, last.thread, last.action)
        case None => None
        case Some(o) => Some(Trace(o.state, tr.events + [o.event]))
  }

  predicate Initial(s: State) {
    s.curr == 0 && s.mapped == {} && forall t :: t in s.threads ==> s.threads[t].Idle?
  }

  /** The invariant over every interleaving. */
  lemma {:induction false} RunKeeps(pageSize: nat, s: State, schedule: seq<Move>)
    requires pageSize > 0 && Initial(s) && Run(pageSize, s, schedule).Some?
    ensures var tr := Run(pageSize, s, schedule).value; Inv(pageSize, tr.state, tr.events)
    decreases |schedule|
  {
    hide Step;
    if schedule == [] {
    } else {
      hide Inv;
      var front, last := schedule[..|schedule| - 1], schedule[|schedule| - 1];
      RunKeeps(pageSize, s, front);
      var tr := Run(pageSize, s, front).value;
      StepKeeps(pageSize, tr.state, tr.events, last.thread, last.action);
    }
  }

  /** In every interleaving the blocks returned are pairwise disjoint, aligned and each inside one
      page that is still mapped. */
  lemma BlocksAreDisjoint(pageSize: nat, s: State, schedule: seq<Move>, i: nat, j: nat)
    requires pageSize > 0 && Initial(s) && Run(pageSize, s, schedule).Some?
    requires i < j < |Run(pageSize, s, schedule).value.events|
    requires Run(pageSize, s, schedule).value.events[i].Allocated?
    requires Run(pageSize, s, schedule).value.events[j].Allocated?
    ensures var tr := Run(pageSize, s, schedule).value;
            var x, y := tr.events[i], tr.events[j];
            && (x.start + x.size <= y.start || y.start + y.size <= x.start)
            && x.start % Align(x.align) == 0 && x.page % pageSize == 0 && x.page in tr.state.mapped
            && x.page <= x.start && x.start + x.size <= x.page + pageSize
  {
    hide Run, AlignDown, Align, Initial;
    RunKeeps(pageSize, s, schedule);
    var tr := Run(pageSize, s, schedule).value;
    assert BlockOk(pageSize, tr.state, tr.events[i]) && Apart(tr.events[i], tr.events[j]);
  }

  /** A page that is unmapped never gave a block. */
  lemma UnmappedPagesAreUnused(pageSize: nat, s: State, schedule: seq<Move>, t: Tid, i: nat)
    requires pageSize > 0 && Initial(s) && Run(pageSize, s, schedule).Some?
    requires var tr := Run(pageSize, s, schedule).value;
             t in tr.state.threads && tr.state.threads[t].LostPage? && i < |tr.events| && tr.events[i].Allocated?
    ensures var tr := Run(pageSize, s, schedule).value;
            Step(pageSize, tr.state, t, Unmap).Some?
            && Step(pageSize, tr.state, t, Unmap).value.event == Unmapped(tr.state.threads[t].page)
            && tr.events[i].page != tr.state.threads[t].page
  {
    hide Run, AlignDown, Align, Initial;
    RunKeeps(pageSize, s, schedule);
    var tr := Run(pageSize, s, schedule).value;
    assert OwnerOk(pageSize, tr.state, tr.events, t);
  }

  // ---- Progress ----

  lemma MultipleOfMultiple(x: nat, a: nat, b: nat)
    requires a > 0 && b > 0 && x % (a * b) == 0
    ensures x % a == 0
  {
    var q := x / (a * b);
    Euclid(x, a * b);
    assert x == a * (b * q);
    Div(x, a, b * q, 0);
  }

  /** An address is its own aligned address exactly when it is aligned. */
  lemma AlreadyAligned(x: nat, a: nat)
    requires a > 0 && x % a == 0
    ensures AlignDown(x + a - 1, a) == x
  {
    Euclid(x, a);
    Div(x + a - 1, a, x / a, a - 1);
  }

  /** A fresh page serves any request whose alignment divides its address, so every alignment up to
      the page size; a request with a larger one that does not divide it is sent to the next page. */
  lemma FreshPageServes(pageBits: AlignBits, page: nat, size: nat, k: AlignBits)
    requires IsPage(Align(pageBits), page) && 0 < size < Align(pageBits)
    ensures Next(page, size, k) <= End(page, Align(pageBits)) <==> page % Align(k) == 0
    ensures k <= pageBits ==> page % Align(k) == 0
  {
    hide Align, AlignDown, AlignUp, Next, End;
    var p, a := Align(pageBits), Align(k);
    AlignDownIs(page, page, p);
    NoWrap(p, page, size, k);
    if k <= pageBits {
      AlignSplits(k, pageBits);
      MultipleOfMultiple(page, a, Align(pageBits - k));
    }
    if page % a == 0 {
      AlignedStays(page, k, p);
    } else {
      AlignSplits(pageBits, k);
      MultipleOfMultiple(AlignUp(page, k), p, Align(k - pageBits));
      PagesApart(p, page, AlignUp(page, k));
    }
  }

  lemma AlignSplits(j: AlignBits, k: AlignBits)
    requires j <= k
    ensures Align(k) == Align(j) * Align(k - j)
  {
    PowerSum(j, k - j);
  }

  lemma AlignedStays(page: nat, k: AlignBits, pageSize: nat)
    requires pageSize > 0 && IsPage(pageSize, AlignDown(page, pageSize)) && page % Align(k) == 0
    ensures AlignUp(page, k) == page
  {
    hide AlignDown, Wrap, Align;
    AlignUpBounds(page, k, pageSize);
    Small(page + Align(k) - 1);
    AlreadyAligned(page, Align(k));
  }

  ghost predicate Maps(schedule: seq<Move>, page: nat) {
    exists i :: 0 <= i < |schedule| && schedule[i].action == Map(page)
  }

  lemma MapsLonger(front: seq<Move>, schedule: seq<Move>, page: nat)
    requires |front| < |schedule| && front == schedule[..|front|] && Maps(front, page)
    ensures Maps(schedule, page)
  {
    var i :| 0 <= i < |front| && front[i].action == Map(page);
    assert schedule[i].action == Map(page);
  }

  /** Only the kernel's answers are ever mapped. */
  lemma {:induction false} MappedByKernel(pageSize: nat, s: State, schedule: seq<Move>, page: nat)
    requires pageSize > 0 && Initial(s) && Run(pageSize, s, schedule).Some?
    requires page in Run(pageSize, s, schedule).value.state.mapped
    ensures Maps(schedule, page)
    decreases |schedule|
  {
    hide Next, End, AlignUp, AlignDown;
    if schedule != [] {
      var front, last := schedule[..|schedule| - 1], schedule[|schedule| - 1];
      if page in Run(pageSize, s, front).value.state.mapped {
        MappedByKernel(pageSize, s, front, page);
        MapsLonger(front, schedule, page);
      } else {
        assert last.action == Map(page);
      }
    }
  }

  /** A block aligned beyond the page size starts its page. */
  lemma LargeStartsPage(pageBits: AlignBits, page: nat, start: nat, k: AlignBits)
    requires page % Align(pageBits) == 0 && page <= start < page + Align(pageBits)
    requires start % Align(k) == 0 && pageBits <= k
    ensures start == page
  {
    hide Align;
    AlignSplits(pageBits, k);
    MultipleOfMultiple(start, Align(pageBits), Align(k - pageBits));
    if start != page {
      PagesApart(Align(pageBits), page, start);
    }
  }

  /** In every interleaving a block's page is a multiple of its alignment or the alignment is below
      the page size: so when no page that the kernel gave is a multiple of `Align(k)`, no request
      with this alignment has returned, however long the run. */
  lemma NeverReturns(pageBits: AlignBits, s: State, schedule: seq<Move>, k: AlignBits)
    requires Initial(s) && Run(Align(pageBits), s, schedule).Some?
    requires forall page: nat :: Maps(schedule, page) ==> page % Align(k) != 0
    ensures forall i :: 0 <= i < |Run(Align(pageBits), s, schedule).value.events| ==>
              var e := Run(Align(pageBits), s, schedule).value.events[i]; !(e.Allocated? && e.align == k)
  {
    hide Align, Run, Maps, AlignDown, Initial;
    RunKeeps(Align(pageBits), s, schedule);
    var tr := Run(Align(pageBits), s, schedule).value;
    forall i | 0 <= i < |tr.events| ensures !(tr.events[i].Allocated? && tr.events[i].align == k) {
      var e := tr.events[i];
      assert BlockOk(Align(pageBits), tr.state, e);
      if e.Allocated? && e.align == k {
        ServedByAligned(pageBits, tr.state, e);
        MappedByKernel(Align(pageBits), s, schedule, e.page);
      }
    }
  }

  lemma ServedByAligned(pageBits: AlignBits, s: State, e: Event)
    requires e.Allocated? && BlockOk(Align(pageBits), s, e) && forall p :: p in s.mapped ==> IsPage(Align(pageBits), p)
    ensures e.page in s.mapped && e.page % Align(e.align) == 0
  {
    hide Align, AlignDown;
    if pageBits <= e.align {
      LargeStartsPage(pageBits, e.page, e.start, e.align);
    } else {
      AlignSplits(e.align, pageBits);
      MultipleOfMultiple(e.page, Align(e.align), Align(pageBits - e.align));
    }
  }

  // ---- Nothing is wasted ----

  /** A swap that returns a block takes the first aligned address from the shared word on, and leaves
      the word behind the block, or zero exactly when the block ends its page. */
  lemma SwapTakesNext(pageSize: nat, s: State, events: seq<Event>, t: Tid)
    requires pageSize > 0 && Inv(pageSize, s, events) && Step(pageSize, s, t, Swap).Some?
    requires Step(pageSize, s, t, Swap).value.event.Allocated?
    ensures var o, th := Step(pageSize, s, t, Swap).value, s.threads[t];
            var b := o.event;
            && b.size == th.size && b.align == th.align && b.page == AlignDown(s.curr, pageSize)
            && b.start % Align(b.align) == 0 && s.curr <= b.start < s.curr + Align(b.align)
            && o.state == State(if b.start + b.size == b.page + pageSize then 0 else b.start + b.size, s.mapped, s.threads[t := Idle])
  {
    hide AlignDown, Align, AlignUp, Next, End, OwnerOk, BlockOk, Separate;
    var th := s.threads[t];
    CurrNotZero(pageSize, s, events, t);
    SizeKnown(pageSize, s, events, t);
    NoWrap(pageSize, s.curr, th.size, th.align);
    AlignUpBounds(s.curr, th.align, pageSize);
  }

  /** The shared word changes in three ways only: a page is published where it was zero, a block is
      taken, or the page is given up by a request that does not fit behind the word any more. */
  lemma WordChanges(pageSize: nat, s: State, events: seq<Event>, t: Tid, a: Action)
    requires pageSize > 0 && Inv(pageSize, s, events) && Step(pageSize, s, t, a).Some?
    ensures var o, th := Step(pageSize, s, t, a).value, s.threads[t];
            o.state.curr != s.curr ==>
              || (a == Publish && th.HasPage? && s.curr == 0 && o.state.curr == th.page)
              || (a == Swap && s.curr != 0 && o.event.Allocated?)
              || (a == Swap && th.Trying? && s.curr == th.curr && o.state.curr == 0
                  && AlignUp(s.curr, th.align) + th.size > AlignDown(s.curr, pageSize) + pageSize)
  {
    hide AlignDown, Align, AlignUp, Next, End, OwnerOk, BlockOk, Separate;
    if a == Swap {
      var th := s.threads[t];
      CurrNotZero(pageSize, s, events, t);
      SizeKnown(pageSize, s, events, t);
      NoWrap(pageSize, s.curr, th.size, th.align);
    }
  }

  /** So a page in use is given up only by a request that does not fit, or by one that fills it. */
  lemma RetiredWhenFull(pageSize: nat, s: State, events: seq<Event>, t: Tid, a: Action)
    requires pageSize > 0 && Inv(pageSize, s, events) && Step(pageSize, s, t, a).Some?
    requires s.curr != 0 && Step(pageSize, s, t, a).value.state.curr == 0
    ensures a == Swap && s.threads[t].Trying?
            && AlignUp(s.curr, s.threads[t].align) + s.threads[t].size >= AlignDown(s.curr, pageSize) + pageSize
  {
    hide AlignDown, Align, AlignUp, Next, End, OwnerOk, BlockOk, Separate, Step;
    WordChanges(pageSize, s, events, t, a);
    if Step(pageSize, s, t, a).value.event.Allocated? {
      SwapFills(pageSize, s, events, t, a);
    }
  }

  lemma SwapFills(pageSize: nat, s: State, events: seq<Event>, t: Tid, a: Action)
    requires pageSize > 0 && Inv(pageSize, s, events) && Step(pageSize, s, t, a).Some? && s.curr != 0
    requires Step(pageSize, s, t, a).value.state.curr == 0 && Step(pageSize, s, t, a).value.event.Allocated?
    ensures a == Swap && s.threads[t].Trying?
            && AlignUp(s.curr, s.threads[t].align) + s.threads[t].size >= AlignDown(s.curr, pageSize) + pageSize
  {
    hide AlignDown, Align, AlignUp, Next, End, OwnerOk, BlockOk, Separate;
    var th := s.threads[t];
    CurrNotZero(pageSize, s, events, t);
    SizeKnown(pageSize, s, events, t);
    NoWrap(pageSize, s.curr, th.size, th.align);
  }

  /** A request ends with a block for it and not before. */
  lemma OnlyServedLeave(pageSize: nat, s: State, t: Tid, a: Action)
    requires pageSize > 0 && Step(pageSize, s, t, a).Some? && !s.threads[t].Idle?
    ensures var o, th := Step(pageSize, s, t, a).value, s.threads[t];
            && t in o.state.threads
            && var now := o.state.threads[t];
               if o.event.Allocated? then now.Idle? && o.event.size == th.size && o.event.align == th.align
               else !now.Idle? && now.size == th.size && now.align == th.align
  {
    hide AlignDown, Align, AlignUp, Next, End;
  }

  /** A thread with a request always has a next move, whatever the others do; the compare-and-swap may
      fail at any time. */
  lemma NextMove(pageSize: nat, s: State, t: Tid, a: Action)
    requires pageSize > 0 && t in s.threads
    ensures Step(pageSize, s, t, a).Some? <==>
              match s.threads[t]
              case Idle => a.Begin? && 0 < a.size < pageSize
              case Loading(_, _) => a == Load
              case NeedsPage(_, _) => a.Map? && a.page !in s.mapped && IsPage(pageSize, a.page)
              case HasPage(_, _, _) => a == Publish
              case LostPage(_, _, _, _) => a == Unmap
              case Trying(_, _, curr) => a == Fail || (a == Swap && s.curr == curr)
  {
    hide AlignDown, Align, AlignUp, Next, End;
  }

  /** And it asks for a page only where the shared word was zero. */
  lemma PageOnlyAtZero(pageSize: nat, s: State, t: Tid, a: Action)
    requires pageSize > 0 && Step(pageSize, s, t, a).Some? && !s.threads[t].NeedsPage?
    ensures var o := Step(pageSize, s, t, a).value;
            t in o.state.threads && o.state.threads[t].NeedsPage? ==> s.curr == 0 && (a == Load || a == Fail)
  {
    hide AlignDown, Align, AlignUp, Next, End;
  }

  /** The page is in the shared word, or a thread has it for itself. */
  ghost predicate InUse(pageSize: nat, s: State, page: nat)
    requires pageSize > 0
  {
    (s.curr != 0 && AlignDown(s.curr, pageSize) == page) || exists t :: Owns(s, t, page)
  }

  ghost predicate Owns(s: State, t: Tid, page: nat) {
    t in s.threads && s.threads[t].OwnsPage() && s.threads[t].page == page
  }

  /** No page is lost: one that is mapped and no longer in use was given up by a request that fills it
      or does not fit in it. */
  lemma NoPageIsLost(pageSize: nat, s: State, events: seq<Event>, t: Tid, a: Action, page: nat)
    requires pageSize > 0 && Inv(pageSize, s, events) && Step(pageSize, s, t, a).Some?
    requires var s' := Step(pageSize, s, t, a).value.state; page in s'.mapped && !InUse(pageSize, s', page)
    ensures page in s.mapped
    ensures InUse(pageSize, s, page) ==>
              && a == Swap && s.threads[t].Trying? && s.curr != 0 && page == AlignDown(s.curr, pageSize)
              && AlignUp(s.curr, s.threads[t].align) + s.threads[t].size >= page + pageSize
  {
    hide AlignDown, Align, AlignUp, Next, End, OwnerOk, BlockOk, Separate, Step, Inv, InUse;
    if page !in s.mapped {
      NewIsInUse(pageSize, s, t, a, page);
    }
    if InUse(pageSize, s, page) {
      LeavesUse(pageSize, s, events, t, a, page);
      RetiredWhenFull(pageSize, s, events, t, a);
    }
  }

  lemma NewIsInUse(pageSize: nat, s: State, t: Tid, a: Action, page: nat)
    requires pageSize > 0 && Step(pageSize, s, t, a).Some? && page !in s.mapped
    requires page in Step(pageSize, s, t, a).value.state.mapped
    ensures InUse(pageSize, Step(pageSize, s, t, a).value.state, page)
  {
    hide AlignDown, Align, AlignUp, Next, End;
    assert Owns(Step(pageSize, s, t, a).value.state, t, page);
  }

  lemma LeavesUse(pageSize: nat, s: State, events: seq<Event>, t: Tid, a: Action, page: nat)
    requires pageSize > 0 && Inv(pageSize, s, events) && Step(pageSize, s, t, a).Some? && InUse(pageSize, s, page)
    requires var s' := Step(pageSize, s, t, a).value.state; page in s'.mapped && !InUse(pageSize, s', page)
    ensures s.curr != 0 && AlignDown(s.curr, pageSize) == page && Step(pageSize, s, t, a).value.state.curr == 0
  {
    hide AlignDown, Align, AlignUp, Next, End, BlockOk, Separate, Step, Inv, Owns;
    var s' := Step(pageSize, s, t, a).value.state;
    if u :| Owns(s, u, page) {
      StillInUse(pageSize, s, events, t, a, page, u);
    } else if s'.curr != 0 {
      SamePage(pageSize, s, events, t, a);
    }
  }

  lemma StillInUse(pageSize: nat, s: State, events: seq<Event>, t: Tid, a: Action, page: nat, u: Tid)
    requires pageSize > 0 && Inv(pageSize, s, events) && Step(pageSize, s, t, a).Some? && Owns(s, u, page)
    requires page in Step(pageSize, s, t, a).value.state.mapped
    ensures InUse(pageSize, Step(pageSize, s, t, a).value.state, page)
  {
    hide AlignDown, Align, AlignUp, Next, End, BlockOk, Separate;
    var s' := Step(pageSize, s, t, a).value.state;
    assert OwnerOk(pageSize, s, events, u);
    if u == t && a == Publish && s.curr == 0 {
      assert IsPage(pageSize, page);
      AlignDownIs(page, page, pageSize);
    } else {
      assert Owns(s', u, page);
    }
  }

  lemma SamePage(pageSize: nat, s: State, events: seq<Event>, t: Tid, a: Action)
    requires pageSize > 0 && Inv(pageSize, s, events) && Step(pageSize, s, t, a).Some? && s.curr != 0
    requires Step(pageSize, s, t, a).value.state.curr != 0
    ensures AlignDown(Step(pageSize, s, t, a).value.state.curr, pageSize) == AlignDown(s.curr, pageSize)
  {
    hide AlignDown, Align, AlignUp, Next, End, BlockOk, Separate, OwnerOk, IsPage;
    if a == Swap {
      var th := s.threads[t];
      CurrInPage(pageSize, s, events);
      AlignDownBounds(s.curr, pageSize);
      SizeKnown(pageSize, s, events, t);
      NoWrap(pageSize, s.curr, th.size, th.align);
      if s.threads[t].curr == s.curr && Next(s.curr, th.size, th.align) < End(s.curr, pageSize) {
        AlignDownIs(Next(s.curr, th.size, th.align), AlignDown(s.curr, pageSize), pageSize);
      }
    }
  }

  // ---- An undisturbed thread ----

  datatype Request = Request(size: nat, align: AlignBits)

  /** Where the word stands after these requests were served behind `curr`. */
  function Behind(curr: nat, qs: seq<Request>): nat {
    if qs == [] then curr else AlignUp(Behind(curr, qs[..|qs| - 1]), qs[|qs| - 1].align) + qs[|qs| - 1].size
  }

  /** What the thread does to serve them. */
  function Served(t: Tid, qs: seq<Request>): seq<Move> {
    if qs == [] then []
    else
      var q := qs[|qs| - 1];
      Served(t, qs[..|qs| - 1]) + [Move(t, Begin(q.size, q.align)), Move(t, Load), Move(t, Swap)]
  }

  /** The blocks it gets: each at the first aligned address behind the last. */
  function Blocks(curr: nat, page: nat, qs: seq<Request>): seq<Event> {
    if qs == [] then []
    else
      var front, q := qs[..|qs| - 1], qs[|qs| - 1];
      Blocks(curr, page, front) + [Silent, Silent, Allocated(page, AlignUp(Behind(curr, front), q.align), q.size, q.align)]
  }

  predicate Sizes(pageSize: nat, qs: seq<Request>) {
    forall i :: 0 <= i < |qs| ==> 0 < qs[i].size < pageSize
  }

  lemma RunSnoc(pageSize: nat, s: State, schedule: seq<Move>, m: Move)
    requires pageSize > 0 && Run(pageSize, s, schedule).Some?
    ensures var tr := Run(pageSize, s, schedule).value;
            Run(pageSize, s, schedule + [m])
            == match Step(pageSize, tr.state, m.thread, m.action)
               case None => None
               case Some(o) => Some(Trace(o.state, tr.events + [o.event]))
  {
    hide Step;
    assert (schedule + [m])[..|schedule|] == schedule;
  }

  /** The three moves of one request that fits behind the word. */
  lemma OneRequest(pageSize: nat, s: State, schedule: seq<Move>, t: Tid, q: Request, past: seq<Event>)
    requires pageSize > 0 && Run(pageSize, s, schedule).Some? && 0 < q.size < pageSize
    requires var tr := Run(pageSize, s, schedule).value;
             && Inv(pageSize, tr.state, past + tr.events) && t in tr.state.threads && tr.state.threads[t] == Idle
             && tr.state.curr != 0
             && AlignUp(tr.state.curr, q.align) + q.size <= AlignDown(tr.state.curr, pageSize) + pageSize
    ensures var tr := Run(pageSize, s, schedule).value;
            var page, start := AlignDown(tr.state.curr, pageSize), AlignUp(tr.state.curr, q.align);
            var block := Allocated(page, start, q.size, q.align);
            var end := State(if start + q.size == page + pageSize then 0 else start + q.size, tr.state.mapped, tr.state.threads);
            && Run(pageSize, s, schedule + [Move(t, Begin(q.size, q.align)), Move(t, Load), Move(t, Swap)])
               == Some(Trace(end, tr.events + [Silent, Silent, block]))
            && Inv(pageSize, end, past + (tr.events + [Silent, Silent, block]))
  {
    hide AlignDown, Align, AlignUp, Next, End, Run, Inv;
    var tr := Run(pageSize, s, schedule).value;
    var now := tr.state;
    var b, l, w := Move(t, Begin(q.size, q.align)), Move(t, Load), Move(t, Swap);
    var one := Goto(now, t, Loading(q.size, q.align));
    var two := Goto(one, t, Trying(q.size, q.align, now.curr));
    RunSnoc(pageSize, s, schedule, b);
    StepKeeps(pageSize, now, past + tr.events, t, b.action);
    RunSnoc(pageSize, s, schedule + [b], l);
    StepKeeps(pageSize, one, past + tr.events + [Silent], t, Load);
    RunSnoc(pageSize, s, schedule + [b] + [l], w);
    CurrInPage(pageSize, now, past + tr.events);
    NoWrap(pageSize, now.curr, q.size, q.align);
    StepKeeps(pageSize, two, past + tr.events + [Silent] + [Silent], t, Swap);
    assert schedule + [b] + [l] + [w] == schedule + [b, l, w];
    var block := Allocated(AlignDown(now.curr, pageSize), AlignUp(now.curr, q.align), q.size, q.align);
    assert tr.events + [Silent] + [Silent] + [block] == tr.events + [Silent, Silent, block];
    assert past + tr.events + [Silent] + [Silent] + [block] == past + (tr.events + [Silent, Silent, block]);
    assert two.threads[t := Idle] == now.threads;
  }

  lemma CurrInPage(pageSize: nat, s: State, events: seq<Event>)
    requires pageSize > 0 && Inv(pageSize, s, events) && s.curr != 0
    ensures IsPage(pageSize, AlignDown(s.curr, pageSize))
  {
    hide AlignDown, IsPage, OwnerOk, BlockOk, Separate;
  }

  lemma BehindGrows(curr: nat, qs: seq<Request>, pageSize: nat)
    requires qs != [] && pageSize > 0 && IsPage(pageSize, AlignDown(Behind(curr, qs[..|qs| - 1]), pageSize))
    ensures Behind(curr, qs) >= Behind(curr, qs[..|qs| - 1]) + qs[|qs| - 1].size
  {
    hide AlignDown, Align, AlignUp, IsPage;
    AlignUpBounds(Behind(curr, qs[..|qs| - 1]), qs[|qs| - 1].align, pageSize);
  }

  /** Requests of an undisturbed thread that fit together behind the word all get their blocks in its
      page, one behind the other; no page is mapped for them. */
  lemma {:induction false} InOnePage(pageSize: nat, s: State, past: seq<Event>, t: Tid, qs: seq<Request>)
    requires pageSize > 0 && Inv(pageSize, s, past) && t in s.threads && s.threads[t] == Idle && s.curr != 0
    requires Sizes(pageSize, qs) && FitTogether(pageSize, s.curr, qs)
    ensures var page, last := AlignDown(s.curr, pageSize), Behind(s.curr, qs);
            var end := s.(curr := if last == page + pageSize then 0 else last);
            && Run(pageSize, s, Served(t, qs)) == Some(Trace(end, Blocks(s.curr, page, qs)))
            && Inv(pageSize, end, past + Blocks(s.curr, page, qs))
            && s.curr <= last <= page + pageSize && (qs == [] ==> last < page + pageSize)
    decreases |qs|
  {
    hide AlignDown, Align, AlignUp, Inv, Step, IsPage;
    CurrInPage(pageSize, s, past);
    AlignDownBounds(s.curr, pageSize);
    if qs == [] {
      assert past + [] == past;
    } else {
      var front, q := qs[..|qs| - 1], qs[|qs| - 1];
      FrontFits(pageSize, s.curr, qs);
      InOnePage(pageSize, s, past, t, front);
      var now := Behind(s.curr, front);
      NotFullYet(pageSize, s.curr, qs);
      AlignDownIs(now, AlignDown(s.curr, pageSize), pageSize);
      BehindGrows(s.curr, qs, pageSize);
      OneRequest(pageSize, s, Served(t, front), t, q, past);
    }
  }

  /** Every one of them ends inside the page, all but the last before its end. */
  ghost predicate FitTogether(pageSize: nat, curr: nat, qs: seq<Request>)
    requires pageSize > 0
  {
    forall i :: 0 <= i <= |qs| ==> EndsIn(pageSize, curr, qs, i)
  }

  ghost predicate EndsIn(pageSize: nat, curr: nat, qs: seq<Request>, i: nat)
    requires pageSize > 0 && i <= |qs|
  {
    var end := AlignDown(curr, pageSize) + pageSize;
    Behind(curr, qs[..i]) <= end && (i < |qs| ==> Behind(curr, qs[..i]) < end)
  }

  lemma NotFullYet(pageSize: nat, curr: nat, qs: seq<Request>)
    requires pageSize > 0 && qs != [] && FitTogether(pageSize, curr, qs)
    ensures Behind(curr, qs[..|qs| - 1]) < AlignDown(curr, pageSize) + pageSize
    ensures Behind(curr, qs) <= AlignDown(curr, pageSize) + pageSize
  {
    assert EndsIn(pageSize, curr, qs, |qs| - 1) && EndsIn(pageSize, curr, qs, |qs|);
    assert qs[..|qs|] == qs;
  }

  lemma FrontFits(pageSize: nat, curr: nat, qs: seq<Request>)
    requires pageSize > 0 && qs != [] && FitTogether(pageSize, curr, qs)
    ensures FitTogether(pageSize, curr, qs[..|qs| - 1])
  {
    hide Behind;
    var front := qs[..|qs| - 1];
    forall i | 0 <= i <= |front| ensures EndsIn(pageSize, curr, front, i) {
      assert EndsIn(pageSize, curr, qs, i) && front[..i] == qs[..i];
    }
  }

  /** The first request of an undisturbed thread maps one page and gets its start, if the page is
      aligned for it; the word is left behind the block. */
  lemma FirstInPage(pageSize: nat, s: State, past: seq<Event>, t: Tid, q: Request, page: nat)
    requires pageSize > 0 && Inv(pageSize, s, past) && t in s.threads && s.threads[t] == Idle && s.curr == 0
    requires 0 < q.size < pageSize && IsPage(pageSize, page) && page !in s.mapped && page % Align(q.align) == 0
    ensures var moves := [Move(t, Begin(q.size, q.align)), Move(t, Load), Move(t, Map(page)), Move(t, Publish), Move(t, Swap)];
            var events := [Silent, Silent, Silent, Silent, Allocated(page, page, q.size, q.align)];
            var end := State(page + q.size, s.mapped + {page}, s.threads);
            Run(pageSize, s, moves) == Some(Trace(end, events)) && Inv(pageSize, end, past + events)
  {
    hide AlignDown, Align, AlignUp, Next, End, Run, Inv;
    var one := Goto(s, t, Loading(q.size, q.align));
    var two := Goto(one, t, NeedsPage(q.size, q.align));
    var three := Goto(two.(mapped := s.mapped + {page}), t, HasPage(q.size, q.align, page));
    var four := Goto(three.(curr := page), t, Trying(q.size, q.align, page));
    var b, l, m, u, w := Move(t, Begin(q.size, q.align)), Move(t, Load), Move(t, Map(page)), Move(t, Publish), Move(t, Swap);
    EmptyRun(pageSize, s);
    RunSnoc(pageSize, s, [], b);
    StepKeeps(pageSize, s, past, t, b.action);
    RunSnoc(pageSize, s, [] + [b], l);
    StepKeeps(pageSize, one, past + [Silent], t, Load);
    RunSnoc(pageSize, s, [] + [b] + [l], m);
    StepKeeps(pageSize, two, past + [Silent] + [Silent], t, m.action);
    RunSnoc(pageSize, s, [] + [b] + [l] + [m], u);
    StepKeeps(pageSize, three, past + [Silent] + [Silent] + [Silent], t, Publish);
    RunSnoc(pageSize, s, [] + [b] + [l] + [m] + [u], w);
    AlignDownIs(page, page, pageSize);
    NoWrap(pageSize, page, q.size, q.align);
    AlignedStays(page, q.align, pageSize);
    StepKeeps(pageSize, four, past + [Silent] + [Silent] + [Silent] + [Silent], t, Swap);
    assert [] + [b] + [l] + [m] + [u] + [w] == [b, l, m, u, w];
    var block := Allocated(page, page, q.size, q.align);
    assert [] + [Silent] + [Silent] + [Silent] + [Silent] + [block] == [Silent, Silent, Silent, Silent, block];
    assert past + [Silent] + [Silent] + [Silent] + [Silent] + [block] == past + [Silent, Silent, Silent, Silent, block];
    assert four.threads[t := Idle] == s.threads;
  }

  lemma EmptyRun(pageSize: nat, s: State)
    requires pageSize > 0
    ensures Run(pageSize, s, []) == Some(Trace(s, []))
  {
  }
}
