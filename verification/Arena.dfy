/** `Arena`: objects bumped out of blocks that are all released together. Where the kernel or the
    pool puts a new block is a parameter. */
module Arena {
  import opened Words

  const DEFAULT_BLOCK_SIZE: nat := 0x2_0000       // 32 * 4096
  const MAX_IN_DEFAULT_BLOCK: nat := 0x1_0000     // 16 * 4096
  const HEADER_SIZE: nat := 16                    // sizeof(ArenaBlock)

  datatype Block = Block(start: nat, size: nat)
  datatype Range = Range(start: nat, size: nat)
  datatype Release = ToPool(start: nat) | ToKernel(start: nat, size: nat)

  function AlignUp(x: nat, a: nat): (r: nat)
    requires a > 0
    ensures r % a == 0 && x <= r < x + a
  {
    Euclid(x + a - 1, a);
    QuotientIsNat(x + a - 1, a);
    var q := (x + a - 1) / a;
    assert 0 <= a * q;
    Div(a * q, a, q, 0);
    a * q
  }

  /** What `AllocArenaBlock` asks for. */
  function Needed(size: nat, align: nat): nat
    requires align > 0
  {
    size + AlignUp(HEADER_SIZE, align)
  }

  /** The `size` field of the block it makes. */
  function BlockSize(size: nat, align: nat, pageSize: nat): nat
    requires align > 0 && pageSize > 0
  {
    if Needed(size, align) < MAX_IN_DEFAULT_BLOCK then DEFAULT_BLOCK_SIZE else AlignUp(Needed(size, align), pageSize)
  }

  predicate Apart(x: nat, n: nat, y: nat, m: nat) {
    x + n <= y || y + m <= x
  }

  predicate Inside(r: Range, b: Block) {
    b.start + HEADER_SIZE <= r.start && r.start + r.size <= b.start + b.size
  }

  ghost predicate InSomeBlock(r: Range, blocks: seq<Block>) {
    exists i :: 0 <= i < |blocks| && Inside(r, blocks[i])
  }

  ghost predicate BlocksApart(blocks: seq<Block>) {
    forall i, j :: 0 <= i < j < |blocks| ==> Apart(blocks[i].start, blocks[i].size, blocks[j].start, blocks[j].size)
  }

  ghost predicate RangesApart(given: seq<Range>) {
    forall i, j :: 0 <= i < j < |given| ==> Apart(given[i].start, given[i].size, given[j].start, given[j].size)
  }

  /** The rest of the current block, from `current` to `end`, has not been given out. */
  ghost predicate TailFree(blocks: seq<Block>, current: nat, end: nat, given: seq<Range>) {
    && (current == end == 0 || exists i :: 0 <= i < |blocks| && blocks[i].start + HEADER_SIZE <= current
                                           && end == blocks[i].start + blocks[i].size)
    && current <= end
    && forall k :: 0 <= k < |given| ==> Apart(given[k].start, given[k].size, current, end - current)
  }

  ghost predicate Consistent(blocks: seq<Block>, current: nat, end: nat, given: seq<Range>) {
    && BlocksApart(blocks) && RangesApart(given) && TailFree(blocks, current, end, given)
    && (forall k :: 0 <= k < |given| ==> given[k].size > 0 && InSomeBlock(given[k], blocks))
  }

  /** A range out of the tail. */
  lemma FromTail(blocks: seq<Block>, current: nat, end: nat, given: seq<Range>, r: Range)
    requires Consistent(blocks, current, end, given) && r.size > 0 && current <= r.start && r.start + r.size <= end
    ensures Consistent(blocks, r.start + r.size, end, given + [r])
  {
    var i :| 0 <= i < |blocks| && blocks[i].start + HEADER_SIZE <= current && end == blocks[i].start + blocks[i].size;
    assert Inside(r, blocks[i]);
  }

  lemma InNewList(blocks: seq<Block>, b: Block, r: Range)
    requires InSomeBlock(r, blocks)
    ensures InSomeBlock(r, [b] + blocks)
  {
    var i :| 0 <= i < |blocks| && Inside(r, blocks[i]);
    assert Inside(r, ([b] + blocks)[i + 1]);
  }

  lemma NewBlocksApart(blocks: seq<Block>, b: Block)
    requires BlocksApart(blocks)
    requires forall i :: 0 <= i < |blocks| ==> Apart(b.start, b.size, blocks[i].start, blocks[i].size)
    ensures BlocksApart([b] + blocks)
  {
    var more := [b] + blocks;
    forall i, j | 0 <= i < j < |more| ensures Apart(more[i].start, more[i].size, more[j].start, more[j].size) {
      assert more[j] == blocks[j - 1];
    }
  }

  /** What lies in an old block is apart from what lies in the new one. */
  lemma OtherBlock(blocks: seq<Block>, b: Block, x: Range, start: nat, size: nat)
    requires InSomeBlock(x, blocks) && b.start <= start && start + size <= b.start + b.size
    requires forall i :: 0 <= i < |blocks| ==> Apart(b.start, b.size, blocks[i].start, blocks[i].size)
    ensures Apart(x.start, x.size, start, size)
  {
    var i :| 0 <= i < |blocks| && Inside(x, blocks[i]);
    assert Apart(b.start, b.size, blocks[i].start, blocks[i].size);
  }

  /** A range out of a new block; the rest of that block, or the old tail, is the tail. */
  lemma FromNewBlock(blocks: seq<Block>, current: nat, end: nat, given: seq<Range>, b: Block, r: Range, switched: bool)
    requires Consistent(blocks, current, end, given) && r.size > 0 && Inside(r, b)
    requires forall i :: 0 <= i < |blocks| ==> Apart(b.start, b.size, blocks[i].start, blocks[i].size)
    ensures Consistent([b] + blocks, if switched then r.start + r.size else current,
                       if switched then b.start + b.size else end, given + [r])
  {
    hide InSomeBlock;
    NewBlocksApart(blocks, b);
    forall k | 0 <= k < |given|
      ensures InSomeBlock(given[k], [b] + blocks) && Apart(given[k].start, given[k].size, r.start, r.size)
      ensures Apart(given[k].start, given[k].size, r.start + r.size, b.start + b.size - (r.start + r.size))
    {
      InNewList(blocks, b, given[k]);
      OtherBlock(blocks, b, given[k], r.start, r.size);
      OtherBlock(blocks, b, given[k], r.start + r.size, b.start + b.size - (r.start + r.size));
    }
    InNewBlock(blocks, b, r);
    if switched {
      assert ([b] + blocks)[0] == b;
    } else if !(current == end == 0) {
      var i :| 0 <= i < |blocks| && blocks[i].start + HEADER_SIZE <= current && end == blocks[i].start + blocks[i].size;
      assert ([b] + blocks)[i + 1] == blocks[i];
      assert Apart(b.start, b.size, blocks[i].start, blocks[i].size);
    }
  }

  lemma InNewBlock(blocks: seq<Block>, b: Block, r: Range)
    requires Inside(r, b)
    ensures InSomeBlock(r, [b] + blocks)
  {
    assert ([b] + blocks)[0] == b;
  }

  /** Of two powers of two one divides the other; a page has room for a header. */
  predicate Alignable(align: nat, pageSize: nat) {
    align > 0 && pageSize > 0 && (pageSize % align == 0 || (align % pageSize == 0 && pageSize >= HEADER_SIZE))
  }

  /** A new block, page aligned, has room for the request behind its header, also when the
      alignment is larger than a page. */
  lemma NewBlockHasRoom(start: nat, size: nat, align: nat, pageSize: nat)
    requires Alignable(align, pageSize) && start % pageSize == 0
    ensures AlignUp(start + HEADER_SIZE, align) + size <= start + BlockSize(size, align, pageSize)
    ensures AlignUp(start + HEADER_SIZE, align) <= start + AlignUp(HEADER_SIZE, align)
    ensures pageSize % align == 0 ==> AlignUp(start + HEADER_SIZE, align) == start + AlignUp(HEADER_SIZE, align)
  {
    hide AlignUp;
    if pageSize % align == 0 {
      Multiple(start, align, pageSize);
      AlignUpShift(start, HEADER_SIZE, align);
    } else {
      LargeAlignment(start, align, pageSize);
    }
  }

  /** Header and gap take at most one alignment when the alignment is a multiple of the page size. */
  lemma LargeAlignment(start: nat, align: nat, pageSize: nat)
    requires align > 0 && pageSize >= HEADER_SIZE && align % pageSize == 0 && start % pageSize == 0
    ensures AlignUp(start + HEADER_SIZE, align) <= start + align == start + AlignUp(HEADER_SIZE, align)
  {
    hide AlignUp;
    var res := AlignUp(start + HEADER_SIZE, align);
    Multiple(res, pageSize, align);
    MultipleBelow(pageSize, start, align, res);
    Euclid(align, pageSize);
    FirstMultiple(align, AlignUp(HEADER_SIZE, align));
  }

  lemma MultipleBelow(p: nat, x: nat, y: nat, z: nat)
    requires p > 0 && x % p == 0 && y % p == 0 && z % p == 0 && z < x + y + p
    ensures z <= x + y
  {
    Euclid(x, p);
    Euclid(y, p);
    Euclid(z, p);
    var i, j, k := x / p, y / p, z / p;
    assert p * (i + j) == p * i + p * j;
    if k > i + j {
      Larger(p, i + j, k);
    }
    if k <= i + j {
      Product(p, k, i + j);
    }
  }

  lemma Product(p: nat, x: int, y: int)
    requires x <= y
    ensures p * x <= p * y
  {
    assert p * (y - x) == p * y - p * x;
  }

  lemma Larger(p: nat, x: int, y: int)
    requires x < y
    ensures p * x + p <= p * y
  {
    Product(p, x + 1, y);
    assert p * (x + 1) == p * x + p;
  }

  lemma FirstMultiple(a: nat, x: nat)
    requires a > 0 && x % a == 0 && 0 < x < HEADER_SIZE + a && a >= HEADER_SIZE
    ensures x == a
  {
    MultipleBelow(a, a, 0, x);
    Euclid(x, a);
    if x / a > 0 {
      Product(a, 1, x / a);
    }
  }

  lemma Multiple(start: nat, align: nat, pageSize: nat)
    requires align > 0 && pageSize > 0 && pageSize % align == 0 && start % pageSize == 0
    ensures start % align == 0
  {
    Euclid(start, pageSize);
    Euclid(pageSize, align);
    var q, d := start / pageSize, pageSize / align;
    assert pageSize * q == align * d * q == align * (d * q);
    Div(start, align, d * q, 0);
  }

  lemma AlignUpShift(start: nat, x: nat, align: nat)
    requires align > 0 && start % align == 0
    ensures AlignUp(start + x, align) == start + AlignUp(x, align)
  {
    Euclid(start, align);
    Euclid(x + align - 1, align);
    var q, k := start / align, (x + align - 1) / align;
    assert align * (q + k) == align * q + align * k;
    Div(start + x + align - 1, align, q + k, (x + align - 1) % align);
  }

  // ---- `Alloc` on unbounded integers ----

  /** The list of blocks, newest first, and the rest of the current one. */
  datatype Space = Space(blocks: seq<Block>, current: nat, end: nat)
  datatype Answer = Answer(res: nat, space: Space)

  /** What `Alloc` is meant to do for `n` bytes; a new block, if one is needed, lies at `place`. */
  function AllocNat(s: Space, n: nat, align: nat, pageSize: nat, place: nat): Answer
    requires align > 0 && pageSize > 0
  {
    var res := AlignUp(s.current, align);
    if res + n <= s.end then Answer(res, s.(current := res + n))
    else
      var b := Block(place, BlockSize(n, align, pageSize));
      InBlock(s, b, AlignUp(place + HEADER_SIZE, align), n)
  }

  /** The bytes at `res` are in the new block `b`, which becomes the current one if it has more left. */
  function InBlock(s: Space, b: Block, res: nat, n: nat): Answer {
    var more := s.(blocks := [b] + s.blocks);
    var dataEnd := b.start + b.size;
    Answer(res, if s.end - s.current < dataEnd - (res + n) then more.(current := res + n, end := dataEnd) else more)
  }

  ghost predicate Clear(blocks: seq<Block>, start: nat, size: nat) {
    forall i :: 0 <= i < |blocks| ==> Apart(start, size, blocks[i].start, blocks[i].size)
  }

  ghost predicate Keeps(s: Space, given: seq<Range>) {
    Consistent(s.blocks, s.current, s.end, given)
  }

  /** It keeps the arena's promise: the range is aligned, in a block, and disjoint from all others. */
  lemma NatKeeps(s: Space, given: seq<Range>, n: nat, align: nat, pageSize: nat, place: nat)
    requires Keeps(s, given) && n > 0 && Alignable(align, pageSize)
    requires AlignUp(s.current, align) + n > s.end ==>
               place % pageSize == 0 && Clear(s.blocks, place, BlockSize(n, align, pageSize))
    ensures var a := AllocNat(s, n, align, pageSize, place);
            && Keeps(a.space, given + [Range(a.res, n)]) && a.res % align == 0
            && (a.space.blocks == s.blocks || a.space.blocks == [Block(place, BlockSize(n, align, pageSize))] + s.blocks)
  {
    hide Consistent, AlignUp, BlockSize;
    var res := AlignUp(s.current, align);
    if res + n <= s.end {
      FromTail(s.blocks, s.current, s.end, given, Range(res, n));
    } else {
      var b := Block(place, BlockSize(n, align, pageSize));
      NewBlockHasRoom(place, n, align, pageSize);
      var at := AlignUp(place + HEADER_SIZE, align);
      FromNewBlock(s.blocks, s.current, s.end, given, b, Range(at, n), s.end - s.current < b.start + b.size - (at + n));
    }
  }

  /** How large a new block is: 131072 bytes from the pool if the request and its header, aligned, take
      less than 65536, and else the smallest whole number of pages that holds them. */
  lemma BlockSizesAre(n: nat, align: nat, pageSize: nat)
    requires align > 0 && pageSize > 0
    ensures var b := BlockSize(n, align, pageSize);
            && AlignUp(16, align) % align == 0 && 16 <= AlignUp(16, align) < 16 + align
            && (n + AlignUp(16, align) < 65536 ==> b == 131072)
            && (n + AlignUp(16, align) >= 65536 ==>
                  b % pageSize == 0 && n + AlignUp(16, align) <= b < n + AlignUp(16, align) + pageSize)
  {
    hide AlignUp;
  }

  /** Where a request goes: to the first aligned address of the rest of the current block if it fits
      there, and else behind the header of a new block; the larger of the two rests stays current. */
  lemma RequestGoesTo(s: Space, n: nat, align: nat, pageSize: nat, place: nat)
    requires align > 0 && pageSize > 0 && s.current <= s.end
    ensures var a := AllocNat(s, n, align, pageSize, place);
            var inTail := AlignUp(s.current, align) + n <= s.end;
            var from := if inTail then s.current else place + 16;
            && a.res % align == 0 && from <= a.res < from + align
            && (inTail ==> a.space == Space(s.blocks, a.res + n, s.end))
            && (!inTail ==>
                  && a.space.blocks == [Block(place, BlockSize(n, align, pageSize))] + s.blocks
                  && var was, now := s.end - s.current, place + BlockSize(n, align, pageSize) - (a.res + n);
                     && a.space.end - a.space.current == (if was >= now then was else now)
                     && a.space.end == (if was >= now then s.end else place + BlockSize(n, align, pageSize)))
  {
    hide AlignUp, BlockSize;
  }

  // ---- `Alloc` on 64-bit words ----

  /** The end of the user half of the largest address space (Sv57). */
  const USER_TOP: nat := 0x100_0000_0000_0000

  function WordUp(x: int, a: nat): u64
    requires a > 0
  {
    var t: int := Wrap(x + a - 1);
    Euclid(t, a);
    Lower(t, a);
    t - t % a
  }

  lemma Lower(t: int, a: nat)
    requires a > 0 && 0 <= t < TWO_64
    ensures 0 <= t - t % a < TWO_64
  {
    Euclid(t, a);
    QuotientIsNat(t, a);
    assert t - t % a == a * (t / a);
  }

  /** The size with the header added. */
  function WordNeeded(n: u64, align: nat): u64
    requires align > 0
  {
    Wrap(n + WordUp(HEADER_SIZE, align))
  }

  function WordBlockSize(n: u64, align: nat, pageSize: nat): u64
    requires align > 0 && pageSize > 0
  {
    var needed := WordNeeded(n, align);
    if needed < MAX_IN_DEFAULT_BLOCK then DEFAULT_BLOCK_SIZE else WordUp(needed, pageSize)
  }

  /** The fit test. */
  predicate WordFits(s: Space, n: u64, align: nat)
    requires align > 0
  {
    Wrap(WordUp(s.current, align) + n) <= s.end
  }

  /** What `Alloc` does. Differences of pointers are signed. */
  function AllocWord(s: Space, n: u64, align: nat, pageSize: nat, place: u64): Answer
    requires align > 0 && pageSize > 0
  {
    if WordFits(s, n, align) then
      var res := WordUp(s.current, align);
      Answer(res, s.(current := Wrap(res + n)))
    else WordInBlock(s, Block(place, WordBlockSize(n, align, pageSize)), WordUp(place + HEADER_SIZE, align), n)
  }

  function WordInBlock(s: Space, b: Block, res: u64, n: u64): Answer {
    var more := s.(blocks := [b] + s.blocks);
    var dataEnd, newCurrent := Wrap(b.start + b.size), Wrap(res + n);
    Answer(res, if Int64(s.end - s.current) < Int64(dataEnd - newCurrent) then more.(current := newCurrent, end := dataEnd)
                else more)
  }

  /** Blocks come from the kernel's user half. */
  ghost predicate InUserHalf(s: Space) {
    s.current <= s.end <= USER_TOP && forall i :: 0 <= i < |s.blocks| ==> s.blocks[i].start + s.blocks[i].size <= USER_TOP
  }

  /** If a new block is asked for, `place` is a page-aligned free place for it in the user half. */
  ghost predicate Granted(s: Space, n: u64, align: nat, pageSize: nat, place: u64)
    requires align > 0 && pageSize > 0
  {
    !WordFits(s, n, align) ==>
      && place % pageSize == 0
      && place + WordNeeded(n, align) <= USER_TOP && place + WordBlockSize(n, align, pageSize) <= USER_TOP
      && Clear(s.blocks, place, WordBlockSize(n, align, pageSize))
  }

  /** Alignments are powers of two in a `size_t`. */
  predicate WordAlignable(align: nat, pageSize: nat) {
    Alignable(align, pageSize) && align <= 0x8000_0000_0000_0000 && pageSize <= USER_TOP
  }

  /** The sum in the fit test wraps around to at most the end of the block. */
  predicate FitWraps(s: Space, n: u64, align: nat)
    requires align > 0
  {
    0 <= AlignUp(s.current, align) + n - TWO_64 <= s.end
  }

  /** The request does not fit and the size with the header wraps around. */
  predicate HeaderWraps(s: Space, n: u64, align: nat)
    requires align > 0
  {
    AlignUp(s.current, align) + n > s.end && n + AlignUp(HEADER_SIZE, align) >= TWO_64
  }

  predicate Harm(s: Space, n: u64, align: nat)
    requires align > 0
  {
    FitWraps(s, n, align) || HeaderWraps(s, n, align)
  }

  lemma WordUpIs(x: nat, a: nat)
    requires a > 0 && x + a <= TWO_64
    ensures WordUp(x, a) == AlignUp(x, a)
  {
    var t: int := x + a - 1;
    Div(t, TWO_64, 0, t);
    Euclid(t, a);
  }

  /** The fit test differs from that on integers exactly when its sum wraps harmfully. */
  lemma FitTestIs(s: Space, n: u64, align: nat)
    requires 0 < align <= 0x8000_0000_0000_0000 && s.current <= s.end <= USER_TOP
    ensures WordUp(s.current, align) == AlignUp(s.current, align)
    ensures WordFits(s, n, align) <==> AlignUp(s.current, align) + n <= s.end || FitWraps(s, n, align)
  {
    hide AlignUp, WordUp;
    WordUpIs(s.current, align);
    var sum: int := AlignUp(s.current, align) + n;
    if sum < TWO_64 {
      Div(sum, TWO_64, 0, sum);
    } else {
      Div(sum, TWO_64, 1, sum - TWO_64);
    }
  }

  /** So does the size of a new block, when the size with the header wraps. */
  lemma BlockSizeIs(n: u64, align: nat, pageSize: nat)
    requires WordAlignable(align, pageSize)
    ensures n + AlignUp(HEADER_SIZE, align) < TWO_64 && WordNeeded(n, align) <= USER_TOP ==>
              WordBlockSize(n, align, pageSize) == BlockSize(n, align, pageSize)
    ensures n + AlignUp(HEADER_SIZE, align) >= TWO_64 ==> BlockSize(n, align, pageSize) >= TWO_64
  {
    hide AlignUp, WordUp;
    WordUpIs(HEADER_SIZE, align);
    var needed: int := n + AlignUp(HEADER_SIZE, align);
    if needed < TWO_64 {
      Div(needed, TWO_64, 0, needed);
      if needed <= USER_TOP {
        WordUpIs(needed, pageSize);
      }
    }
  }

  lemma InBlockIs(s: Space, b: Block, res: nat, n: nat)
    requires s.current <= s.end <= USER_TOP && b.start + b.size <= USER_TOP && res + n <= b.start + b.size
    ensures WordInBlock(s, b, res, n) == InBlock(s, b, res, n)
  {
    Div(b.start + b.size, TWO_64, 0, b.start + b.size);
    Div(res + n, TWO_64, 0, res + n);
    SmallInt64(s.end - s.current);
    SmallInt64(b.start + b.size - (res + n));
  }

  lemma SmallInt64(x: nat)
    requires x <= USER_TOP
    ensures Int64(x) == x
  {
    Div(x + 0x8000_0000_0000_0000, TWO_64, 0, x + 0x8000_0000_0000_0000);
  }

  /** `Alloc` gives the answer and leaves the state that it would on unbounded integers exactly when
      neither sum wraps harmfully. */
  lemma WordIsNat(s: Space, n: u64, align: nat, pageSize: nat, place: u64)
    requires InUserHalf(s) && WordAlignable(align, pageSize) && Granted(s, n, align, pageSize, place)
    ensures AllocWord(s, n, align, pageSize, place) == AllocNat(s, n, align, pageSize, place) <==> !Harm(s, n, align)
  {
    hide AlignUp, WordFits, Granted, AllocWord, AllocNat;
    FitTestIs(s, n, align);
    if Harm(s, n, align) {
      Differ(s, n, align, pageSize, place);
    } else if AlignUp(s.current, align) + n <= s.end {
      SameInTail(s, n, align, pageSize, place);
    } else {
      SameInNewBlock(s, n, align, pageSize, place);
    }
  }

  lemma Differ(s: Space, n: u64, align: nat, pageSize: nat, place: u64)
    requires InUserHalf(s) && WordAlignable(align, pageSize) && Harm(s, n, align)
    ensures AllocWord(s, n, align, pageSize, place).space.blocks != AllocNat(s, n, align, pageSize, place).space.blocks
  {
    hide AlignUp, WordUp, BlockSize, WordBlockSize, WordNeeded, WordFits, AllocWord, AllocNat;
    FitTestIs(s, n, align);
    BlockSizeIs(n, align, pageSize);
    NewBlocks(s, n, align, pageSize, place);
    if !WordFits(s, n, align) {
      assert ([Block(place, BlockSize(n, align, pageSize))] + s.blocks)[0].size >= TWO_64;
    }
  }

  lemma SameInTail(s: Space, n: u64, align: nat, pageSize: nat, place: u64)
    requires InUserHalf(s) && WordAlignable(align, pageSize) && AlignUp(s.current, align) + n <= s.end
    ensures AllocWord(s, n, align, pageSize, place) == AllocNat(s, n, align, pageSize, place)
  {
    hide AlignUp, WordUp, WordFits;
    FitTestIs(s, n, align);
    Div(AlignUp(s.current, align) + n, TWO_64, 0, AlignUp(s.current, align) + n);
  }

  lemma SameInNewBlock(s: Space, n: u64, align: nat, pageSize: nat, place: u64)
    requires InUserHalf(s) && WordAlignable(align, pageSize) && Granted(s, n, align, pageSize, place)
    requires AlignUp(s.current, align) + n > s.end && !Harm(s, n, align)
    ensures AllocWord(s, n, align, pageSize, place) == AllocNat(s, n, align, pageSize, place)
  {
    hide AlignUp, WordUp, BlockSize, WordBlockSize, WordNeeded, Clear, InBlock, WordInBlock, WordFits;
    FitTestIs(s, n, align);
    BlockSizeIs(n, align, pageSize);
    WordUpIs(place + HEADER_SIZE, align);
    NewBlockHasRoom(place, n, align, pageSize);
    InBlockIs(s, Block(place, BlockSize(n, align, pageSize)), AlignUp(place + HEADER_SIZE, align), n);
  }

  lemma NatBlocks(s: Space, n: nat, align: nat, pageSize: nat, place: nat)
    requires align > 0 && pageSize > 0
    ensures var more := AllocNat(s, n, align, pageSize, place).space.blocks;
            more == s.blocks || more == [Block(place, BlockSize(n, align, pageSize))] + s.blocks
  {
    hide AlignUp, BlockSize;
  }

  /** The blocks after an answer that needed a new one. */
  lemma NewBlocks(s: Space, n: u64, align: nat, pageSize: nat, place: u64)
    requires align > 0 && pageSize > 0
    ensures AlignUp(s.current, align) + n > s.end ==>
              AllocNat(s, n, align, pageSize, place).space.blocks == [Block(place, BlockSize(n, align, pageSize))] + s.blocks
    ensures AllocWord(s, n, align, pageSize, place).space.blocks
            == if WordFits(s, n, align) then s.blocks
               else [Block(place, WordBlockSize(n, align, pageSize))] + s.blocks
  {
    hide AlignUp, WordUp, BlockSize, WordBlockSize, WordFits;
  }

  /** When one does, the range handed out lies in no block: it is larger than the user half. */
  lemma HarmBreaks(s: Space, given: seq<Range>, n: u64, align: nat, pageSize: nat, place: u64)
    requires InUserHalf(s) && WordAlignable(align, pageSize) && Granted(s, n, align, pageSize, place)
    requires Harm(s, n, align)
    ensures var a := AllocWord(s, n, align, pageSize, place);
            !Keeps(a.space, given + [Range(a.res, n)])
  {
    hide AlignUp, WordUp, BlockSize, WordBlockSize, WordNeeded, Clear, WordFits, AllocWord;
    FitTestIs(s, n, align);
    NewBlocks(s, n, align, pageSize, place);
    var a := AllocWord(s, n, align, pageSize, place);
    assert n > USER_TOP;
    forall i | 0 <= i < |a.space.blocks| ensures !Inside(Range(a.res, n), a.space.blocks[i]) {
    }
    assert !InSomeBlock(Range(a.res, n), a.space.blocks);
    assert (given + [Range(a.res, n)])[|given|] == Range(a.res, n);
  }

  /** The promise is kept exactly when neither sum wraps harmfully. */
  lemma WordKeeps(s: Space, given: seq<Range>, n: u64, align: nat, pageSize: nat, place: u64)
    requires Keeps(s, given) && InUserHalf(s) && n > 0
    requires WordAlignable(align, pageSize) && Granted(s, n, align, pageSize, place)
    ensures var a := AllocWord(s, n, align, pageSize, place);
            Keeps(a.space, given + [Range(a.res, n)]) && InUserHalf(a.space) <==> !Harm(s, n, align)
  {
    hide AlignUp, WordUp, BlockSize, WordBlockSize, WordNeeded, Keeps, Clear, AllocWord, AllocNat, WordFits, InUserHalf;
    if Harm(s, n, align) {
      HarmBreaks(s, given, n, align, pageSize, place);
    } else {
      WordIsNat(s, n, align, pageSize, place);
      Harmless(s, n, align, pageSize, place);
      NatKeeps(s, given, n, align, pageSize, place);
      StaysInUserHalf(s, given, n, align, pageSize, place);
    }
  }

  /** Without harm the place granted is one for the block that the integers ask for. */
  lemma Harmless(s: Space, n: u64, align: nat, pageSize: nat, place: u64)
    requires InUserHalf(s) && WordAlignable(align, pageSize) && Granted(s, n, align, pageSize, place) && !Harm(s, n, align)
    ensures AlignUp(s.current, align) + n > s.end ==>
              && place % pageSize == 0 && Clear(s.blocks, place, BlockSize(n, align, pageSize))
              && place + BlockSize(n, align, pageSize) <= USER_TOP
  {
    hide AlignUp, WordUp, BlockSize, WordBlockSize, WordNeeded, Clear, WordFits;
    FitTestIs(s, n, align);
    BlockSizeIs(n, align, pageSize);
  }

  lemma StaysInUserHalf(s: Space, given: seq<Range>, n: u64, align: nat, pageSize: nat, place: u64)
    requires InUserHalf(s) && WordAlignable(align, pageSize)
    requires AlignUp(s.current, align) + n > s.end ==>
               place % pageSize == 0 && place + BlockSize(n, align, pageSize) <= USER_TOP
    ensures InUserHalf(AllocNat(s, n, align, pageSize, place).space)
  {
    hide AlignUp, BlockSize;
    if AlignUp(s.current, align) + n > s.end {
      NewBlockHasRoom(place, n, align, pageSize);
    }
  }

  /** Harmful or not, the address is aligned. */
  lemma WordAligned(s: Space, n: u64, align: nat, pageSize: nat, place: u64)
    requires InUserHalf(s) && WordAlignable(align, pageSize) && Granted(s, n, align, pageSize, place)
    ensures AllocWord(s, n, align, pageSize, place).res % align == 0
  {
    hide AlignUp, WordUp, BlockSize, WordBlockSize, WordNeeded, Clear, WordFits;
    WordUpIs(s.current, align);
    if !WordFits(s, n, align) {
      WordUpIs(place + HEADER_SIZE, align);
    }
  }

  /** No sum wraps harmfully for any request that a caller keeps below 2^64 - 2^56, alignment
      included, whatever the state. */
  lemma SmallIsHarmless(s: Space, n: u64, align: nat)
    requires s.current <= s.end <= USER_TOP && 0 < align && n + align <= TWO_64 - USER_TOP
    ensures !Harm(s, n, align)
  {
    hide AlignUp;
  }

  /** A current block from 0x10000 on takes a request of 2^64 - 0x10000 bytes, and the next object
      would come to lie at address 0x10, outside every block. */
  lemma HugeRequest(pageSize: nat, place: u64)
    requires pageSize > 0
    ensures var s, n := Space([Block(0x1_0000, DEFAULT_BLOCK_SIZE)], 0x1_0010, 0x3_0000), 0xffff_ffff_ffff_0000;
            && Keeps(s, []) && InUserHalf(s) && FitWraps(s, n, 8)
            && AllocWord(s, n, 8, pageSize, place) == Answer(0x1_0010, s.(current := 0x10))
  {
    var s := Space([Block(0x1_0000, DEFAULT_BLOCK_SIZE)], 0x1_0010, 0x3_0000);
    assert s.blocks[0].start + HEADER_SIZE <= s.current && s.end == s.blocks[0].start + s.blocks[0].size;
    Div(0x1_0017, 8, 0x2002, 7);
    Div(0x1_0017, TWO_64, 0, 0x1_0017);
    Div(TWO_64 + 0x10, TWO_64, 1, 0x10);
  }

  /** It is the aligned address that counts: here `current` plus the size stays below 2^64. */
  lemma AlignedPastTheEdge()
    ensures var s, n := Space([Block(0x1_0000, DEFAULT_BLOCK_SIZE)], 0x1_0011, 0x3_0000), 0xffff_ffff_fffe_ffee;
            && s.current + n < TWO_64 && WordFits(s, n, 8) && FitWraps(s, n, 8)
  {
    Div(0x1_0018, 8, 0x2003, 0);
    Div(0x1_0018, TWO_64, 0, 0x1_0018);
    Div(TWO_64 + 6, TWO_64, 1, 6);
  }

  /** An arena without a block refuses a request of 2^64 - 1 bytes as it should, but the size with
      the header turns into 15, a block of default size is made, and the request is granted in it. */
  lemma HeaderTurnsOver(pageSize: nat, place: u64)
    requires WordAlignable(8, pageSize) && place % pageSize == 0 && place + DEFAULT_BLOCK_SIZE <= USER_TOP
    ensures var s, n := Space([], 0, 0), 0xffff_ffff_ffff_ffff;
            && Keeps(s, []) && InUserHalf(s) && Granted(s, n, 8, pageSize, place)
            && !WordFits(s, n, 8) && HeaderWraps(s, n, 8) && !FitWraps(s, n, 8)
            && WordNeeded(n, 8) == 15
            && var a := AllocWord(s, n, 8, pageSize, place);
               && a.space.blocks == [Block(place, DEFAULT_BLOCK_SIZE)]
               && a.res == AlignUp(place + HEADER_SIZE, 8) && !Keeps(a.space, [Range(a.res, n)])
  {
    hide AlignUp, WordUp, Keeps;
    var s, n := Space([], 0, 0), 0xffff_ffff_ffff_ffff;
    NothingGiven();
    SmallAligned();
    WordUpIs(0, 8);
    WordUpIs(HEADER_SIZE, 8);
    WordUpIs(place + HEADER_SIZE, 8);
    Div(n, TWO_64, 0, n);
    Div(n + 16, TWO_64, 1, 15);
    HarmBreaks(s, [], n, 8, pageSize, place);
    assert [] + [Range(AllocWord(s, n, 8, pageSize, place).res, n)] == [Range(AllocWord(s, n, 8, pageSize, place).res, n)];
  }

  lemma NothingGiven()
    ensures Keeps(Space([], 0, 0), [])
  {
  }

  lemma SmallAligned()
    ensures AlignUp(0, 8) == 0 && AlignUp(HEADER_SIZE, 8) == 16
  {
    Div(7, 8, 0, 7);
    Div(23, 8, 2, 7);
  }

  /** A request for nothing gets one byte. */
  function Bytes(size: u64): u64 { if size == 0 then 1 else size }

  class Arena {
    var blocks: seq<Block>
    var current: nat
    var end: nat
    ghost var given: seq<Range>

    ghost function Now(): Space
      reads this
    {
      Space(blocks, current, end)
    }

    ghost predicate Valid()
      reads this
    {
      Keeps(Now(), given) && InUserHalf(Now())
    }

    constructor ()
      ensures Valid() && blocks == [] && given == []
    {
      blocks, current, end, given := [], 0, 0, [];
    }

    /** `Alloc`, on 64-bit words; `place` is where a new block comes to lie if one is needed. The
        ranges handed out stay aligned, in the blocks and disjoint exactly when no sum wraps
        harmfully, and then the result is that of unbounded integers. */
    method Alloc(size: u64, align: u64, pageSize: u64, place: u64) returns (res: u64)
      requires Valid() && WordAlignable(align, pageSize) && Granted(Now(), Bytes(size), align, pageSize, place)
      modifies this
      ensures Answer(res, Now()) == AllocWord(old(Now()), Bytes(size), align, pageSize, place)
      ensures given == old(given) + [Range(res, if size == 0 then 1 else size)] && res % align == 0
      ensures Valid() <==> !Harm(old(Now()), Bytes(size), align)
      ensures !Harm(old(Now()), Bytes(size), align) ==>
                && Answer(res, Now()) == AllocNat(old(Now()), Bytes(size), align, pageSize, place)
                && (blocks == old(blocks) || blocks == [Block(place, BlockSize(Bytes(size), align, pageSize))] + old(blocks))
    {
      hide AlignUp, WordUp, BlockSize, WordBlockSize, WordNeeded, Keeps, InUserHalf, Granted, Harm, AllocNat;
      var n := Bytes(size);
      ghost var before := Now();
      WordKeeps(before, given, n, align, pageSize, place);
      WordAligned(before, n, align, pageSize, place);
      WordIsNat(before, n, align, pageSize, place);
      NatBlocks(before, n, align, pageSize, place);
      res := WordUp(current, align);
      if Wrap(res + n) <= end {
        current := Wrap(res + n);
      } else {
        var b := Block(place, WordBlockSize(n, align, pageSize));
        blocks := [b] + blocks;
        res := WordUp(place + HEADER_SIZE, align);
        var newCurrent: int, dataEnd: int := Wrap(res + n), Wrap(b.start + b.size);
        if Int64(end - current) < Int64(dataEnd - newCurrent) {
          current := newCurrent;
          end := dataEnd;
        }
      }
      given := given + [Range(res, n)];
    }

    /** `FreeArenaBlocks`: every block goes back once, the default-sized ones to the pool. */
    method Free() returns (released: seq<Release>)
      ensures |released| == |blocks|
      ensures forall i :: 0 <= i < |blocks| ==>
                released[i] == if blocks[i].size == DEFAULT_BLOCK_SIZE then ToPool(blocks[i].start)
                               else ToKernel(blocks[i].start, blocks[i].size)
    {
      released := [];
      var rest := blocks;
      while rest != []
        invariant |released| + |rest| == |blocks| && rest == blocks[|released|..]
        invariant forall i :: 0 <= i < |released| ==>
                    released[i] == if blocks[i].size == DEFAULT_BLOCK_SIZE then ToPool(blocks[i].start)
                                   else ToKernel(blocks[i].start, blocks[i].size)
        decreases |rest|
      {
        var b := rest[0];
        rest := rest[1..];
        released := released + [if b.size == DEFAULT_BLOCK_SIZE then ToPool(b.start) else ToKernel(b.start, b.size)];
      }
    }
  }

  // ---- Runs that stay in one block ----

  type Alignment = a: u64 | a > 0 witness 1
  datatype Request = Request(size: u64, align: Alignment)

  /** Where the arena stands after these requests, from `start` on: each takes the first aligned address
      behind the last. */
  function Behind(start: nat, qs: seq<Request>): nat
  {
    if qs == [] then start
    else
      var q := qs[|qs| - 1];
      AlignUp(Behind(start, qs[..|qs| - 1]), q.align) + Bytes(q.size)
  }

  /** The requests can be served from one block of 131072 bytes at `place`. */
  ghost predicate OneBlock(qs: seq<Request>, pageSize: u64, place: u64) {
    && (forall q :: q in qs ==> WordAlignable(q.align, pageSize))
    && (forall i :: 0 <= i <= |qs| ==> EndsIn(place, qs, i))
    && (qs != [] ==> Bytes(qs[0].size) + AlignUp(16, qs[0].align) < 65536)
  }

  ghost predicate EndsIn(place: nat, qs: seq<Request>, i: nat)
    requires i <= |qs|
  {
    Behind(place + 16, qs[..i]) <= place + 131072
  }

  lemma BehindOneMore(start: nat, qs: seq<Request>, i: nat)
    requires i < |qs|
    ensures Behind(start, qs[..i + 1]) == AlignUp(Behind(start, qs[..i]), qs[i].align) + Bytes(qs[i].size)
  {
    hide AlignUp;
    assert qs[..i + 1][..i] == qs[..i];
  }

  /** An empty arena serves requests that fit together in one default block from exactly one block, one
      behind the other, and asks the kernel for nothing else. */
  method ServeAll(arena: Arena, qs: seq<Request>, pageSize: u64, place: u64) returns (res: seq<nat>)
    requires arena.Valid() && arena.blocks == [] && arena.current == arena.end == 0 && qs != []
    requires pageSize > 0 && place % pageSize == 0 && place + 131072 <= USER_TOP && OneBlock(qs, pageSize, place)
    modifies arena
    ensures arena.Valid() && |res| == |qs| && arena.blocks == [Block(place, 131072)]
    ensures arena.current == Behind(place + 16, qs) && arena.end == place + 131072
    ensures forall i :: 0 <= i < |qs| ==> res[i] == AlignUp(Behind(place + 16, qs[..i]), qs[i].align)
  {
    hide AlignUp, Behind, AllocWord, AllocNat, Keeps, InUserHalf, Harm, Granted, OneBlock, WordAlignable;
    res := [];
    while |res| < |qs|
      invariant |res| <= |qs| && arena.Valid()
      invariant if |res| == 0 then arena.Now() == Space([], 0, 0)
                else arena.Now() == Space([Block(place, 131072)], Behind(place + 16, qs[..|res|]), place + 131072)
      invariant forall i :: 0 <= i < |res| ==> res[i] == AlignUp(Behind(place + 16, qs[..i]), qs[i].align)
    {
      var i := |res|;
      ghost var now := arena.Now();
      NextInBlock(qs, pageSize, place, i, now);
      var r := arena.Alloc(qs[i].size, qs[i].align, pageSize, place);
      res := res + [r];
    }
    assert qs[..|qs|] == qs;
  }

  /** What the next request of such a run does. */
  lemma NextInBlock(qs: seq<Request>, pageSize: u64, place: u64, i: nat, now: Space)
    requires i < |qs| && pageSize > 0 && place % pageSize == 0 && place + 131072 <= USER_TOP && OneBlock(qs, pageSize, place)
    requires InUserHalf(now)
    requires if i == 0 then now == Space([], 0, 0)
             else now == Space([Block(place, 131072)], Behind(place + 16, qs[..i]), place + 131072)
    ensures WordAlignable(qs[i].align, pageSize)
    ensures var q := qs[i];
            && Granted(now, Bytes(q.size), q.align, pageSize, place) && !Harm(now, Bytes(q.size), q.align)
            && AllocNat(now, Bytes(q.size), q.align, pageSize, place)
               == Answer(AlignUp(Behind(place + 16, qs[..i]), q.align),
                         Space([Block(place, 131072)], Behind(place + 16, qs[..i + 1]), place + 131072))
  {
    hide AlignUp, BlockSize;
    var q := qs[i];
    BehindOneMore(place + 16, qs, i);
    assert EndsIn(place, qs, i + 1);
    if i == 0 {
      assert qs[..0] == [];
      FirstInBlock(q, pageSize, place);
    } else {
      TailServes(now, q, pageSize, place);
    }
  }

  lemma FirstInBlock(q: Request, pageSize: u64, place: u64)
    requires WordAlignable(q.align, pageSize) && place % pageSize == 0 && place + 131072 <= USER_TOP
    requires Bytes(q.size) + AlignUp(16, q.align) < 65536
    ensures var s, n := Space([], 0, 0), Bytes(q.size);
            && Granted(s, n, q.align, pageSize, place) && !Harm(s, n, q.align)
            && AllocNat(s, n, q.align, pageSize, place)
               == var res := AlignUp(place + 16, q.align); Answer(res, Space([Block(place, 131072)], res + n, place + 131072))
  {
    hide AlignUp, WordUp, WordFits, WordNeeded;
    var s, n := Space([], 0, 0), Bytes(q.size);
    ZeroIsAligned(q.align);
    FitTestIs(s, n, q.align);
    WordUpIs(HEADER_SIZE, q.align);
    NeededIs(n, q.align);
    NewBlockHasRoom(place, n, q.align, pageSize);
    assert [Block(place, 131072)] + [] == [Block(place, 131072)];
  }

  lemma NeededIs(n: u64, align: nat)
    requires 0 < align <= 0x8000_0000_0000_0000 && n + AlignUp(HEADER_SIZE, align) < TWO_64
    ensures WordNeeded(n, align) == n + AlignUp(HEADER_SIZE, align)
  {
    hide AlignUp, WordUp;
    WordUpIs(HEADER_SIZE, align);
    Div(n + AlignUp(HEADER_SIZE, align), TWO_64, 0, n + AlignUp(HEADER_SIZE, align));
  }

  lemma ZeroIsAligned(align: nat)
    requires align > 0
    ensures AlignUp(0, align) == 0
  {
    Div(align - 1, align, 0, align - 1);
  }

  lemma TailServes(s: Space, q: Request, pageSize: u64, place: u64)
    requires InUserHalf(s) && WordAlignable(q.align, pageSize) && AlignUp(s.current, q.align) + Bytes(q.size) <= s.end
    ensures var n := Bytes(q.size);
            && Granted(s, n, q.align, pageSize, place) && !Harm(s, n, q.align)
            && AllocNat(s, n, q.align, pageSize, place)
               == var res := AlignUp(s.current, q.align); Answer(res, s.(current := res + n))
  {
    hide AlignUp, WordUp, WordFits;
    FitTestIs(s, Bytes(q.size), q.align);
  }
}
