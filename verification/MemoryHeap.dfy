/** `Memory`: one heap cut into chunks of 128 bytes, with a bitmap of the chunks in use. */
module MemoryHeap {
  import opened Wrappers

  const CHUNK_SIZE: nat := 128
  const HEADER_SIZE: nat := 16    // kAlignment, the size of a MemoryHeader

  // ---- Bits ----

  /** `1 << k`. */
  function Mask(k: nat): bv8
    requires k < 8
  {
    match k
    case 0 => 1
    case 1 => 2
    case 2 => 4
    case 3 => 8
    case 4 => 16
    case 5 => 32
    case 6 => 64
    case _ => 128
  }

  lemma MaskIsShift(k: nat)
    requires k < 8
    ensures Mask(k) == (1 as bv8) << k
  {
    assert k == 0 || k == 1 || k == 2 || k == 3 || k == 4 || k == 5 || k == 6 || k == 7;
  }

  predicate Bit(b: bv8, k: nat)
    requires k < 8
  {
    b & Mask(k) != 0
  }

  lemma SetBit(b: bv8, k: nat, j: nat)
    requires k < 8 && j < 8
    ensures Bit(b | Mask(k), j) <==> j == k || Bit(b, j)
  {
  }

  lemma ClearBit(b: bv8, k: nat, j: nat)
    requires k < 8 && j < 8
    ensures Bit(b & !Mask(k), j) <==> j != k && Bit(b, j)
  {
  }

  /** A byte is its eight bits. */
  lemma SameByte(a: bv8, b: bv8)
    requires forall k :: 0 <= k < 8 ==> (Bit(a, k) <==> Bit(b, k))
    ensures a == b
  {
    assert Bit(a, 0) <==> Bit(b, 0);
    assert Bit(a, 1) <==> Bit(b, 1);
    assert Bit(a, 2) <==> Bit(b, 2);
    assert Bit(a, 3) <==> Bit(b, 3);
    assert Bit(a, 4) <==> Bit(b, 4);
    assert Bit(a, 5) <==> Bit(b, 5);
    assert Bit(a, 6) <==> Bit(b, 6);
    assert Bit(a, 7) <==> Bit(b, 7);
  }

  /** Chunk `i` is in use. */
  predicate Used(table: seq<bv8>, i: nat)
    requires i < 8 * |table|
  {
    Bit(table[i / 8], i % 8)
  }

  /** The `n` chunks from `s` on are free. */
  predicate FreeRun(table: seq<bv8>, s: nat, n: nat) {
    s + n <= 8 * |table| && forall i :: s <= i < s + n ==> !Used(table, i)
  }

  /** The tables differ in the chunks from `s` up to `e`, which are in use in `after` exactly if `v`. */
  predicate Marked(before: seq<bv8>, after: seq<bv8>, s: nat, e: nat, v: bool) {
    && |after| == |before|
    && forall i: nat :: i < 8 * |before| ==> (Used(after, i) <==> if s <= i < e then v else Used(before, i))
  }

  /** A byte with bit `k` set or cleared. */
  function WithBit(b: bv8, k: nat, v: bool): bv8
    requires k < 8
  {
    if v then b | Mask(k) else b & !Mask(k)
  }

  lemma MarkOne(before: seq<bv8>, i: nat, v: bool)
    requires i < 8 * |before|
    ensures Marked(before, before[i / 8 := WithBit(before[i / 8], i % 8, v)], i, i + 1, v)
  {
    hide Bit, Mask, WithBit, Used;
    var after := before[i / 8 := WithBit(before[i / 8], i % 8, v)];
    forall j: nat | j < 8 * |before| ensures Used(after, j) <==> if i <= j < i + 1 then v else Used(before, j) {
      MarkOneAt(before, i, v, j);
    }
    assert Marked(before, after, i, i + 1, v);
  }

  lemma MarkOneAt(before: seq<bv8>, i: nat, v: bool, j: nat)
    requires i < 8 * |before| && j < 8 * |before|
    ensures Used(before[i / 8 := WithBit(before[i / 8], i % 8, v)], j) <==> if j == i then v else Used(before, j)
  {
    hide Bit, Mask, WithBit;
    var w := WithBit(before[i / 8], i % 8, v);
    WithBitIs(before[i / 8], i % 8, v, j % 8);
    SamePlace(i, j);
    assert before[i / 8 := w][j / 8] == if j / 8 == i / 8 then w else before[j / 8];
  }

  lemma WithBitIs(b: bv8, k: nat, v: bool, j: nat)
    requires k < 8 && j < 8
    ensures Bit(WithBit(b, k, v), j) <==> if j == k then v else Bit(b, j)
  {
    hide Bit, Mask;
    SetBit(b, k, j);
    ClearBit(b, k, j);
  }

  lemma SamePlace(i: nat, j: nat)
    ensures j == i <==> j / 8 == i / 8 && j % 8 == i % 8
  {
  }

  lemma MarkMore(a: seq<bv8>, b: seq<bv8>, c: seq<bv8>, s: nat, i: nat, v: bool)
    requires Marked(a, b, s, i, v) && Marked(b, c, i, i + 1, v) && s <= i
    ensures Marked(a, c, s, i + 1, v)
  {
    hide Used;
  }

  lemma MarkNothing(a: seq<bv8>, s: nat, v: bool)
    ensures Marked(a, a, s, s, v)
  {
  }

  lemma SameTable(a: seq<bv8>, b: seq<bv8>)
    requires |a| == |b| && forall i: nat :: i < 8 * |a| ==> (Used(a, i) <==> Used(b, i))
    ensures a == b
  {
    hide Bit;
    forall j | 0 <= j < |a| ensures a[j] == b[j] {
      forall k | 0 <= k < 8 ensures Bit(a[j], k) <==> Bit(b[j], k) {
        assert Used(a, 8 * j + k) <==> Used(b, 8 * j + k);
      }
      SameByte(a[j], b[j]);
    }
  }

  // ---- The search ----

  /** The tables differ in the `n` chunks at `s`, the lowest free run there was, which are now in use. */
  ghost predicate TakenLowest(before: seq<bv8>, after: seq<bv8>, s: nat, n: nat) {
    FreeRun(before, s, n) && (forall t: nat :: t < s ==> !FreeRun(before, t, n)) && Marked(before, after, s, s + n, true)
  }

  /** `AllocChunk`: the lowest run of free chunks, which is then marked; -1 exactly if there is none. */
  method AllocChunk(table: array<bv8>, totalChunks: nat, chunkCount: nat) returns (chunk: int)
    requires totalChunks == 8 * table.Length && chunkCount > 0
    modifies table
    ensures chunk == -1 <==> forall s: nat :: !FreeRun(old(table[..]), s, chunkCount)
    ensures chunk == -1 ==> table[..] == old(table[..])
    ensures chunk != -1 ==>
              0 <= chunk && TakenLowest(old(table[..]), table[..], chunk, chunkCount)
  {
    hide Bit, Mask, Used;
    ghost var t := table[..];
    var startChunk := -1;
    var count := 0;
    var i := 0;
    while i < totalChunks
      invariant 0 <= i <= totalChunks && 0 <= count <= i && count < chunkCount && table[..] == t
      invariant startChunk == if count == 0 then -1 else i - count
      invariant Scanned(t, i, count, chunkCount)
    {
      ScanOne(t, i, count, chunkCount);
      var used := Test(table, i);
      if !used {
        if startChunk == -1 {
          startChunk := i;
        }
        count := count + 1;
        if count == chunkCount {
          break;
        }
      } else {
        startChunk := -1;
        count := 0;
      }
      i := i + 1;
    }
    if count == chunkCount {
      Mark(table, startChunk, startChunk + chunkCount);
      chunk := startChunk;
    } else {
      ScannedAll(t, count, chunkCount);
      chunk := -1;
    }
  }

  method Test(table: array<bv8>, i: nat) returns (used: bool)
    requires i < 8 * table.Length
    ensures used == Used(table[..], i)
  {
    used := table[i / 8] & Mask(i % 8) != 0;
  }

  /** The loop that sets the bits from `s` up to `e`. */
  method Mark(table: array<bv8>, s: nat, e: nat)
    requires s <= e <= 8 * table.Length
    modifies table
    ensures Marked(old(table[..]), table[..], s, e, true)
  {
    hide Bit, Mask, Used, Marked, WithBit;
    MarkNothing(table[..], s, true);
    var i := s;
    while i < e
      invariant s <= i <= e && Marked(old(table[..]), table[..], s, i, true)
    {
      ghost var t := table[..];
      MarkOne(t, i, true);
      table[i / 8] := WithBit(table[i / 8], i % 8, true);
      MarkMore(old(table[..]), t, table[..], s, i, true);
      i := i + 1;
    }
  }

  /** The loop that clears them. */
  method Clear(table: array<bv8>, s: nat, e: nat)
    requires s <= e <= 8 * table.Length
    modifies table
    ensures Marked(old(table[..]), table[..], s, e, false)
  {
    hide Bit, Mask, Used, Marked, WithBit;
    MarkNothing(table[..], s, false);
    var i := s;
    while i < e
      invariant s <= i <= e && Marked(old(table[..]), table[..], s, i, false)
    {
      ghost var t := table[..];
      MarkOne(t, i, false);
      table[i / 8] := WithBit(table[i / 8], i % 8, false);
      MarkMore(old(table[..]), t, table[..], s, i, false);
      i := i + 1;
    }
  }

  /** Up to `i`, the search has passed every run and the last `count` chunks, and no more, are free. */
  ghost predicate Scanned(t: seq<bv8>, i: nat, count: nat, n: nat) {
    && count <= i <= 8 * |t|
    && FreeRun(t, i - count, count)
    && (i > count ==> Used(t, i - count - 1))
    && forall s: nat :: s + n <= i ==> !FreeRun(t, s, n)
  }

  lemma ScanOne(t: seq<bv8>, i: nat, count: nat, n: nat)
    requires Scanned(t, i, count, n) && i < 8 * |t| && count < n
    ensures !Used(t, i) && count + 1 < n ==> Scanned(t, i + 1, count + 1, n)
    ensures Used(t, i) ==> Scanned(t, i + 1, 0, n)
    ensures !Used(t, i) && count + 1 == n ==>
              FreeRun(t, i - count, n) && forall s: nat :: s < i - count ==> !FreeRun(t, s, n)
  {
    hide Used;
    forall s: nat | s + n <= i + 1 && s + n > i && s < i - count ensures !FreeRun(t, s, n) {
      assert Used(t, i - count - 1);
    }
    if Used(t, i) {
      forall s: nat | s + n == i + 1 ensures !FreeRun(t, s, n) {
        assert s <= i < s + n;
      }
    }
  }

  lemma ScannedAll(t: seq<bv8>, count: nat, n: nat)
    requires Scanned(t, 8 * |t|, count, n)
    ensures forall s: nat :: !FreeRun(t, s, n)
  {
    hide Used;
  }

  // ---- Sums over the live blocks ----

  ghost function Sum(m: map<nat, nat>): nat {
    if m == map[] then 0 else var k :| k in m; m[k] + Sum(m - {k})
  }

  lemma {:induction false} SumRemove(m: map<nat, nat>, k: nat)
    requires k in m
    ensures Sum(m) == m[k] + Sum(m - {k})
    decreases |m|
  {
    var c :| c in m && Sum(m) == m[c] + Sum(m - {c});
    if c != k {
      SumRemove(m - {c}, k);
      SumRemove(m - {k}, c);
      assert m - {c} - {k} == m - {k} - {c};
    }
  }

  lemma SumAdd(m: map<nat, nat>, k: nat, v: nat)
    requires k !in m
    ensures Sum(m[k := v]) == Sum(m) + v
  {
    SumRemove(m[k := v], k);
    assert m[k := v] - {k} == m;
  }

  // ---- Blocks and bits ----

  ghost predicate Covers(live: map<nat, nat>, s: nat, i: nat) {
    s in live && s <= i < s + live[s]
  }

  /** Live blocks lie in the heap, are disjoint, and cover exactly the chunks whose bit is set. */
  ghost predicate Layout(live: map<nat, nat>, table: seq<bv8>) {
    && (forall s :: s in live ==> live[s] > 0 && s + live[s] <= 8 * |table|)
    && (forall s, t :: s in live && t in live && s < t ==> s + live[s] <= t)
    && (forall i: nat :: i < 8 * |table| ==> (Used(table, i) <==> exists s :: Covers(live, s, i)))
  }

  lemma EmptyLayout(table: seq<bv8>)
    requires forall j :: 0 <= j < |table| ==> table[j] == 0
    ensures Layout(map[], table)
  {
    hide Mask;
  }

  lemma LiveIsPositive(live: map<nat, nat>, table: seq<bv8>, s: nat)
    requires Layout(live, table)
    ensures s in live ==> live[s] > 0 && s + live[s] <= 8 * |table|
  {
  }

  lemma LayoutAlloc(live: map<nat, nat>, t: seq<bv8>, t': seq<bv8>, c: nat, n: nat)
    requires Layout(live, t) && n > 0 && FreeRun(t, c, n) && Marked(t, t', c, c + n, true)
    ensures c !in live && Layout(live[c := n], t')
  {
    hide Used;
    var more := live[c := n];
    forall s: nat, i: nat | Covers(live, s, i) && i < 8 * |t| ensures !(c <= i < c + n) {
      assert Used(t, i);
    }
    forall s | s in live ensures s + live[s] <= c || c + n <= s {
      assert Covers(live, s, s);
      assert !Covers(live, s, c);
    }
    forall i: nat | i < 8 * |t'| ensures Used(t', i) <==> exists s :: Covers(more, s, i) {
      if c <= i < c + n {
        assert Covers(more, c, i);
      } else {
        if Used(t, i) {
          var s :| Covers(live, s, i);
          assert Covers(more, s, i);
        }
        if exists s :: Covers(more, s, i) {
          var s :| Covers(more, s, i);
          assert Covers(live, s, i);
        }
      }
    }
  }

  lemma LayoutFree(live: map<nat, nat>, t: seq<bv8>, t': seq<bv8>, c: nat)
    requires Layout(live, t) && c in live && Marked(t, t', c, c + live[c], false)
    ensures Layout(live - {c}, t')
  {
    hide Used;
    var less := live - {c};
    forall i: nat | i < 8 * |t'| ensures Used(t', i) <==> exists s :: Covers(less, s, i) {
      if !(c <= i < c + live[c]) {
        if Used(t, i) {
          var s :| Covers(live, s, i);
          assert Covers(less, s, i);
        }
        if exists s :: Covers(less, s, i) {
          var s :| Covers(less, s, i);
          assert Covers(live, s, i);
        }
      }
    }
  }

  // ---- The heap ----

  class Heap {
    const base: nat
    const totalChunks: nat
    const table: array<bv8>
    var headers: map<nat, nat>      // chunk_count at the places where headers were written, by chunk
    var allocatedChunks: nat
    ghost var live: map<nat, nat>   // the blocks that are allocated

    ghost predicate HeadersOk()
      reads `live, `headers
    {
      forall s :: s in live ==> s in headers && headers[s] == live[s]
    }

    ghost predicate Valid()
      reads this, table
    {
      totalChunks == 8 * table.Length && Layout(live, table[..]) && HeadersOk() && allocatedChunks == Sum(live)
    }

    /** A new heap whose chunks are all free. */
    constructor (b: nat, bytes: nat)
      ensures Valid() && fresh(table) && base == b && totalChunks == 8 * bytes && live == map[]
    {
      base, totalChunks := b, 8 * bytes;
      table := new bv8[bytes](_ => 0);
      headers, allocatedChunks := map[], 0;
      live := map[];
      new;
      EmptyLayout(table[..]);
    }

    /** `__builtin_align_up(size + kAlignment, kChunkSize) / kChunkSize`. */
    static function ChunksFor(size: nat): (n: nat)
      ensures n > 0 && n * CHUNK_SIZE >= size + HEADER_SIZE && (n - 1) * CHUNK_SIZE < size + HEADER_SIZE
    {
      (size + HEADER_SIZE + CHUNK_SIZE - 1) / CHUNK_SIZE
    }

    /** `DoAlloc`: the lowest place where the block fits, or null exactly when the size is zero or
        larger than the heap or there is no such place. */
    method DoAlloc(size: nat) returns (p: Option<nat>)
      requires Valid()
      modifies this, table
      ensures Valid()
      ensures p == None <==>
                size == 0 || size > totalChunks * CHUNK_SIZE
                || forall s: nat :: !FreeRun(old(table[..]), s, ChunksFor(size))
      ensures p == None ==> live == old(live) && table[..] == old(table[..]) && headers == old(headers)
      ensures p.Some? ==>
                exists chunk: nat ::
                  && p.value == base + chunk * CHUNK_SIZE + HEADER_SIZE
                  && chunk !in old(live) && live == old(live)[chunk := ChunksFor(size)]
                  && TakenLowest(old(table[..]), table[..], chunk, ChunksFor(size))
                  && headers == old(headers)[chunk := ChunksFor(size)]
                  && allocatedChunks == old(allocatedChunks) + ChunksFor(size)
    {
      hide Used, Marked, FreeRun, Layout, Sum;
      if size == 0 || size > totalChunks * CHUNK_SIZE {
        return None;
      }
      var n := ChunksFor(size);
      ghost var before := table[..];
      var chunk := AllocChunk(table, totalChunks, n);
      if chunk < 0 {
        return None;
      }
      assert TakenLowest(before, table[..], chunk, n);
      LayoutAlloc(live, before, table[..], chunk, n);
      SumAdd(live, chunk, n);
      headers := headers[chunk := n];
      allocatedChunks := allocatedChunks + n;
      live := live[chunk := n];
      p := Some(base + chunk * CHUNK_SIZE + HEADER_SIZE);
    }

    /** `Free` through `GetMemoryHeader`: the pointer of a live block gives its chunks back; the null
        pointer and one whose header says zero are ignored. A block freed before says zero until its
        header's bytes are handed out again and rewritten; what happens then is `StaleHeader`. */
    method Free(p: Option<nat>)
      requires Valid()
      requires p.Some? ==> exists chunk: nat :: p.value == base + chunk * CHUNK_SIZE + HEADER_SIZE && Freeable(chunk)
      modifies this, table
      ensures Valid()
      ensures p == None ==> live == old(live) && table[..] == old(table[..]) && headers == old(headers)
      ensures p.Some? ==>
                var chunk: nat := (p.value - HEADER_SIZE - base) / CHUNK_SIZE;
                && live == old(live) - {chunk} && headers == old(headers)[chunk := 0]
                && (chunk !in old(live) ==> table[..] == old(table[..]) && allocatedChunks == old(allocatedChunks))
                && (chunk in old(live) ==>
                      && Marked(old(table[..]), table[..], chunk, chunk + old(live)[chunk], false)
                      && allocatedChunks == old(allocatedChunks) - old(live)[chunk])
    {
      hide Used, Marked, Layout, Sum;
      if p.None? {
        return;
      }
      var chunk: nat := (p.value - HEADER_SIZE - base) / CHUNK_SIZE;
      if headers[chunk] == 0 {
        LiveIsPositive(live, table[..], chunk);
        assert live - {chunk} == live && headers[chunk := 0] == headers;
        return;
      }
      DoFree(chunk);
    }

    /** The header at `chunk` is that of a live block, or says zero. */
    ghost predicate Freeable(chunk: nat)
      reads `live, `headers
    {
      chunk in headers && (chunk in live || headers[chunk] == 0)
    }

    /** The user of a live block writes where a header once stood inside it. */
    method Rewrite(chunk: nat, v: nat)
      requires Valid() && exists t :: t in live && t < chunk < t + live[t]
      modifies this`headers
      ensures Valid() && headers == old(headers)[chunk := v]
    {
      hide Layout, Sum;
      InsideIsNotLive(live, table[..], chunk);
      headers := headers[chunk := v];
    }

    method DoFree(chunk: nat)
      requires Valid() && chunk in live
      modifies this, table
      ensures Valid() && live == old(live) - {chunk} && headers == old(headers)[chunk := 0]
      ensures Marked(old(table[..]), table[..], chunk, chunk + old(live)[chunk], false)
      ensures allocatedChunks == old(allocatedChunks) - old(live)[chunk]
    {
      hide Used, Marked, Layout, Sum;
      ghost var before := table[..];
      LiveIsPositive(live, before, chunk);
      Clear(table, chunk, chunk + headers[chunk]);
      LayoutFree(live, before, table[..], chunk);
      SumRemove(live, chunk);
      SumIsNat(live, chunk);
      allocatedChunks := allocatedChunks - headers[chunk];
      headers := headers[chunk := 0];
      live := live - {chunk};
    }
  }

  lemma InsideIsNotLive(live: map<nat, nat>, table: seq<bv8>, chunk: nat)
    requires Layout(live, table) && exists t :: t in live && t < chunk < t + live[t]
    ensures chunk !in live
  {
  }

  /** Freeing through a header inside a live block that no longer says zero takes chunks from that
      block: bits and live blocks do not correspond any more. */
  lemma StaleHeader(live: map<nat, nat>, table: seq<bv8>, after: seq<bv8>, t: nat, chunk: nat, v: nat)
    requires Layout(live, table) && t in live && t < chunk < t + live[t] && v > 0
    requires Marked(table, after, chunk, chunk + v, false)
    ensures !Layout(live, after)
  {
    hide Used;
    assert Covers(live, t, chunk);
    assert !Used(after, chunk);
  }

  lemma SumIsNat(m: map<nat, nat>, k: nat)
    requires k in m && Sum(m) == m[k] + Sum(m - {k})
    ensures Sum(m) >= m[k]
  {
  }

  // ---- Allocation and release ----

  /** Releasing what was just allocated restores the bitmap, the count and the blocks. */
  method AllocThenFree(h: Heap, size: nat) returns (p: Option<nat>)
    requires h.Valid()
    modifies h, h.table
    ensures h.Valid() && h.live == old(h.live) && h.table[..] == old(h.table[..])
    ensures h.allocatedChunks == old(h.allocatedChunks)
  {
    hide Used, FreeRun, Layout, Sum, Marked, Heap.ChunksFor;
    ghost var before, blocks := h.table[..], h.live;
    p := h.DoAlloc(size);
    if p.Some? {
      ghost var n := Heap.ChunksFor(size);
      ghost var c: nat :| p.value == h.base + c * CHUNK_SIZE + HEADER_SIZE && c !in blocks && h.live == blocks[c := n]
                          && TakenLowest(before, h.table[..], c, n);
      ghost var between := h.table[..];
      assert h.Freeable(c);
      h.Free(p);
      assert (p.value - HEADER_SIZE - h.base) / CHUNK_SIZE == c;
      Undone(before, between, h.table[..], c, n);
      assert blocks[c := n] - {c} == blocks;
    }
  }

  lemma Undone(a: seq<bv8>, b: seq<bv8>, c: seq<bv8>, s: nat, n: nat)
    requires FreeRun(a, s, n) && Marked(a, b, s, s + n, true) && Marked(b, c, s, s + n, false)
    ensures c == a
  {
    hide Used;
    SameTable(c, a);
  }

  /** A block of `live` that was sized for a request of `size` bytes. */
  predicate SizedFor(live: map<nat, nat>, s: nat, size: nat) {
    s in live && live[s] == Heap.ChunksFor(size)
  }

  predicate Disjoint(x: nat, m: nat, y: nat, n: nat) { x + m <= y || y + n <= x }

  /** The bytes two requests get, with the headers in front of them, share nothing and lie inside the
      heap. */
  lemma BlocksAreApart(live: map<nat, nat>, table: seq<bv8>, base: nat, s: nat, m: nat, t: nat, n: nat)
    requires Layout(live, table) && SizedFor(live, s, m) && SizedFor(live, t, n) && s != t
    ensures var p, q := base + s * CHUNK_SIZE + HEADER_SIZE, base + t * CHUNK_SIZE + HEADER_SIZE;
            && Disjoint(p - HEADER_SIZE, HEADER_SIZE + m, q - HEADER_SIZE, HEADER_SIZE + n)
            && base <= p - HEADER_SIZE && p + m <= base + 8 * |table| * CHUNK_SIZE
  {
    hide Used;
    if s < t {
      assert s + live[s] <= t;
    } else {
      assert t + live[t] <= s;
    }
  }

  /** Every block was sized for a request: this holds of the empty heap and is kept by every request. */
  ghost predicate AllSized(live: map<nat, nat>) {
    forall s :: s in live ==> exists size: nat :: SizedFor(live, s, size)
  }

  lemma {:induction false} RunKeepsSized(live: map<nat, nat>, total: nat, qs: seq<Request>)
    requires AllSized(live)
    ensures AllSized(AfterAll(live, total, qs))
    decreases |qs|
  {
    hide Place;
    if qs != [] {
      RunKeepsSized(live, total, qs[..|qs| - 1]);
      StepKeepsSized(AfterAll(live, total, qs[..|qs| - 1]), total, qs[|qs| - 1]);
    }
  }

  lemma StepKeepsSized(live: map<nat, nat>, total: nat, q: Request)
    requires AllSized(live)
    ensures AllSized(After(live, total, q))
  {
    hide Place, Heap.ChunksFor;
    var after := After(live, total, q);
    forall s | s in after ensures exists size: nat :: SizedFor(after, s, size) {
      if q.Alloc? && Place(live, total, q.size) == Some(s) {
        assert SizedFor(after, s, q.size);
      } else {
        var size: nat :| SizedFor(live, s, size);
        assert SizedFor(after, s, size);
      }
    }
  }

  // ---- Runs ----

  /** No live block overlaps the `n` chunks from `s` on. */
  ghost predicate Room(live: map<nat, nat>, s: nat, n: nat) {
    forall t :: t in live ==> t + live[t] <= s || s + n <= t
  }

  /** The lowest place from `at` on with room for `n` of the `total` chunks. */
  ghost function Lowest(live: map<nat, nat>, total: nat, n: nat, at: nat): (r: Option<nat>)
    ensures r.Some? ==> at <= r.value && r.value + n <= total && Room(live, r.value, n)
    ensures forall s :: at <= s && s + n <= total && (r.Some? ==> s < r.value) ==> !Room(live, s, n)
    decreases total - at
  {
    if at + n > total then None
    else if Room(live, at, n) then Some(at)
    else Lowest(live, total, n, at + 1)
  }

  /** The block of an answer to `Alloc(size)`. */
  ghost function Place(live: map<nat, nat>, total: nat, size: nat): Option<nat> {
    if size == 0 || size > total * CHUNK_SIZE then None else Lowest(live, total, Heap.ChunksFor(size), 0)
  }

  datatype Request = Alloc(size: nat) | Release(chunk: nat)

  ghost function After(live: map<nat, nat>, total: nat, q: Request): map<nat, nat> {
    match q
    case Alloc(size) =>
      var c := Place(live, total, size);
      if c.Some? then live[c.value := Heap.ChunksFor(size)] else live
    case Release(c) => live - {c}
  }

  ghost function AfterAll(live: map<nat, nat>, total: nat, qs: seq<Request>): map<nat, nat> {
    if qs == [] then live else After(AfterAll(live, total, qs[..|qs| - 1]), total, qs[|qs| - 1])
  }

  /** Only live blocks are released. */
  ghost predicate Legal(live: map<nat, nat>, total: nat, qs: seq<Request>) {
    forall i :: 0 <= i < |qs| && qs[i].Release? ==> qs[i].chunk in AfterAll(live, total, qs[..i])
  }

  /** The bitmap's free runs are the places where no block is. */
  lemma FreeRunIsRoom(live: map<nat, nat>, table: seq<bv8>, s: nat, n: nat)
    requires Layout(live, table) && n > 0
    ensures FreeRun(table, s, n) <==> s + n <= 8 * |table| && Room(live, s, n)
  {
    hide Used;
    if s + n <= 8 * |table| {
      if FreeRun(table, s, n) {
        forall t | t in live ensures t + live[t] <= s || s + n <= t {
          var i := if s <= t then t else s;
          if i < s + n {
            assert !Used(table, i);
            assert !Covers(live, t, i);
          }
        }
      }
      if Room(live, s, n) {
        assert forall t, i: nat | s <= i < s + n :: !Covers(live, t, i);
        assert forall i: nat | s <= i < s + n :: !Used(table, i);
      }
    }
  }

  lemma LowestIs(live: map<nat, nat>, total: nat, n: nat, c: nat)
    requires c + n <= total && Room(live, c, n) && forall s: nat :: s < c ==> !Room(live, s, n)
    ensures Lowest(live, total, n, 0) == Some(c)
  {
    hide Room;
  }

  /** Any sequence of requests: the heap's blocks are those of first fit, and every answer is where
      first fit puts the block. */
  method ServeAll(h: Heap, qs: seq<Request>) returns (ps: seq<Option<nat>>)
    requires h.Valid() && Legal(h.live, h.totalChunks, qs)
    modifies h, h.table
    ensures h.Valid() && h.live == AfterAll(old(h.live), h.totalChunks, qs) && |ps| == |qs|
    ensures forall i :: 0 <= i < |qs| && qs[i].Alloc? ==>
              ps[i] == AddressOf(h.base, Place(AfterAll(old(h.live), h.totalChunks, qs[..i]), h.totalChunks, qs[i].size))
  {
    hide Heap.Valid, Place, After, AfterAll;
    ps := [];
    ghost var start, total := h.live, h.totalChunks;
    assert qs[..0] == [] && AfterAll(start, total, []) == start by { NoneServed(start, total); }
    while |ps| < |qs|
      invariant |ps| <= |qs| && h.Valid() && h.live == AfterAll(start, total, qs[..|ps|])
      invariant forall i :: 0 <= i < |ps| && qs[i].Alloc? ==>
                  ps[i] == AddressOf(h.base, Place(AfterAll(start, total, qs[..i]), total, qs[i].size))
    {
      var i := |ps|;
      OneMore(start, total, qs, i);
      var p := ServeOne(h, qs[i]);
      ps := ps + [p];
    }
    assert qs[..|ps|] == qs;
  }

  lemma NoneServed(live: map<nat, nat>, total: nat)
    ensures AfterAll(live, total, []) == live
  {
  }

  lemma OneMore(live: map<nat, nat>, total: nat, qs: seq<Request>, i: nat)
    requires i < |qs|
    ensures AfterAll(live, total, qs[..i + 1]) == After(AfterAll(live, total, qs[..i]), total, qs[i])
  {
    hide After;
    assert qs[..i + 1][..i] == qs[..i];
  }

  function AddressOf(base: nat, chunk: Option<nat>): Option<nat> {
    match chunk
    case Some(c) => Some(base + c * CHUNK_SIZE + HEADER_SIZE)
    case None => None
  }

  /** What a request costs: the fewest chunks of 128 bytes that hold it behind a header of 16, so one
      chunk up to 112 bytes; and its address is 16 bytes into the first of them. */
  lemma RequestTakes(base: nat, chunk: nat, size: nat)
    ensures var n := Heap.ChunksFor(size);
            && 128 * n >= size + 16 && 128 * (n - 1) < size + 16 && (size <= 112 <==> n == 1)
            && AddressOf(base, Some(chunk)) == Some(base + 128 * chunk + 16)
  {
  }

  method ServeOne(h: Heap, q: Request) returns (p: Option<nat>)
    requires h.Valid() && (q.Release? ==> q.chunk in h.live)
    modifies h, h.table
    ensures h.Valid() && h.live == After(old(h.live), h.totalChunks, q)
    ensures q.Alloc? ==> p == AddressOf(h.base, Place(old(h.live), h.totalChunks, q.size))
  {
    hide Used, FreeRun, Layout, Sum, Marked, Lowest, Room;
    p := None;
    match q {
      case Alloc(size) =>
        ghost var before, blocks, n := h.table[..], h.live, Heap.ChunksFor(size);
        p := h.DoAlloc(size);
        if p.Some? {
          ghost var c: nat :| p.value == h.base + c * CHUNK_SIZE + HEADER_SIZE && c !in blocks && h.live == blocks[c := n]
                              && TakenLowest(before, h.table[..], c, n);
          PlaceFound(blocks, before, n, c);
        } else if size != 0 && size <= h.totalChunks * CHUNK_SIZE {
          PlaceMissing(blocks, before, n);
        }
      case Release(chunk) =>
        h.DoFree(chunk);
    }
  }

  lemma PlaceFound(live: map<nat, nat>, table: seq<bv8>, n: nat, c: nat)
    requires Layout(live, table) && n > 0 && FreeRun(table, c, n) && forall s: nat :: s < c ==> !FreeRun(table, s, n)
    ensures Lowest(live, 8 * |table|, n, 0) == Some(c)
  {
    hide FreeRun, Layout, Room;
    FreeRunIsRoom(live, table, c, n);
    forall s: nat | s < c ensures !Room(live, s, n) {
      FreeRunIsRoom(live, table, s, n);
    }
    LowestIs(live, 8 * |table|, n, c);
  }

  lemma PlaceMissing(live: map<nat, nat>, table: seq<bv8>, n: nat)
    requires Layout(live, table) && n > 0 && forall s: nat :: !FreeRun(table, s, n)
    ensures Lowest(live, 8 * |table|, n, 0) == None
  {
    hide FreeRun, Layout, Room;
    var r := Lowest(live, 8 * |table|, n, 0);
    if r.Some? {
      FreeRunIsRoom(live, table, r.value, n);
    }
  }

  /** When every block was released the bitmap is as it was at first. */
  lemma NothingLeft(table: seq<bv8>)
    requires Layout(map[], table)
    ensures table == seq(|table|, _ => 0)
  {
    hide Used;
    var zero: seq<bv8> := seq(|table|, _ => 0);
    EmptyLayout(zero);
    forall i: nat | i < 8 * |table| ensures Used(table, i) <==> Used(zero, i) {
    }
    SameTable(table, zero);
  }
}
