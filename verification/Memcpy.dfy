/** `__rv64hook_libc_memcpy_gc`: copying bytes within one memory, forwards or backwards, by words
    where both operands can be aligned. An index of the array is an address. */
module Memcpy {
  import opened Words

  type Byte = x: int | 0 <= x < 0x100

  const WORD_SIZE: nat := 8

  /** What `memmove` leaves: the old source bytes at the destination, everything else untouched. */
  function Moved(was: seq<Byte>, dst: nat, src: nat, n: nat): seq<Byte>
    requires dst + n <= |was| && src + n <= |was|
  {
    was[..dst] + was[src..src + n] + was[dst + n..]
  }

  /** The bytes from `lo` up to `hi` of the copy are done. */
  ghost predicate Copied(now: seq<Byte>, was: seq<Byte>, dst: nat, src: nat, lo: nat, hi: nat)
    requires dst + hi <= |was| && src + hi <= |was|
  {
    && |now| == |was|
    && (forall j :: dst + lo <= j < dst + hi ==> now[j] == was[j - dst + src])
    && (forall j :: 0 <= j < |was| && !(dst + lo <= j < dst + hi) ==> now[j] == was[j])
  }

  lemma CopiedIsMoved(now: seq<Byte>, was: seq<Byte>, dst: nat, src: nat, n: nat)
    requires dst + n <= |was| && src + n <= |was| && Copied(now, was, dst, src, 0, n)
    ensures now == Moved(was, dst, src, n)
  {
    var moved := Moved(was, dst, src, n);
    assert |now| == |moved|;
    forall j | 0 <= j < |was| ensures now[j] == moved[j] {
    }
  }

  lemma NothingCopied(was: seq<Byte>, dst: nat, src: nat, k: nat)
    requires dst + k <= |was| && src + k <= |was|
    ensures Copied(was, was, dst, src, k, k)
  {
  }

  /** One aligned word: all of it is read before any of it is written. */
  method CopyWord(mem: array<Byte>, dst: nat, src: nat)
    requires dst % WORD_SIZE == 0 && src % WORD_SIZE == 0
    requires dst + WORD_SIZE <= mem.Length && src + WORD_SIZE <= mem.Length
    modifies mem
    ensures Copied(mem[..], old(mem[..]), dst, src, 0, WORD_SIZE)
  {
    var b0, b1, b2, b3 := mem[src], mem[src + 1], mem[src + 2], mem[src + 3];
    var b4, b5, b6, b7 := mem[src + 4], mem[src + 5], mem[src + 6], mem[src + 7];
    mem[dst], mem[dst + 1], mem[dst + 2], mem[dst + 3] := b0, b1, b2, b3;
    mem[dst + 4], mem[dst + 5], mem[dst + 6], mem[dst + 7] := b4, b5, b6, b7;
  }

  lemma ForwardOne(now: seq<Byte>, next: seq<Byte>, was: seq<Byte>, dst: nat, src: nat, k: nat, step: nat)
    requires dst < src && dst + k + step <= |was| && src + k + step <= |was| && Copied(now, was, dst, src, 0, k)
    requires step == 1 || dst + step <= src
    requires Copied(next, now, dst + k, src + k, 0, step)
    ensures Copied(next, was, dst, src, 0, k + step)
  {
    forall j | 0 <= j < |was| ensures next[j] == if dst <= j < dst + (k + step) then was[j - dst + src] else was[j] {
      if dst + k <= j < dst + k + step {
        var i := j - dst + src;
        assert next[j] == now[j - (dst + k) + (src + k)] == now[i];
        assert now[i] == was[i];
      } else {
        assert next[j] == now[j];
      }
    }
  }

  lemma BackwardOne(now: seq<Byte>, next: seq<Byte>, was: seq<Byte>, dst: nat, src: nat, k: nat, step: nat, n: nat)
    requires src < dst && step <= k <= n && dst + n <= |was| && src + n <= |was| && Copied(now, was, dst, src, k, n)
    requires step == 1 || src + step <= dst
    requires Copied(next, now, dst + (k - step), src + (k - step), 0, step)
    ensures Copied(next, was, dst, src, k - step, n)
  {
    var low := k - step;
    forall j | 0 <= j < |was| ensures next[j] == if dst + low <= j < dst + n then was[j - dst + src] else was[j] {
      if dst + low <= j < dst + k {
        var i := j - dst + src;
        assert next[j] == now[j - (dst + low) + (src + low)] == now[i];
        assert now[i] == was[i];
      } else {
        assert next[j] == now[j];
      }
    }
  }

  /** `*dst++ = *src++`, `t` times. */
  method BytesForward(mem: array<Byte>, dst0: nat, src0: nat, k0: nat, t0: nat, ghost was: seq<Byte>) returns (k: nat)
    requires dst0 < src0 && src0 + k0 + t0 <= mem.Length == |was| && Copied(mem[..], was, dst0, src0, 0, k0)
    modifies mem
    ensures k == k0 + t0 && Copied(mem[..], was, dst0, src0, 0, k)
  {
    hide Copied;
    k := k0;
    var t: nat := t0;
    while t > 0
      invariant k + t == k0 + t0 && Copied(mem[..], was, dst0, src0, 0, k)
    {
      ghost var now := mem[..];
      mem[dst0 + k] := mem[src0 + k];
      OneByte(now, mem[..], dst0 + k, src0 + k);
      ForwardOne(now, mem[..], was, dst0, src0, k, 1);
      k := k + 1;
      t := t - 1;
    }
  }

  lemma OneByte(now: seq<Byte>, next: seq<Byte>, dst: nat, src: nat)
    requires dst < |now| && src < |now| && next == now[dst := now[src]]
    ensures Copied(next, now, dst, src, 0, 1)
  {
  }

  lemma NextWord(p: nat)
    requires p % WORD_SIZE == 0
    ensures (p + WORD_SIZE) % WORD_SIZE == 0
  {
    Euclid(p, 8);
    Div(p + 8, 8, p / 8 + 1, 0);
  }

  lemma PreviousWord(p: nat)
    requires p % WORD_SIZE == 0 && p >= WORD_SIZE
    ensures (p - WORD_SIZE) % WORD_SIZE == 0
  {
    Euclid(p, 8);
    Div(p - 8, 8, p / 8 - 1, 0);
  }

  /** Aligned addresses that differ are at least a word apart. */
  lemma WordsApart(p: nat, q: nat)
    requires p % WORD_SIZE == 0 && q % WORD_SIZE == 0 && p > q
    ensures p >= q + WORD_SIZE
  {
    Euclid(p, 8);
    Euclid(q, 8);
  }

  method WordsForward(mem: array<Byte>, dst0: nat, src0: nat, k0: nat, t0: nat, ghost was: seq<Byte>) returns (k: nat)
    requires dst0 < src0 && src0 + k0 + WORD_SIZE * t0 <= mem.Length == |was| && Copied(mem[..], was, dst0, src0, 0, k0)
    requires t0 > 0 ==> (dst0 + k0) % WORD_SIZE == 0 && (src0 + k0) % WORD_SIZE == 0
    modifies mem
    ensures k == k0 + WORD_SIZE * t0 && Copied(mem[..], was, dst0, src0, 0, k)
  {
    hide Copied;
    k := k0;
    var t: nat := t0;
    while t > 0
      invariant k + WORD_SIZE * t == k0 + WORD_SIZE * t0 && Copied(mem[..], was, dst0, src0, 0, k)
      invariant t > 0 ==> (dst0 + k) % WORD_SIZE == 0 && (src0 + k) % WORD_SIZE == 0
    {
      ghost var now := mem[..];
      WordsApart(src0 + k, dst0 + k);
      CopyWord(mem, dst0 + k, src0 + k);
      ForwardOne(now, mem[..], was, dst0, src0, k, WORD_SIZE);
      NextWord(dst0 + k);
      NextWord(src0 + k);
      k := k + WORD_SIZE;
      t := t - 1;
    }
  }

  /** `*--dst = *--src`, `t` times. */
  method BytesBackward(mem: array<Byte>, dst0: nat, src0: nat, n: nat, k0: nat, t0: nat, ghost was: seq<Byte>)
    returns (k: nat)
    requires src0 < dst0 && t0 <= k0 <= n && dst0 + n <= mem.Length == |was| && Copied(mem[..], was, dst0, src0, k0, n)
    modifies mem
    ensures k == k0 - t0 && Copied(mem[..], was, dst0, src0, k, n)
  {
    hide Copied;
    k := k0;
    var t: nat := t0;
    while t > 0
      invariant t <= k && k - t == k0 - t0 && k <= n && Copied(mem[..], was, dst0, src0, k, n)
    {
      ghost var now := mem[..];
      mem[dst0 + (k - 1)] := mem[src0 + (k - 1)];
      OneByte(now, mem[..], dst0 + (k - 1), src0 + (k - 1));
      BackwardOne(now, mem[..], was, dst0, src0, k, 1, n);
      k := k - 1;
      t := t - 1;
    }
  }

  method WordsBackward(mem: array<Byte>, dst0: nat, src0: nat, n: nat, k0: nat, t0: nat, ghost was: seq<Byte>)
    returns (k: nat)
    requires src0 < dst0 && WORD_SIZE * t0 <= k0 <= n && dst0 + n <= mem.Length == |was|
    requires Copied(mem[..], was, dst0, src0, k0, n)
    requires t0 > 0 ==> (dst0 + k0) % WORD_SIZE == 0 && (src0 + k0) % WORD_SIZE == 0
    modifies mem
    ensures k == k0 - WORD_SIZE * t0 && Copied(mem[..], was, dst0, src0, k, n)
  {
    hide Copied;
    k := k0;
    var t: nat := t0;
    while t > 0
      invariant WORD_SIZE * t <= k && k - WORD_SIZE * t == k0 - WORD_SIZE * t0 && k <= n
      invariant Copied(mem[..], was, dst0, src0, k, n)
      invariant t > 0 ==> (dst0 + k) % WORD_SIZE == 0 && (src0 + k) % WORD_SIZE == 0
    {
      ghost var now := mem[..];
      PreviousWord(dst0 + k);
      PreviousWord(src0 + k);
      WordsApart(dst0 + k, src0 + k);
      CopyWord(mem, dst0 + (k - WORD_SIZE), src0 + (k - WORD_SIZE));
      BackwardOne(now, mem[..], was, dst0, src0, k, WORD_SIZE, n);
      k := k - WORD_SIZE;
      t := t - 1;
    }
  }

  lemma WordsAndBytes(n: nat)
    ensures WORD_SIZE * (n / WORD_SIZE) + n % WORD_SIZE == n && n / WORD_SIZE >= 0
  {
    Euclid(n, 8);
  }

  /** The first bytes, so many that both operands end up aligned, or all. */
  lemma AlignsForward(dst: nat, src: nat, length: nat, t: nat)
    requires length > 0 && (src % WORD_SIZE != 0 || dst % WORD_SIZE != 0)
    requires t == if src % WORD_SIZE != dst % WORD_SIZE || length < WORD_SIZE then length else WORD_SIZE - src % WORD_SIZE
    ensures 0 < t <= length && (t < length ==> (dst + t) % WORD_SIZE == 0 && (src + t) % WORD_SIZE == 0)
  {
    if t != length {
      Euclid(src, 8);
      Euclid(dst, 8);
      Div(src + t, 8, src / 8 + 1, 0);
      Div(dst + t, 8, dst / 8 + 1, 0);
    }
  }

  lemma AlignsBackward(dstEnd: nat, srcEnd: nat, length: nat, t: nat)
    requires 0 < length <= srcEnd && length <= dstEnd && (srcEnd % WORD_SIZE != 0 || dstEnd % WORD_SIZE != 0)
    requires t == if srcEnd % WORD_SIZE != dstEnd % WORD_SIZE || length <= WORD_SIZE then length else srcEnd % WORD_SIZE
    ensures 0 < t <= length && (t < length ==> (dstEnd - t) % WORD_SIZE == 0 && (srcEnd - t) % WORD_SIZE == 0)
  {
    if t != length {
      Euclid(srcEnd, 8);
      Euclid(dstEnd, 8);
      Div(srcEnd - t, 8, srcEnd / 8, 0);
      Div(dstEnd - t, 8, dstEnd / 8, 0);
    }
  }

  method MemcpyForward(mem: array<Byte>, dst: nat, src: nat, length0: nat)
    requires dst < src && src + length0 <= mem.Length && length0 > 0
    modifies mem
    ensures Copied(mem[..], old(mem[..]), dst, src, 0, length0)
  {
    hide Copied;
    ghost var was := mem[..];
    NothingCopied(was, dst, src, 0);
    var length, k: nat := length0, 0;
    if src % WORD_SIZE != 0 || dst % WORD_SIZE != 0 {
      var t: nat;
      if src % WORD_SIZE != dst % WORD_SIZE || length < WORD_SIZE {
        t := length;
      } else {
        t := WORD_SIZE - src % WORD_SIZE;
      }
      AlignsForward(dst, src, length, t);
      length := length - t;
      k := BytesForward(mem, dst, src, k, t, was);
    }
    WordsAndBytes(length);
    k := WordsForward(mem, dst, src, k, length / WORD_SIZE, was);
    k := BytesForward(mem, dst, src, k, length % WORD_SIZE, was);
  }

  method MemcpyBackward(mem: array<Byte>, dst: nat, src: nat, length0: nat)
    requires src < dst && dst + length0 <= mem.Length && length0 > 0
    modifies mem
    ensures Copied(mem[..], old(mem[..]), dst, src, 0, length0)
  {
    hide Copied;
    ghost var was := mem[..];
    NothingCopied(was, dst, src, length0);
    var length, k: nat := length0, length0;
    if (src + length) % WORD_SIZE != 0 || (dst + length) % WORD_SIZE != 0 {
      var t: nat;
      if (src + length) % WORD_SIZE != (dst + length) % WORD_SIZE || length <= WORD_SIZE {
        t := length;
      } else {
        t := (src + length) % WORD_SIZE;
      }
      AlignsBackward(dst + length, src + length, length, t);
      length := length - t;
      k := BytesBackward(mem, dst, src, length0, k, t, was);
    }
    WordsAndBytes(length);
    k := WordsBackward(mem, dst, src, length0, k, length / WORD_SIZE, was);
    k := BytesBackward(mem, dst, src, length0, k, length % WORD_SIZE, was);
  }

  /** For every length, alignment and overlap the copy is a `memmove`. The subtractions from
      `length` stay natural, no `do ... while (--t)` starts at zero, and every word access is
      aligned, as the types, the assertions and `CopyWord` demand. */
  method Memcpy(mem: array<Byte>, dst: nat, src: nat, length: nat)
    requires dst + length <= mem.Length && src + length <= mem.Length
    modifies mem
    ensures mem[..] == Moved(old(mem[..]), dst, src, length)
  {
    hide Copied, Moved;
    ghost var was := mem[..];
    if length == 0 || dst == src {
      CopiedNothing(was, dst, src, length);
      return;
    }
    if dst < src {
      MemcpyForward(mem, dst, src, length);
    } else {
      MemcpyBackward(mem, dst, src, length);
    }
    CopiedIsMoved(mem[..], was, dst, src, length);
  }

  lemma CopiedNothing(was: seq<Byte>, dst: nat, src: nat, n: nat)
    requires dst + n <= |was| && src + n <= |was| && (n == 0 || dst == src)
    ensures Moved(was, dst, src, n) == was
  {
  }
}
