/** An aligned pointer and a counter packed into one 64-bit word, so that a compare-and-swap
    covers both. The alignment is `2^align` bytes; addresses have 48 bits. */
module PointerAndCounter {
  import opened Words

  type AlignBits = x: int | 0 <= x <= 48

  /** `kRealPointerBits`. */
  function RealPointerBits(align: AlignBits): nat { 48 - align }

  /** `kMaxCounter`, two to the `kCounterBits`. */
  function MaxCounter(align: AlignBits): (c: nat)
    ensures c > 0
  {
    Power(16 + align)
  }

  /** Only the low 64 bits of the shifted counter are kept. */
  function PackUnsafe(align: AlignBits, p: u64, cnt: nat): nat {
    QuotientIsNat(p, Power(align));
    Or(p / Power(align), Shl(cnt, RealPointerBits(align)) % 0x1_0000_0000_0000_0000)
  }

  function UnpackPointer(align: AlignBits, v: nat): (p: u64)
    ensures Packable(align, p)
  {
    UnpackedIsPackable(align, v);
    v % Power(RealPointerBits(align)) * Power(align)
  }

  function UnpackCounter(align: AlignBits, v: nat): nat {
    QuotientIsNat(v, Power(RealPointerBits(align)));
    v / Power(RealPointerBits(align))
  }

  /** The pointers that survive packing. */
  predicate Packable(align: AlignBits, p: u64) {
    p % Power(align) == 0 && p < 0x1_0000_0000_0000
  }

  // ---- Powers of two ----

  lemma PowerValues()
    ensures Power(48) == 0x1_0000_0000_0000 && Power(64) == 0x1_0000_0000_0000_0000
  {
    ShlValues(1);
    assert Power(12) == 0x1000;
    hide Power;
    PowerSum(12, 12);
    PowerSum(24, 24);
    PowerSum(12, 4);
    PowerSum(48, 16);
    FourBits();
    PowerSum(12, 4);
  }

  lemma FourBits()
    ensures Power(4) == 16
  {
    assert Shl(1, 4) == 2 * Shl(1, 3) == 4 * Shl(1, 2) == 8 * Shl(1, 1);
  }

  lemma Spans(align: AlignBits)
    ensures Power(RealPointerBits(align)) * Power(align) == 0x1_0000_0000_0000
    ensures Power(RealPointerBits(align)) * MaxCounter(align) == 0x1_0000_0000_0000_0000
  {
    hide Power;
    PowerValues();
    PowerSum(RealPointerBits(align), align);
    PowerSum(RealPointerBits(align), 16 + align);
  }

  // ---- Round trips ----

  lemma Below(x: nat, r: nat, a: nat, bound: nat)
    requires a > 0 && r * a == bound && x < bound
    ensures x / a < r
  {
    Euclid(x, a);
    if x / a >= r {
      MulMonotone(a, r, x / a);
    }
  }

  lemma MulMonotone(a: nat, x: int, y: int)
    requires x <= y
    ensures a * x <= a * y && x * a <= y * a
  {
  }

  /** The counter is cut to `kCounterBits` by the 64-bit shift. */
  lemma ShiftedCounter(cnt: nat, r: nat, c: nat, bound: nat)
    requires r > 0 && c > 0 && r * c == bound
    ensures cnt * r % bound == cnt % c * r
  {
    var q, m := cnt / c, cnt % c;
    assert cnt == c * q + m by { Euclid(cnt, c); }
    assert cnt * r == bound * q + m * r by {
      assert (c * q + m) * r == c * q * r + m * r;
      assert c * q * r == r * c * q;
    }
    MulMonotone(r, m, c - 1);
    assert m * r <= (c - 1) * r == c * r - r;
    Div(cnt * r, bound, q, m * r);
  }

  /** The packed word, without the shifts. */
  lemma PackedWord(align: AlignBits, p: u64, cnt: nat)
    requires Packable(align, p)
    ensures var r := Power(RealPointerBits(align));
            && p / Power(align) < r
            && PackUnsafe(align, p, cnt) == r * (cnt % MaxCounter(align)) + p / Power(align)
  {
    hide Power, Or, Shl, MaxCounter;
    var k := RealPointerBits(align);
    var r, a, c := Power(k), Power(align), MaxCounter(align);
    var x, n := p / a, cnt % c;
    Spans(align);
    Below(p, r, a, 0x1_0000_0000_0000);
    ShlProduct(cnt, k);
    ShlProduct(n, k);
    ShlProduct(1, k);
    ShiftedCounter(cnt, r, c, 0x1_0000_0000_0000_0000);
    ZeroShift(k);
    OrSplit(0, x, n, 0, k);
    OrZero(n);
    OrZero(x);
  }

  /** Packing is exact: for a packable pointer the fields do not overlap, the pointer comes back
      and the counter comes back modulo `kMaxCounter`. */
  lemma PackRoundTrip(align: AlignBits, p: u64, cnt: nat)
    requires Packable(align, p)
    ensures PackUnsafe(align, p, cnt) < 0x1_0000_0000_0000_0000
    ensures UnpackPointer(align, PackUnsafe(align, p, cnt)) == p
    ensures UnpackCounter(align, PackUnsafe(align, p, cnt)) == cnt % MaxCounter(align)
  {
    hide Power, Or, Shl, PackUnsafe, MaxCounter;
    var r, a, c := Power(RealPointerBits(align)), Power(align), MaxCounter(align);
    var x, n := p / a, cnt % c;
    PackedWord(align, p, cnt);
    Spans(align);
    Euclid(p, a);
    Div(r * n + x, r, n, x);
    FieldsFit(r, n, x, c);
  }

  lemma FieldsFit(r: nat, n: nat, x: nat, c: nat)
    requires x < r && n < c
    ensures r * n + x < r * c
  {
    MulMonotone(r, n, c - 1);
    assert r * (c - 1) == r * c - r;
  }

  lemma ZeroShift(k: nat)
    ensures Shl(0, k) == 0
  {
    ShlProduct(0, k);
  }

  /** The round trip holds for packable pointers only. */
  lemma PackableExactly(align: AlignBits, p: u64, cnt: nat)
    ensures UnpackPointer(align, PackUnsafe(align, p, cnt)) == p <==> Packable(align, p)
  {
    hide Power, Or, Shl;
    if Packable(align, p) {
      PackRoundTrip(align, p, cnt);
    } else {
      assert Packable(align, UnpackPointer(align, PackUnsafe(align, p, cnt)));
    }
  }

  lemma UnpackedIsPackable(align: AlignBits, v: nat)
    ensures var p := v % Power(RealPointerBits(align)) * Power(align);
            p < 0x1_0000_0000_0000 && p % Power(align) == 0
  {
    hide Power;
    var r, a := Power(RealPointerBits(align)), Power(align);
    Spans(align);
    var m := v % r;
    MulMonotone(a, m, r - 1);
    assert m * a <= (r - 1) * a == r * a - a;
    Div(m * a, a, m, 0);
  }

  /** Counters that agree modulo `kMaxCounter` make the same word. */
  lemma SameWord(align: AlignBits, p: u64, x: nat, y: nat)
    requires x % MaxCounter(align) == y % MaxCounter(align)
    ensures PackUnsafe(align, p, x) == PackUnsafe(align, p, y)
  {
    hide Power, Or, Shl;
    var k := RealPointerBits(align);
    var r, c := Power(k), MaxCounter(align);
    Spans(align);
    ShlProduct(x, k);
    ShlProduct(y, k);
    ShiftedCounter(x, r, c, 0x1_0000_0000_0000_0000);
    ShiftedCounter(y, r, c, 0x1_0000_0000_0000_0000);
  }
}
