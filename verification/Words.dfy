/** Fixed-width machine integers as bounded mathematical integers.

    Every mask-and-shift expression of the sources is written with `/` and `%` by literal
    powers of two; for a positive divisor these are floor division and its remainder, so a
    negative value shows its two's complement bits. */
module Words {

  const TWO_64: int := 0x1_0000_0000_0000_0000

  type u8 = x: int | 0 <= x < 0x100
  type u16 = x: int | 0 <= x < 0x1_0000
  type u32 = x: int | 0 <= x < 0x1_0000_0000
  type u64 = x: int | 0 <= x < 0x1_0000_0000_0000_0000

  /** Unsigned 64-bit wrap-around. */
  function Wrap(x: int): u64 {
    x % 0x1_0000_0000_0000_0000
  }

  /** The 32-bit pattern of a possibly negative value. */
  function Wrap32(x: int): u32 {
    x % 0x1_0000_0000
  }

  /** `static_cast<int32_t>`: the signed reading of the low 32 bits. */
  function Int32(x: int): (r: int)
    ensures -0x8000_0000 <= r < 0x8000_0000
    ensures (r - x) % 0x1_0000_0000 == 0
  {
    (x + 0x8000_0000) % 0x1_0000_0000 - 0x8000_0000
  }

  /** `static_cast<int64_t>`: the signed reading of the low 64 bits. */
  function Int64(x: int): (r: int)
    ensures -0x8000_0000_0000_0000 <= r < 0x8000_0000_0000_0000
    ensures (r - x) % 0x1_0000_0000_0000_0000 == 0
  {
    (x + 0x8000_0000_0000_0000) % 0x1_0000_0000_0000_0000 - 0x8000_0000_0000_0000
  }

  // ---- Division by quotient and remainder ----

  lemma MulAtLeast(d: int, k: int)
    requires d > 0 && k >= 1
    ensures d * k >= d
  {
  }

  lemma MulAtMost(d: int, k: int)
    requires d > 0 && k <= -1
    ensures d * k <= -d
  {
  }

  lemma OnlyZero(d: int, k: int)
    requires d > 0 && -d < d * k < d
    ensures k == 0
  {
    if k >= 1 {
      MulAtLeast(d, k);
    } else if k <= -1 {
      MulAtMost(d, k);
    }
  }

  lemma Euclid(a: int, d: int)
    requires d > 0
    ensures a == d * (a / d) + a % d && 0 <= a % d < d
  {
  }

  lemma Distribute(d: int, x: int, y: int)
    ensures d * (x - y) == d * x - d * y
  {
  }

  /** Quotient and remainder are unique; called with a literal divisor this spares the solver
      every search about `/` and `%`. */
  lemma Div(a: int, d: int, q: int, r: int)
    requires d > 0 && 0 <= r < d && a == d * q + r
    ensures a / d == q && a % d == r
  {
    Euclid(a, d);
    Distribute(d, q, a / d);
    OnlyZero(d, q - a / d);
  }

  /** A quotient of a natural number. */
  lemma QuotientIsNat(v: nat, d: nat)
    requires d > 0
    ensures v / d >= 0
  {
    Euclid(v, d);
    if v / d <= -1 {
      MulAtMost(d, v / d);
    }
  }

  // ---- Bitwise or ----

  /** Left shift by `k` bits. */
  function Shl(x: int, k: nat): (r: int)
    ensures x >= 0 ==> r >= 0
  {
    if k == 0 then x else 2 * Shl(x, k - 1)
  }

  /** Two to the `k`. */
  function Power(k: nat): (p: nat)
    ensures p > 0
  {
    ShlPositive(k);
    Shl(1, k)
  }

  lemma {:induction false} ShlPositive(k: nat)
    ensures Shl(1, k) > 0
  {
    if k > 0 {
      ShlPositive(k - 1);
    }
  }

  lemma {:induction false} ShlProduct(x: int, k: nat)
    ensures Shl(x, k) == x * Power(k) && Power(k) == Shl(1, k)
  {
    if k > 0 {
      ShlProduct(x, k - 1);
      assert Shl(x, k) == 2 * (x * Power(k - 1)) == x * (2 * Power(k - 1));
    }
  }

  lemma {:induction false} PowerSum(j: nat, k: nat)
    ensures Power(j + k) == Power(j) * Power(k)
  {
    if k > 0 {
      PowerSum(j, k - 1);
      assert Power(j + k) == 2 * (Power(j) * Power(k - 1)) == Power(j) * (2 * Power(k - 1));
    }
  }

  lemma ShlValues(x: nat)
    ensures Shl(x, 5) == 0x20 * x && Shl(x, 7) == 0x80 * x && Shl(x, 12) == 0x1000 * x
    ensures Shl(x, 13) == 0x2000 * x && Shl(x, 20) == 0x10_0000 * x
  {
    assert Shl(x, 5) == 2 * Shl(x, 4) == 4 * Shl(x, 3) == 8 * Shl(x, 2) == 16 * Shl(x, 1);
    assert Shl(x, 7) == 2 * Shl(x, 6) == 4 * Shl(x, 5);
    assert Shl(x, 12) == 2 * Shl(x, 11) == 4 * Shl(x, 10) == 8 * Shl(x, 9) == 16 * Shl(x, 8) == 32 * Shl(x, 7);
    assert Shl(x, 16) == 2 * Shl(x, 15) == 4 * Shl(x, 14) == 8 * Shl(x, 13);
    assert Shl(x, 20) == 2 * Shl(x, 19) == 4 * Shl(x, 18) == 8 * Shl(x, 17) == 16 * Shl(x, 16);
  }

  /** Bitwise or, bit by bit. */
  function Or(a: nat, b: nat): nat
    decreases a + b
  {
    if a == 0 then b
    else if b == 0 then a
    else (if a % 2 == 1 || b % 2 == 1 then 1 else 0) + 2 * Or(a / 2, b / 2)
  }

  lemma OrHalf(a: nat, b: nat)
    ensures Or(a, b) == (if a % 2 == 1 || b % 2 == 1 then 1 else 0) + 2 * Or(a / 2, b / 2)
  {
  }

  /** Or can be computed separately above and below any bit position. */
  lemma {:induction false} OrSplit(a1: nat, a0: nat, b1: nat, b0: nat, k: nat)
    requires a0 < Shl(1, k) && b0 < Shl(1, k)
    ensures Or(Shl(a1, k) + a0, Shl(b1, k) + b0) == Shl(Or(a1, b1), k) + Or(a0, b0)
  {
    if k != 0 {
      OrSplit(a1, a0 / 2, b1, b0 / 2, k - 1);
      OrSplitStep(Shl(a1, k - 1), a0, Shl(b1, k - 1), b0, Shl(Or(a1, b1), k - 1));
    }
  }

  lemma OrSplitStep(x: nat, a0: nat, y: nat, b0: nat, z: nat)
    requires Or(x + a0 / 2, y + b0 / 2) == z + Or(a0 / 2, b0 / 2)
    ensures Or(2 * x + a0, 2 * y + b0) == 2 * z + Or(a0, b0)
  {
    hide Or;
    OrHalf(2 * x + a0, 2 * y + b0);
    OrHalf(a0, b0);
    Div(2 * x + a0, 2, x + a0 / 2, a0 % 2);
    Div(2 * y + b0, 2, y + b0 / 2, b0 % 2);
  }

  // ---- Splitting at the field boundaries of an instruction word ----

  lemma OrSplit5(a1: nat, a0: nat, b1: nat, b0: nat)
    requires a0 < 0x20 && b0 < 0x20
    ensures Or(0x20 * a1 + a0, 0x20 * b1 + b0) == 0x20 * Or(a1, b1) + Or(a0, b0)
  {
    hide Or, Shl;
    ShlValues(1);
    ShlValues(a1);
    ShlValues(b1);
    ShlValues(Or(a1, b1));
    OrSplit(a1, a0, b1, b0, 5);
  }

  lemma OrSplit7(a1: nat, a0: nat, b1: nat, b0: nat)
    requires a0 < 0x80 && b0 < 0x80
    ensures Or(0x80 * a1 + a0, 0x80 * b1 + b0) == 0x80 * Or(a1, b1) + Or(a0, b0)
  {
    hide Or, Shl;
    ShlValues(1);
    ShlValues(a1);
    ShlValues(b1);
    ShlValues(Or(a1, b1));
    OrSplit(a1, a0, b1, b0, 7);
  }

  lemma OrSplit12(a1: nat, a0: nat, b1: nat, b0: nat)
    requires a0 < 0x1000 && b0 < 0x1000
    ensures Or(0x1000 * a1 + a0, 0x1000 * b1 + b0) == 0x1000 * Or(a1, b1) + Or(a0, b0)
  {
    hide Or, Shl;
    ShlValues(1);
    ShlValues(a1);
    ShlValues(b1);
    ShlValues(Or(a1, b1));
    OrSplit(a1, a0, b1, b0, 12);
  }

  lemma OrSplit13(a1: nat, a0: nat, b1: nat, b0: nat)
    requires a0 < 0x2000 && b0 < 0x2000
    ensures Or(0x2000 * a1 + a0, 0x2000 * b1 + b0) == 0x2000 * Or(a1, b1) + Or(a0, b0)
  {
    hide Or, Shl;
    ShlValues(1);
    ShlValues(a1);
    ShlValues(b1);
    ShlValues(Or(a1, b1));
    OrSplit(a1, a0, b1, b0, 13);
  }

  lemma OrSplit20(a1: nat, a0: nat, b1: nat, b0: nat)
    requires a0 < 0x10_0000 && b0 < 0x10_0000
    ensures Or(0x10_0000 * a1 + a0, 0x10_0000 * b1 + b0) == 0x10_0000 * Or(a1, b1) + Or(a0, b0)
  {
    hide Or, Shl;
    ShlValues(1);
    ShlValues(a1);
    ShlValues(b1);
    ShlValues(Or(a1, b1));
    OrSplit(a1, a0, b1, b0, 20);
  }

  lemma OrZero(a: nat)
    ensures Or(a, 0) == a && Or(0, a) == a
  {
  }
}
