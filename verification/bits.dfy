/**
 * Unsigned machine arithmetic on natural numbers: powers of two, the
 * 64-bit word range, and the bitwise `&` and `|` operators written out
 * bit by bit, so that masking and tagging can be modelled exactly and
 * related to ordinary division and remainder.
 */
module Bits {

  const TWO64: nat := 0x1_0000_0000_0000_0000

  /** A value of C's `uint64_t`. */
  type Word = x: nat | x < TWO64

  /** 2^p, the value of `1 << p` for the shift widths the model uses. */
  function Pow2(p: nat): (r: nat)
    ensures r >= 1
  {
    if p == 0 then 1 else 2 * Pow2(p - 1)
  }

  /** Bitwise AND of two unsigned values. */
  function And(x: nat, y: nat): nat
    decreases x
  {
    if x == 0 || y == 0 then 0
    else 2 * And(x / 2, y / 2) + (if x % 2 == 1 && y % 2 == 1 then 1 else 0)
  }

  /** Bitwise OR of two unsigned values. */
  function Or(x: nat, y: nat): nat
    decreases x + y
  {
    if x == 0 then y
    else if y == 0 then x
    else 2 * Or(x / 2, y / 2) + (if x % 2 == 1 || y % 2 == 1 then 1 else 0)
  }

  lemma Pow2Succ(p: nat)
    ensures Pow2(p + 1) == 2 * Pow2(p)
  {
  }

  lemma {:induction false} Pow2Monotone(p: nat, q: nat)
    requires p <= q
    ensures Pow2(p) <= Pow2(q)
    decreases q - p
  {
    if p < q {
      Pow2Monotone(p, q - 1);
    }
  }

  lemma MulAtLeast(d: int, k: int)
    requires d >= 0
    ensures k >= 1 ==> k * d >= d
    ensures k <= -1 ==> k * d <= -d
  {
  }

  lemma SmallMultipleIsZero(k: int, d: int)
    requires d >= 1 && -d < k * d < d
    ensures k == 0
  {
    MulAtLeast(d, k);
  }

  /** Quotient and remainder are the only pair with `x == q * d + r`, `r < d`. */
  lemma DivModUnique(x: nat, d: nat, q: nat, r: nat)
    requires d >= 1 && r < d && x == q * d + r
    ensures x / d == q && x % d == r
  {
    var q0, r0 := x / d, x % d;
    assert (q0 - q) * d == r - r0;
    SmallMultipleIsZero(q0 - q, d);
  }

  /** Remainder by 2m splits into the low bit and the remainder of the half. */
  lemma HalfMod(x: nat, m: nat)
    requires m >= 1
    ensures x % (2 * m) == 2 * ((x / 2) % m) + x % 2
  {
    var q := (x / 2) / m;
    var r := (x / 2) % m;
    assert x / 2 == q * m + r;
    assert x == q * (2 * m) + (2 * r + x % 2);
    DivModUnique(x, 2 * m, q, 2 * r + x % 2);
  }

  /**
   * Masking with 2^p - 1 keeps the low p bits: `x & (cap - 1) == x % cap`
   * for every power-of-two capacity `cap`.
   */
  lemma {:induction false} AndLowMask(x: nat, p: nat)
    ensures And(x, Pow2(p) - 1) == x % Pow2(p)
    decreases p
  {
    if p > 0 && x > 0 {
      AndLowMask(x / 2, p - 1);
      AndLowMaskStep(x, p);
    } else if p == 0 {
      assert Pow2(p) == 1;
      assert And(x, 0) == 0;
    } else {
      assert And(0, Pow2(p) - 1) == 0;
      DivModUnique(0, Pow2(p), 0, 0);
    }
  }

  /** One bit of AndLowMask: the low bit of `x` and, above it, the mask one bit shorter. */
  lemma AndLowMaskStep(x: nat, p: nat)
    requires p > 0 && x > 0
    requires And(x / 2, Pow2(p - 1) - 1) == (x / 2) % Pow2(p - 1)
    ensures And(x, Pow2(p) - 1) == x % Pow2(p)
  {
    var m := Pow2(p - 1);
    var n := Pow2(p);
    Pow2Succ(p - 1);
    calc {
      And(x, n - 1);
      { MaskHalves(p); }
      And(x, 2 * (m - 1) + 1);
      { AndOddMask(x, m - 1); }
      2 * And(x / 2, m - 1) + x % 2;
      2 * ((x / 2) % m) + x % 2;
      { HalfMod(x, m); }
      x % (2 * m);
    }
  }

  /** `2^p - 1` is one bit on top of `2^(p-1) - 1`. */
  lemma MaskHalves(p: nat)
    requires p > 0
    ensures Pow2(p) - 1 == 2 * (Pow2(p - 1) - 1) + 1
  {
  }

  /** AND with an odd mask keeps the low bit and ANDs the rest with the mask's upper bits. */
  lemma AndOddMask(x: nat, half: nat)
    requires x > 0
    ensures And(x, 2 * half + 1) == 2 * And(x / 2, half) + x % 2
  {
    var mask := 2 * half + 1;
    DivModUnique(mask, 2, half, 1);
  }

  /** OR-ing a bit into a value whose low bit is clear adds it. */
  lemma OrLowBit(x: nat, b: nat)
    requires b < 2
    ensures Or(2 * x, b) == 2 * x + b
  {
    if x != 0 && b != 0 {
      assert Or(2 * x, b) == 2 * Or(x, 0) + 1;
    }
  }

  /** OR-ing a two-bit flag into a value shifted left by two adds it. */
  lemma OrLowBits(x: nat, f: nat)
    requires f < 4
    ensures Or(4 * x, f) == 4 * x + f
  {
    if x != 0 && f != 0 {
      OrLowBit(x, f / 2);
      assert Or(4 * x, f) == 2 * Or(2 * x, f / 2) + f % 2;
    }
  }
}
