/**
 * The constants and the bit-level encodings of the type-erased table in
 * vmap.c: the metadata word that packs a hash fragment with a slot flag,
 * the alignment padding between key and value, and the load-factor tests.
 */
module VmapMeta {

  import opened Bits

  const INITIAL_POWER: nat := 5

  /** Slot flags, the low two bits of a metadata word. */
  const EMPTY: nat := 0
  const DELETED: nat := 1
  const FULL: nat := 2

  /** `sizeof(void*)` on the 64-bit targets the layout is computed for. */
  const ADDRESS_SIZE: nat := 8

  const TWO62: nat := 0x4000_0000_0000_0000

  /** `vmap_h1`: the hash fragment, `hash >> 2`. */
  function H1(w: Word): (r: nat)
    ensures r < TWO62
  {
    w / 4
  }

  /** `vmap_flags`: `((w << 62) | 0) >> 62` in 64-bit arithmetic, the low two bits. */
  function Flags(w: Word): (r: nat)
    ensures r == w % 4
  {
    var q, f := w / 4, w % 4;
    assert w * TWO62 == q * TWO64 + f * TWO62;
    DivModUnique(w * TWO62, TWO64, q, f * TWO62);
    DivModUnique(f * TWO62, TWO62, f, 0);
    ((w * TWO62) % TWO64) / TWO62
  }

  /** `(h1 << 2) | flag`: the metadata word of a slot. */
  function Pack(h1: nat, flag: nat): (r: Word)
    requires h1 < TWO62 && flag < 4
    ensures H1(r) == h1 && Flags(r) == flag
  {
    DivModUnique(h1 * 4, TWO64, 0, h1 * 4);
    OrLowBits(h1, flag);
    DivModUnique(4 * h1 + flag, 4, h1, flag);
    Or((h1 * 4) % TWO64, flag)
  }

  /** Re-packing the fragment of a FULL word with VMAP_FULL gives the word back. */
  lemma RepackFull(w: Word)
    requires Flags(w) == FULL
    ensures Pack(H1(w), FULL) == w
  {
    var r := Pack(H1(w), FULL);
    assert r == H1(r) * 4 + Flags(r);
  }

  /** The word a freshly zeroed slot holds decodes as EMPTY; a tombstone as DELETED. */
  lemma SpecialWords()
    ensures Flags(0) == EMPTY && Flags(DELETED) == DELETED && H1(DELETED) == 0
  {
  }

  /**
   * `vmap_padding`: the bytes between a key of `keySize` bytes and the
   * value that follows it, `(8 - keySize % 8) & 7`.
   */
  function Padding(keySize: nat): (r: nat)
    ensures r < ADDRESS_SIZE
    ensures (keySize + r) % ADDRESS_SIZE == 0
    ensures r == (ADDRESS_SIZE - keySize % ADDRESS_SIZE) % ADDRESS_SIZE
    ensures keySize % ADDRESS_SIZE != 0 ==> keySize % ADDRESS_SIZE + r == ADDRESS_SIZE
  {
    AndLowMask(ADDRESS_SIZE - keySize % ADDRESS_SIZE, 3);
    And(ADDRESS_SIZE - keySize % ADDRESS_SIZE, ADDRESS_SIZE - 1)
  }

  /** The growth test `numelplusdeleted / capacity > 0.7`, in integers. */
  predicate AboveMaxLoad(n: nat, cap: nat)
  {
    10 * n > 7 * cap
  }

  /** The shrink test `numel / capacity < 0.3`, in integers. */
  predicate BelowMinLoad(n: nat, cap: nat)
  {
    10 * n < 3 * cap
  }

  /** Comparing a ratio with a constant is comparing the numerator with a scaled constant. */
  lemma RatioCompare(a: real, c: real, b: real)
    requires c > 0.0
    ensures a / c > b <==> a > b * c
    ensures a / c < b <==> a < b * c
  {
    var q := a / c;
    assert q * c == a;
    if q > b {
      assert q * c > b * c;
    }
    if q < b {
      assert q * c < b * c;
    }
    if q <= b {
      assert q * c <= b * c;
    }
    if q >= b {
      assert q * c >= b * c;
    }
  }

  /** The integer tests agree with the load factor compared as an exact ratio. */
  lemma LoadTestsExact(n: nat, cap: nat)
    requires cap > 0
    ensures AboveMaxLoad(n, cap) <==> (n as real) / (cap as real) > 0.7
    ensures BelowMinLoad(n, cap) <==> (n as real) / (cap as real) < 0.3
  {
    RatioCompare(n as real, cap as real, 0.7);
    RatioCompare(n as real, cap as real, 0.3);
  }

  /** 2^p mod 5 cycles through 1, 2, 4, 3 and is never 0. */
  lemma {:induction false} Pow2NotMultipleOf5(p: nat)
    ensures Pow2(p) % 5 != 0
  {
    if p > 0 {
      Pow2NotMultipleOf5(p - 1);
      var q, r := Pow2(p - 1) / 5, Pow2(p - 1) % 5;
      assert Pow2(p) == (2 * q) * 5 + 2 * r;
      if 2 * r < 5 {
        DivModUnique(Pow2(p), 5, 2 * q, 2 * r);
      } else {
        DivModUnique(Pow2(p), 5, 2 * q + 1, 2 * r - 5);
      }
    }
  }

  /**
   * With a power-of-two capacity the load factor is never exactly 0.7 or
   * 0.3, so a strict and a non-strict threshold test give the same answer.
   */
  lemma {:induction false} LoadNeverAtThreshold(n: nat, p: nat)
    ensures 10 * n != 7 * Pow2(p) && 10 * n != 3 * Pow2(p)
  {
    Pow2NotMultipleOf5(p);
    ResidueTimes(Pow2(p), 7);
    ResidueTimes(Pow2(p), 3);
    ResidueTimes(n, 10);
    var r := Pow2(p) % 5;
    assert (10 * (n % 5)) % 5 == 0;
    if r == 1 {
      assert (7 * r) % 5 == 2 && (3 * r) % 5 == 3;
    } else if r == 2 {
      assert (7 * r) % 5 == 4 && (3 * r) % 5 == 1;
    } else if r == 3 {
      assert (7 * r) % 5 == 1 && (3 * r) % 5 == 4;
    } else {
      assert (7 * r) % 5 == 3 && (3 * r) % 5 == 2;
    }
  }

  /** The residue mod 5 of `k * x` is that of `k * (x % 5)`. */
  lemma ResidueTimes(x: nat, k: nat)
    ensures (k * x) % 5 == (k * (x % 5)) % 5
  {
    var q, r := x / 5, x % 5;
    var q2, r2 := (k * r) / 5, (k * r) % 5;
    assert k * x == (k * q + q2) * 5 + r2;
    DivModUnique(k * x, 5, k * q + q2, r2);
  }
}
