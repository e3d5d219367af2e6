/**
 * Linear probing over a table of `cap` slots: the slot visited at probe
 * offset `d` from a home slot, and the offset at which a given slot is
 * reached.
 */
module Probe {

  import Bits

  /** The slot visited `d` steps after `home`, wrapping around the table. */
  function Off(home: nat, d: nat, cap: nat): (r: nat)
    requires cap > 0
    ensures r < cap
  {
    (home + d) % cap
  }

  /** The number of steps a probe from `home` takes to reach slot `i`. */
  function Dist(home: nat, i: nat, cap: nat): (r: nat)
    requires home < cap && i < cap
    ensures r < cap && Off(home, r, cap) == i
  {
    if i >= home then
      Bits.DivModUnique(i, cap, 0, i);
      i - home
    else
      Bits.DivModUnique(i + cap, cap, 1, i);
      i + cap - home
  }

  /** Stepping to the next slot, `(slot + 1) % cap`, moves one offset on. */
  lemma OffStep(home: nat, d: nat, cap: nat)
    requires cap > 0
    ensures (Off(home, d, cap) + 1) % cap == Off(home, d + 1, cap)
  {
    var q := (home + d) / cap;
    var r := (home + d) % cap;
    assert home + d + 1 == q * cap + (r + 1);
    if r + 1 < cap {
      Bits.DivModUnique(home + d + 1, cap, q, r + 1);
      Bits.DivModUnique(r + 1, cap, 0, r + 1);
    } else {
      assert home + d + 1 == (q + 1) * cap + 0;
      Bits.DivModUnique(home + d + 1, cap, q + 1, 0);
      Bits.DivModUnique(r + 1, cap, 1, 0);
    }
  }

  /** Within one lap, distinct offsets visit distinct slots. */
  lemma OffInjective(home: nat, d1: nat, d2: nat, cap: nat)
    requires home < cap && d1 < cap && d2 < cap
    requires Off(home, d1, cap) == Off(home, d2, cap)
    ensures d1 == d2
  {
    OffSmall(home, d1, cap);
    OffSmall(home, d2, cap);
  }

  /** Within one lap the wrapped index is `home + d` or `home + d - cap`. */
  lemma OffSmall(home: nat, d: nat, cap: nat)
    requires home < cap && d < cap
    ensures Off(home, d, cap) == if home + d < cap then home + d else home + d - cap
  {
    if home + d < cap {
      Bits.DivModUnique(home + d, cap, 0, home + d);
    } else {
      Bits.DivModUnique(home + d, cap, 1, home + d - cap);
    }
  }

  /** Reaching slot `Off(home, d)` takes exactly `d` steps. */
  lemma DistOff(home: nat, d: nat, cap: nat)
    requires home < cap && d < cap
    ensures Dist(home, Off(home, d, cap), cap) == d
  {
    var i := Off(home, d, cap);
    OffInjective(home, Dist(home, i, cap), d, cap);
  }
}
