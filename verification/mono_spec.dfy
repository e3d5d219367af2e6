/**
 * The table that `VMAP_INIT(name, key_type, value_type)` in src/vmap.h
 * stamps out, as values.
 *
 * A table is its `numel` counter and its fixed array of entries; each
 * entry is a `flags` field, the key bytes and the value.  There is no
 * resizing: the capacity is `VMAP_INITIAL_CAPACITY` for the life of the
 * table, the home slot of a key is its djb2 hash modulo the capacity, and
 * probing steps by `(i + 1) % capacity`.  The functions below follow the
 * macro bodies branch by branch, the probe loops becoming recursion on the
 * probe offset; the class in Mono is proved to compute them.
 */
module MonoSpec {

  import opened Wrappers
  import opened Bits
  import opened Probe

  /** `VMAP_INITIAL_CAPACITY`, the capacity every table has. */
  const INITIAL_CAPACITY: nat := 32

  /** The values `flags` takes: zeroed by `memset`, `VMAP_KEY_DELETED` and `VMAP_ENTRY`. */
  const CLEARED: nat := 0
  const KEY_DELETED: nat := 1
  const ENTRY: nat := 2

  type Byte = b: nat | b < 256

  /** A key: the `sizeof(key_type)` bytes djb2 hashes and `memcmp` compares. */
  type Key = seq<Byte>

  /** `vmap_<name>_entry_t`. */
  datatype Entry<V> = Entry(flags: nat, key: Key, value: V)

  // On the three values above, `flags & VMAP_ENTRY` and `flags & VMAP_KEY_DELETED`
  // are tests for one value each.
  predicate IsCleared<V>(e: Entry<V>) { e.flags == CLEARED }
  predicate IsDeleted<V>(e: Entry<V>) { e.flags == KEY_DELETED }
  predicate IsEntry<V>(e: Entry<V>) { e.flags == ENTRY }

  /** Every `flags` field holds one of the three values. */
  predicate WellFlagged<V>(s: seq<Entry<V>>)
  {
    forall i :: 0 <= i < |s| ==> s[i].flags <= ENTRY
  }

  /** The result codes VMAP_OK, VMAP_OOM and VMAP_NO_KEY. */
  datatype Status = Ok | Oom | NoKey

  /** The fields of `vmap_<name>_t` the operations read and write; the capacity is `|entries|`. */
  datatype MonoState<V> = MonoState(numel: nat, entries: seq<Entry<V>>)

  /** `n` zero bytes. */
  function Zeros(n: nat): (r: Key)
    ensures |r| == n && forall i :: 0 <= i < n ==> r[i] == 0
  {
    seq(n, _ => 0)
  }

  /** A zeroed entry of a table whose keys are `keySize` bytes and whose zero value is `zero`. */
  function Blank<V>(keySize: nat, zero: V): (e: Entry<V>)
    ensures IsCleared(e)
  {
    Entry(CLEARED, Zeros(keySize), zero)
  }

  /** What `vmap_<name>_new` allocates: `numel` 0 and every entry zeroed. */
  function Fresh<V>(cap: nat, blank: Entry<V>): MonoState<V>
  {
    MonoState(0, seq(cap, _ => blank))
  }

  // ---------------------------------------------------------------------
  // djb2
  // ---------------------------------------------------------------------

  /**
   * `djb2_<name>_hash`: 5381, then `hash = hash * 33 + byte` for each
   * byte of the key in order, in `uint64_t` arithmetic.
   */
  function Djb2(key: Key): (r: Word)
    decreases |key|
  {
    if key == [] then 5381 else (Djb2(key[..|key| - 1]) * 33 + key[|key| - 1]) % TWO64
  }

  function Pow33(n: nat): (r: nat)
    ensures r >= 1
  {
    if n == 0 then 1 else 33 * Pow33(n - 1)
  }

  /** The key bytes read as base-33 digits, most significant first. */
  function Weighted(key: Key): nat
    decreases |key|
  {
    if key == [] then 0 else key[0] * Pow33(|key| - 1) + Weighted(key[1..])
  }

  /** Adding a byte at the end shifts the earlier digits one place up. */
  lemma {:induction false} WeightedSnoc(key: Key, b: Byte)
    ensures Weighted(key + [b]) == Weighted(key) * 33 + b
    decreases |key|
  {
    if key == [] {
      assert [] + [b] == [b];
      assert [b][1..] == [];
    } else {
      var k := key + [b];
      assert k[0] == key[0] && k[1..] == key[1..] + [b];
      WeightedSnoc(key[1..], b);
      assert Pow33(|k| - 1) == 33 * Pow33(|key| - 1);
    }
  }

  /**
   * The hash is the polynomial `5381 * 33^n + sum key[i] * 33^(n-1-i)`
   * taken modulo 2^64: the wrap-around at each step loses nothing.
   */
  lemma {:induction false} Djb2IsPolynomial(key: Key)
    ensures Djb2(key) == (5381 * Pow33(|key|) + Weighted(key)) % TWO64
    decreases |key|
  {
    if key == [] {
      DivModUnique(5381, TWO64, 0, 5381);
    } else {
      var pre, b := key[..|key| - 1], key[|key| - 1];
      assert key == pre + [b];
      Djb2IsPolynomial(pre);
      WeightedSnoc(pre, b);
      var p := 5381 * Pow33(|pre|) + Weighted(pre);
      assert 5381 * Pow33(|key|) + Weighted(key) == p * 33 + b;
      ModMulAdd(p, 33, b, TWO64);
    }
  }

  /** `(a % m + b) % m == (a + b) % m`. */
  lemma ModAdd(a: nat, b: nat, m: nat)
    requires m >= 1
    ensures (a % m + b) % m == (a + b) % m
  {
    var q, r := a / m, a % m;
    var q2, r2 := (r + b) / m, (r + b) % m;
    assert a + b == (q + q2) * m + r2;
    DivModUnique(a + b, m, q + q2, r2);
  }

  /** `((x % m) * k + b) % m == (x * k + b) % m`. */
  lemma ModMulAdd(x: nat, k: nat, b: nat, m: nat)
    requires m >= 1
    ensures ((x % m) * k + b) % m == (x * k + b) % m
  {
    var q, r := x / m, x % m;
    MulSplit(x, q, r, m, k);
    ModAddMultiple(r * k + b, q * k, m);
  }

  /** Multiplying `x = q * m + r` by `k` splits off a multiple of `m`. */
  lemma MulSplit(x: nat, q: nat, r: nat, m: nat, k: nat)
    requires x == q * m + r
    ensures x * k == r * k + (q * k) * m
  {
    MulAddDistrib(q * m, r, k);
    assert (q * m) * k == (q * k) * m;
  }

  /** Adding a multiple of `m` does not change the remainder. */
  lemma ModAddMultiple(a: nat, c: nat, m: nat)
    requires m >= 1
    ensures (a + c * m) % m == a % m
  {
    MulAddDistrib(a / m, c, m);
    DivModUnique(a + c * m, m, a / m + c, a % m);
  }

  /** `(a + b) * c == a * c + b * c`. */
  lemma MulAddDistrib(a: nat, b: nat, c: nat)
    ensures (a + b) * c == a * c + b * c
  {
  }

  /** The slot probing for `key` starts at: `djb2(key) % capacity`. */
  function Home(key: Key, cap: nat): (r: nat)
    requires cap > 0
    ensures r < cap
  {
    Djb2(key) % cap
  }

  // ---------------------------------------------------------------------
  // Counting flags
  // ---------------------------------------------------------------------

  /** The number of entries whose `flags` is `f`. */
  function Count<V>(s: seq<Entry<V>>, f: nat): (r: nat)
    ensures r <= |s|
  {
    if s == [] then 0 else Count(s[..|s| - 1], f) + (if s[|s| - 1].flags == f then 1 else 0)
  }

  /** Replacing one entry moves that entry's contribution from the old flags to the new. */
  lemma {:induction false} CountUpdate<V>(s: seq<Entry<V>>, i: nat, e: Entry<V>, f: nat)
    requires i < |s|
    ensures Count(s[i := e], f) == Count(s, f) - (if s[i].flags == f then 1 else 0)
                                               + (if e.flags == f then 1 else 0)
    decreases |s|
  {
    var t := s[i := e];
    if i == |s| - 1 {
      assert t[..|t| - 1] == s[..|s| - 1];
    } else {
      assert t[..|t| - 1] == s[..|s| - 1][i := e];
      CountUpdate(s[..|s| - 1], i, e, f);
    }
  }

  /** Fewer than `|s|` entries with flags `f`: some entry has other flags. */
  lemma {:induction false} CountBelow<V>(s: seq<Entry<V>>, f: nat) returns (i: nat)
    requires Count(s, f) < |s|
    ensures i < |s| && s[i].flags != f
    decreases |s|
  {
    if s[|s| - 1].flags != f {
      i := |s| - 1;
    } else {
      i := CountBelow(s[..|s| - 1], f);
    }
  }

  /** On well-flagged entries the three counts add up to the capacity. */
  lemma {:induction false} CountSplit<V>(s: seq<Entry<V>>)
    requires WellFlagged(s)
    ensures Count(s, CLEARED) + Count(s, KEY_DELETED) + Count(s, ENTRY) == |s|
    decreases |s|
  {
    if s != [] {
      CountSplit(s[..|s| - 1]);
    }
  }

  /** In `n` copies of one entry, the count is `n` or 0. */
  lemma {:induction false} CountConst<V>(n: nat, e: Entry<V>, f: nat)
    ensures Count(seq(n, _ => e), f) == if e.flags == f then n else 0
  {
    if n > 0 {
      assert seq(n, _ => e)[..n - 1] == seq(n - 1, _ => e);
      CountConst(n - 1, e, f);
    }
  }

  // ---------------------------------------------------------------------
  // The invariant every operation keeps
  // ---------------------------------------------------------------------

  /**
   * What `vmap_<name>_new` establishes and insert and delete keep: the
   * flags are the three values, and `numel`, which delete never
   * decrements, counts at least every entry that is not zeroed and is at
   * most the capacity.
   */
  predicate Inv<V>(st: MonoState<V>)
  {
    |st.entries| > 0 && WellFlagged(st.entries)
    && Count(st.entries, ENTRY) + Count(st.entries, KEY_DELETED) <= st.numel <= |st.entries|
  }

  /** Below capacity, some entry is still zeroed: the probe loops of find and delete end. */
  lemma HasCleared<V>(st: MonoState<V>) returns (i: nat)
    requires Inv(st) && st.numel < |st.entries|
    ensures i < |st.entries| && IsCleared(st.entries[i])
  {
    CountSplit(st.entries);
    i := CountPositive(st.entries, CLEARED);
  }

  /** An entry with flags `f` counts. */
  lemma {:induction false} CountHas<V>(s: seq<Entry<V>>, i: nat)
    requires i < |s|
    ensures Count(s, s[i].flags) >= 1
    decreases |s|
  {
    if i < |s| - 1 {
      CountHas(s[..|s| - 1], i);
    }
  }

  /** Some entry has flags `f` when the count is positive. */
  lemma {:induction false} CountPositive<V>(s: seq<Entry<V>>, f: nat) returns (i: nat)
    requires Count(s, f) > 0
    ensures i < |s| && s[i].flags == f
    decreases |s|
  {
    if s[|s| - 1].flags == f {
      i := |s| - 1;
    } else {
      i := CountPositive(s[..|s| - 1], f);
    }
  }

  // ---------------------------------------------------------------------
  // vmap_<name>_find and the probe of vmap_<name>_delete
  // ---------------------------------------------------------------------

  /** How a probe loop of find or delete ends: at an entry, at NULL, or never. */
  datatype Lookup = Found(index: nat) | Absent | Endless

  /**
   * The probe loop of find and delete from offset `d`: a zeroed entry
   * ends the search, a DELETED entry and an ENTRY with another key are
   * passed over, and an ENTRY with an equal key is the answer.  The loop's
   * only state is the slot, so a probe that has gone round the whole table
   * without ending goes round it forever: that is `Endless`.
   */
  function FindFrom<V>(s: seq<Entry<V>>, key: Key, home: nat, d: nat): (r: Lookup)
    requires home < |s| && d <= |s|
    ensures r.Found? ==> r.index < |s| && IsEntry(s[r.index]) && s[r.index].key == key
    decreases |s| - d
  {
    if d == |s| then Endless
    else
      var i := Off(home, d, |s|);
      if IsCleared(s[i]) then Absent
      else if IsEntry(s[i]) then
        if s[i].key == key then Found(i) else FindFrom(s, key, home, d + 1)
      else if IsDeleted(s[i]) then FindFrom(s, key, home, d + 1)
      else Absent
  }

  /** The whole search of find and delete: nothing to find in an empty table. */
  function FindProbe<V>(st: MonoState<V>, key: Key): (r: Lookup)
    requires |st.entries| > 0
    ensures r.Found? ==> r.index < |st.entries| && IsEntry(st.entries[r.index]) && st.entries[r.index].key == key
  {
    if st.numel == 0 then Absent else FindFrom(st.entries, key, Home(key, |st.entries|), 0)
  }

  /** `vmap_<name>_find`: the value of the entry found, or NULL. */
  function Find<V>(st: MonoState<V>, key: Key): Option<V>
    requires |st.entries| > 0
  {
    match FindProbe(st, key)
    case Found(i) => Some(st.entries[i].value)
    case _ => None
  }

  // ---------------------------------------------------------------------
  // vmap_<name>_insert
  // ---------------------------------------------------------------------

  /** Where an insert writes: over the value of an equal key, or a new entry. */
  datatype Target = Update(index: nat) | Place(index: nat) | Exhausted

  /**
   * The probe loop of insert from offset `d`, as written: an ENTRY with an
   * equal key is updated, one with another key is passed over, and the
   * first entry that is not an ENTRY, DELETED or zeroed, takes the new
   * entry.  Going round the whole table (every entry an ENTRY of another
   * key, where the C loop never ends) is `Exhausted`.
   */
  function InsertProbe<V>(s: seq<Entry<V>>, key: Key, home: nat, d: nat): (r: Target)
    requires home < |s| && d <= |s|
    ensures r.Update? ==> r.index < |s| && IsEntry(s[r.index]) && s[r.index].key == key
    ensures r.Place? ==> r.index < |s| && !IsEntry(s[r.index])
    decreases |s| - d
  {
    if d == |s| then Exhausted
    else
      var i := Off(home, d, |s|);
      if IsEntry(s[i]) then
        if s[i].key == key then Update(i) else InsertProbe(s, key, home, d + 1)
      else Place(i)
  }

  /** `vmap_<name>_entry_new`: a zeroed entry with `VMAP_ENTRY` or-ed in and the key and value copied. */
  function EntryNew<V>(key: Key, value: V): (e: Entry<V>)
    ensures IsEntry(e) && e.key == key && e.value == value
  {
    Entry(CLEARED + ENTRY, key, value)
  }

  /**
   * `vmap_<name>_insert`, as written: VMAP_OOM at capacity; otherwise the
   * value of an equal key is overwritten, or a new entry is written and
   * `numel` grows by one.  `Exhausted` cannot happen under `Inv`
   * (InsertTerminates).
   */
  function Insert<V>(st: MonoState<V>, key: Key, value: V): (r: (MonoState<V>, Status))
    requires |st.entries| > 0
    ensures |r.0.entries| == |st.entries|
  {
    if st.numel == |st.entries| then (st, Oom)
    else
      match InsertProbe(st.entries, key, Home(key, |st.entries|), 0)
      case Update(i) => (st.(entries := st.entries[i := st.entries[i].(value := value)]), Ok)
      case Place(i) => (MonoState(st.numel + 1, st.entries[i := EntryNew(key, value)]), Ok)
      case Exhausted => (st, Ok)
  }

  // ---------------------------------------------------------------------
  // vmap_<name>_delete and vmap_<name>_free
  // ---------------------------------------------------------------------

  /** A call of a destructor: `free_key` or `free_value` on the entry in a slot. */
  datatype Freed<V> = KeyFreed(slot: nat, key: Key) | ValueFreed(slot: nat, value: V)

  /** The destructor calls for the entry in slot `i`, key first. */
  function EntryFrees<V>(s: seq<Entry<V>>, i: nat, hasFreeKey: bool, hasFreeValue: bool): seq<Freed<V>>
    requires i < |s|
  {
    (if hasFreeKey then [KeyFreed(i, s[i].key)] else [])
    + (if hasFreeValue then [ValueFreed(i, s[i].value)] else [])
  }

  /**
   * `vmap_<name>_delete`: VMAP_NO_KEY in an empty table or when the probe
   * meets a zeroed entry; otherwise the found entry has its key and value
   * zeroed and becomes DELETED, and `numel` is left as it was.
   */
  function Delete<V>(st: MonoState<V>, key: Key, blank: Entry<V>): (r: (MonoState<V>, Status))
    requires |st.entries| > 0
    ensures |r.0.entries| == |st.entries|
  {
    match FindProbe(st, key)
    case Found(i) => (st.(entries := st.entries[i := blank.(flags := KEY_DELETED)]), Ok)
    case _ => (st, NoKey)
  }

  /** The destructors delete calls: those supplied, on the entry it found. */
  function DeleteFrees<V>(st: MonoState<V>, key: Key, hasFreeKey: bool, hasFreeValue: bool): seq<Freed<V>>
    requires |st.entries| > 0
  {
    match FindProbe(st, key)
    case Found(i) => EntryFrees(st.entries, i, hasFreeKey, hasFreeValue)
    case _ => []
  }

  /** `vmap_<name>_free`: the supplied destructors on every ENTRY, slot by slot. */
  function FreeLog<V>(s: seq<Entry<V>>, hasFreeKey: bool, hasFreeValue: bool): seq<Freed<V>>
    decreases |s|
  {
    if s == [] then []
    else FreeLog(s[..|s| - 1], hasFreeKey, hasFreeValue)
         + (if IsEntry(s[|s| - 1]) then EntryFrees(s, |s| - 1, hasFreeKey, hasFreeValue) else [])
  }
}
