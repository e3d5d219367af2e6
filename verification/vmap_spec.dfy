/**
 * The type-erased open-addressing table of vmap.c, as values.
 *
 * A table is its power (capacity 2^power), its two counters and its slots;
 * each slot zips the 64-bit metadata word (`h1 << 2 | flag`) with the key
 * and value stored in the entry buffer at the same index.  The functions
 * below say what each operation of vmap.c does to such a value, following
 * the C code branch by branch: the probe loops become recursion on the
 * probe offset, and the class in Vmap is proved to compute exactly these
 * functions.  The invariants and the key-to-value abstraction the lemmas
 * are about are defined at the end.
 */
module VmapSpec {

  import opened Wrappers
  import opened Bits
  import opened Probe
  import opened VmapMeta

  /** One slot: its metadata word and the key and value bytes of its entry. */
  datatype Slot<K, V> = Slot(meta: Word, key: K, value: V)

  predicate IsEmpty<K(==), V>(x: Slot<K, V>) { Flags(x.meta) == EMPTY }
  predicate IsDeleted<K(==), V>(x: Slot<K, V>) { Flags(x.meta) == DELETED }
  predicate IsFull<K(==), V>(x: Slot<K, V>) { Flags(x.meta) == FULL }

  /** The result codes VMAP_OK, VMAP_OOM and VMAP_NO_KEY. */
  datatype Status = Ok | Oom | NoKey

  /** The fields of `struct vmap` that the algorithms read and write. */
  datatype State<K, V> = State(power: nat, numel: nat, numelPlusDeleted: nat, slots: seq<Slot<K, V>>)

  /** The slot array has `1 << power` entries. */
  predicate Sized<K(==), V>(st: State<K, V>)
  {
    |st.slots| == Pow2(st.power)
  }

  /** The slot where probing for hash fragment `h1` starts: `h1 & (capacity - 1)`. */
  function Home(h1: nat, cap: nat): nat
    requires cap > 0
  {
    h1 % cap
  }

  /** A slot whose stored fragment is `h1` and whose key compares equal to `key`. */
  predicate Matches<K(==), V>(x: Slot<K, V>, key: K, h1: nat)
  {
    H1(x.meta) == h1 && x.key == key
  }

  /** `uint64_t` decrement, wrapping at zero. */
  function Dec(n: nat): nat
  {
    if n == 0 then TWO64 - 1 else n - 1
  }

  /** A table freshly allocated by `vmap_new`: every byte zero. */
  function Fresh<K(==), V>(blank: Slot<K, V>): State<K, V>
  {
    State(INITIAL_POWER, 0, 0, seq(Pow2(INITIAL_POWER), _ => blank))
  }

  // ---------------------------------------------------------------------
  // vmap_find and the probe of vmap_erase
  // ---------------------------------------------------------------------

  /**
   * The probe loop of `vmap_find` from probe offset `d`: tombstones are
   * skipped, an EMPTY slot ends the search, and a slot with the same
   * fragment and an equal key is the answer.  Running out of offsets (a
   * table with no EMPTY slot, where the C loop never ends) yields None.
   */
  function FindFrom<K(==), V>(s: seq<Slot<K, V>>, key: K, h1: nat, home: nat, d: nat): (r: Option<nat>)
    requires home < |s| && d <= |s|
    ensures r.Some? ==> r.value < |s| && !IsEmpty(s[r.value]) && !IsDeleted(s[r.value])
    ensures r.Some? ==> Matches(s[r.value], key, h1)
    decreases |s| - d
  {
    if d == |s| then None
    else
      var i := Off(home, d, |s|);
      if IsDeleted(s[i]) then FindFrom(s, key, h1, home, d + 1)
      else if IsEmpty(s[i]) then None
      else if Matches(s[i], key, h1) then Some(i)
      else FindFrom(s, key, h1, home, d + 1)
  }

  /** The slot `vmap_find` and `vmap_erase` settle on for `key`, if any. */
  function FindSlot<K(==), V>(hash: K -> Word, s: seq<Slot<K, V>>, key: K): Option<nat>
    requires |s| > 0
  {
    var h1 := H1(hash(key));
    FindFrom(s, key, h1, Home(h1, |s|), 0)
  }

  /** The value `vmap_find` returns a view of, or None for NULL. */
  function Find<K(==), V>(hash: K -> Word, s: seq<Slot<K, V>>, key: K): Option<V>
    requires |s| > 0
  {
    match FindSlot(hash, s, key)
    case Some(i) => Some(s[i].value)
    case None => None
  }

  // ---------------------------------------------------------------------
  // vmap_insert
  // ---------------------------------------------------------------------

  /** Where an insert writes: over the value of a matching slot, or a new entry. */
  datatype Target = Update(index: nat) | Place(index: nat) | Exhausted

  /**
   * The probe loop of `vmap_insert`, as written, from offset `d`.  A FULL
   * slot with a different key is passed over and a matching one is
   * updated.  A DELETED slot advances the index and then falls through to
   * the new-entry write, so the entry goes into the slot AFTER the
   * tombstone whatever that slot holds.  Any other slot receives the new
   * entry.
   */
  function InsertProbe<K(==), V>(s: seq<Slot<K, V>>, key: K, h1: nat, home: nat, d: nat): (r: Target)
    requires home < |s| && d <= |s|
    ensures r.Update? ==> r.index < |s| && IsFull(s[r.index]) && Matches(s[r.index], key, h1)
    ensures r.Place? ==> r.index < |s|
    decreases |s| - d
  {
    if d == |s| then Exhausted
    else
      var i := Off(home, d, |s|);
      if IsDeleted(s[i]) then Place(Off(home, d + 1, |s|))
      else if IsFull(s[i]) then
        if Matches(s[i], key, h1) then Update(i) else InsertProbe(s, key, h1, home, d + 1)
      else Place(i)
  }

  /**
   * The insert probe the table's design calls for: a DELETED slot is
   * passed over like a non-matching FULL one, and the new entry goes into
   * the first EMPTY slot.
   */
  function InsertProbeFixed<K(==), V>(s: seq<Slot<K, V>>, key: K, h1: nat, home: nat, d: nat): (r: Target)
    requires home < |s| && d <= |s|
    ensures r.Update? ==> r.index < |s| && IsFull(s[r.index]) && Matches(s[r.index], key, h1)
    ensures r.Place? ==> r.index < |s| && !IsFull(s[r.index]) && !IsDeleted(s[r.index])
    decreases |s| - d
  {
    if d == |s| then Exhausted
    else
      var i := Off(home, d, |s|);
      if IsDeleted(s[i]) then InsertProbeFixed(s, key, h1, home, d + 1)
      else if IsFull(s[i]) then
        if Matches(s[i], key, h1) then Update(i) else InsertProbeFixed(s, key, h1, home, d + 1)
      else Place(i)
  }

  /**
   * The as-written probe from offset `d` meets no tombstone before it
   * stops; on such a path it agrees with the intended probe.
   */
  predicate PathClear<K(==), V>(s: seq<Slot<K, V>>, key: K, h1: nat, home: nat, d: nat)
    requires home < |s| && d <= |s|
    decreases |s| - d
  {
    d == |s| ||
    var x := s[Off(home, d, |s|)];
    !IsDeleted(x) && (IsFull(x) && !Matches(x, key, h1) ==> PathClear(s, key, h1, home, d + 1))
  }

  /** A new FULL entry written at slot `i`, with both counters incremented. */
  function PlaceEntry<K(==), V>(st: State<K, V>, i: nat, h1: nat, key: K, value: V): State<K, V>
    requires i < |st.slots| && h1 < TWO62
  {
    State(st.power, st.numel + 1, st.numelPlusDeleted + 1,
          st.slots[i := Slot(Pack(h1, FULL), key, value)])
  }

  /**
   * What `vmap_insert` does once its probe has chosen `target`: overwrite
   * the value in place, or write a new entry and grow the table when the
   * count of used slots passes 0.7 of the capacity.
   */
  function Commit<K(==), V>(st: State<K, V>, target: Target, h1: nat, key: K, value: V,
                        growOk: bool, blank: Slot<K, V>): (State<K, V>, Status)
    requires h1 < TWO62
    requires !target.Exhausted? ==> target.index < |st.slots|
  {
    match target
    case Update(i) => (st.(slots := st.slots[i := st.slots[i].(value := value)]), Ok)
    case Place(i) =>
      var placed := PlaceEntry(st, i, h1, key, value);
      if AboveMaxLoad(placed.numelPlusDeleted, |st.slots|)
      then Resize(placed, st.power + 1, growOk, blank)
      else (placed, Ok)
    case Exhausted => (st, Ok)
  }

  /** `vmap_insert`, as written. */
  function Insert<K(==), V>(hash: K -> Word, st: State<K, V>, key: K, value: V,
                        growOk: bool, blank: Slot<K, V>): (State<K, V>, Status)
  {
    var h1 := H1(hash(key));
    if st.numelPlusDeleted >= |st.slots| then (st, Oom)
    else Commit(st, InsertProbe(st.slots, key, h1, Home(h1, |st.slots|), 0), h1, key, value, growOk, blank)
  }

  /** `vmap_insert` with the tombstone branch continuing the probe. */
  function InsertCorrected<K(==), V>(hash: K -> Word, st: State<K, V>, key: K, value: V,
                                 growOk: bool, blank: Slot<K, V>): (State<K, V>, Status)
  {
    var h1 := H1(hash(key));
    if st.numelPlusDeleted >= |st.slots| then (st, Oom)
    else Commit(st, InsertProbeFixed(st.slots, key, h1, Home(h1, |st.slots|), 0), h1, key, value, growOk, blank)
  }

  // ---------------------------------------------------------------------
  // vmap_erase
  // ---------------------------------------------------------------------

  /**
   * A matching slot becomes a tombstone: its metadata word becomes
   * VMAP_DELETED, its entry bytes stay in place, and only `numel` drops.
   */
  function Tombstone<K(==), V>(st: State<K, V>, i: nat): State<K, V>
    requires i < |st.slots|
  {
    State(st.power, Dec(st.numel), st.numelPlusDeleted, st.slots[i := st.slots[i].(meta := DELETED)])
  }

  /**
   * After an erase the table shrinks when fewer than 0.3 of its slots are
   * live and its power is above the initial one.
   */
  function ShrinkIfSparse<K(==), V>(st: State<K, V>, shrinkOk: bool, blank: Slot<K, V>): (State<K, V>, Status)
  {
    if BelowMinLoad(st.numel, |st.slots|) && st.power > INITIAL_POWER
    then Resize(st, st.power - 1, shrinkOk, blank)
    else (st, Ok)
  }

  /** `vmap_erase`. */
  function Erase<K(==), V>(hash: K -> Word, st: State<K, V>, key: K,
                       shrinkOk: bool, blank: Slot<K, V>): (r: (State<K, V>, Status))
    requires |st.slots| > 0
    ensures |r.0.slots| > 0
  {
    match FindSlot(hash, st.slots, key)
    case None => (st, NoKey)
    case Some(i) => ShrinkIfSparse(Tombstone(st, i), shrinkOk, blank)
  }

  // ---------------------------------------------------------------------
  // vmap_resize
  // ---------------------------------------------------------------------

  /**
   * The inner loop of `vmap_resize`: from offset `d`, the first slot that
   * is not FULL receives `x`.
   */
  function PlaceFrom<K(==), V>(t: seq<Slot<K, V>>, x: Slot<K, V>, home: nat, d: nat): (r: seq<Slot<K, V>>)
    requires home < |t| && d <= |t|
    ensures |r| == |t|
    decreases |t| - d
  {
    if d == |t| then t
    else
      var i := Off(home, d, |t|);
      if IsFull(t[i]) then PlaceFrom(t, x, home, d + 1) else t[i := x]
  }

  /**
   * The new slot array after the outer loop of `vmap_resize` has visited
   * the first `n` old slots: EMPTY and DELETED slots are skipped, every
   * other one is re-placed from `h1 & (cap - 1)` under the word
   * `(h1 << 2) | VMAP_FULL` with its entry bytes.
   */
  function RehashPrefix<K(==), V>(src: seq<Slot<K, V>>, n: nat, cap: nat, blank: Slot<K, V>): (t: seq<Slot<K, V>>)
    requires n <= |src| && cap > 0
    ensures |t| == cap
  {
    if n == 0 then seq(cap, _ => blank)
    else
      var t := RehashPrefix(src, n - 1, cap, blank);
      var x := src[n - 1];
      if IsDeleted(x) || IsEmpty(x) then t
      else
        var h1 := H1(x.meta);
        PlaceFrom(t, Slot(Pack(h1, FULL), x.key, x.value), Home(h1, cap), 0)
  }

  function Rehash<K(==), V>(src: seq<Slot<K, V>>, cap: nat, blank: Slot<K, V>): (t: seq<Slot<K, V>>)
    requires cap > 0
    ensures |t| == cap
  {
    RehashPrefix(src, |src|, cap, blank)
  }

  /**
   * `vmap_resize`: on allocation failure VMAP_OOM and no change; otherwise
   * the rehashed slots at the new power, with both counters set to the
   * old `numel`.
   */
  function Resize<K(==), V>(st: State<K, V>, newPower: nat, allocOk: bool,
                        blank: Slot<K, V>): (State<K, V>, Status)
  {
    if !allocOk then (st, Oom)
    else (State(newPower, st.numel, st.numel, Rehash(st.slots, Pow2(newPower), blank)), Ok)
  }

  // ---------------------------------------------------------------------
  // Destructor calls
  // ---------------------------------------------------------------------

  /** A call of the descriptor's `key_free` or `value_free`. */
  datatype Freed<K, V> = CallerKeyFreed(key: K) | StoredKeyFreed(key: K) | ValueFreed(value: V)

  /**
   * The destructor calls `vmap_insert` makes: on an update, `key_free` on
   * the CALLER's key; never `value_free` on the overwritten value.
   */
  function InsertFrees<K(==), V>(hash: K -> Word, st: State<K, V>, key: K, hasKeyFree: bool): seq<Freed<K, V>>
  {
    var h1 := H1(hash(key));
    if st.numelPlusDeleted < |st.slots|
       && InsertProbe(st.slots, key, h1, Home(h1, |st.slots|), 0).Update?
       && hasKeyFree
    then [CallerKeyFreed(key)]
    else []
  }

  /** The destructor calls `vmap_erase` makes on the erased slot's key and value. */
  function EraseFrees<K(==), V>(hash: K -> Word, st: State<K, V>, key: K,
                            hasKeyFree: bool, hasValueFree: bool): seq<Freed<K, V>>
    requires |st.slots| > 0
  {
    match FindSlot(hash, st.slots, key)
    case None => []
    case Some(i) =>
      (if hasKeyFree then [StoredKeyFreed(st.slots[i].key)] else [])
      + (if hasValueFree then [ValueFreed(st.slots[i].value)] else [])
  }

  // ---------------------------------------------------------------------
  // Invariants and the abstract map
  // ---------------------------------------------------------------------

  /** The number of FULL slots. */
  function CountFull<K(==), V>(s: seq<Slot<K, V>>): (r: nat)
    ensures r <= |s|
  {
    if s == [] then 0
    else CountFull(s[..|s| - 1]) + (if IsFull(s[|s| - 1]) then 1 else 0)
  }

  /** A slot's contribution to `FullSlots`: itself when FULL, nothing otherwise. */
  ghost function FullPart<K, V>(x: Slot<K, V>): multiset<Slot<K, V>>
  {
    if IsFull(x) then multiset{x} else multiset{}
  }

  /** The FULL slots, with their multiplicities and in no order. */
  ghost function FullSlots<K, V>(s: seq<Slot<K, V>>): multiset<Slot<K, V>>
  {
    if s == [] then multiset{}
    else FullSlots(s[..|s| - 1]) + FullPart(s[|s| - 1])
  }

  /** The number of slots that are not EMPTY (FULL or tombstones). */
  function CountUsed<K(==), V>(s: seq<Slot<K, V>>): (r: nat)
    ensures r <= |s|
  {
    if s == [] then 0
    else CountUsed(s[..|s| - 1]) + (if IsEmpty(s[|s| - 1]) then 0 else 1)
  }

  /** Only the three flags the code writes occur. */
  ghost predicate WellFlagged<K, V>(s: seq<Slot<K, V>>)
  {
    forall i :: 0 <= i < |s| ==> Flags(s[i].meta) <= FULL
  }

  /** Every FULL slot stores the fragment of its own key's hash. */
  ghost predicate Tagged<K, V>(hash: K -> Word, s: seq<Slot<K, V>>)
  {
    forall i :: 0 <= i < |s| && IsFull(s[i]) ==> H1(s[i].meta) == H1(hash(s[i].key))
  }

  /** No EMPTY slot among the first `n` probed from `home`. */
  ghost predicate NoEmptyBefore<K, V>(s: seq<Slot<K, V>>, home: nat, n: nat)
    requires |s| > 0
  {
    forall d :: 0 <= d < n ==> !IsEmpty(s[Off(home, d, |s|)])
  }

  /** The home slot of the entry stored in slot `i`. */
  function HomeOf<K(==), V>(s: seq<Slot<K, V>>, i: nat): nat
    requires i < |s|
  {
    Home(H1(s[i].meta), |s|)
  }

  /**
   * Every FULL slot is reachable from its home without crossing an EMPTY
   * slot: the property that lets an EMPTY slot end a search.
   */
  ghost predicate ChainsUnbroken<K, V>(s: seq<Slot<K, V>>)
  {
    forall i :: 0 <= i < |s| && IsFull(s[i]) ==> NoEmptyBefore(s, HomeOf(s, i), Dist(HomeOf(s, i), i, |s|))
  }

  /**
   * The invariant every reachable table keeps, including after the
   * tombstone fall-through of `vmap_insert`: capacity 2^power with power
   * at least the initial one, well-formed slots, and counters that bound
   * the FULL and the used slots from above.
   */
  ghost predicate Valid<K, V>(hash: K -> Word, st: State<K, V>)
  {
    && st.power >= INITIAL_POWER
    && Sized(st)
    && WellFlagged(st.slots)
    && Tagged(hash, st.slots)
    && ChainsUnbroken(st.slots)
    && CountFull(st.slots) <= st.numel <= st.numelPlusDeleted <= |st.slots|
    && CountUsed(st.slots) <= st.numelPlusDeleted
  }

  /** No key is stored in two FULL slots. */
  ghost predicate NoDup<K, V>(s: seq<Slot<K, V>>)
  {
    forall i, j :: 0 <= i < j < |s| && IsFull(s[i]) && IsFull(s[j]) ==> s[i].key != s[j].key
  }

  /**
   * The table is a map in the plain sense: keys are unique and the
   * counters count exactly the live and the used slots.
   */
  ghost predicate Canonical<K, V>(st: State<K, V>)
  {
    && NoDup(st.slots)
    && CountFull(st.slots) == st.numel
    && CountUsed(st.slots) == st.numelPlusDeleted
  }

  ghost predicate Holds<K, V>(s: seq<Slot<K, V>>, key: K)
  {
    exists i :: 0 <= i < |s| && IsFull(s[i]) && s[i].key == key
  }

  /** The key-to-value map the FULL slots hold. */
  ghost function Model<K, V>(s: seq<Slot<K, V>>): (m: map<K, V>)
    requires NoDup(s)
    ensures forall i :: 0 <= i < |s| && IsFull(s[i]) ==> s[i].key in m && m[s[i].key] == s[i].value
    ensures forall k :: k in m ==> Holds(s, k)
  {
    map i | 0 <= i < |s| && IsFull(s[i]) :: s[i].key := s[i].value
  }

  ghost predicate HasEmpty<K, V>(s: seq<Slot<K, V>>)
  {
    exists i :: 0 <= i < |s| && IsEmpty(s[i])
  }

  /** The growth threshold holds: at most 0.7 of the slots are used. */
  predicate LoadBounded<K(==), V>(st: State<K, V>)
  {
    !AboveMaxLoad(st.numelPlusDeleted, |st.slots|)
  }

  /** No slot is a tombstone. */
  ghost predicate TombstoneFree<K, V>(s: seq<Slot<K, V>>)
  {
    forall i :: 0 <= i < |s| ==> !IsDeleted(s[i])
  }
}
