/**
 * `struct vmap` and the functions of vmap.c that work on it.
 *
 * A `Table` holds the fields the algorithms read and write: the power,
 * the two counters and one array whose slots zip the metadata word of a
 * slot with the key and value bytes of its entry.  Each method runs the
 * loop of its C function over that array and is proved to compute the
 * VmapSpec function of the same name, so what VmapOps, VmapRehash and
 * VmapFind prove about those functions holds of the class.  The
 * destructor calls are kept in a ghost log.
 */
module Vmap {

  import opened Wrappers
  import opened Bits
  import opened Probe
  import opened VmapMeta
  import opened VmapSpec
  import opened VmapSlots
  import opened VmapFind
  import opened VmapRehash
  import opened VmapOps

  /**
   * The `vmap_type` descriptor: the hash callback (None for NULL), whether
   * `key_free` and `value_free` are set, and the key and value sizes.
   * `key_cmp` is the key type's equality whether it is set or not.
   */
  datatype VmapType<!K> = VmapType(hash: Option<K -> Word>, hasKeyFree: bool, hasValueFree: bool,
                                     keySize: nat, valueSize: nat)

  /** `x & ((1 << power) - 1)`, the masking every probe step does. */
  function Mask(x: nat, power: nat): (r: nat)
    ensures r == x % Pow2(power)
  {
    AndLowMask(x, power);
    And(x, Pow2(power) - 1)
  }

  /** On a valid, exact table, what `vmap_find` computes is the map lookup. */
  lemma FindIsLookup<K, V>(hash: K -> Word, st: State<K, V>, key: K)
    requires |st.slots| > 0
    ensures Valid(hash, st) && Canonical(st) ==>
              Find(hash, st.slots, key) == if key in Model(st.slots) then Some(Model(st.slots)[key]) else None
  {
    if Valid(hash, st) && Canonical(st) {
      FindIsModel(hash, st.slots, key);
    }
  }

  /**
   * What the mutating loops need to end: `2^power` slots carrying only
   * the three flags, and no more FULL slots than `numel`, which is at most
   * `numelplusdeleted`.  `VmapSpec.Valid` implies it.
   */
  ghost predicate BoundedState<K, V>(st: State<K, V>, blank: Slot<K, V>)
  {
    IsEmpty(blank) && |st.slots| == Pow2(st.power) && WellFlagged(st.slots)
    && CountFull(st.slots) <= st.numel <= st.numelPlusDeleted
  }

  /** Overwriting a value keeps the bound. */
  lemma UpdateKeepsBounded<K, V>(st: State<K, V>, i: nat, value: V, blank: Slot<K, V>)
    requires BoundedState(st, blank) && i < |st.slots|
    ensures BoundedState(st.(slots := st.slots[i := st.slots[i].(value := value)]), blank)
  {
    CountsUpdate(st.slots, i, st.slots[i].(value := value));
  }

  /** Writing a new entry counts it in both counters and keeps the bound. */
  lemma PlaceKeepsBounded<K, V>(st: State<K, V>, i: nat, h1: nat, key: K, value: V, blank: Slot<K, V>)
    requires BoundedState(st, blank) && i < |st.slots| && h1 < TWO62
    ensures BoundedState(PlaceEntry(st, i, h1, key, value), blank)
  {
    SpecialWords();
    CountsUpdate(st.slots, i, Slot(Pack(h1, FULL), key, value));
  }

  /** Turning a live slot into a tombstone uncounts it from `numel` and the FULL slots alike. */
  lemma TombstoneKeepsBounded<K, V>(st: State<K, V>, i: nat, blank: Slot<K, V>)
    requires BoundedState(st, blank) && i < |st.slots|
    requires !IsEmpty(st.slots[i]) && !IsDeleted(st.slots[i])
    ensures BoundedState(Tombstone(st, i), blank)
  {
    SpecialWords();
    CountsUpdate(st.slots, i, st.slots[i].(meta := DELETED));
  }

  /** A resize to a table that can hold `numel` entries keeps the bound. */
  lemma ResizeKeepsBounded<K, V>(st: State<K, V>, newPower: nat, allocOk: bool, blank: Slot<K, V>)
    requires BoundedState(st, blank) && st.numel <= Pow2(newPower)
    ensures BoundedState(Resize(st, newPower, allocOk, blank).0, blank)
  {
    if allocOk {
      var src := st.slots;
      CountFullPrefixBound(src, |src|);
      RehashPrefixCount(src, |src|, Pow2(newPower), blank);
      assert src[..|src|] == src;
    }
  }

  class Table<K(==), V> {
    var power: nat
    var numel: nat
    var numelPlusDeleted: nat
    var slots: array<Slot<K, V>>
    /** The `key_free` and `value_free` calls made so far. */
    ghost var freed: seq<Freed<K, V>>

    const hash: K -> Word
    const hasKeyFree: bool
    const hasValueFree: bool
    const entryPadding: nat
    const entrySize: nat
    /** The slot an all-zero allocation holds. */
    const blank: Slot<K, V>

    /** The table as a value. */
    function View(): State<K, V>
      reads this, slots
    {
      State(power, numel, numelPlusDeleted, slots[..])
    }

    ghost predicate Valid()
      reads this, slots
    {
      IsEmpty(blank) && VmapSpec.Valid(hash, View())
    }

    ghost predicate Bounded()
      reads this, slots
    {
      BoundedState(View(), blank)
    }

    /** The allocation and field set-up `vmap_new` and `vmap_new_with_cap` share. */
    constructor (hash: K -> Word, hasKeyFree: bool, hasValueFree: bool, power: nat,
                 entryPadding: nat, entrySize: nat, blank: Slot<K, V>)
      ensures View() == State(power, 0, 0, seq(Pow2(power), _ => blank))
      ensures fresh(slots) && freed == []
      ensures this.hash == hash && this.hasKeyFree == hasKeyFree && this.hasValueFree == hasValueFree
      ensures this.entryPadding == entryPadding && this.entrySize == entrySize && this.blank == blank
    {
      this.hash := hash;
      this.hasKeyFree := hasKeyFree;
      this.hasValueFree := hasValueFree;
      this.entryPadding := entryPadding;
      this.entrySize := entrySize;
      this.blank := blank;
      this.power := power;
      numel := 0;
      numelPlusDeleted := 0;
      slots := new Slot<K, V>[Pow2(power)](_ => blank);
      freed := [];
    }

    /**
     * `vmap_new`: NULL for a zero key or value size, a missing hash or a
     * failed allocation; otherwise a table of power 5 with every slot
     * EMPTY, both counters 0 and entries laid out as key, padding, value.
     */
    static method New(ty: VmapType<K>, blank: Slot<K, V>, allocOk: bool) returns (r: Option<Table<K, V>>)
      requires blank.meta == 0
      ensures r.None? <==> ty.keySize == 0 || ty.valueSize == 0 || ty.hash.None? || !allocOk
      ensures r.Some? ==> fresh(r.value) && fresh(r.value.slots)
                          && r.value.View() == Fresh(blank) && r.value.Valid() && r.value.freed == []
                          && r.value.hash == ty.hash.value
                          && r.value.hasKeyFree == ty.hasKeyFree && r.value.hasValueFree == ty.hasValueFree
                          && r.value.entryPadding == Padding(ty.keySize)
                          && r.value.entrySize == ty.keySize + ty.valueSize + Padding(ty.keySize)
    {
      if ty.keySize == 0 {
        return None;
      }
      if ty.valueSize == 0 {
        return None;
      }
      if ty.hash.None? {
        return None;
      }
      var padding := Padding(ty.keySize);
      var entrySize := ty.keySize + ty.valueSize + padding;
      if !allocOk {
        return None;
      }
      var t := new Table(ty.hash.value, ty.hasKeyFree, ty.hasValueFree, INITIAL_POWER, padding, entrySize, blank);
      FreshIsValid(t.hash, blank);
      r := Some(t);
    }

    /**
     * `vmap_new_with_cap`: NULL for a failed allocation, otherwise an
     * all-zero table of capacity `2^power` with the given layout.
     */
    static method NewWithCap(hash: K -> Word, hasKeyFree: bool, hasValueFree: bool, power: nat,
                             entryPadding: nat, entrySize: nat, blank: Slot<K, V>, allocOk: bool)
      returns (r: Option<Table<K, V>>)
      ensures r.None? <==> !allocOk
      ensures r.Some? ==> fresh(r.value) && fresh(r.value.slots) && r.value.freed == []
                          && r.value.View() == State(power, 0, 0, seq(Pow2(power), _ => blank))
                          && r.value.hash == hash && r.value.hasKeyFree == hasKeyFree
                          && r.value.hasValueFree == hasValueFree && r.value.blank == blank
                          && r.value.entryPadding == entryPadding && r.value.entrySize == entrySize
    {
      if !allocOk {
        return None;
      }
      var t := new Table(hash, hasKeyFree, hasValueFree, power, entryPadding, entrySize, blank);
      r := Some(t);
    }

    /**
     * The probe loop `vmap_find` and `vmap_erase` share: from the home
     * slot of the key's fragment, DELETED slots are passed over, an EMPTY
     * slot ends the search, and the first slot whose fragment and key
     * match is the answer.
     */
    method Locate(key: K) returns (r: Option<nat>)
      requires slots.Length == Pow2(power)
      requires HasEmpty(slots[..]) || FindSlot(hash, slots[..], key).Some?
      ensures r == FindSlot(hash, slots[..], key)
      ensures r.Some? ==> r.value < slots.Length && Matches(slots[r.value], key, H1(hash(key)))
                          && !IsDeleted(slots[r.value]) && !IsEmpty(slots[r.value])
    {
      ghost var s := slots[..];
      var capacity := Pow2(power);
      var h1 := H1(hash(key));
      var slot := Mask(h1, power);
      ghost var home := slot;
      ghost var d := 0;
      // The slot that stops the loop: an EMPTY one, or else the key's own.
      ghost var e: nat;
      if HasEmpty(s) {
        e :| 0 <= e < |s| && IsEmpty(s[e]);
      } else {
        e := FindSlot(hash, s, key).value;
      }
      OffSmall(home, 0, capacity);
      while true
        invariant slot == Off(home, d, capacity) && d <= Dist(home, e, capacity)
        invariant FindFrom(s, key, h1, home, 0) == FindFrom(s, key, h1, home, d)
        invariant e < |s| && (IsEmpty(s[e]) || FindFrom(s, key, h1, home, 0) == Some(e))
        decreases capacity - d
      {
        var data := slots[slot];
        var dataH1 := H1(data.meta);
        var flags := Flags(data.meta);
        if flags == DELETED {
          OffStep(home, d, capacity);
          slot := Mask(slot + 1, power);
          d := d + 1;
          continue;
        }
        if flags == EMPTY {
          break;
        }
        if dataH1 == h1 {
          if data.key == key {
            return Some(slot);
          }
        }
        OffStep(home, d, capacity);
        slot := Mask(slot + 1, power);
        d := d + 1;
      }
      r := None;
    }

    /**
     * `vmap_find`: the value stored at the slot the probe loop settles on,
     * or None for NULL; on a valid table with unique keys, the value the
     * table's map binds to `key`.
     */
    method Find(key: K) returns (r: Option<V>)
      requires slots.Length == Pow2(power)
      requires HasEmpty(slots[..]) || FindSlot(hash, slots[..], key).Some?
      ensures r == VmapSpec.Find(hash, slots[..], key)
      ensures VmapSpec.Valid(hash, View()) && Canonical(View()) ==>
                r == if key in Model(View().slots) then Some(Model(View().slots)[key]) else None
    {
      var i := Locate(key);
      if i.Some? {
        r := Some(slots[i.value].value);
      } else {
        r := None;
      }
      FindIsLookup(hash, View(), key);
    }

    /**
     * The probe loop of `vmap_insert` up to the slot it acts on: a DELETED
     * slot sends the entry to the slot after it, a FULL slot with the same
     * fragment and key is overwritten, other FULL slots are passed over,
     * and any other slot receives the entry.
     */
    method InsertTarget(key: K) returns (target: Target)
      requires slots.Length == Pow2(power) && CountFull(slots[..]) < slots.Length
      ensures target == InsertProbe(slots[..], key, H1(hash(key)), Home(H1(hash(key)), slots.Length), 0)
      ensures !target.Exhausted?
    {
      ghost var s := slots[..];
      var capacity := Pow2(power);
      var h1 := H1(hash(key));
      var slot := Mask(h1, power);
      ghost var free := NonFullExists(s);
      ghost var home := slot;
      ghost var d := 0;
      OffSmall(home, 0, capacity);
      while true
        invariant slot == Off(home, d, capacity) && d <= Dist(home, free, capacity)
        invariant InsertProbe(s, key, h1, home, 0) == InsertProbe(s, key, h1, home, d)
        decreases capacity - d
      {
        var data := slots[slot];
        var dataH1 := H1(data.meta);
        var flags := Flags(data.meta);
        if flags == DELETED {
          OffStep(home, d, capacity);
          slot := Mask(slot + 1, power);
        }
        if flags == FULL {
          if dataH1 == h1 {
            if data.key != key {
              OffStep(home, d, capacity);
              slot := Mask(slot + 1, power);
              d := d + 1;
              continue;
            }
            return Update(slot);
          }
          OffStep(home, d, capacity);
          slot := Mask(slot + 1, power);
          d := d + 1;
          continue;
        }
        return Place(slot);
      }
    }

    /**
     * `vmap_insert`: VMAP_OOM without a change when every slot is used;
     * otherwise, at the slot the probe loop acts on, the value of a
     * matching entry is overwritten after the caller's key is handed to
     * `key_free`, or a new entry is written and counted, and a new entry
     * that takes the load above 0.7 doubles the table.
     */
    method Insert(key: K, value: V, growOk: bool) returns (status: Status)
      requires Bounded()
      modifies this, slots
      ensures Bounded()
      ensures (View(), status) == VmapSpec.Insert(hash, old(View()), key, value, growOk, blank)
      ensures freed == old(freed) + InsertFrees(hash, old(View()), key, hasKeyFree)
      ensures old(Valid()) ==> Valid()
    {
      ghost var st := View();
      if Valid() {
        InsertKeepsValid(hash, st, key, value, growOk, blank);
      }
      var capacity := Pow2(power);
      var h1 := H1(hash(key));
      if numelPlusDeleted >= capacity {
        return Oom;
      }
      var target := InsertTarget(key);
      assert VmapSpec.Insert(hash, st, key, value, growOk, blank) == Commit(st, target, h1, key, value, growOk, blank);
      assert InsertFrees(hash, st, key, hasKeyFree) == if target.Update? && hasKeyFree then [CallerKeyFreed(key)] else [];
      match target
      case Update(slot) =>
        if hasKeyFree {
          freed := freed + [CallerKeyFreed(key)];
        }
        var data := slots[slot];
        UpdateKeepsBounded(st, slot, value, blank);
        slots[slot] := data.(value := value);
        status := Ok;
      case Place(slot) =>
        status := PlaceAt(slot, key, value, growOk);
    }

    /**
     * `vmap_insert` once the probe loop has chosen `slot` for a new entry:
     * the metadata word `(h1 << 2) | VMAP_FULL`, key and value are written,
     * both counters grow, and a load above 0.7 doubles the table.
     */
    method PlaceAt(slot: nat, key: K, value: V, growOk: bool) returns (status: Status)
      requires Bounded() && slot < slots.Length && numelPlusDeleted < slots.Length
      modifies this, slots
      ensures Bounded()
      ensures (View(), status) == Commit(old(View()), Place(slot), H1(hash(key)), key, value, growOk, blank)
      ensures freed == old(freed)
    {
      ghost var st := View();
      var capacity := Pow2(power);
      var h1 := H1(hash(key));
      PlaceKeepsBounded(st, slot, h1, key, value, blank);
      slots[slot] := Slot(Pack(h1, FULL), key, value);
      numelPlusDeleted := numelPlusDeleted + 1;
      numel := numel + 1;
      ghost var placed := View();
      assert placed == PlaceEntry(st, slot, h1, key, value);
      if AboveMaxLoad(numelPlusDeleted, capacity) {
        Pow2Succ(power);
        status := Resize(power + 1, growOk);
      } else {
        status := Ok;
      }
    }

    /**
     * `vmap_erase` once the probe loop has found the entry at `slot`: its
     * key and value are handed to `key_free` and `value_free`, the slot
     * becomes a tombstone, `numel` drops, and the table halves when the
     * load falls below 0.3 above the initial power.
     */
    method EraseAt(slot: nat, shrinkOk: bool) returns (status: Status)
      requires Bounded() && slot < slots.Length
      requires !IsEmpty(slots[slot]) && !IsDeleted(slots[slot])
      modifies this, slots
      ensures Bounded()
      ensures (View(), status) == ShrinkIfSparse(Tombstone(old(View()), slot), shrinkOk, blank)
      ensures freed == old(freed) + (if hasKeyFree then [StoredKeyFreed(old(slots[slot]).key)] else [])
                                  + (if hasValueFree then [ValueFreed(old(slots[slot]).value)] else [])
    {
      ghost var st := View();
      var capacity := Pow2(power);
      var data := slots[slot];
      // the `key_free` and `value_free` calls, in that order
      freed := freed + (if hasKeyFree then [StoredKeyFreed(data.key)] else [])
                     + (if hasValueFree then [ValueFreed(data.value)] else []);
      TombstoneKeepsBounded(st, slot, blank);
      slots[slot] := data.(meta := DELETED);
      numel := Dec(numel);
      ghost var mid := View();
      assert mid == Tombstone(st, slot);
      if BelowMinLoad(numel, capacity) && power > INITIAL_POWER {
        Pow2Succ(power - 1);
        assert ShrinkIfSparse(mid, shrinkOk, blank) == VmapSpec.Resize(mid, power - 1, shrinkOk, blank);
        status := Resize(power - 1, shrinkOk);
      } else {
        status := Ok;
      }
    }

    /**
     * `vmap_erase`: VMAP_NO_KEY and no change for an unbound key;
     * otherwise the entry the probe loop finds is erased.
     */
    method Erase(key: K, shrinkOk: bool) returns (status: Status)
      requires Bounded()
      requires HasEmpty(slots[..]) || FindSlot(hash, slots[..], key).Some?
      modifies this, slots
      ensures Bounded()
      ensures (View(), status) == VmapSpec.Erase(hash, old(View()), key, shrinkOk, blank)
      ensures freed == old(freed) + EraseFrees(hash, old(View()), key, hasKeyFree, hasValueFree)
      ensures old(Valid()) ==> Valid()
    {
      if Valid() {
        EraseKeepsValid(hash, View(), key, shrinkOk, blank);
      }
      var i := Locate(key);
      if i.None? {
        return NoKey;
      }
      status := EraseAt(i.value, shrinkOk);
    }

    /**
     * The inner loop of `vmap_resize`: from slot `home` of `t`, the first
     * slot that is not FULL receives `y`.
     */
    static method PlaceInto(t: array<Slot<K, V>>, power: nat, home: nat, y: Slot<K, V>)
      requires t.Length == Pow2(power) && home < t.Length && CountFull(t[..]) < t.Length
      modifies t
      ensures t[..] == PlaceFrom(old(t[..]), y, home, 0)
    {
      ghost var t0 := t[..];
      var cap := Pow2(power);
      var slot := home;
      ghost var free := NonFullExists(t0);
      ghost var d := 0;
      OffSmall(home, 0, cap);
      while true
        invariant t[..] == t0
        invariant slot == Off(home, d, cap) && d <= Dist(home, free, cap)
        invariant PlaceFrom(t0, y, home, 0) == PlaceFrom(t0, y, home, d)
        decreases cap - d
      {
        var data := t[slot];
        if Flags(data.meta) == FULL {
          OffStep(home, d, cap);
          slot := Mask(slot + 1, power);
          d := d + 1;
          continue;
        }
        t[slot] := y;
        break;
      }
    }

    /**
     * The outer loop of `vmap_resize`: every slot of `src` that is neither
     * EMPTY nor DELETED, in index order, is re-placed into the all-zero
     * array `t` from its home under the new mask, its metadata word
     * rebuilt as `(h1 << 2) | VMAP_FULL`.
     */
    static method RehashInto(src: array<Slot<K, V>>, t: array<Slot<K, V>>, newPower: nat, blank: Slot<K, V>)
      requires src != t && IsEmpty(blank) && WellFlagged(src[..])
      requires t.Length == Pow2(newPower) && forall j :: 0 <= j < t.Length ==> t[j] == blank
      requires CountFull(src[..]) <= t.Length
      modifies t
      ensures t[..] == Rehash(src[..], t.Length, blank)
    {
      var newCap := Pow2(newPower);
      ghost var s := src[..];
      assert t[..] == RehashPrefix(s, 0, newCap, blank);
      for i := 0 to src.Length
        invariant t[..] == RehashPrefix(s, i, newCap, blank)
      {
        var data := src[i];
        var flags := Flags(data.meta);
        var h1 := H1(data.meta);
        if flags == DELETED {
          continue;
        }
        if flags == EMPTY {
          continue;
        }
        CountsPrefix(s, i + 1);
        CountFullPrefixBound(s, i + 1);
        RehashPrefixCount(s, i, newCap, blank);
        PlaceInto(t, newPower, Mask(h1, newPower), Slot(Pack(h1, FULL), data.key, data.value));
      }
      assert s[..src.Length] == s;
    }

    /**
     * `vmap_resize`: VMAP_OOM without a change when the new allocation
     * fails; otherwise every FULL slot, in index order, is re-placed at the
     * first non-FULL slot from its home in a table of `2^newPower` slots,
     * both counters become `numel`, and the table takes over the new
     * allocation.
     */
    method Resize(newPower: nat, allocOk: bool) returns (status: Status)
      requires Bounded() && numel <= Pow2(newPower)
      modifies this
      ensures Bounded()
      ensures (View(), status) == VmapSpec.Resize(old(View()), newPower, allocOk, blank)
      ensures freed == old(freed)
      ensures old(Valid()) && newPower >= INITIAL_POWER ==> Valid()
    {
      if Valid() && newPower >= INITIAL_POWER {
        ResizeKeepsValid(hash, View(), newPower, allocOk, blank);
      }
      var len := Pow2(power);
      var newMap := NewWithCap(hash, hasKeyFree, hasValueFree, newPower, entryPadding, entrySize, blank, allocOk);
      var newCap := Pow2(newPower);
      if newMap.None? {
        return Oom;
      }
      var t := newMap.value.slots;
      assert t[..] == newMap.value.View().slots;
      assert forall j :: 0 <= j < t.Length ==> t[j] == t[..][j];
      RehashInto(slots, t, newPower, blank);
      ResizeKeepsBounded(View(), newPower, allocOk, blank);
      power := newPower;
      numelPlusDeleted := numel;
      slots := t;
      status := Ok;
    }
  }
}
