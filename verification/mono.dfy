/**
 * The functions `VMAP_INIT(name, key_type, value_type)` in src/vmap.h
 * defines, over one instantiation.
 *
 * A `MonoMap` holds what `vmap_<name>_t` holds: the capacity, `numel`,
 * whether a `key_cmp` was stored, and the flexible array of entries, here
 * an array.  Each method runs the loop of its macro body over that array
 * and is proved to compute the MonoSpec function of the same name, so
 * what MonoModel proves about those functions holds of the class.  The
 * destructor calls are kept in a ghost log.
 */
module Mono {

  import opened Wrappers
  import opened Bits
  import opened Probe
  import opened MonoSpec
  import opened MonoModel

  /**
   * `djb2_<name>_hash` as its loop runs: for each key byte, shift left
   * by 5, add the old hash, add the byte, each step in `uint64_t`.
   */
  method Djb2Hash(key: Key) returns (hash: Word)
    ensures hash == Djb2(key)
  {
    hash := 5381;
    for i := 0 to |key|
      invariant hash == Djb2(key[..i])
    {
      var ch := key[i];
      assert key[..i + 1][..i] == key[..i];
      var shifted := (hash * 32) % TWO64;
      var sum := (shifted + hash) % TWO64;
      ModAdd(hash * 32, hash, TWO64);
      ModAdd(hash * 33, ch, TWO64);
      hash := (sum + ch) % TWO64;
    }
    assert key[..|key|] == key;
  }

  class MonoMap<V> {

    const capacity: nat
    /** Whether `key_cmp` was stored; equal keys are equal bytes either way. */
    const hasKeyCmp: bool
    /** An entry as `memset` leaves it: flags 0, key and value bytes zero. */
    const blank: Entry<V>
    var numel: nat
    const entries: array<Entry<V>>
    ghost var freed: seq<Freed<V>>

    function View(): MonoState<V>
      reads this, entries
    {
      MonoState(numel, entries[..])
    }

    ghost predicate Valid()
      reads this, entries
    {
      capacity == entries.Length && IsCleared(blank) && Inv(View())
    }

    constructor (hasKeyCmp: bool, blank: Entry<V>)
      requires IsCleared(blank)
      ensures View() == Fresh(INITIAL_CAPACITY, blank) && Valid()
      ensures this.hasKeyCmp == hasKeyCmp && this.blank == blank && freed == [] && fresh(entries)
    {
      this.hasKeyCmp := hasKeyCmp;
      this.blank := blank;
      capacity := INITIAL_CAPACITY;
      numel := 0;
      entries := new Entry<V>[INITIAL_CAPACITY](_ => blank);
      freed := [];
      new;
      FreshIsEmpty(INITIAL_CAPACITY, blank);
    }

    /**
     * `vmap_<name>_new`: NULL when the allocation fails; otherwise a table
     * of `VMAP_INITIAL_CAPACITY` zeroed entries, `numel` 0, holding no
     * key, with `key_cmp` stored when one is given.
     */
    static method New(keyCmp: bool, keySize: nat, zero: V, allocOk: bool) returns (r: Option<MonoMap<V>>)
      ensures r.None? <==> !allocOk
      ensures r.Some? ==> fresh(r.value) && fresh(r.value.entries) && r.value.Valid()
                          && r.value.View() == Fresh(INITIAL_CAPACITY, Blank(keySize, zero))
                          && r.value.capacity == INITIAL_CAPACITY && r.value.numel == 0
                          && r.value.hasKeyCmp == keyCmp && r.value.freed == []
                          && (forall k :: Get(r.value.View().entries, k) == None)
                          && Sound(r.value.View().entries)
    {
      if !allocOk {
        return None;
      }
      var m := new MonoMap(keyCmp, Blank(keySize, zero));
      FreshIsEmpty(INITIAL_CAPACITY, Blank(keySize, zero));
      r := Some(m);
    }

    /**
     * `vmap_<name>_find`: NULL in an empty table; otherwise probe from the
     * home slot, stop with NULL at a zeroed entry, pass over DELETED
     * entries and other keys, and answer the value of an equal key.
     */
    method Find(key: Key) returns (r: Option<V>)
      requires Valid() && FindProbe(View(), key) != Endless
      ensures r == MonoSpec.Find(View(), key)
    {
      if numel == 0 {
        return None;
      }
      var hash := Djb2Hash(key);
      var slot := hash % capacity;
      ghost var home := slot;
      ghost var d: nat := 0;
      OffSmall(home, 0, capacity);
      while true
        invariant slot == Off(home, d, capacity) && d <= capacity
        invariant FindFrom(entries[..], key, home, d) == FindFrom(entries[..], key, home, 0)
        decreases capacity - d
      {
        var e := entries[slot];
        if IsCleared(e) {
          return None;
        }
        if IsEntry(e) {
          if e.key == key {
            return Some(e.value);
          }
          OffStep(home, d, capacity);
          slot := (slot + 1) % capacity;
          d := d + 1;
        } else if IsDeleted(e) {
          OffStep(home, d, capacity);
          slot := (slot + 1) % capacity;
          d := d + 1;
        } else {
          return None;
        }
      }
    }

    /**
     * `vmap_<name>_insert`: VMAP_OOM at capacity; otherwise probe from the
     * home slot, overwrite the value of an equal key, pass over other
     * keys, and write a new entry into the first DELETED or zeroed slot,
     * counting it in `numel`.
     */
    method Insert(key: Key, value: V) returns (status: Status)
      requires Valid()
      modifies this, entries
      ensures Valid() && (View(), status) == MonoSpec.Insert(old(View()), key, value)
      ensures freed == old(freed)
    {
      InsertKeepsInv(View(), key, value);
      if numel == capacity {
        return Oom;
      }
      var hash := Djb2Hash(key);
      var slot := hash % capacity;
      ghost var home := slot;
      ghost var d: nat := 0;
      InsertTerminates(View(), key);
      OffSmall(home, 0, capacity);
      while true
        invariant slot == Off(home, d, capacity) && d <= capacity
        invariant InsertProbe(entries[..], key, home, d) == InsertProbe(entries[..], key, home, 0)
        invariant entries[..] == old(entries[..]) && numel == old(numel) && freed == old(freed)
        decreases capacity - d
      {
        var e := entries[slot];
        if IsEntry(e) {
          if e.key == key {
            entries[slot] := e.(value := value);
            return Ok;
          }
          OffStep(home, d, capacity);
          slot := (slot + 1) % capacity;
          d := d + 1;
        } else if IsDeleted(e) {
          entries[slot] := EntryNew(key, value);
          numel := numel + 1;
          return Ok;
        } else {
          entries[slot] := EntryNew(key, value);
          numel := numel + 1;
          return Ok;
        }
      }
    }

    /**
     * `vmap_<name>_delete`: VMAP_NO_KEY in an empty table or when the
     * probe meets a zeroed entry; on an equal key, call the supplied
     * destructors on it, zero its key and value, mark it DELETED and
     * leave `numel` as it is.
     */
    method Delete(key: Key, hasFreeKey: bool, hasFreeValue: bool) returns (status: Status)
      requires Valid() && FindProbe(View(), key) != Endless
      modifies this, entries
      ensures Valid() && (View(), status) == MonoSpec.Delete(old(View()), key, blank)
      ensures freed == old(freed) + DeleteFrees(old(View()), key, hasFreeKey, hasFreeValue)
    {
      DeleteKeepsInv(View(), key, blank);
      if numel == 0 {
        return NoKey;
      }
      var hash := Djb2Hash(key);
      var slot := hash % capacity;
      ghost var home := slot;
      ghost var d: nat := 0;
      OffSmall(home, 0, capacity);
      while true
        invariant slot == Off(home, d, capacity) && d <= capacity
        invariant FindFrom(entries[..], key, home, d) == FindFrom(entries[..], key, home, 0)
        invariant entries[..] == old(entries[..]) && numel == old(numel) && freed == old(freed)
        decreases capacity - d
      {
        var e := entries[slot];
        if IsCleared(e) {
          return NoKey;
        }
        if IsEntry(e) {
          if e.key == key {
            if hasFreeKey {
              freed := freed + [KeyFreed(slot, e.key)];
            }
            if hasFreeValue {
              freed := freed + [ValueFreed(slot, e.value)];
            }
            entries[slot] := blank.(flags := KEY_DELETED);
            return Ok;
          }
          OffStep(home, d, capacity);
          slot := (slot + 1) % capacity;
          d := d + 1;
        } else if IsDeleted(e) {
          OffStep(home, d, capacity);
          slot := (slot + 1) % capacity;
          d := d + 1;
        } else {
          return NoKey;
        }
      }
    }

    /**
     * `vmap_<name>_free`: with both destructors, one loop calls both on
     * every ENTRY; with one, a loop calls that one; with none, no loop.
     * The entries themselves are left alone (the memory is released).
     */
    method Free(hasFreeKey: bool, hasFreeValue: bool)
      requires capacity == entries.Length
      modifies this
      ensures freed == old(freed) + FreeLog(entries[..], hasFreeKey, hasFreeValue)
      ensures numel == old(numel)
    {
      if hasFreeKey && hasFreeValue {
        for i := 0 to capacity
          invariant freed == old(freed) + FreeLog(entries[..i], true, true) && numel == old(numel)
        {
          FreeLogStep(entries[..], i, true, true);
          if IsEntry(entries[i]) {
            freed := freed + [KeyFreed(i, entries[i].key)];
            freed := freed + [ValueFreed(i, entries[i].value)];
          }
        }
      } else if hasFreeKey {
        for i := 0 to capacity
          invariant freed == old(freed) + FreeLog(entries[..i], true, false) && numel == old(numel)
        {
          FreeLogStep(entries[..], i, true, false);
          if IsEntry(entries[i]) {
            freed := freed + [KeyFreed(i, entries[i].key)];
          }
        }
      } else if hasFreeValue {
        for i := 0 to capacity
          invariant freed == old(freed) + FreeLog(entries[..i], false, true) && numel == old(numel)
        {
          FreeLogStep(entries[..], i, false, true);
          if IsEntry(entries[i]) {
            freed := freed + [ValueFreed(i, entries[i].value)];
          }
        }
      } else {
        FreeLogNone(entries[..]);
      }
      assert entries[..capacity] == entries[..];
    }
  }

  /** One more slot of the free loop appends that slot's destructor calls. */
  lemma FreeLogStep<V>(s: seq<Entry<V>>, i: nat, hasFreeKey: bool, hasFreeValue: bool)
    requires i < |s|
    ensures FreeLog(s[..i + 1], hasFreeKey, hasFreeValue)
            == FreeLog(s[..i], hasFreeKey, hasFreeValue)
               + (if IsEntry(s[i]) then EntryFrees(s, i, hasFreeKey, hasFreeValue) else [])
  {
    assert s[..i + 1][..i] == s[..i];
  }

  /** Without destructors, free calls nothing. */
  lemma {:induction false} FreeLogNone<V>(s: seq<Entry<V>>)
    ensures FreeLog(s, false, false) == []
    decreases |s|
  {
    if s != [] {
      FreeLogNone(s[..|s| - 1]);
    }
  }
}
