/**
 * What the src/vmap.h table means: the key-to-value lookup its ENTRY
 * slots describe, and which operations keep that meaning.
 *
 * A table is sound when its flags are the three values, no key is held by
 * two ENTRY slots, and every ENTRY is reached from its key's home slot
 * without crossing a zeroed entry.  On a sound table find is the lookup,
 * delete removes the key, and insert of a new key adds it.  Insert of a
 * key already present updates it only when no tombstone lies on the probe
 * path before the key's slot; with one there, insert writes a second
 * ENTRY for the key (InsertDuplicates).
 */
module MonoModel {

  import opened Wrappers
  import opened Probe
  import opened MonoSpec

  /** Slot `i` is reached from its key's home slot without meeting a zeroed entry. */
  ghost predicate Reachable<V>(s: seq<Entry<V>>, i: nat)
    requires i < |s|
  {
    forall d :: 0 <= d < Dist(Home(s[i].key, |s|), i, |s|) ==> !IsCleared(s[Off(Home(s[i].key, |s|), d, |s|)])
  }

  /** No key is held by two ENTRY slots. */
  ghost predicate Distinct<V>(s: seq<Entry<V>>)
  {
    forall i, j :: 0 <= i < |s| && 0 <= j < |s| && IsEntry(s[i]) && IsEntry(s[j]) && s[i].key == s[j].key ==> i == j
  }

  /** The entries describe a lookup that probing finds. */
  ghost predicate Sound<V>(s: seq<Entry<V>>)
  {
    |s| > 0 && WellFlagged(s) && Distinct(s) && forall i :: 0 <= i < |s| && IsEntry(s[i]) ==> Reachable(s, i)
  }

  /** The value an ENTRY slot holds for `key`, if any. */
  ghost function Get<V>(s: seq<Entry<V>>, key: Key): Option<V>
  {
    if exists i :: 0 <= i < |s| && IsEntry(s[i]) && s[i].key == key
    then var i :| 0 <= i < |s| && IsEntry(s[i]) && s[i].key == key; Some(s[i].value)
    else None
  }

  /** `t` is `s` with `key` mapped to `value`. */
  ghost predicate IsPut<V>(s: seq<Entry<V>>, t: seq<Entry<V>>, key: Key, value: V)
  {
    forall k :: Get(t, k) == if k == key then Some(value) else Get(s, k)
  }

  /** `t` is `s` with `key` removed. */
  ghost predicate IsRemoval<V>(s: seq<Entry<V>>, t: seq<Entry<V>>, key: Key)
  {
    forall k :: Get(t, k) == if k == key then None else Get(s, k)
  }

  /** A tombstone lies on the probe path from the home slot of slot `j`'s key to `j`. */
  ghost predicate TombstoneBefore<V>(s: seq<Entry<V>>, j: nat)
    requires j < |s|
  {
    exists d :: 0 <= d < Dist(Home(s[j].key, |s|), j, |s|) && IsDeleted(s[Off(Home(s[j].key, |s|), d, |s|)])
  }

  // ---------------------------------------------------------------------
  // The lookup
  // ---------------------------------------------------------------------

  lemma GetAt<V>(s: seq<Entry<V>>, key: Key, i: nat)
    requires Distinct(s) && i < |s| && IsEntry(s[i]) && s[i].key == key
    ensures Get(s, key) == Some(s[i].value)
  {
  }

  lemma GetNone<V>(s: seq<Entry<V>>, key: Key)
    requires forall i :: 0 <= i < |s| && IsEntry(s[i]) ==> s[i].key != key
    ensures Get(s, key) == None
  {
  }

  /** Replacing one entry changes the lookup of its old and its new key only. */
  lemma GetUpdate<V>(s: seq<Entry<V>>, i: nat, e: Entry<V>, k: Key)
    requires i < |s| && Distinct(s) && Distinct(s[i := e])
    ensures Get(s[i := e], k) == if IsEntry(e) && e.key == k then Some(e.value)
                                 else if IsEntry(s[i]) && s[i].key == k then None
                                 else Get(s, k)
  {
    var t := s[i := e];
    if IsEntry(e) && e.key == k {
      GetAt(t, k, i);
    } else if IsEntry(s[i]) && s[i].key == k {
      GetNone(t, k);
    } else if j :| 0 <= j < |s| && IsEntry(s[j]) && s[j].key == k {
      GetAt(s, k, j);
      GetAt(t, k, j);
    } else {
      GetNone(s, k);
      GetNone(t, k);
    }
  }

  /** A present key is held by an ENTRY slot. */
  lemma GetSome<V>(s: seq<Entry<V>>, key: Key) returns (j: nat)
    requires Get(s, key).Some?
    ensures j < |s| && IsEntry(s[j]) && s[j].key == key && Get(s, key) == Some(s[j].value)
  {
    j :| 0 <= j < |s| && IsEntry(s[j]) && s[j].key == key && Get(s, key) == Some(s[j].value);
  }

  /** A table just allocated holds no key and is sound. */
  lemma FreshIsEmpty<V>(cap: nat, blank: Entry<V>)
    requires cap > 0 && IsCleared(blank)
    ensures Inv(Fresh(cap, blank)) && Sound(Fresh(cap, blank).entries)
    ensures forall k :: Get(Fresh(cap, blank).entries, k) == None
  {
    var s := Fresh(cap, blank).entries;
    CountConst(cap, blank, ENTRY);
    CountConst(cap, blank, KEY_DELETED);
    forall k {
      GetNone(s, k);
    }
  }

  // ---------------------------------------------------------------------
  // Find
  // ---------------------------------------------------------------------

  /** From any offset up to that of the key's slot, the probe ends at that slot. */
  lemma {:induction false} FindReaches<V>(s: seq<Entry<V>>, key: Key, j: nat, d: nat)
    requires Sound(s) && j < |s| && IsEntry(s[j]) && s[j].key == key
    requires d <= Dist(Home(key, |s|), j, |s|)
    ensures FindFrom(s, key, Home(key, |s|), d) == Found(j)
    decreases |s| - d
  {
    var home := Home(key, |s|);
    var dj := Dist(home, j, |s|);
    if d < dj {
      var i := Off(home, d, |s|);
      assert Reachable(s, j);
      if i == j {
        OffInjective(home, d, dj, |s|);
      }
      FindReaches(s, key, j, d + 1);
    }
  }

  /** With an ENTRY for `key`, the probe ends at it. */
  lemma FindHit<V>(st: MonoState<V>, key: Key)
    requires Inv(st) && Sound(st.entries) && Get(st.entries, key).Some?
    ensures FindProbe(st, key).Found? && Find(st, key) == Get(st.entries, key)
  {
    var j := GetSome(st.entries, key);
    CountHas(st.entries, j);
    FindReaches(st.entries, key, j, 0);
  }

  /** From an offset no later than that of a zeroed slot, the probe ends. */
  lemma {:induction false} FindEnds<V>(s: seq<Entry<V>>, key: Key, home: nat, c: nat, d: nat)
    requires home < |s| && c < |s| && IsCleared(s[c]) && d <= Dist(home, c, |s|)
    ensures FindFrom(s, key, home, d) != Endless
    decreases |s| - d
  {
    if d < Dist(home, c, |s|) {
      FindEnds(s, key, home, c, d + 1);
    }
  }

  /**
   * On a sound table below capacity, `vmap_<name>_find` returns the
   * lookup: the value of the key's ENTRY, or NULL when there is none; its
   * loop always ends.
   */
  lemma FindIsGet<V>(st: MonoState<V>, key: Key)
    requires Inv(st) && Sound(st.entries) && st.numel < |st.entries|
    ensures FindProbe(st, key) != Endless
    ensures Find(st, key) == Get(st.entries, key)
  {
    if Get(st.entries, key).Some? {
      FindHit(st, key);
    } else if st.numel != 0 {
      var c := HasCleared(st);
      FindEnds(st.entries, key, Home(key, |st.entries|), c, 0);
    }
  }

  /**
   * Whether or not the probe ends, it never answers with a slot whose key
   * is absent, and it finds every key that is present.
   */
  lemma FindAgreesWithGet<V>(st: MonoState<V>, key: Key)
    requires Inv(st) && Sound(st.entries)
    ensures FindProbe(st, key).Found? <==> Get(st.entries, key).Some?
    ensures FindProbe(st, key).Found? ==> Find(st, key) == Get(st.entries, key)
  {
    if Get(st.entries, key).Some? {
      FindHit(st, key);
    } else if FindProbe(st, key).Found? {
      GetAt(st.entries, key, FindProbe(st, key).index);
    }
  }

  // ---------------------------------------------------------------------
  // Insert
  // ---------------------------------------------------------------------

  /** Where the insert probe places, every earlier slot of the path holds another key. */
  lemma {:induction false} InsertProbePlace<V>(s: seq<Entry<V>>, key: Key, home: nat, d: nat) returns (pd: nat)
    requires home < |s| && d <= |s| && InsertProbe(s, key, home, d).Place?
    ensures d <= pd < |s| && Off(home, pd, |s|) == InsertProbe(s, key, home, d).index
    ensures forall e :: d <= e < pd ==> IsEntry(s[Off(home, e, |s|)])
    decreases |s| - d
  {
    var i := Off(home, d, |s|);
    if IsEntry(s[i]) {
      pd := InsertProbePlace(s, key, home, d + 1);
    } else {
      pd := d;
    }
  }

  /** From an offset no later than that of a slot without an ENTRY, the insert probe ends. */
  lemma {:induction false} InsertEnds<V>(s: seq<Entry<V>>, key: Key, home: nat, c: nat, d: nat)
    requires home < |s| && c < |s| && !IsEntry(s[c]) && d <= Dist(home, c, |s|)
    ensures InsertProbe(s, key, home, d) != Exhausted
    decreases |s| - d
  {
    if d < Dist(home, c, |s|) {
      InsertEnds(s, key, home, c, d + 1);
    }
  }

  /** Below capacity some slot holds no ENTRY, so the probe loop of insert ends. */
  lemma InsertTerminates<V>(st: MonoState<V>, key: Key)
    requires Inv(st) && st.numel < |st.entries|
    ensures InsertProbe(st.entries, key, Home(key, |st.entries|), 0) != Exhausted
  {
    var c := CountBelow(st.entries, ENTRY);
    InsertEnds(st.entries, key, Home(key, |st.entries|), c, 0);
  }

  /**
   * Insert keeps the invariant: VMAP_OOM exactly at capacity, with
   * nothing changed; otherwise VMAP_OK with `numel` grown by at most one.
   */
  lemma InsertKeepsInv<V>(st: MonoState<V>, key: Key, value: V)
    requires Inv(st)
    ensures var r := Insert(st, key, value);
            Inv(r.0) && |r.0.entries| == |st.entries|
            && (r.1 == Oom <==> st.numel == |st.entries|) && (r.1 == Oom ==> r.0 == st)
            && (r.1 == Ok ==> st.numel <= r.0.numel <= st.numel + 1)
  {
    var s := st.entries;
    if st.numel < |s| {
      InsertTerminates(st, key);
      match InsertProbe(s, key, Home(key, |s|), 0)
      case Update(i) =>
        CountUpdate(s, i, s[i].(value := value), ENTRY);
        CountUpdate(s, i, s[i].(value := value), KEY_DELETED);
      case Place(i) =>
        CountUpdate(s, i, EntryNew(key, value), ENTRY);
        CountUpdate(s, i, EntryNew(key, value), KEY_DELETED);
    }
  }

  /** Writing a new key into a slot without an ENTRY that its probe reaches keeps the table sound. */
  lemma PlaceKeepsSound<V>(s: seq<Entry<V>>, key: Key, value: V, pd: nat)
    requires Sound(s) && Get(s, key).None? && pd < |s|
    requires !IsEntry(s[Off(Home(key, |s|), pd, |s|)])
    requires forall e :: 0 <= e < pd ==> !IsCleared(s[Off(Home(key, |s|), e, |s|)])
    ensures var t := s[Off(Home(key, |s|), pd, |s|) := EntryNew(key, value)];
            Sound(t) && IsPut(s, t, key, value)
  {
    var home := Home(key, |s|);
    var p := Off(home, pd, |s|);
    var t := s[p := EntryNew(key, value)];
    forall i | 0 <= i < |s| && IsEntry(s[i])
      ensures s[i].key != key
    {
      GetAt(s, s[i].key, i);
    }
    assert Distinct(t);
    forall i | 0 <= i < |t| && IsEntry(t[i])
      ensures Reachable(t, i)
    {
      if i == p {
        DistOff(home, pd, |s|);
        forall e | 0 <= e < pd
          ensures Off(home, e, |s|) != p
        {
          if Off(home, e, |s|) == p {
            OffInjective(home, e, pd, |s|);
          }
        }
      } else {
        assert Reachable(s, i);
      }
    }
    forall k
      ensures Get(t, k) == if k == key then Some(value) else Get(s, k)
    {
      GetUpdate(s, p, EntryNew(key, value), k);
    }
  }

  /**
   * Insert of a key the table does not hold: VMAP_OK, the key is added
   * with its value, `numel` and the number of ENTRY slots grow by one, and
   * the table stays sound.
   */
  lemma InsertAbsentIsPut<V>(st: MonoState<V>, key: Key, value: V)
    requires Inv(st) && Sound(st.entries) && st.numel < |st.entries| && Get(st.entries, key).None?
    ensures var r := Insert(st, key, value);
            r.1 == Ok && r.0.numel == st.numel + 1
            && Count(r.0.entries, ENTRY) == Count(st.entries, ENTRY) + 1
            && Sound(r.0.entries) && IsPut(st.entries, r.0.entries, key, value)
  {
    var s := st.entries;
    var home := Home(key, |s|);
    InsertTerminates(st, key);
    var target := InsertProbe(s, key, home, 0);
    if target.Update? {
      GetAt(s, key, target.index);
    }
    var pd := InsertProbePlace(s, key, home, 0);
    PlaceKeepsSound(s, key, value, pd);
    CountUpdate(s, target.index, EntryNew(key, value), ENTRY);
  }

  /** From any offset up to that of the key's slot, with no tombstone between, the insert probe updates it. */
  lemma {:induction false} InsertReaches<V>(s: seq<Entry<V>>, key: Key, j: nat, d: nat)
    requires Sound(s) && j < |s| && IsEntry(s[j]) && s[j].key == key && !TombstoneBefore(s, j)
    requires d <= Dist(Home(key, |s|), j, |s|)
    ensures InsertProbe(s, key, Home(key, |s|), d) == Update(j)
    decreases |s| - d
  {
    var home := Home(key, |s|);
    var dj := Dist(home, j, |s|);
    if d < dj {
      var i := Off(home, d, |s|);
      assert Reachable(s, j);
      assert !IsDeleted(s[i]);
      if i == j {
        OffInjective(home, d, dj, |s|);
      }
      InsertReaches(s, key, j, d + 1);
    }
  }

  /**
   * Insert of a key the table holds, with no tombstone on its probe path:
   * VMAP_OK, only that slot's value changes, `numel` is unchanged and the
   * table stays sound.
   */
  lemma InsertPresentIsPut<V>(st: MonoState<V>, key: Key, value: V, j: nat)
    requires Inv(st) && Sound(st.entries) && st.numel < |st.entries|
    requires j < |st.entries| && IsEntry(st.entries[j]) && st.entries[j].key == key
    requires !TombstoneBefore(st.entries, j)
    ensures var r := Insert(st, key, value);
            r.1 == Ok && r.0.numel == st.numel && r.0.entries == st.entries[j := st.entries[j].(value := value)]
            && Sound(r.0.entries) && IsPut(st.entries, r.0.entries, key, value)
  {
    InsertReaches(st.entries, key, j, 0);
    UpdateKeepsSound(st.entries, j, value);
  }

  /** Overwriting the value of an ENTRY keeps the table sound and maps its key to the new value. */
  lemma UpdateKeepsSound<V>(s: seq<Entry<V>>, j: nat, value: V)
    requires Sound(s) && j < |s| && IsEntry(s[j])
    ensures var t := s[j := s[j].(value := value)];
            Sound(t) && IsPut(s, t, s[j].key, value)
  {
    var t := s[j := s[j].(value := value)];
    assert Distinct(t);
    forall i | 0 <= i < |t| && IsEntry(t[i])
      ensures Reachable(t, i)
    {
      assert Reachable(s, i);
    }
    forall k
      ensures Get(t, k) == if k == s[j].key then Some(value) else Get(s, k)
    {
      GetUpdate(s, j, s[j].(value := value), k);
    }
  }

  /** With a tombstone on the path before the key's slot, the insert probe stops at a tombstone. */
  lemma {:induction false} InsertStopsAtTombstone<V>(s: seq<Entry<V>>, key: Key, j: nat, d: nat, td: nat)
    requires Sound(s) && j < |s| && IsEntry(s[j]) && s[j].key == key
    requires d <= td < Dist(Home(key, |s|), j, |s|) && IsDeleted(s[Off(Home(key, |s|), td, |s|)])
    ensures var r := InsertProbe(s, key, Home(key, |s|), d);
            r.Place? && r.index != j && IsDeleted(s[r.index])
    decreases |s| - d
  {
    var home := Home(key, |s|);
    var dj := Dist(home, j, |s|);
    var i := Off(home, d, |s|);
    assert Reachable(s, j);
    if i == j {
      OffInjective(home, d, dj, |s|);
    }
    if !IsDeleted(s[i]) {
      InsertStopsAtTombstone(s, key, j, d + 1, td);
    }
  }

  /**
   * Insert of a key the table holds, with a tombstone on its probe path
   * before the key's slot: the new entry goes into the first such
   * tombstone, VMAP_OK is returned and `numel` grows, and the key is now
   * held by two ENTRY slots, the new one and the old one at `j`.
   */
  lemma InsertDuplicates<V>(st: MonoState<V>, key: Key, value: V, j: nat)
    requires Inv(st) && Sound(st.entries) && st.numel < |st.entries|
    requires j < |st.entries| && IsEntry(st.entries[j]) && st.entries[j].key == key
    requires TombstoneBefore(st.entries, j)
    ensures var r := Insert(st, key, value);
            r.1 == Ok && r.0.numel == st.numel + 1 && !Distinct(r.0.entries)
            && exists p :: 0 <= p < |r.0.entries| && p != j && IsEntry(r.0.entries[p]) && r.0.entries[p].key == key
                           && IsEntry(r.0.entries[j]) && r.0.entries[j] == st.entries[j]
  {
    var s := st.entries;
    var home := Home(key, |s|);
    var td :| 0 <= td < Dist(home, j, |s|) && IsDeleted(s[Off(home, td, |s|)]);
    InsertStopsAtTombstone(s, key, j, 0, td);
    var p := InsertProbe(s, key, home, 0).index;
    var t := s[p := EntryNew(key, value)];
    assert IsEntry(t[p]) && t[p].key == key && t[j] == s[j];
  }

  // ---------------------------------------------------------------------
  // Delete
  // ---------------------------------------------------------------------

  /** Delete keeps the invariant and never changes `numel` or the capacity. */
  lemma DeleteKeepsInv<V>(st: MonoState<V>, key: Key, blank: Entry<V>)
    requires Inv(st)
    ensures var r := Delete(st, key, blank);
            Inv(r.0) && r.0.numel == st.numel && |r.0.entries| == |st.entries|
            && (r.1 == Ok) == FindProbe(st, key).Found? && (r.1 == Ok || r.1 == NoKey)
  {
    match FindProbe(st, key)
    case Found(j) =>
      CountUpdate(st.entries, j, blank.(flags := KEY_DELETED), ENTRY);
      CountUpdate(st.entries, j, blank.(flags := KEY_DELETED), KEY_DELETED);
    case _ =>
  }

  /**
   * On a sound table whose probe for `key` ends, delete removes the key:
   * VMAP_OK exactly when it was present, `numel` unchanged, and the table
   * stays sound and within the invariant.
   */
  lemma DeleteIsRemoval<V>(st: MonoState<V>, key: Key, blank: Entry<V>)
    requires Inv(st) && Sound(st.entries) && FindProbe(st, key) != Endless
    ensures var r := Delete(st, key, blank);
            Inv(r.0) && Sound(r.0.entries) && r.0.numel == st.numel && |r.0.entries| == |st.entries|
            && (r.1 == Ok <==> Get(st.entries, key).Some?) && (r.1 == Ok || r.1 == NoKey)
            && IsRemoval(st.entries, r.0.entries, key)
  {
    var s := st.entries;
    FindAgreesWithGet(st, key);
    match FindProbe(st, key)
    case Found(j) =>
      var tomb := blank.(flags := KEY_DELETED);
      var t := s[j := tomb];
      CountUpdate(s, j, tomb, ENTRY);
      CountUpdate(s, j, tomb, KEY_DELETED);
      assert Distinct(t);
      forall i | 0 <= i < |t| && IsEntry(t[i])
        ensures Reachable(t, i)
      {
        assert Reachable(s, i);
      }
      forall k
        ensures Get(t, k) == if k == key then None else Get(s, k)
      {
        GetUpdate(s, j, tomb, k);
      }
    case Absent =>
      forall k
        ensures Get(s, k) == if k == key then None else Get(s, k)
      {
      }
  }

  // ---------------------------------------------------------------------
  // Free
  // ---------------------------------------------------------------------

  /** Every destructor call of `vmap_<name>_free` is on an ENTRY slot, with that slot's key or value. */
  lemma {:induction false} FreeLogSlots<V>(s: seq<Entry<V>>, hasFreeKey: bool, hasFreeValue: bool)
    ensures forall x :: x in FreeLog(s, hasFreeKey, hasFreeValue) ==>
              x.slot < |s| && IsEntry(s[x.slot])
              && (x.KeyFreed? ==> hasFreeKey && x.key == s[x.slot].key)
              && (x.ValueFreed? ==> hasFreeValue && x.value == s[x.slot].value)
    decreases |s|
  {
    if s != [] {
      var pre := s[..|s| - 1];
      FreeLogSlots(pre, hasFreeKey, hasFreeValue);
      forall i | 0 <= i < |pre|
        ensures pre[i] == s[i]
      {
      }
    }
  }

  /** Slot `i` gets one `free_key` call and one `free_value` call when it is an ENTRY and they are supplied. */
  lemma {:induction false} FreeLogOnce<V>(s: seq<Entry<V>>, hasFreeKey: bool, hasFreeValue: bool, i: nat)
    requires i < |s|
    ensures multiset(FreeLog(s, hasFreeKey, hasFreeValue))[KeyFreed(i, s[i].key)]
            == if hasFreeKey && IsEntry(s[i]) then 1 else 0
    ensures multiset(FreeLog(s, hasFreeKey, hasFreeValue))[ValueFreed(i, s[i].value)]
            == if hasFreeValue && IsEntry(s[i]) then 1 else 0
    decreases |s|
  {
    var pre := s[..|s| - 1];
    var n := |s| - 1;
    var log := FreeLog(pre, hasFreeKey, hasFreeValue);
    var last := if IsEntry(s[n]) then EntryFrees(s, n, hasFreeKey, hasFreeValue) else [];
    assert FreeLog(s, hasFreeKey, hasFreeValue) == log + last;
    assert multiset(log + last) == multiset(log) + multiset(last);
    if i < n {
      FreeLogOnce(pre, hasFreeKey, hasFreeValue, i);
      assert pre[i] == s[i];
      assert KeyFreed(i, s[i].key) !in last && ValueFreed(i, s[i].value) !in last;
    } else {
      FreeLogSlots(pre, hasFreeKey, hasFreeValue);
      assert KeyFreed(i, s[i].key) !in log;
      assert ValueFreed(i, s[i].value) !in log;
    }
  }

  /**
   * `vmap_<name>_free` calls each supplied destructor exactly once on
   * every ENTRY slot and on nothing else.
   */
  lemma FreeLogExact<V>(s: seq<Entry<V>>, hasFreeKey: bool, hasFreeValue: bool)
    ensures forall x :: x in FreeLog(s, hasFreeKey, hasFreeValue) ==>
              x.slot < |s| && IsEntry(s[x.slot])
              && (x.KeyFreed? ==> hasFreeKey && x.key == s[x.slot].key)
              && (x.ValueFreed? ==> hasFreeValue && x.value == s[x.slot].value)
    ensures forall i :: 0 <= i < |s| ==>
              multiset(FreeLog(s, hasFreeKey, hasFreeValue))[KeyFreed(i, s[i].key)]
              == if hasFreeKey && IsEntry(s[i]) then 1 else 0
    ensures forall i :: 0 <= i < |s| ==>
              multiset(FreeLog(s, hasFreeKey, hasFreeValue))[ValueFreed(i, s[i].value)]
              == if hasFreeValue && IsEntry(s[i]) then 1 else 0
  {
    FreeLogSlots(s, hasFreeKey, hasFreeValue);
    forall i | 0 <= i < |s|
      ensures multiset(FreeLog(s, hasFreeKey, hasFreeValue))[KeyFreed(i, s[i].key)]
              == if hasFreeKey && IsEntry(s[i]) then 1 else 0
      ensures multiset(FreeLog(s, hasFreeKey, hasFreeValue))[ValueFreed(i, s[i].value)]
              == if hasFreeValue && IsEntry(s[i]) then 1 else 0
    {
      FreeLogOnce(s, hasFreeKey, hasFreeValue, i);
    }
  }
}
