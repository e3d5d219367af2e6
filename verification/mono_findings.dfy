/**
 * Two defects of src/vmap.h, each shown on the code as written and
 * corrected.
 *
 * Insert writes a new entry into the first tombstone its probe meets,
 * without looking further along the chain for the key.  When the key is
 * already held past that tombstone it ends up held twice, and deleting it
 * afterwards removes only the first copy: find still answers the stale
 * value.  The corrected insert looks for the key up to the first zeroed
 * entry and reuses the first tombstone only for a key it did not find.
 *
 * Find and delete stop only at a zeroed entry or at the key.  Insert lets
 * `numel` reach the capacity, so a table holding as many distinct keys as
 * it has slots has no zeroed entry left, and find or delete of any other
 * key probes round the table forever.  The corrected find gives up after
 * one lap.
 */
module MonoFindings {

  import opened Wrappers
  import opened Bits
  import opened Probe
  import opened MonoSpec
  import opened MonoModel
  import opened MonoScenarios

  // ---------------------------------------------------------------------
  // A key held twice
  // ---------------------------------------------------------------------

  /** One-byte keys 0 and 32 share home slot 5 of the 32-slot table. */
  lemma HomeOfZeroAndThirtyTwo()
    ensures Home([0], INITIAL_CAPACITY) == 5 && Home([32], INITIAL_CAPACITY) == 5
  {
    assert [0][..0] == [] && [32][..0] == [];
    assert Djb2([0]) == (5381 * 33 + 0) % TWO64;
    assert Djb2([32]) == (5381 * 33 + 32) % TWO64;
    DivModUnique(177573, TWO64, 0, 177573);
    DivModUnique(177605, TWO64, 0, 177605);
    DivModUnique(177573, 32, 5549, 5);
    DivModUnique(177605, 32, 5550, 5);
  }

  /** The zeroed entry of a table with one-byte keys and natural values. */
  function Zeroed(): Entry<nat> { Blank(1, 0) }

  /** A deleted entry: key and value zeroed, flags VMAP_KEY_DELETED. */
  function Tomb(): Entry<nat> { Zeroed().(flags := KEY_DELETED) }

  /** The 32 entries of a fresh table. */
  function Zeros32(): seq<Entry<nat>> { Fresh(INITIAL_CAPACITY, Zeroed()).entries }

  /** After inserting 0 -> 1: slot 5. */
  function S1(): MonoState<nat> { MonoState(1, Zeros32()[5 := EntryNew([0], 1)]) }
  /** After inserting 32 -> 2: past key 0, slot 6. */
  function S2(): MonoState<nat> { MonoState(2, Zeros32()[5 := EntryNew([0], 1)][6 := EntryNew([32], 2)]) }
  /** After deleting 0: a tombstone in slot 5. */
  function S3(): MonoState<nat> { MonoState(2, Zeros32()[5 := Tomb()][6 := EntryNew([32], 2)]) }
  /** After inserting 32 -> 3 as written: a second entry for 32 in slot 5. */
  function S4(): MonoState<nat> { MonoState(3, Zeros32()[5 := EntryNew([32], 3)][6 := EntryNew([32], 2)]) }
  /** After deleting 32: slot 5 a tombstone again, 32 -> 2 still in slot 6. */
  function S5(): MonoState<nat> { MonoState(3, Zeros32()[5 := Tomb()][6 := EntryNew([32], 2)]) }

  lemma StepInsertZero()
    ensures Insert(Fresh(INITIAL_CAPACITY, Zeroed()), [0], 1) == (S1(), Ok)
  {
    HomeOfZeroAndThirtyTwo();
    assert InsertProbe(Zeros32(), [0], 5, 0) == Place(5);
  }

  lemma StepInsertThirtyTwo()
    ensures Insert(S1(), [32], 2) == (S2(), Ok)
  {
    HomeOfZeroAndThirtyTwo();
    var s := S1().entries;
    assert IsEntry(s[5]) && s[5].key == [0] && IsCleared(s[6]);
    assert InsertProbe(s, [32], 5, 1) == Place(6);
    assert InsertProbe(s, [32], 5, 0) == Place(6);
  }

  lemma StepDeleteZero()
    ensures Delete(S2(), [0], Zeroed()) == (S3(), Ok)
  {
    HomeOfZeroAndThirtyTwo();
    var s := S2().entries;
    assert IsEntry(s[5]) && s[5].key == [0];
    assert FindFrom(s, [0], 5, 0) == Found(5);
    assert s[5 := Tomb()] == S3().entries;
  }

  lemma StepReinsertThirtyTwo()
    ensures Insert(S3(), [32], 3) == (S4(), Ok)
  {
    HomeOfZeroAndThirtyTwo();
    var s := S3().entries;
    assert IsDeleted(s[5]);
    assert InsertProbe(s, [32], 5, 0) == Place(5);
    assert s[5 := EntryNew([32], 3)] == S4().entries;
  }

  lemma StepDeleteThirtyTwo()
    ensures Delete(S4(), [32], Zeroed()) == (S5(), Ok)
  {
    HomeOfZeroAndThirtyTwo();
    var s := S4().entries;
    assert IsEntry(s[5]) && s[5].key == [32];
    assert FindFrom(s, [32], 5, 0) == Found(5);
    assert s[5 := Tomb()] == S5().entries;
  }

  lemma StaleFind()
    ensures Find(S5(), [32]) == Some(2)
  {
    HomeOfZeroAndThirtyTwo();
    var s := S5().entries;
    assert IsDeleted(s[5]) && IsEntry(s[6]) && s[6].key == [32];
    assert FindFrom(s, [32], 5, 1) == Found(6);
    assert FindFrom(s, [32], 5, 0) == Found(6);
  }

  /**
   * As written: insert 0 -> 1 and 32 -> 2 (both home slot 5), delete 0,
   * insert 32 -> 3, delete 32.  Every call returns VMAP_OK, yet find of
   * 32 then answers 2: the second insert wrote a new entry into the
   * tombstone instead of updating slot 6, and the delete removed only it.
   */
  lemma StaleAfterDelete()
    ensures Insert(Fresh(INITIAL_CAPACITY, Zeroed()), [0], 1) == (S1(), Ok)
    ensures Insert(S1(), [32], 2) == (S2(), Ok)
    ensures Delete(S2(), [0], Zeroed()) == (S3(), Ok)
    ensures Insert(S3(), [32], 3) == (S4(), Ok)
    ensures Delete(S4(), [32], Zeroed()) == (S5(), Ok)
    ensures Find(S5(), [32]) == Some(2)
  {
    StepInsertZero();
    StepInsertThirtyTwo();
    StepDeleteZero();
    StepReinsertThirtyTwo();
    StepDeleteThirtyTwo();
    StaleFind();
  }

  /**
   * The corrected probe of insert from offset `d`: an equal key is
   * updated wherever it lies before the first zeroed entry; otherwise the
   * new entry goes into the first tombstone passed (`tomb`), or into the
   * zeroed entry that ends the chain.
   */
  function InsertProbeReuseTomb<V>(s: seq<Entry<V>>, key: Key, home: nat, d: nat, tomb: Option<nat>): (r: Target)
    requires home < |s| && d <= |s|
    requires tomb.Some? ==> tomb.value < |s| && IsDeleted(s[tomb.value])
    ensures r.Update? ==> r.index < |s| && IsEntry(s[r.index]) && s[r.index].key == key
    ensures r.Place? ==> r.index < |s| && !IsEntry(s[r.index])
    decreases |s| - d
  {
    if d == |s| then (if tomb.Some? then Place(tomb.value) else Exhausted)
    else
      var i := Off(home, d, |s|);
      if IsEntry(s[i]) then
        if s[i].key == key then Update(i) else InsertProbeReuseTomb(s, key, home, d + 1, tomb)
      else if IsDeleted(s[i]) then InsertProbeReuseTomb(s, key, home, d + 1, if tomb.None? then Some(i) else tomb)
      else Place(if tomb.Some? then tomb.value else i)
  }

  /** Insert with the corrected probe; otherwise as written. */
  function InsertFixed<V>(st: MonoState<V>, key: Key, value: V): (MonoState<V>, Status)
    requires |st.entries| > 0
  {
    if st.numel == |st.entries| then (st, Oom)
    else
      match InsertProbeReuseTomb(st.entries, key, Home(key, |st.entries|), 0, None)
      case Update(i) => (st.(entries := st.entries[i := st.entries[i].(value := value)]), Ok)
      case Place(i) => (MonoState(st.numel + 1, st.entries[i := EntryNew(key, value)]), Ok)
      case Exhausted => (st, Ok)
  }

  /** Up to the key's slot, the corrected probe passes everything and updates the key. */
  lemma {:induction false} FixedReaches<V>(s: seq<Entry<V>>, key: Key, j: nat, d: nat, tomb: Option<nat>)
    requires Sound(s) && j < |s| && IsEntry(s[j]) && s[j].key == key
    requires d <= Dist(Home(key, |s|), j, |s|)
    requires tomb.Some? ==> tomb.value < |s| && IsDeleted(s[tomb.value])
    ensures InsertProbeReuseTomb(s, key, Home(key, |s|), d, tomb) == Update(j)
    decreases |s| - d
  {
    var home := Home(key, |s|);
    var dj := Dist(home, j, |s|);
    if d < dj {
      var i := Off(home, d, |s|);
      assert Reachable(s, j);
      if i == j {
        OffInjective(home, d, dj, |s|);
      }
      FixedReaches(s, key, j, d + 1, if IsDeleted(s[i]) && tomb.None? then Some(i) else tomb);
    }
  }

  /**
   * For a key the table does not hold, the corrected probe places the new
   * entry at an offset no later than the first zeroed entry, so every
   * earlier slot of its path is in use.
   */
  lemma {:induction false} FixedPlaces<V>(s: seq<Entry<V>>, key: Key, c: nat, d: nat, tomb: Option<nat>, td: nat)
    returns (pd: nat)
    requires Sound(s) && Get(s, key).None?
    requires c < |s| && IsCleared(s[c]) && d <= Dist(Home(key, |s|), c, |s|)
    requires forall e :: 0 <= e < d ==> !IsCleared(s[Off(Home(key, |s|), e, |s|)])
    requires tomb.Some? ==> td < d && tomb.value == Off(Home(key, |s|), td, |s|) && IsDeleted(s[tomb.value])
    ensures var r := InsertProbeReuseTomb(s, key, Home(key, |s|), d, tomb);
            r.Place? && pd < |s| && r.index == Off(Home(key, |s|), pd, |s|)
            && forall e :: 0 <= e < pd ==> !IsCleared(s[Off(Home(key, |s|), e, |s|)])
    decreases |s| - d
  {
    var home := Home(key, |s|);
    var i := Off(home, d, |s|);
    if IsEntry(s[i]) {
      if s[i].key == key {
        GetAt(s, key, i);
      }
      pd := FixedPlaces(s, key, c, d + 1, tomb, td);
    } else if IsDeleted(s[i]) {
      if tomb.None? {
        pd := FixedPlaces(s, key, c, d + 1, Some(i), d);
      } else {
        pd := FixedPlaces(s, key, c, d + 1, tomb, td);
      }
    } else {
      pd := if tomb.Some? then td else d;
    }
  }

  /**
   * Corrected: on a sound table below capacity, insert of any key, held
   * or not and whatever tombstones lie on its path, returns VMAP_OK, maps
   * the key to the value, leaves every other key alone, and keeps the
   * table sound and within the invariant.
   */
  lemma InsertFixedIsPut<V>(st: MonoState<V>, key: Key, value: V)
    requires Inv(st) && Sound(st.entries) && st.numel < |st.entries|
    ensures var r := InsertFixed(st, key, value);
            r.1 == Ok && Inv(r.0) && Sound(r.0.entries) && IsPut(st.entries, r.0.entries, key, value)
            && st.numel <= r.0.numel <= st.numel + 1
  {
    var s := st.entries;
    var home := Home(key, |s|);
    if Get(s, key).Some? {
      var j := GetSome(s, key);
      FixedReaches(s, key, j, 0, None);
      UpdateKeepsSound(s, j, value);
      CountUpdate(s, j, s[j].(value := value), ENTRY);
      CountUpdate(s, j, s[j].(value := value), KEY_DELETED);
    } else {
      var c := HasCleared(st);
      var pd := FixedPlaces(s, key, c, 0, None, 0);
      PlaceKeepsSound(s, key, value, pd);
      var p := Off(home, pd, |s|);
      CountUpdate(s, p, EntryNew(key, value), ENTRY);
      CountUpdate(s, p, EntryNew(key, value), KEY_DELETED);
    }
  }

  /**
   * Corrected: the run of StaleAfterDelete with the corrected insert, for
   * any two keys, ends with the deleted key not found.
   */
  lemma CorrectedRunForgets<V>(a: Key, b: Key, va: V, vb: V, vb2: V, keySize: nat, zero: V)
    ensures var blank := Blank(keySize, zero);
            var s1 := InsertFixed(Fresh(INITIAL_CAPACITY, blank), a, va).0;
            var s2 := InsertFixed(s1, b, vb).0;
            var s3 := Delete(s2, a, blank).0;
            var s4 := InsertFixed(s3, b, vb2).0;
            var s5 := Delete(s4, b, blank);
            s5.1 == Ok && Find(s5.0, b) == None
  {
    var blank := Blank(keySize, zero);
    var s0 := Fresh(INITIAL_CAPACITY, blank);
    FreshIsEmpty(INITIAL_CAPACITY, blank);
    InsertFixedIsPut(s0, a, va);
    var s1 := InsertFixed(s0, a, va).0;
    InsertFixedIsPut(s1, b, vb);
    var s2 := InsertFixed(s1, b, vb).0;
    FindIsGet(s2, a);
    DeleteIsRemoval(s2, a, blank);
    var s3 := Delete(s2, a, blank).0;
    InsertFixedIsPut(s3, b, vb2);
    var s4 := InsertFixed(s3, b, vb2).0;
    FindIsGet(s4, b);
    DeleteIsRemoval(s4, b, blank);
    var s5 := Delete(s4, b, blank).0;
    FindIsGet(s5, b);
  }

  // ---------------------------------------------------------------------
  // A probe that never ends
  // ---------------------------------------------------------------------

  /** When every slot holds an ENTRY of another key, the probe of find goes round forever. */
  lemma {:induction false} FindLoops<V>(s: seq<Entry<V>>, key: Key, home: nat, d: nat)
    requires home < |s| && d <= |s|
    requires forall i :: 0 <= i < |s| ==> IsEntry(s[i]) && s[i].key != key
    ensures FindFrom(s, key, home, d) == Endless
    decreases |s| - d
  {
    if d < |s| {
      FindLoops(s, key, home, d + 1);
    }
  }

  /** As many entries with flags `f` as slots: every slot has flags `f`. */
  lemma AllFlagged<V>(s: seq<Entry<V>>, f: nat)
    requires Count(s, f) == |s|
    ensures forall i :: 0 <= i < |s| ==> s[i].flags == f
  {
    forall i | 0 <= i < |s|
      ensures s[i].flags == f
    {
      if s[i].flags != f {
        CountUpdate(s, i, s[i].(flags := f), f);
      }
    }
  }

  /**
   * As written: insert as many distinct keys as the table has slots
   * into a fresh table; every insert returns VMAP_OK, and then the probe
   * of find (and of delete) for any other key never ends.
   */
  lemma FullTableFindNeverEnds<V>(keys: seq<Key>, values: seq<V>, key: Key, keySize: nat, zero: V)
    requires |keys| == |values| == INITIAL_CAPACITY && AllDistinct(keys) && key !in keys
    ensures var r := InsertAll(Fresh(INITIAL_CAPACITY, Blank(keySize, zero)), keys, values);
            r.1 && r.0.numel == INITIAL_CAPACITY && FindProbe(r.0, key) == Endless
  {
    var st0 := Fresh(INITIAL_CAPACITY, Blank(keySize, zero));
    FreshIsEmpty(INITIAL_CAPACITY, Blank(keySize, zero));
    CountConst(INITIAL_CAPACITY, Blank(keySize, zero), ENTRY);
    InsertAllDistinct(st0, keys, values);
    var st := InsertAll(st0, keys, values).0;
    AllFlagged(st.entries, ENTRY);
    forall i | 0 <= i < |st.entries|
      ensures st.entries[i].key != key
    {
      if st.entries[i].key == key {
        GetAt(st.entries, key, i);
      }
    }
    FindLoops(st.entries, key, Home(key, |st.entries|), 0);
  }

  /** The corrected find: a probe that has gone once round the table answers NULL. */
  function FindCorrected<V>(st: MonoState<V>, key: Key): Option<V>
    requires |st.entries| > 0
  {
    match FindProbe(st, key)
    case Found(i) => Some(st.entries[i].value)
    case Absent => None
    case Endless => None
  }

  /**
   * Corrected: on every sound table, full or not, the corrected find
   * ends and answers the lookup.
   */
  lemma FindCorrectedIsGet<V>(st: MonoState<V>, key: Key)
    requires Inv(st) && Sound(st.entries)
    ensures FindCorrected(st, key) == Get(st.entries, key)
  {
    FindAgreesWithGet(st, key);
  }
}
