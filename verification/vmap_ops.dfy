/**
 * What `vmap_new`, `vmap_insert` and `vmap_erase` do to a table: every
 * operation keeps the table invariant, including the as-written insert
 * with its tombstone fall-through; the corrected insert and the erase
 * change the abstract map the way a map's insert and remove do, and so
 * does the as-written insert whenever its probe meets no tombstone.
 */
module VmapOps {

  import opened Wrappers
  import opened Bits
  import opened Probe
  import opened VmapMeta
  import opened VmapSpec
  import opened VmapSlots
  import opened VmapFind
  import opened VmapRehash

  /** `vmap_new`: an empty table that satisfies every invariant and holds nothing. */
  lemma FreshIsValid<K, V>(hash: K -> Word, blank: Slot<K, V>)
    requires blank.meta == 0
    ensures Valid(hash, Fresh(blank)) && Canonical(Fresh(blank))
    ensures Model(Fresh(blank).slots) == map[]
    ensures LoadBounded(Fresh(blank)) && TombstoneFree(Fresh(blank).slots)
    ensures |Fresh(blank).slots| == 32
  {
    SpecialWords();
    var st := Fresh(blank);
    BlankCounts(|st.slots|, blank);
    assert Pow2(INITIAL_POWER) == 32;
  }

  /** Under the growth threshold some slot is unused, so every probe loop ends. */
  lemma LoadBoundedLeavesRoom<K, V>(hash: K -> Word, st: State<K, V>)
    requires Valid(hash, st) && LoadBounded(st)
    ensures st.numelPlusDeleted < |st.slots| && HasEmpty(st.slots)
  {
    EmptyExists(st.slots);
  }

  /** A new entry written where the insert probe reaches it keeps the invariant. */
  lemma PlaceKeepsValid<K, V>(hash: K -> Word, st: State<K, V>, i: nat, key: K, value: V)
    requires Valid(hash, st) && st.numelPlusDeleted < |st.slots| && i < |st.slots|
    requires Reaches(st.slots, Home(H1(hash(key)), |st.slots|), i)
    ensures Valid(hash, PlaceEntry(st, i, H1(hash(key)), key, value))
  {
    var h1 := H1(hash(key));
    var x := Slot(Pack(h1, FULL), key, value);
    ChainsAfterWrite(st.slots, i, x);
    CountsUpdate(st.slots, i, x);
  }

  /**
   * The write-and-grow step of `vmap_insert` keeps the invariant whatever
   * slot the probe chose, provided an update hits a FULL slot and a new
   * entry is reachable from its home.  A failed growth reports VMAP_OOM
   * but keeps the new entry; a successful insert under the growth
   * threshold stays under it.
   */
  lemma CommitKeepsValid<K, V>(hash: K -> Word, st: State<K, V>, target: Target, key: K, value: V,
                               growOk: bool, blank: Slot<K, V>)
    requires Valid(hash, st) && IsEmpty(blank) && st.numelPlusDeleted < |st.slots|
    requires !target.Exhausted? ==> target.index < |st.slots|
    requires target.Update? ==> IsFull(st.slots[target.index])
    requires target.Place? ==> Reaches(st.slots, Home(H1(hash(key)), |st.slots|), target.index)
    ensures var (r, status) := Commit(st, target, H1(hash(key)), key, value, growOk, blank);
            Valid(hash, r)
            && (status == Ok || (status == Oom && !growOk))
            && (LoadBounded(st) && status == Ok ==> LoadBounded(r))
  {
    var h1 := H1(hash(key));
    match target
    case Update(i) =>
      var y := st.slots[i].(value := value);
      ChainsAfterWrite(st.slots, i, y);
      CountsUpdate(st.slots, i, y);
    case Place(i) =>
      PlaceKeepsValid(hash, st, i, key, value);
      var placed := PlaceEntry(st, i, h1, key, value);
      if AboveMaxLoad(placed.numelPlusDeleted, |st.slots|) {
        Pow2Succ(st.power);
        ResizeKeepsValid(hash, placed, st.power + 1, growOk, blank);
      }
    case Exhausted =>
  }

  /** Overwriting the value of a live entry keeps the table exact and rebinds its key. */
  lemma UpdatedIsCanonical<K, V>(st: State<K, V>, i: nat, value: V)
    requires Canonical(st) && i < |st.slots| && IsFull(st.slots[i])
    ensures var r := st.(slots := st.slots[i := st.slots[i].(value := value)]);
            Canonical(r) && Model(r.slots) == Model(st.slots)[st.slots[i].key := value]
  {
    ModelUpdateValue(st.slots, i, value);
    CountsUpdate(st.slots, i, st.slots[i].(value := value));
  }

  /** The placing branch of `CommitKeepsModel`, growth included. */
  lemma CommitPlaceKeepsModel<K, V>(hash: K -> Word, st: State<K, V>, i: nat, key: K, value: V,
                                    growOk: bool, blank: Slot<K, V>)
    requires Valid(hash, st) && Canonical(st) && IsEmpty(blank) && st.numelPlusDeleted < |st.slots|
    requires i < |st.slots| && IsEmpty(st.slots[i]) && key !in Model(st.slots)
    requires Reaches(st.slots, Home(H1(hash(key)), |st.slots|), i)
    ensures var r := Commit(st, Place(i), H1(hash(key)), key, value, growOk, blank).0;
            Canonical(r) && Model(r.slots) == Model(st.slots)[key := value]
  {
    var h1 := H1(hash(key));
    var placed := PlaceEntry(st, i, h1, key, value);
    PlacedIsCanonical(hash, st, i, key, value);
    if AboveMaxLoad(placed.numelPlusDeleted, |st.slots|) {
      GrowKeepsModel(hash, placed, growOk, blank);
    }
  }

  /** Doubling a valid exact table keeps it exact and keeps its map. */
  lemma GrowKeepsModel<K, V>(hash: K -> Word, st: State<K, V>, growOk: bool, blank: Slot<K, V>)
    requires Valid(hash, st) && Canonical(st) && IsEmpty(blank)
    ensures Canonical(Resize(st, st.power + 1, growOk, blank).0)
    ensures Model(Resize(st, st.power + 1, growOk, blank).0.slots) == Model(st.slots)
  {
    Pow2Succ(st.power);
    ResizeKeepsModel(hash, st, st.power + 1, growOk, blank);
  }

  /** A new entry written where its probe reaches keeps the table valid and exact, and binds the key. */
  lemma PlacedIsCanonical<K, V>(hash: K -> Word, st: State<K, V>, i: nat, key: K, value: V)
    requires Valid(hash, st) && Canonical(st) && st.numelPlusDeleted < |st.slots| && i < |st.slots|
    requires IsEmpty(st.slots[i]) && key !in Model(st.slots)
    requires Reaches(st.slots, Home(H1(hash(key)), |st.slots|), i)
    ensures var placed := PlaceEntry(st, i, H1(hash(key)), key, value);
            Valid(hash, placed) && Canonical(placed) && Model(placed.slots) == Model(st.slots)[key := value]
  {
    var x := Slot(Pack(H1(hash(key)), FULL), key, value);
    ModelPlace(st.slots, i, x);
    CountsUpdate(st.slots, i, x);
    PlaceKeepsValid(hash, st, i, key, value);
  }

  /**
   * The same step changes the map as a map insert does when an update
   * hits the key's own slot and a new entry goes into an EMPTY slot for
   * an absent key; the counters stay exact.
   */
  lemma CommitKeepsModel<K, V>(hash: K -> Word, st: State<K, V>, target: Target, key: K, value: V,
                               growOk: bool, blank: Slot<K, V>)
    requires Valid(hash, st) && Canonical(st) && IsEmpty(blank) && st.numelPlusDeleted < |st.slots|
    requires target.Update? || target.Place?
    requires target.index < |st.slots|
    requires target.Update? ==> IsFull(st.slots[target.index]) && st.slots[target.index].key == key
    requires target.Place? ==> IsEmpty(st.slots[target.index]) && key !in Model(st.slots)
                               && Reaches(st.slots, Home(H1(hash(key)), |st.slots|), target.index)
    ensures var r := Commit(st, target, H1(hash(key)), key, value, growOk, blank).0;
            Canonical(r) && Model(r.slots) == Model(st.slots)[key := value]
  {
    if target.Update? {
      UpdatedIsCanonical(st, target.index, value);
    } else {
      CommitPlaceKeepsModel(hash, st, target.index, key, value, growOk, blank);
    }
  }


  /**
   * `vmap_insert` as written keeps the table invariant from every valid
   * table, tombstones included.  It reports VMAP_OOM, unchanged, when no
   * slot is left unused, and otherwise only when growth failed.
   */
  lemma InsertKeepsValid<K, V>(hash: K -> Word, st: State<K, V>, key: K, value: V,
                               growOk: bool, blank: Slot<K, V>)
    requires Valid(hash, st) && IsEmpty(blank)
    ensures var (r, status) := Insert(hash, st, key, value, growOk, blank);
            Valid(hash, r)
            && (st.numelPlusDeleted >= |st.slots| ==> r == st && status == Oom)
            && (st.numelPlusDeleted < |st.slots| ==> status == Ok || (status == Oom && !growOk))
            && (LoadBounded(st) && status == Ok ==> LoadBounded(r))
  {
    if st.numelPlusDeleted < |st.slots| {
      var h1 := H1(hash(key));
      var home := Home(h1, |st.slots|);
      PlaceIsReachable(st.slots, key, h1, home, 0);
      CommitKeepsValid(hash, st, InsertProbe(st.slots, key, h1, home, 0), key, value, growOk, blank);
    }
  }

  /**
   * The corrected insert keeps the invariant and, on a table that is a
   * plain map, binds `key` to `value` and changes nothing else, whether it
   * updates or adds; growth failure still keeps the new binding.
   */
  lemma InsertCorrectedIsMapInsert<K, V>(hash: K -> Word, st: State<K, V>, key: K, value: V,
                                         growOk: bool, blank: Slot<K, V>)
    requires Valid(hash, st) && IsEmpty(blank)
    ensures var (r, status) := InsertCorrected(hash, st, key, value, growOk, blank);
            Valid(hash, r)
            && (st.numelPlusDeleted >= |st.slots| ==> r == st && status == Oom)
            && (st.numelPlusDeleted < |st.slots| ==> status == Ok || (status == Oom && !growOk))
            && (LoadBounded(st) && status == Ok ==> LoadBounded(r))
    ensures Canonical(st) && st.numelPlusDeleted < |st.slots| ==>
              var r := InsertCorrected(hash, st, key, value, growOk, blank).0;
              Canonical(r) && Model(r.slots) == Model(st.slots)[key := value]
  {
    if st.numelPlusDeleted < |st.slots| {
      var s := st.slots;
      var h1 := H1(hash(key));
      var home := Home(h1, |s|);
      var target := InsertProbeFixed(s, key, h1, home, 0);
      FixedPlaceIsReachable(s, key, h1, home, 0);
      CommitKeepsValid(hash, st, target, key, value, growOk, blank);
      if Canonical(st) {
        EmptyExists(s);
        if key in Model(s) {
          var j :| 0 <= j < |s| && IsFull(s[j]) && s[j].key == key;
          FindPresent(hash, s, j);
        } else {
          FixedPlacesInFirstEmpty(s, key, h1, home, 0);
        }
        CommitKeepsModel(hash, st, target, key, value, growOk, blank);
      }
    }
  }

  /**
   * Where the as-written probe meets no tombstone before it stops, the
   * as-written insert is the corrected one, so it too is a map insert.
   */
  lemma InsertOnClearPath<K, V>(hash: K -> Word, st: State<K, V>, key: K, value: V,
                                growOk: bool, blank: Slot<K, V>)
    requires Sized(st)
    requires PathClear(st.slots, key, H1(hash(key)), Home(H1(hash(key)), |st.slots|), 0)
    ensures Insert(hash, st, key, value, growOk, blank) == InsertCorrected(hash, st, key, value, growOk, blank)
  {
    ProbesAgreeOnClearPath(st.slots, key, H1(hash(key)), Home(H1(hash(key)), |st.slots|), 0);
  }

  /** Inserting into a table without tombstones leaves none. */
  lemma InsertKeepsTombstoneFree<K, V>(hash: K -> Word, st: State<K, V>, key: K, value: V,
                                       growOk: bool, blank: Slot<K, V>)
    requires Valid(hash, st) && IsEmpty(blank) && TombstoneFree(st.slots)
    ensures TombstoneFree(Insert(hash, st, key, value, growOk, blank).0.slots)
  {
    var s := st.slots;
    if st.numelPlusDeleted < |s| {
      var h1 := H1(hash(key));
      var home := Home(h1, |s|);
      match InsertProbe(s, key, h1, home, 0)
      case Update(i) =>
        assert s[i := s[i].(value := value)][i].meta == s[i].meta;
      case Place(i) =>
        var placed := PlaceEntry(st, i, h1, key, value);
        assert placed.slots[i].meta == Pack(h1, FULL);
        if AboveMaxLoad(placed.numelPlusDeleted, |s|) {
          Pow2Succ(st.power);
          PlaceIsReachable(s, key, h1, home, 0);
          PlaceKeepsValid(hash, st, i, key, value);
          ResizeKeepsValid(hash, placed, st.power + 1, growOk, blank);
        }
      case Exhausted =>
    }
  }

  /**
   * On a table without tombstones, which is every table that has only
   * seen inserts, the as-written insert binds the key and leaves the
   * table without tombstones.
   */
  lemma InsertTombstoneFree<K, V>(hash: K -> Word, st: State<K, V>, key: K, value: V,
                                  growOk: bool, blank: Slot<K, V>)
    requires Valid(hash, st) && Canonical(st) && IsEmpty(blank) && TombstoneFree(st.slots)
    requires st.numelPlusDeleted < |st.slots|
    ensures var r := Insert(hash, st, key, value, growOk, blank).0;
            Valid(hash, r) && Canonical(r) && TombstoneFree(r.slots)
            && Model(r.slots) == Model(st.slots)[key := value]
  {
    var h1 := H1(hash(key));
    TombstoneFreeClear(st.slots, key, h1, Home(h1, |st.slots|), 0);
    InsertOnClearPath(hash, st, key, value, growOk, blank);
    InsertCorrectedIsMapInsert(hash, st, key, value, growOk, blank);
    InsertKeepsTombstoneFree(hash, st, key, value, growOk, blank);
  }

  /** Turning slot `i`, found for `key`, into a tombstone keeps the invariant and removes `key`. */
  lemma TombstoneStep<K, V>(hash: K -> Word, st: State<K, V>, key: K, i: nat)
    requires Valid(hash, st) && FindSlot(hash, st.slots, key) == Some(i)
    ensures Valid(hash, Tombstone(st, i))
    ensures Tombstone(st, i).numelPlusDeleted == st.numelPlusDeleted
    ensures Canonical(st) ==> Canonical(Tombstone(st, i)) && Model(Tombstone(st, i).slots) == Model(st.slots) - {key}
  {
    TombstoneKeepsValid(hash, st, key, i);
    if Canonical(st) {
      TombstoneKeepsModel(hash, st, key, i);
    }
  }

  /** The invariant half of `TombstoneStep`. */
  lemma TombstoneKeepsValid<K, V>(hash: K -> Word, st: State<K, V>, key: K, i: nat)
    requires Valid(hash, st) && FindSlot(hash, st.slots, key) == Some(i)
    ensures Valid(hash, Tombstone(st, i))
  {
    var s := st.slots;
    FoundIsStored(hash, s, key);
    SpecialWords();
    var y := s[i].(meta := DELETED);
    ChainsAfterWrite(s, i, y);
    CountsUpdate(s, i, y);
  }

  /** The map half of `TombstoneStep`. */
  lemma TombstoneKeepsModel<K, V>(hash: K -> Word, st: State<K, V>, key: K, i: nat)
    requires Valid(hash, st) && Canonical(st) && FindSlot(hash, st.slots, key) == Some(i)
    ensures Canonical(Tombstone(st, i)) && Model(Tombstone(st, i).slots) == Model(st.slots) - {key}
  {
    var s := st.slots;
    FoundIsStored(hash, s, key);
    SpecialWords();
    var y := s[i].(meta := DELETED);
    CountsUpdate(s, i, y);
    ModelErase(s, i);
  }

  /** The shrink step keeps the invariant, the map and the growth threshold. */
  lemma ShrinkKeepsValid<K, V>(hash: K -> Word, st: State<K, V>, shrinkOk: bool, blank: Slot<K, V>)
    requires Valid(hash, st) && IsEmpty(blank)
    ensures var (r, status) := ShrinkIfSparse(st, shrinkOk, blank);
            Valid(hash, r)
            && (status == Oom ==> !shrinkOk && r == st)
            && status != NoKey
            && (LoadBounded(st) ==> LoadBounded(r))
            && (Canonical(st) ==> Canonical(r) && Model(r.slots) == Model(st.slots))
  {
    if BelowMinLoad(st.numel, |st.slots|) && st.power > INITIAL_POWER {
      var half := Pow2(st.power - 1);
      Pow2Succ(st.power - 1);
      assert |st.slots| == 2 * half;
      assert 10 * st.numel < 6 * half;
      ResizeKeepsValid(hash, st, st.power - 1, shrinkOk, blank);
      assert ShrinkIfSparse(st, shrinkOk, blank) == Resize(st, st.power - 1, shrinkOk, blank);
    }
  }

  /**
   * `vmap_erase` keeps the invariant.  It reports VMAP_NO_KEY, changing
   * nothing, exactly when the probe finds no slot, and a failed shrink
   * reports VMAP_OOM after the entry is already gone.
   */
  lemma EraseKeepsValid<K, V>(hash: K -> Word, st: State<K, V>, key: K,
                              shrinkOk: bool, blank: Slot<K, V>)
    requires Valid(hash, st) && IsEmpty(blank)
    ensures var (r, status) := Erase(hash, st, key, shrinkOk, blank);
            Valid(hash, r)
            && (status == NoKey <==> FindSlot(hash, st.slots, key).None?)
            && (status == NoKey ==> r == st)
            && (status == Oom ==> !shrinkOk)
            && (LoadBounded(st) ==> LoadBounded(r))
  {
    match FindSlot(hash, st.slots, key)
    case None =>
    case Some(i) =>
      TombstoneStep(hash, st, key, i);
      ShrinkKeepsValid(hash, Tombstone(st, i), shrinkOk, blank);
  }

  /**
   * On a plain map `vmap_erase` is a map remove: VMAP_NO_KEY exactly when
   * the key is unbound, and otherwise the key's binding is removed and
   * nothing else, whether or not the table shrinks.
   */
  lemma EraseIsMapRemove<K, V>(hash: K -> Word, st: State<K, V>, key: K,
                               shrinkOk: bool, blank: Slot<K, V>)
    requires Valid(hash, st) && Canonical(st) && IsEmpty(blank)
    ensures var (r, status) := Erase(hash, st, key, shrinkOk, blank);
            Canonical(r) && Model(r.slots) == Model(st.slots) - {key}
            && (status == NoKey <==> key !in Model(st.slots))
  {
    var s := st.slots;
    FindIsModel(hash, s, key);
    match FindSlot(hash, s, key)
    case None =>
      assert Model(s) - {key} == Model(s);
    case Some(i) =>
      TombstoneStep(hash, st, key, i);
      ShrinkKeepsValid(hash, Tombstone(st, i), shrinkOk, blank);
  }
}
