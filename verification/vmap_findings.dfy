/**
 * A concrete run of vmap.c on which the tombstone fall-through of
 * `vmap_insert` loses a live entry, and the same run with the corrected
 * insert, which keeps it.
 *
 * Keys and values are naturals and the hash of key `k` is `k << 2`, so the
 * stored fragment of `k` is `k` itself and keys 0, 32 and 64 all start
 * probing at slot 0 of the initial 32-slot table.
 */
module VmapFindings {

  import opened Wrappers
  import opened Bits
  import opened Probe
  import opened VmapMeta
  import opened VmapSpec

  /** A hash whose fragment is the key. */
  function KeyHash(k: nat): (r: Word)
    ensures k < TWO62 ==> H1(r) == k
  {
    (k % TWO62) * 4
  }

  /** The all-zero slot `vmap_new` allocates. */
  const Blank: Slot<nat, nat> := Slot(0, 0, 0)

  /** The 32 slots of a fresh table. */
  function Blanks(): seq<Slot<nat, nat>> { seq(32, _ => Blank) }

  /** A FULL slot for `k` under `KeyHash`. */
  function Live(k: nat, v: nat): (x: Slot<nat, nat>)
    requires k < TWO62
    ensures IsFull(x) && H1(x.meta) == k && x.key == k && x.value == v
  {
    Slot(Pack(k, FULL), k, v)
  }

  /** Insert 0 -> 10 into the fresh table: it lands in its home slot 0. */
  lemma {:induction false} SetUpFirst()
    ensures Insert(KeyHash, Fresh(Blank), 0, 10, true, Blank)
            == (State(5, 1, 1, Blanks()[0 := Live(0, 10)]), Ok)
  {
    SpecialWords();
    assert Fresh(Blank).slots == Blanks();
    assert InsertProbe(Blanks(), 0, 0, 0, 0) == Place(0);
  }

  /** Insert 32 -> 7: its home slot 0 holds key 0, so it lands in slot 1. */
  lemma {:induction false} SetUpSecond()
    ensures Insert(KeyHash, State(5, 1, 1, Blanks()[0 := Live(0, 10)]), 32, 7, true, Blank)
            == (State(5, 2, 2, Blanks()[0 := Live(0, 10)][1 := Live(32, 7)]), Ok)
  {
    SpecialWords();
    var s1: seq<Slot<nat, nat>> := Blanks()[0 := Live(0, 10)];
    assert InsertProbe(s1, 32, 32, 0, 1) == Place(1);
    assert InsertProbe(s1, 32, 32, 0, 0) == Place(1);
  }

  /** Erase 0: slot 0 becomes a tombstone and key 32 stays in slot 1. */
  lemma {:induction false} SetUpErase()
    ensures Erase(KeyHash, State(5, 2, 2, Blanks()[0 := Live(0, 10)][1 := Live(32, 7)]), 0, true, Blank)
            == (State(5, 1, 2, Blanks()[0 := Slot(DELETED, 0, 10)][1 := Live(32, 7)]), Ok)
  {
    SpecialWords();
    var s2: seq<Slot<nat, nat>> := Blanks()[0 := Live(0, 10)][1 := Live(32, 7)];
    assert FindFrom(s2, 0, 0, 0, 0) == Some(0);
    assert s2[0 := s2[0].(meta := DELETED)] == Blanks()[0 := Slot(DELETED, 0, 10)][1 := Live(32, 7)];
  }

  /** The table the three set-up steps end with: a tombstone in slot 0, key 32 live in slot 1. */
  function Before(): State<nat, nat>
  {
    State(5, 1, 2, Blanks()[0 := Slot(DELETED, 0, 10)][1 := Live(32, 7)])
  }

  /** Key 32 is found in slot 1 of `Before()`, past the tombstone. */
  lemma {:induction false} FoundBefore()
    ensures Find(KeyHash, Before().slots, 32) == Some(7)
  {
    SpecialWords();
    var s := Before().slots;
    assert FindFrom(s, 32, 32, 0, 1) == Some(1);
    assert FindFrom(s, 32, 32, 0, 0) == Some(1);
  }

  /** The slots after the as-written insert of 64: key 32's slot overwritten. */
  function Overwritten(): seq<Slot<nat, nat>>
  {
    Before().slots[1 := Live(64, 5)]
  }

  /** The as-written probe steps from the tombstone in slot 0 into slot 1. */
  lemma {:induction false} FallThroughWrites()
    ensures Insert(KeyHash, Before(), 64, 5, true, Blank) == (State(5, 2, 3, Overwritten()), Ok)
  {
    SpecialWords();
    assert InsertProbe(Before().slots, 64, 64, 0, 0) == Place(1);
  }

  /** In the overwritten slots the probe for key 32 meets no match before the EMPTY slot 2. */
  lemma {:induction false} OverwrittenLoses32()
    ensures Find(KeyHash, Overwritten(), 32) == None
  {
    SpecialWords();
    var t := Overwritten();
    assert IsDeleted(t[0]) && IsFull(t[1]) && IsEmpty(t[2]) && t[1].key == 64;
    assert FindFrom(t, 32, 32, 0, 2) == None;
    assert FindFrom(t, 32, 32, 0, 1) == None;
    assert FindFrom(t, 32, 32, 0, 0) == None;
  }

  /** In the overwritten slots key 64 is found in slot 1. */
  lemma {:induction false} OverwrittenFinds64()
    ensures Find(KeyHash, Overwritten(), 64) == Some(5)
  {
    SpecialWords();
    var t := Overwritten();
    assert IsDeleted(t[0]) && IsFull(t[1]) && H1(t[1].meta) == 64 && t[1].key == 64;
    assert FindFrom(t, 64, 64, 0, 1) == Some(1);
    assert FindFrom(t, 64, 64, 0, 0) == Some(1);
  }

  /**
   * Inserting 64 into `Before()` as written: the probe meets the
   * tombstone in slot 0, steps to slot 1 and writes 64 over the live
   * entry of key 32, and reports VMAP_OK.  Key 32, found before, is no
   * longer found, and both counters count an entry that is gone.
   */
  lemma {:induction false} FallThroughLosesEntry()
    ensures Find(KeyHash, Before().slots, 32) == Some(7)
    ensures var r := Insert(KeyHash, Before(), 64, 5, true, Blank);
            r.1 == Ok && r.0.numel == 2 && |r.0.slots| == 32
            && Find(KeyHash, r.0.slots, 32) == None
            && Find(KeyHash, r.0.slots, 64) == Some(5)
  {
    FoundBefore();
    FallThroughWrites();
    OverwrittenLoses32();
    OverwrittenFinds64();
  }

  /** The slots after the corrected insert of 64: it lands in EMPTY slot 2. */
  function Appended(): seq<Slot<nat, nat>>
  {
    Before().slots[2 := Live(64, 5)]
  }

  /** The corrected probe passes the tombstone and key 32 and stops at slot 2. */
  lemma {:induction false} CorrectedWrites()
    ensures InsertCorrected(KeyHash, Before(), 64, 5, true, Blank) == (State(5, 2, 3, Appended()), Ok)
  {
    SpecialWords();
    var s := Before().slots;
    assert IsDeleted(s[0]) && IsFull(s[1]) && IsEmpty(s[2]);
    assert H1(s[1].meta) == 32 && s[1].key == 32;
    assert InsertProbeFixed(s, 64, 64, 0, 2) == Place(2);
    assert InsertProbeFixed(s, 64, 64, 0, 1) == Place(2);
    assert InsertProbeFixed(s, 64, 64, 0, 0) == Place(2);
  }

  /** In the appended slots key 32 is still found in slot 1. */
  lemma {:induction false} AppendedFinds32()
    ensures Find(KeyHash, Appended(), 32) == Some(7)
  {
    SpecialWords();
    var t := Appended();
    assert IsDeleted(t[0]) && IsFull(t[1]) && H1(t[1].meta) == 32 && t[1].key == 32;
    assert FindFrom(t, 32, 32, 0, 1) == Some(1);
    assert FindFrom(t, 32, 32, 0, 0) == Some(1);
  }

  /** In the appended slots key 64 is found in slot 2. */
  lemma {:induction false} AppendedFinds64()
    ensures Find(KeyHash, Appended(), 64) == Some(5)
  {
    SpecialWords();
    var t := Appended();
    assert IsDeleted(t[0]) && IsFull(t[1]) && t[1].key == 32;
    assert IsFull(t[2]) && H1(t[2].meta) == 64 && t[2].key == 64;
    assert FindFrom(t, 64, 64, 0, 2) == Some(2);
    assert FindFrom(t, 64, 64, 0, 1) == Some(2);
    assert FindFrom(t, 64, 64, 0, 0) == Some(2);
  }

  /**
   * The corrected insert on the same table passes over the tombstone and
   * key 32, writes 64 into the EMPTY slot 2, and both keys are found.
   */
  lemma {:induction false} CorrectedKeepsEntry()
    ensures var r := InsertCorrected(KeyHash, Before(), 64, 5, true, Blank);
            r.1 == Ok && r.0.numel == 2 && |r.0.slots| == 32
            && Find(KeyHash, r.0.slots, 32) == Some(7)
            && Find(KeyHash, r.0.slots, 64) == Some(5)
  {
    CorrectedWrites();
    AppendedFinds32();
    AppendedFinds64();
  }

  /** Insert 64 -> 5 after 0 and 32: slots 0 and 1 are taken, so it lands in slot 2. */
  lemma {:induction false} SetUpThird()
    ensures Insert(KeyHash, State(5, 2, 2, Blanks()[0 := Live(0, 10)][1 := Live(32, 7)]), 64, 5, true, Blank)
            == (State(5, 3, 3, Blanks()[0 := Live(0, 10)][1 := Live(32, 7)][2 := Live(64, 5)]), Ok)
  {
    SpecialWords();
    var s2: seq<Slot<nat, nat>> := Blanks()[0 := Live(0, 10)][1 := Live(32, 7)];
    assert InsertProbe(s2, 64, 64, 0, 2) == Place(2);
    assert InsertProbe(s2, 64, 64, 0, 1) == Place(2);
    assert InsertProbe(s2, 64, 64, 0, 0) == Place(2);
  }

  /** Erase 0 from the three-entry table: the slots become `Appended()`. */
  lemma {:induction false} SetUpEraseOfThree()
    ensures Erase(KeyHash, State(5, 3, 3, Blanks()[0 := Live(0, 10)][1 := Live(32, 7)][2 := Live(64, 5)]), 0, true, Blank)
            == (State(5, 2, 3, Appended()), Ok)
  {
    SpecialWords();
    var s3: seq<Slot<nat, nat>> := Blanks()[0 := Live(0, 10)][1 := Live(32, 7)][2 := Live(64, 5)];
    assert FindFrom(s3, 0, 0, 0, 0) == Some(0);
    assert s3[0 := s3[0].(meta := DELETED)] == Appended();
  }

  /** The slots after inserting 64 again as written: key 32's slot now holds 64 too. */
  function Duplicated(): seq<Slot<nat, nat>>
  {
    Appended()[1 := Live(64, 6)]
  }

  /** The as-written probe for 64 steps from the tombstone in slot 0 into slot 1. */
  lemma {:induction false} DuplicateWrites()
    ensures Insert(KeyHash, State(5, 2, 3, Appended()), 64, 6, true, Blank) == (State(5, 3, 4, Duplicated()), Ok)
  {
    SpecialWords();
    assert InsertProbe(Appended(), 64, 64, 0, 0) == Place(1);
  }

  /** In the duplicated slots the probe for key 32 meets no match before the EMPTY slot 3. */
  lemma {:induction false} DuplicatedLoses32()
    ensures Find(KeyHash, Duplicated(), 32) == None
  {
    SpecialWords();
    var t := Duplicated();
    assert IsDeleted(t[0]) && IsFull(t[1]) && IsFull(t[2]) && IsEmpty(t[3]);
    assert t[1].key == 64 && t[2].key == 64;
    assert FindFrom(t, 32, 32, 0, 3) == None;
    assert FindFrom(t, 32, 32, 0, 2) == None;
    assert FindFrom(t, 32, 32, 0, 1) == None;
    assert FindFrom(t, 32, 32, 0, 0) == None;
  }

  /**
   * Inserting 64 again, as written, into the table that inserting 0, 32
   * and 64 and erasing 0 leaves: the probe falls through the tombstone
   * into slot 1, so key 64 ends up in two FULL slots, key 32 is lost, and
   * `numel` counts three entries.
   */
  lemma {:induction false} FallThroughDuplicatesKey()
    ensures Insert(KeyHash, State(5, 2, 2, Blanks()[0 := Live(0, 10)][1 := Live(32, 7)]), 64, 5, true, Blank)
            == (State(5, 3, 3, Blanks()[0 := Live(0, 10)][1 := Live(32, 7)][2 := Live(64, 5)]), Ok)
    ensures Erase(KeyHash, State(5, 3, 3, Blanks()[0 := Live(0, 10)][1 := Live(32, 7)][2 := Live(64, 5)]), 0, true, Blank)
            == (State(5, 2, 3, Appended()), Ok)
    ensures var r := Insert(KeyHash, State(5, 2, 3, Appended()), 64, 6, true, Blank);
            r.1 == Ok && r.0.numel == 3 && |r.0.slots| == 32
            && IsFull(r.0.slots[1]) && r.0.slots[1].key == 64
            && IsFull(r.0.slots[2]) && r.0.slots[2].key == 64
            && Find(KeyHash, r.0.slots, 32) == None
  {
    SetUpThird();
    SetUpEraseOfThree();
    DuplicateWrites();
    DuplicatedLoses32();
    SpecialWords();
  }
}
