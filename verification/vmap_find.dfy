/**
 * What the probe loops of vmap.c find: a stored key is found at its own
 * slot, the find agrees with the abstract map, the insert probe updates a
 * present key and otherwise lands where the probe can reach it again, and
 * writes that keep that reachability keep every chain unbroken.
 */
module VmapFind {

  import opened Wrappers
  import opened Bits
  import opened Probe
  import opened VmapMeta
  import opened VmapSpec

  /** A table with an EMPTY slot has no run of `|s|` non-EMPTY probes. */
  lemma NoEmptyBeforeBound<K, V>(s: seq<Slot<K, V>>, home: nat, n: nat)
    requires home < |s| && HasEmpty(s) && NoEmptyBefore(s, home, n)
    ensures n < |s|
  {
    var e :| 0 <= e < |s| && IsEmpty(s[e]);
    var d := Dist(home, e, |s|);
    assert IsEmpty(s[Off(home, d, |s|)]);
    assert n <= d;
  }

  /** A stored slot is reachable: no EMPTY slot lies on the way from its home. */
  ghost predicate Reaches<K, V>(s: seq<Slot<K, V>>, home: nat, j: nat)
    requires home < |s| && j < |s|
  {
    NoEmptyBefore(s, home, Dist(home, j, |s|))
  }

  /**
   * From offset `d` on, every slot before `j` is passed over by both the
   * find probe and the corrected insert probe, which therefore stop at `j`.
   */
  lemma {:induction false} ProbesStopAt<K, V>(s: seq<Slot<K, V>>, key: K, h1: nat, home: nat, d: nat, j: nat)
    requires home < |s| && j < |s| && d <= Dist(home, j, |s|)
    requires IsFull(s[j]) && Matches(s[j], key, h1)
    requires forall e :: d <= e < Dist(home, j, |s|) ==>
               var x := s[Off(home, e, |s|)];
               !IsEmpty(x) && (IsDeleted(x) || (IsFull(x) && !Matches(x, key, h1)))
    ensures FindFrom(s, key, h1, home, d) == Some(j)
    ensures InsertProbeFixed(s, key, h1, home, d) == Update(j)
    decreases Dist(home, j, |s|) - d
  {
    if d < Dist(home, j, |s|) {
      ProbesStopAt(s, key, h1, home, d + 1, j);
    }
  }

  /** The slot of a stored key is where find and the corrected insert stop. */
  lemma FindPresent<K, V>(hash: K -> Word, s: seq<Slot<K, V>>, j: nat)
    requires WellFlagged(s) && Tagged(hash, s) && ChainsUnbroken(s) && NoDup(s)
    requires j < |s| && IsFull(s[j])
    ensures FindSlot(hash, s, s[j].key) == Some(j)
    ensures var h1 := H1(hash(s[j].key));
            InsertProbeFixed(s, s[j].key, h1, Home(h1, |s|), 0) == Update(j)
  {
    var key := s[j].key;
    var h1 := H1(hash(key));
    var home := Home(h1, |s|);
    var n := Dist(home, j, |s|);
    forall e | 0 <= e < n
      ensures var x := s[Off(home, e, |s|)];
              !IsEmpty(x) && (IsDeleted(x) || (IsFull(x) && !Matches(x, key, h1)))
    {
      var i := Off(home, e, |s|);
      if i == j {
        DistOff(home, e, |s|);
      }
      assert i != j;
      assert IsFull(s[i]) ==> s[i].key != s[j].key by {
        assert i < j || j < i;
      }
    }
    ProbesStopAt(s, key, h1, home, 0, j);
  }

  /** A slot the find probe returns is a FULL slot holding the key. */
  lemma FoundIsStored<K, V>(hash: K -> Word, s: seq<Slot<K, V>>, key: K)
    requires |s| > 0 && WellFlagged(s)
    ensures FindSlot(hash, s, key).Some? ==>
              var i := FindSlot(hash, s, key).value;
              IsFull(s[i]) && s[i].key == key
  {
  }

  /**
   * `vmap_find` agrees with the abstract map: it returns the value bound
   * to the key, and NULL exactly when the key is unbound.
   */
  lemma FindIsModel<K, V>(hash: K -> Word, s: seq<Slot<K, V>>, key: K)
    requires |s| > 0 && WellFlagged(s) && Tagged(hash, s) && ChainsUnbroken(s) && NoDup(s)
    ensures FindSlot(hash, s, key).Some? <==> key in Model(s)
    ensures Find(hash, s, key) == if key in Model(s) then Some(Model(s)[key]) else None
  {
    FoundIsStored(hash, s, key);
    if key in Model(s) {
      var j :| 0 <= j < |s| && IsFull(s[j]) && s[j].key == key;
      FindPresent(hash, s, j);
    }
  }

  /** On a tombstone-free path the as-written probe and the corrected probe agree. */
  lemma {:induction false} ProbesAgreeOnClearPath<K, V>(s: seq<Slot<K, V>>, key: K, h1: nat, home: nat, d: nat)
    requires home < |s| && d <= |s| && PathClear(s, key, h1, home, d)
    ensures InsertProbe(s, key, h1, home, d) == InsertProbeFixed(s, key, h1, home, d)
    decreases |s| - d
  {
    if d < |s| {
      var x := s[Off(home, d, |s|)];
      if IsFull(x) && !Matches(x, key, h1) {
        ProbesAgreeOnClearPath(s, key, h1, home, d + 1);
      }
    }
  }

  /** A table without tombstones has every path clear. */
  lemma {:induction false} TombstoneFreeClear<K, V>(s: seq<Slot<K, V>>, key: K, h1: nat, home: nat, d: nat)
    requires home < |s| && d <= |s| && TombstoneFree(s)
    ensures PathClear(s, key, h1, home, d)
    decreases |s| - d
  {
    if d < |s| {
      TombstoneFreeClear(s, key, h1, home, d + 1);
    }
  }

  /**
   * When no FULL slot matches, the corrected insert probe places the
   * entry in the first EMPTY slot it meets.
   */
  lemma {:induction false} FixedPlacesInFirstEmpty<K, V>(s: seq<Slot<K, V>>, key: K, h1: nat, home: nat, d: nat)
    requires home < |s| && d <= |s| && WellFlagged(s) && HasEmpty(s)
    requires NoEmptyBefore(s, home, d)
    requires forall i :: 0 <= i < |s| && IsFull(s[i]) ==> !Matches(s[i], key, h1)
    ensures InsertProbeFixed(s, key, h1, home, d).Place?
    ensures var p := InsertProbeFixed(s, key, h1, home, d).index;
            IsEmpty(s[p]) && Reaches(s, home, p)
    decreases |s| - d
  {
    NoEmptyBeforeBound(s, home, d);
    var i := Off(home, d, |s|);
    if IsEmpty(s[i]) {
      DistOff(home, d, |s|);
    } else {
      FixedPlacesInFirstEmpty(s, key, h1, home, d + 1);
    }
  }

  /** One more non-EMPTY slot on the probe path extends the run. */
  lemma NoEmptyExtend<K, V>(s: seq<Slot<K, V>>, home: nat, d: nat)
    requires |s| > 0 && NoEmptyBefore(s, home, d) && !IsEmpty(s[Off(home, d, |s|)])
    ensures NoEmptyBefore(s, home, d + 1)
  {
  }

  /**
   * Wherever the as-written insert probe places an entry, the slots
   * before it on the probe path are not EMPTY: the tombstone it stepped
   * over and the FULL slots before that.
   */
  lemma {:induction false} PlaceIsReachable<K, V>(s: seq<Slot<K, V>>, key: K, h1: nat, home: nat, d: nat)
    requires home < |s| && d <= |s| && NoEmptyBefore(s, home, d)
    ensures InsertProbe(s, key, h1, home, d).Place? ==>
              Reaches(s, home, InsertProbe(s, key, h1, home, d).index)
    decreases |s| - d
  {
    if d < |s| {
      var i := Off(home, d, |s|);
      if IsDeleted(s[i]) {
        if d + 1 < |s| {
          NoEmptyExtend(s, home, d);
          DistOff(home, d + 1, |s|);
        } else {
          Bits.DivModUnique(home + d + 1, |s|, 1, home);
          assert Dist(home, Off(home, d + 1, |s|), |s|) == 0;
        }
      } else if IsFull(s[i]) {
        NoEmptyExtend(s, home, d);
        PlaceIsReachable(s, key, h1, home, d + 1);
      } else {
        DistOff(home, d, |s|);
      }
    }
  }

  /** The same for the corrected probe. */
  lemma {:induction false} FixedPlaceIsReachable<K, V>(s: seq<Slot<K, V>>, key: K, h1: nat, home: nat, d: nat)
    requires home < |s| && d <= |s| && NoEmptyBefore(s, home, d)
    ensures InsertProbeFixed(s, key, h1, home, d).Place? ==>
              Reaches(s, home, InsertProbeFixed(s, key, h1, home, d).index)
    decreases |s| - d
  {
    if d < |s| {
      var i := Off(home, d, |s|);
      if IsDeleted(s[i]) || IsFull(s[i]) {
        NoEmptyExtend(s, home, d);
        FixedPlaceIsReachable(s, key, h1, home, d + 1);
      } else {
        DistOff(home, d, |s|);
      }
    }
  }

  /**
   * Writing a slot that is not EMPTY keeps every chain unbroken, provided
   * a FULL slot is written where the probe from its own home reaches it.
   */
  lemma ChainsAfterWrite<K, V>(s: seq<Slot<K, V>>, p: nat, x: Slot<K, V>)
    requires ChainsUnbroken(s) && p < |s| && !IsEmpty(x)
    requires IsFull(x) ==> NoEmptyBefore(s, Home(H1(x.meta), |s|), Dist(Home(H1(x.meta), |s|), p, |s|))
    ensures ChainsUnbroken(s[p := x])
  {
    var t := s[p := x];
    forall i | 0 <= i < |t| && IsFull(t[i])
      ensures NoEmptyBefore(t, HomeOf(t, i), Dist(HomeOf(t, i), i, |t|))
    {
      var home := HomeOf(t, i);
      forall d | 0 <= d < Dist(home, i, |t|)
        ensures !IsEmpty(t[Off(home, d, |t|)])
      {
        var q := Off(home, d, |t|);
        if q != p {
          if i == p {
            assert !IsEmpty(s[q]);
          } else {
            assert NoEmptyBefore(s, HomeOf(s, i), Dist(HomeOf(s, i), i, |s|));
            assert !IsEmpty(s[q]);
          }
        }
      }
    }
  }
}
