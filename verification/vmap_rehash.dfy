/**
 * What the rehashing loop of `vmap_resize` builds: every live entry lands
 * in the new array, reachable from its new home, with no tombstones left
 * and the same key-to-value map.
 */
module VmapRehash {

  import opened Bits
  import opened Probe
  import opened VmapMeta
  import opened VmapSpec
  import opened VmapSlots
  import opened VmapFind

  /** Only EMPTY and FULL slots, as in a freshly rehashed array. */
  ghost predicate EmptyOrFull<K, V>(t: seq<Slot<K, V>>)
  {
    forall i :: 0 <= i < |t| ==> IsEmpty(t[i]) || IsFull(t[i])
  }

  /** Every FULL slot of `t` is a copy of one of the first `n` FULL slots of `src`. */
  ghost predicate CopiedFrom<K, V>(t: seq<Slot<K, V>>, src: seq<Slot<K, V>>, n: nat)
    requires n <= |src|
  {
    forall i :: 0 <= i < |t| && IsFull(t[i]) ==> exists j :: 0 <= j < n && IsFull(src[j]) && src[j] == t[i]
  }

  /**
   * The inner loop of `vmap_resize` writes `x` into the first slot from
   * `home` that is not FULL, which is EMPTY and reached across FULL slots
   * only.
   */
  lemma {:induction false} PlaceFromLands<K, V>(t: seq<Slot<K, V>>, x: Slot<K, V>, home: nat, d: nat, free: nat)
    returns (p: nat)
    requires home < |t| && d <= |t| && EmptyOrFull(t)
    requires free < |t| && !IsFull(t[free])
    requires forall e :: 0 <= e < d ==> IsFull(t[Off(home, e, |t|)])
    ensures p < |t| && IsEmpty(t[p]) && PlaceFrom(t, x, home, d) == t[p := x]
    ensures NoEmptyBefore(t, home, Dist(home, p, |t|))
    decreases |t| - d
  {
    var df := Dist(home, free, |t|);
    assert d <= df;
    var i := Off(home, d, |t|);
    if IsFull(t[i]) {
      p := PlaceFromLands(t, x, home, d + 1, free);
    } else {
      p := i;
      DistOff(home, d, |t|);
    }
  }

  /** A prefix of a table with unique keys has unique keys. */
  lemma NoDupPrefix<K, V>(src: seq<Slot<K, V>>, n: nat)
    requires NoDup(src) && n <= |src|
    ensures NoDup(src[..n])
  {
    var a := src[..n];
    forall i, j | 0 <= i < j < |a| && IsFull(a[i]) && IsFull(a[j])
      ensures a[i].key != a[j].key
    {
      assert a[i] == src[i] && a[j] == src[j];
    }
  }

  /** The map of a prefix grows by the next slot's binding, whose key is new. */
  lemma ModelSnoc<K, V>(src: seq<Slot<K, V>>, n: nat)
    requires NoDup(src) && 0 < n <= |src|
    ensures NoDup(src[..n]) && NoDup(src[..n - 1])
    ensures IsFull(src[n - 1]) ==> src[n - 1].key !in Model(src[..n - 1])
    ensures Model(src[..n]) == if IsFull(src[n - 1])
                               then Model(src[..n - 1])[src[n - 1].key := src[n - 1].value]
                               else Model(src[..n - 1])
  {
    NoDupPrefix(src, n);
    NoDupPrefix(src, n - 1);
    var a, x := src[..n - 1], src[n - 1];
    assert src[..n] == a + [x];
    if IsFull(x) {
      KeyAfterPrefix(src, n);
      ModelAppend(a, x);
    } else {
      ModelSkip(a, x);
    }
  }

  /** The key of a FULL slot is not bound by the slots before it. */
  lemma KeyAfterPrefix<K, V>(src: seq<Slot<K, V>>, n: nat)
    requires NoDup(src) && 0 < n <= |src| && IsFull(src[n - 1])
    ensures NoDup(src[..n - 1]) && src[n - 1].key !in Model(src[..n - 1])
  {
    NoDupPrefix(src, n - 1);
    var a := src[..n - 1];
    forall k | k in Model(a)
      ensures k != src[n - 1].key
    {
      var i :| 0 <= i < |a| && IsFull(a[i]) && a[i].key == k;
      assert src[i] == a[i];
    }
  }

  /** Appending a slot that is not FULL leaves the map alone. */
  lemma ModelSkip<K, V>(a: seq<Slot<K, V>>, x: Slot<K, V>)
    requires NoDup(a) && NoDup(a + [x]) && !IsFull(x)
    ensures Model(a + [x]) == Model(a)
  {
    var b := a + [x];
    var ma, mb := Model(a), Model(b);
    forall k | k in mb
      ensures k in ma && mb[k] == ma[k]
    {
      var i :| 0 <= i < |b| && IsFull(b[i]) && b[i].key == k;
      assert i < |a| && a[i] == b[i];
    }
    forall k | k in ma
      ensures k in mb
    {
      var i :| 0 <= i < |a| && IsFull(a[i]) && a[i].key == k;
      assert b[i] == a[i];
    }
  }

  /** Appending a FULL slot with a new key adds its binding. */
  lemma ModelAppend<K, V>(a: seq<Slot<K, V>>, x: Slot<K, V>)
    requires NoDup(a) && NoDup(a + [x]) && IsFull(x) && x.key !in Model(a)
    ensures Model(a + [x]) == Model(a)[x.key := x.value]
  {
    var b := a + [x];
    var ma, mb := Model(a), Model(b);
    forall k | k in mb
      ensures k in ma[x.key := x.value] && mb[k] == ma[x.key := x.value][k]
    {
      var i :| 0 <= i < |b| && IsFull(b[i]) && b[i].key == k;
      if i < |a| {
        assert a[i] == b[i];
      }
    }
    forall k | k in ma[x.key := x.value]
      ensures k in mb
    {
      if k == x.key {
        assert b[|a|] == x;
      } else {
        var i :| 0 <= i < |a| && IsFull(a[i]) && a[i].key == k;
        assert b[i] == a[i];
      }
    }
  }

  /**
   * The loop invariant of `vmap_resize`'s outer loop after `n` old slots:
   * the new array holds EMPTY and FULL slots only, its chains are
   * unbroken, and its entries are copies of the live entries seen so far
   * and there are as many of them.  `RehashPrefixKeepsFull` shows they
   * are the same entries with the same multiplicities, and
   * `RehashPrefixKeepsModel` that with unique keys they bind the same map.
   */
  lemma {:induction false} RehashPrefixInvariant<K, V>(src: seq<Slot<K, V>>, n: nat, cap: nat, blank: Slot<K, V>)
    requires n <= |src| && cap > 0 && IsEmpty(blank) && WellFlagged(src)
    requires CountFull(src[..n]) <= cap
    ensures var t := RehashPrefix(src, n, cap, blank);
            EmptyOrFull(t) && ChainsUnbroken(t) && CopiedFrom(t, src, n)
            && CountFull(t) == CountFull(src[..n])
  {
    var t := RehashPrefix(src, n, cap, blank);
    if n == 0 {
      BlankCounts(cap, blank);
      assert src[..0] == [];
    } else {
      CountsPrefix(src, n);
      var t0 := RehashPrefix(src, n - 1, cap, blank);
      RehashPrefixInvariant(src, n - 1, cap, blank);
      var x := src[n - 1];
      if !(IsDeleted(x) || IsEmpty(x)) {
        assert IsFull(x);
        var free := NonFullExists(t0);
        var home := Home(H1(x.meta), cap);
        var p := PlaceFromLands(t0, Slot(Pack(H1(x.meta), FULL), x.key, x.value), home, 0, free);
        RepackFull(x.meta);
        assert t == t0[p := x];
        ChainsAfterWrite(t0, p, x);
        CountsUpdate(t0, p, x);
        forall i | 0 <= i < |t| && IsFull(t[i])
          ensures exists j :: 0 <= j < n && IsFull(src[j]) && src[j] == t[i]
        {
          if i == p {
            assert src[n - 1] == t[i];
          } else {
            assert t[i] == t0[i];
          }
        }
      }
    }
  }

  /**
   * One step of the outer loop of `vmap_resize`: a live old slot is
   * written unchanged into a slot of the new array that was not FULL, and
   * any other old slot leaves the new array alone.
   */
  lemma RehashStep<K, V>(src: seq<Slot<K, V>>, n: nat, cap: nat, blank: Slot<K, V>) returns (p: nat)
    requires 0 < n <= |src| && cap > 0 && IsEmpty(blank) && WellFlagged(src)
    requires CountFull(src[..n]) <= cap
    ensures var t0 := RehashPrefix(src, n - 1, cap, blank);
            IsFull(src[n - 1]) ==> p < cap && !IsFull(t0[p])
                                   && RehashPrefix(src, n, cap, blank) == t0[p := src[n - 1]]
    ensures !IsFull(src[n - 1]) ==> RehashPrefix(src, n, cap, blank) == RehashPrefix(src, n - 1, cap, blank)
  {
    CountsPrefix(src, n);
    RehashPrefixInvariant(src, n - 1, cap, blank);
    var t0 := RehashPrefix(src, n - 1, cap, blank);
    var x := src[n - 1];
    SpecialWords();
    p := 0;
    if IsFull(x) {
      var free := NonFullExists(t0);
      var home := Home(H1(x.meta), cap);
      p := PlaceFromLands(t0, Slot(Pack(H1(x.meta), FULL), x.key, x.value), home, 0, free);
      RepackFull(x.meta);
    }
  }

  /**
   * The FULL slots of the rehashed prefix are exactly the live entries of
   * the old slots it came from, each as often as it occurs there, also
   * when one key is held twice.
   */
  lemma {:induction false} RehashPrefixKeepsFull<K, V>(src: seq<Slot<K, V>>, n: nat, cap: nat, blank: Slot<K, V>)
    requires n <= |src| && cap > 0 && IsEmpty(blank) && WellFlagged(src)
    requires CountFull(src[..n]) <= cap
    ensures FullSlots(RehashPrefix(src, n, cap, blank)) == FullSlots(src[..n])
  {
    if n == 0 {
      BlankCounts(cap, blank);
      assert src[..0] == [];
    } else {
      CountsPrefix(src, n);
      FullSlotsPrefix(src, n);
      RehashPrefixKeepsFull(src, n - 1, cap, blank);
      var p := RehashStep(src, n, cap, blank);
      if IsFull(src[n - 1]) {
        FullSlotsUpdate(RehashPrefix(src, n - 1, cap, blank), p, src[n - 1]);
      }
    }
  }

  /** With unique keys, the rehashed prefix binds the same map as the old slots it came from. */
  lemma {:induction false} RehashPrefixKeepsModel<K, V>(src: seq<Slot<K, V>>, n: nat, cap: nat, blank: Slot<K, V>)
    requires n <= |src| && cap > 0 && IsEmpty(blank) && WellFlagged(src) && NoDup(src)
    requires CountFull(src[..n]) <= cap
    ensures NoDup(RehashPrefix(src, n, cap, blank))
    ensures Model(RehashPrefix(src, n, cap, blank)) == Model(src[..n])
  {
    var t := RehashPrefix(src, n, cap, blank);
    if n == 0 {
      BlankCounts(cap, blank);
      assert src[..0] == [];
      assert Model(t) == map[];
    } else {
      CountsPrefix(src, n);
      RehashPrefixKeepsModel(src, n - 1, cap, blank);
      ModelSnoc(src, n);
      var p := RehashStep(src, n, cap, blank);
      if IsFull(src[n - 1]) {
        ModelPlace(RehashPrefix(src, n - 1, cap, blank), p, src[n - 1]);
      }
    }
  }

  /**
   * The rehashed prefix carries only the three flags and has as many FULL
   * slots as the old slots it came from.
   */
  lemma RehashPrefixCount<K, V>(src: seq<Slot<K, V>>, n: nat, cap: nat, blank: Slot<K, V>)
    requires n <= |src| && cap > 0 && IsEmpty(blank) && WellFlagged(src)
    requires CountFull(src[..n]) <= cap
    ensures WellFlagged(RehashPrefix(src, n, cap, blank))
    ensures CountFull(RehashPrefix(src, n, cap, blank)) == CountFull(src[..n])
  {
    RehashPrefixInvariant(src, n, cap, blank);
    SpecialWords();
  }

  /**
   * `vmap_resize` on success keeps every invariant, leaves no tombstone
   * and makes both counters the number of live entries; on failure it
   * changes nothing.  With unique keys it keeps the map and the counters
   * exact.
   */
  lemma ResizeKeepsValid<K, V>(hash: K -> Word, st: State<K, V>, newPower: nat, allocOk: bool, blank: Slot<K, V>)
    requires Valid(hash, st) && IsEmpty(blank)
    requires newPower >= INITIAL_POWER && st.numel <= Pow2(newPower)
    ensures var (r, status) := Resize(st, newPower, allocOk, blank);
            Valid(hash, r) && r.numel == st.numel
            && (status == Ok <==> allocOk)
            && (status == Oom ==> r == st)
            && (status == Ok ==> r.power == newPower && TombstoneFree(r.slots)
                                 && r.numelPlusDeleted == st.numel)
    ensures Canonical(st) ==>
              var r := Resize(st, newPower, allocOk, blank).0;
              Canonical(r) && Model(r.slots) == Model(st.slots)
  {
    if allocOk {
      var src := st.slots;
      assert src[..|src|] == src;
      RehashPrefixInvariant(src, |src|, Pow2(newPower), blank);
      if NoDup(src) {
        RehashPrefixKeepsModel(src, |src|, Pow2(newPower), blank);
      }
      var t := Rehash(src, Pow2(newPower), blank);
      CountsAgree(t);
      forall i | 0 <= i < |t| && IsFull(t[i])
        ensures H1(t[i].meta) == H1(hash(t[i].key))
      {
        var j :| 0 <= j < |src| && IsFull(src[j]) && src[j] == t[i];
      }
    }
  }

  /**
   * `vmap_resize` keeps every live entry: the FULL slots after it are
   * those before it, each as often as before, on any valid table, also
   * one that holds a key twice.
   */
  lemma ResizeKeepsEntries<K, V>(hash: K -> Word, st: State<K, V>, newPower: nat, allocOk: bool, blank: Slot<K, V>)
    requires Valid(hash, st) && IsEmpty(blank)
    requires st.numel <= Pow2(newPower)
    ensures FullSlots(Resize(st, newPower, allocOk, blank).0.slots) == FullSlots(st.slots)
  {
    if allocOk {
      var src := st.slots;
      assert src[..|src|] == src;
      RehashPrefixKeepsFull(src, |src|, Pow2(newPower), blank);
    }
  }

  /** A resize of an exact table keeps it exact and keeps its map. */
  lemma ResizeKeepsModel<K, V>(hash: K -> Word, st: State<K, V>, newPower: nat, allocOk: bool, blank: Slot<K, V>)
    requires Valid(hash, st) && Canonical(st) && IsEmpty(blank)
    requires newPower >= INITIAL_POWER && st.numel <= Pow2(newPower)
    ensures Canonical(Resize(st, newPower, allocOk, blank).0)
    ensures Model(Resize(st, newPower, allocOk, blank).0.slots) == Model(st.slots)
  {
    ResizeKeepsValid(hash, st, newPower, allocOk, blank);
  }
}
