/**
 * Runs of the src/vmap.h table from a fresh table: a batch of inserts of
 * distinct keys, a batch of deletes, the run tests/ht_test.c makes, and
 * the way `numel`, which delete never decrements, runs the table out of
 * room.
 */
module MonoScenarios {

  import opened Wrappers
  import opened MonoSpec
  import opened MonoModel

  /** No key occurs twice. */
  predicate AllDistinct(keys: seq<Key>)
  {
    forall i, j :: 0 <= i < j < |keys| ==> keys[i] != keys[j]
  }

  /** Insert `keys[i] -> values[i]` in order; the flag says every insert returned VMAP_OK. */
  function InsertAll<V>(st: MonoState<V>, keys: seq<Key>, values: seq<V>): (r: (MonoState<V>, bool))
    requires |st.entries| > 0 && |keys| == |values|
    ensures |r.0.entries| == |st.entries|
    decreases |keys|
  {
    if keys == [] then (st, true)
    else
      var first := Insert(st, keys[0], values[0]);
      var rest := InsertAll(first.0, keys[1..], values[1..]);
      (rest.0, first.1 == Ok && rest.1)
  }

  /** Delete `keys` in order; the flag says every delete returned VMAP_OK. */
  function DeleteAll<V>(st: MonoState<V>, keys: seq<Key>, blank: Entry<V>): (r: (MonoState<V>, bool))
    requires |st.entries| > 0
    ensures |r.0.entries| == |st.entries|
    decreases |keys|
  {
    if keys == [] then (st, true)
    else
      var first := Delete(st, keys[0], blank);
      var rest := DeleteAll(first.0, keys[1..], blank);
      (rest.0, first.1 == Ok && rest.1)
  }

  /**
   * Inserting distinct keys the table does not hold, as long as there is
   * room: every insert returns VMAP_OK, each key maps to its value, every
   * other key keeps its lookup, and `numel` and the ENTRY count grow by
   * the number of keys.
   */
  lemma {:induction false} InsertAllDistinct<V>(st: MonoState<V>, keys: seq<Key>, values: seq<V>)
    requires Inv(st) && Sound(st.entries) && |keys| == |values| && AllDistinct(keys)
    requires forall i :: 0 <= i < |keys| ==> Get(st.entries, keys[i]) == None
    requires st.numel + |keys| <= |st.entries|
    ensures var r := InsertAll(st, keys, values);
            r.1 && Inv(r.0) && Sound(r.0.entries) && r.0.numel == st.numel + |keys|
            && Count(r.0.entries, ENTRY) == Count(st.entries, ENTRY) + |keys|
            && (forall i :: 0 <= i < |keys| ==> Get(r.0.entries, keys[i]) == Some(values[i]))
            && (forall k :: k !in keys ==> Get(r.0.entries, k) == Get(st.entries, k))
    decreases |keys|
  {
    if keys != [] {
      var first := Insert(st, keys[0], values[0]);
      InsertKeepsInv(st, keys[0], values[0]);
      InsertAbsentIsPut(st, keys[0], values[0]);
      var s1 := first.0;
      forall i | 0 <= i < |keys| - 1
        ensures Get(s1.entries, keys[1..][i]) == None
      {
        assert keys[1..][i] == keys[i + 1] != keys[0];
      }
      InsertAllDistinct(s1, keys[1..], values[1..]);
      var r := InsertAll(s1, keys[1..], values[1..]);
      assert keys[0] !in keys[1..];
      forall i | 0 <= i < |keys|
        ensures Get(r.0.entries, keys[i]) == Some(values[i])
      {
        if i > 0 {
          assert keys[1..][i - 1] == keys[i];
        }
      }
    }
  }

  /**
   * Deleting distinct keys the table holds, below capacity: every delete
   * returns VMAP_OK, each key is gone, every other key keeps its lookup,
   * and `numel` does not move.
   */
  lemma {:induction false} DeleteAllPresent<V>(st: MonoState<V>, keys: seq<Key>, blank: Entry<V>)
    requires Inv(st) && Sound(st.entries) && st.numel < |st.entries| && AllDistinct(keys)
    requires forall i :: 0 <= i < |keys| ==> Get(st.entries, keys[i]).Some?
    ensures var r := DeleteAll(st, keys, blank);
            r.1 && Inv(r.0) && Sound(r.0.entries) && r.0.numel == st.numel
            && (forall i :: 0 <= i < |keys| ==> Get(r.0.entries, keys[i]) == None)
            && (forall k :: k !in keys ==> Get(r.0.entries, k) == Get(st.entries, k))
    decreases |keys|
  {
    if keys != [] {
      FindIsGet(st, keys[0]);
      DeleteIsRemoval(st, keys[0], blank);
      var s1 := Delete(st, keys[0], blank).0;
      forall i | 0 <= i < |keys| - 1
        ensures Get(s1.entries, keys[1..][i]).Some?
      {
        assert keys[1..][i] == keys[i + 1] != keys[0];
      }
      DeleteAllPresent(s1, keys[1..], blank);
      var r := DeleteAll(s1, keys[1..], blank);
      assert keys[0] !in keys[1..];
      forall i | 0 <= i < |keys|
        ensures Get(r.0.entries, keys[i]) == None
      {
        if i > 0 {
          assert keys[1..][i - 1] == keys[i];
        }
      }
    }
  }

  /**
   * The run of tests/ht_test.c, for any number of distinct keys below the
   * capacity (the test uses six): into a fresh table every insert returns
   * VMAP_OK, every key is found with its value and a key not inserted is
   * not found; then every delete returns VMAP_OK and no key is found.
   * Every find ends.
   */
  lemma HtTestScenario<V>(keys: seq<Key>, values: seq<V>, notIn: Key, keySize: nat, zero: V)
    requires |keys| == |values| && |keys| < INITIAL_CAPACITY && AllDistinct(keys) && notIn !in keys
    ensures var blank := Blank(keySize, zero);
            var ins := InsertAll(Fresh(INITIAL_CAPACITY, blank), keys, values);
            var del := DeleteAll(ins.0, keys, blank);
            ins.1 && del.1
            && (forall i :: 0 <= i < |keys| ==>
                  FindProbe(ins.0, keys[i]) != Endless && Find(ins.0, keys[i]) == Some(values[i]))
            && FindProbe(ins.0, notIn) != Endless && Find(ins.0, notIn) == None
            && (forall i :: 0 <= i < |keys| ==>
                  FindProbe(del.0, keys[i]) != Endless && Find(del.0, keys[i]) == None)
  {
    var blank := Blank(keySize, zero);
    var st0 := Fresh(INITIAL_CAPACITY, blank);
    FreshIsEmpty(INITIAL_CAPACITY, blank);
    InsertAllDistinct(st0, keys, values);
    var ins := InsertAll(st0, keys, values);
    DeleteAllPresent(ins.0, keys, blank);
    var del := DeleteAll(ins.0, keys, blank);
    forall i | 0 <= i < |keys|
      ensures FindProbe(ins.0, keys[i]) != Endless && Find(ins.0, keys[i]) == Some(values[i])
      ensures FindProbe(del.0, keys[i]) != Endless && Find(del.0, keys[i]) == None
    {
      FindIsGet(ins.0, keys[i]);
      FindIsGet(del.0, keys[i]);
    }
    FindIsGet(ins.0, notIn);
  }

  /** Insert `key` and delete it again. */
  function Cycle<V>(st: MonoState<V>, key: Key, value: V, blank: Entry<V>): (r: MonoState<V>)
    requires |st.entries| > 0
    ensures |r.entries| == |st.entries|
  {
    Delete(Insert(st, key, value).0, key, blank).0
  }

  /** `n` insert-delete cycles of one key. */
  function Cycles<V>(st: MonoState<V>, key: Key, value: V, blank: Entry<V>, n: nat): (r: MonoState<V>)
    requires |st.entries| > 0
    ensures |r.entries| == |st.entries|
  {
    if n == 0 then st else Cycle(Cycles(st, key, value, blank, n - 1), key, value, blank)
  }

  /**
   * Each insert-delete cycle of a key the table does not hold leaves the
   * lookup as it was but adds one to `numel`.
   */
  lemma CycleCountsOne<V>(st: MonoState<V>, key: Key, value: V, blank: Entry<V>)
    requires Inv(st) && Sound(st.entries) && st.numel < |st.entries| && Get(st.entries, key) == None
    ensures var r := Cycle(st, key, value, blank);
            Inv(r) && Sound(r.entries) && r.numel == st.numel + 1
            && forall k :: Get(r.entries, k) == Get(st.entries, k)
  {
    InsertKeepsInv(st, key, value);
    InsertAbsentIsPut(st, key, value);
    var s1 := Insert(st, key, value).0;
    FindAgreesWithGet(s1, key);
    DeleteIsRemoval(s1, key, blank);
  }

  /**
   * Because delete never decrements `numel`, a fresh table that has seen
   * as many insert-delete cycles of one key as it has slots answers
   * VMAP_OOM to every insert, although it holds no key at all.
   */
  lemma {:induction false} CyclesExhaustCapacity<V>(key: Key, value: V, other: Key, otherValue: V,
                                                    keySize: nat, zero: V, n: nat)
    requires n <= INITIAL_CAPACITY
    ensures var blank := Blank(keySize, zero);
            var st := Cycles(Fresh(INITIAL_CAPACITY, blank), key, value, blank, n);
            Inv(st) && Sound(st.entries) && st.numel == n && (forall k :: Get(st.entries, k) == None)
            && (n == INITIAL_CAPACITY ==> Insert(st, other, otherValue) == (st, Oom))
  {
    var blank := Blank(keySize, zero);
    if n == 0 {
      FreshIsEmpty(INITIAL_CAPACITY, blank);
    } else {
      CyclesExhaustCapacity(key, value, other, otherValue, keySize, zero, n - 1);
      CycleCountsOne(Cycles(Fresh(INITIAL_CAPACITY, blank), key, value, blank, n - 1), key, value, blank);
    }
  }
}
