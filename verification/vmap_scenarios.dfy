/**
 * Whole sequences of operations, as test.c drives them: insert a batch of
 * distinct keys, find each one, erase them all, insert them again.
 */
module VmapScenarios {

  import opened Wrappers
  import opened Bits
  import opened VmapMeta
  import opened VmapSpec
  import opened VmapFind
  import opened VmapOps

  /** The map after binding each pair in order. */
  ghost function Bind<K, V>(m: map<K, V>, kvs: seq<(K, V)>): map<K, V>
    decreases |kvs|
  {
    if kvs == [] then m else Bind(m[kvs[0].0 := kvs[0].1], kvs[1..])
  }

  ghost predicate DistinctKeys<K, V>(kvs: seq<(K, V)>)
  {
    forall i, j :: 0 <= i < j < |kvs| ==> kvs[i].0 != kvs[j].0
  }

  /** With distinct keys, every pair of the batch is bound after binding it. */
  lemma {:induction false} BindHasEach<K, V>(m: map<K, V>, kvs: seq<(K, V)>, i: nat)
    requires DistinctKeys(kvs) && i < |kvs|
    ensures kvs[i].0 in Bind(m, kvs) && Bind(m, kvs)[kvs[i].0] == kvs[i].1
    decreases |kvs|
  {
    if i > 0 {
      BindHasEach(m[kvs[0].0 := kvs[0].1], kvs[1..], i - 1);
    } else {
      BindKeepsAbsent(m[kvs[0].0 := kvs[0].1], kvs[1..], kvs[0].0);
    }
  }

  /** Binding pairs with other keys leaves a key's binding alone. */
  lemma {:induction false} BindKeepsAbsent<K, V>(m: map<K, V>, kvs: seq<(K, V)>, k: K)
    requires k in m && forall i :: 0 <= i < |kvs| ==> kvs[i].0 != k
    ensures k in Bind(m, kvs) && Bind(m, kvs)[k] == m[k]
    decreases |kvs|
  {
    if kvs != [] {
      BindKeepsAbsent(m[kvs[0].0 := kvs[0].1], kvs[1..], k);
    }
  }

  /** `vmap_insert` on each pair in turn, growth always succeeding; true when every call returned VMAP_OK. */
  function InsertAll<K(==), V>(hash: K -> Word, st: State<K, V>, kvs: seq<(K, V)>, blank: Slot<K, V>): (State<K, V>, bool)
    decreases |kvs|
  {
    if kvs == [] then (st, true)
    else
      var step := Insert(hash, st, kvs[0].0, kvs[0].1, true, blank);
      var rest := InsertAll(hash, step.0, kvs[1..], blank);
      (rest.0, rest.1 && step.1 == Ok)
  }

  /** The same with the corrected insert. */
  function InsertAllCorrected<K(==), V>(hash: K -> Word, st: State<K, V>, kvs: seq<(K, V)>, blank: Slot<K, V>): (State<K, V>, bool)
    decreases |kvs|
  {
    if kvs == [] then (st, true)
    else
      var step := InsertCorrected(hash, st, kvs[0].0, kvs[0].1, true, blank);
      var rest := InsertAllCorrected(hash, step.0, kvs[1..], blank);
      (rest.0, rest.1 && step.1 == Ok)
  }

  /** `vmap_erase` on each key in turn, shrinking always succeeding; true when every call returned VMAP_OK. */
  function EraseAll<K(==), V>(hash: K -> Word, st: State<K, V>, keys: seq<K>, blank: Slot<K, V>): (State<K, V>, bool)
    requires |st.slots| > 0
    decreases |keys|
  {
    if keys == [] then (st, true)
    else
      var step := Erase(hash, st, keys[0], true, blank);
      var rest := EraseAll(hash, step.0, keys[1..], blank);
      (rest.0, rest.1 && step.1 == Ok)
  }

  /** A valid, exact table under the growth threshold. */
  ghost predicate Healthy<K, V>(hash: K -> Word, st: State<K, V>)
  {
    Valid(hash, st) && Canonical(st) && LoadBounded(st)
  }

  /**
   * Inserting a batch into a healthy table without tombstones with the
   * as-written insert: every call returns VMAP_OK and the table binds the
   * batch on top of what it held.
   */
  lemma {:induction false} InsertAllBinds<K, V>(hash: K -> Word, st: State<K, V>, kvs: seq<(K, V)>, blank: Slot<K, V>)
    requires Healthy(hash, st) && TombstoneFree(st.slots) && IsEmpty(blank)
    ensures InsertAll(hash, st, kvs, blank).1
    ensures Healthy(hash, InsertAll(hash, st, kvs, blank).0)
    ensures TombstoneFree(InsertAll(hash, st, kvs, blank).0.slots)
    ensures Model(InsertAll(hash, st, kvs, blank).0.slots) == Bind(Model(st.slots), kvs)
    decreases |kvs|
  {
    if kvs != [] {
      var k, v := kvs[0].0, kvs[0].1;
      var step := Insert(hash, st, k, v, true, blank);
      LoadBoundedLeavesRoom(hash, st);
      InsertKeepsValid(hash, st, k, v, true, blank);
      InsertTombstoneFree(hash, st, k, v, true, blank);
      assert step.1 == Ok;
      assert Healthy(hash, step.0);
      InsertAllBinds(hash, step.0, kvs[1..], blank);
    }
  }

  /** The corrected insert does the same from any healthy table, tombstones included. */
  lemma {:induction false} InsertAllCorrectedBinds<K, V>(hash: K -> Word, st: State<K, V>, kvs: seq<(K, V)>, blank: Slot<K, V>)
    requires Healthy(hash, st) && IsEmpty(blank)
    ensures InsertAllCorrected(hash, st, kvs, blank).1
    ensures Healthy(hash, InsertAllCorrected(hash, st, kvs, blank).0)
    ensures Model(InsertAllCorrected(hash, st, kvs, blank).0.slots) == Bind(Model(st.slots), kvs)
    decreases |kvs|
  {
    if kvs != [] {
      var k, v := kvs[0].0, kvs[0].1;
      var step := InsertCorrected(hash, st, k, v, true, blank);
      LoadBoundedLeavesRoom(hash, st);
      InsertCorrectedIsMapInsert(hash, st, k, v, true, blank);
      assert step.1 == Ok;
      assert Healthy(hash, step.0);
      InsertAllCorrectedBinds(hash, step.0, kvs[1..], blank);
    }
  }

  /** No key occurs twice. */
  ghost predicate Distinct<K>(keys: seq<K>)
  {
    forall i, j :: 0 <= i < j < |keys| ==> keys[i] != keys[j]
  }

  lemma DistinctTail<K>(keys: seq<K>)
    requires keys != [] && Distinct(keys)
    ensures Distinct(keys[1..]) && keys[0] !in keys[1..]
  {
    var rest := keys[1..];
    forall i, j | 0 <= i < j < |rest|
      ensures rest[i] != rest[j]
    {
      assert rest[i] == keys[i + 1] && rest[j] == keys[j + 1];
    }
    forall i | 0 <= i < |rest|
      ensures rest[i] != keys[0]
    {
      assert rest[i] == keys[i + 1];
    }
  }

  /** The keys after the first are still bound once the first is removed. */
  lemma StillBound<K, V>(m: map<K, V>, keys: seq<K>)
    requires keys != [] && keys[0] !in keys[1..]
    requires forall i :: 0 <= i < |keys| ==> keys[i] in m
    ensures forall i :: 0 <= i < |keys[1..]| ==> keys[1..][i] in m - {keys[0]}
  {
    forall i | 0 <= i < |keys[1..]|
      ensures keys[1..][i] in m - {keys[0]}
    {
      assert keys[1..][i] == keys[i + 1];
    }
  }

  /**
   * Erasing distinct keys that are all bound: every call returns VMAP_OK
   * and exactly those keys are gone.
   */
  lemma {:induction false} EraseAllRemoves<K, V>(hash: K -> Word, st: State<K, V>, keys: seq<K>, blank: Slot<K, V>)
    requires Healthy(hash, st) && IsEmpty(blank) && Distinct(keys)
    requires forall i :: 0 <= i < |keys| ==> keys[i] in Model(st.slots)
    ensures EraseAll(hash, st, keys, blank).1
    ensures Healthy(hash, EraseAll(hash, st, keys, blank).0)
    ensures Model(EraseAll(hash, st, keys, blank).0.slots) == Model(st.slots) - (set k | k in keys)
    decreases |keys|
  {
    if keys != [] {
      var step := Erase(hash, st, keys[0], true, blank);
      EraseBoundHealthy(hash, st, keys[0], blank);
      DistinctTail(keys);
      StillBound(Model(st.slots), keys);
      EraseAllRemoves(hash, step.0, keys[1..], blank);
      RemoveInTurn(Model(st.slots), keys);
    }
  }

  /** Erasing a bound key from a healthy table, shrinking allowed to succeed. */
  lemma EraseBoundHealthy<K, V>(hash: K -> Word, st: State<K, V>, key: K, blank: Slot<K, V>)
    requires Healthy(hash, st) && IsEmpty(blank) && key in Model(st.slots)
    ensures Erase(hash, st, key, true, blank).1 == Ok
    ensures Healthy(hash, Erase(hash, st, key, true, blank).0)
    ensures Model(Erase(hash, st, key, true, blank).0.slots) == Model(st.slots) - {key}
  {
    EraseKeepsValid(hash, st, key, true, blank);
    EraseIsMapRemove(hash, st, key, true, blank);
  }

  lemma RemoveInTurn<K, V>(m: map<K, V>, keys: seq<K>)
    requires keys != []
    ensures (m - {keys[0]}) - (set k | k in keys[1..]) == m - (set k | k in keys)
  {
    assert (set k | k in keys) == {keys[0]} + (set k | k in keys[1..]);
  }

  function Keys<K, V>(kvs: seq<(K, V)>): (ks: seq<K>)
    ensures |ks| == |kvs| && forall i :: 0 <= i < |kvs| ==> ks[i] == kvs[i].0
  {
    seq(|kvs|, i requires 0 <= i < |kvs| => kvs[i].0)
  }

  /** `vmap_find` returns each pair's value for its key. */
  ghost predicate FindsAll<K, V>(hash: K -> Word, s: seq<Slot<K, V>>, kvs: seq<(K, V)>)
  {
    |s| > 0 && forall i :: 0 <= i < |kvs| ==> Find(hash, s, kvs[i].0) == Some(kvs[i].1)
  }

  /** `vmap_find` returns NULL for every key. */
  ghost predicate FindsNone<K(!new), V>(hash: K -> Word, s: seq<Slot<K, V>>)
  {
    |s| > 0 && forall k :: Find(hash, s, k) == None
  }

  /** A healthy table holding exactly a batch finds each of its pairs. */
  lemma HoldsBatchFindsAll<K, V>(hash: K -> Word, st: State<K, V>, kvs: seq<(K, V)>)
    requires Healthy(hash, st) && DistinctKeys(kvs) && Model(st.slots) == Bind(map[], kvs)
    ensures FindsAll(hash, st.slots, kvs)
  {
    forall i | 0 <= i < |kvs|
      ensures Find(hash, st.slots, kvs[i].0) == Some(kvs[i].1)
    {
      BindHasEach(map[], kvs, i);
      FindIsModel(hash, st.slots, kvs[i].0);
    }
  }

  /** A healthy table holding the empty map finds nothing. */
  lemma EmptyFindsNone<K(!new), V>(hash: K -> Word, st: State<K, V>)
    requires Healthy(hash, st) && Model(st.slots) == map[]
    ensures FindsNone(hash, st.slots)
  {
    forall k
      ensures Find(hash, st.slots, k) == None
    {
      FindIsModel(hash, st.slots, k);
    }
  }

  /** Erasing the keys of the batch a healthy table holds empties it. */
  lemma EraseBatchEmpties<K, V>(hash: K -> Word, st: State<K, V>, kvs: seq<(K, V)>, blank: Slot<K, V>)
    requires Healthy(hash, st) && IsEmpty(blank) && DistinctKeys(kvs)
    requires Model(st.slots) == Bind(map[], kvs)
    ensures EraseAll(hash, st, Keys(kvs), blank).1
    ensures Healthy(hash, EraseAll(hash, st, Keys(kvs), blank).0)
    ensures Model(EraseAll(hash, st, Keys(kvs), blank).0.slots) == map[]
  {
    var keys := Keys(kvs);
    forall i, j | 0 <= i < j < |keys|
      ensures keys[i] != keys[j]
    {
    }
    forall i | 0 <= i < |keys|
      ensures keys[i] in Model(st.slots)
    {
      BindHasEach(map[], kvs, i);
    }
    EraseAllRemoves(hash, st, keys, blank);
    forall k | k in Model(st.slots)
      ensures k in (set k' | k' in keys)
    {
      BindOnlyBatch(map[], kvs, k);
      var i :| 0 <= i < |kvs| && kvs[i].0 == k;
      assert keys[i] == k;
    }
  }

  /**
   * The cycle test.c runs, for any batch of distinct keys: insert all into
   * a new table and find each with its value; erase all, after which no
   * key is found; insert all again with the corrected insert and find each
   * with its value again.
   */
  lemma InsertFindEraseReinsert<K(!new), V>(hash: K -> Word, kvs: seq<(K, V)>, blank: Slot<K, V>)
    requires DistinctKeys(kvs) && blank.meta == 0
    ensures InsertAll(hash, Fresh(blank), kvs, blank).1
    ensures FindsAll(hash, InsertAll(hash, Fresh(blank), kvs, blank).0.slots, kvs)
    ensures var st1 := InsertAll(hash, Fresh(blank), kvs, blank).0;
            |st1.slots| > 0 && EraseAll(hash, st1, Keys(kvs), blank).1
            && FindsNone(hash, EraseAll(hash, st1, Keys(kvs), blank).0.slots)
    ensures var st1 := InsertAll(hash, Fresh(blank), kvs, blank).0;
            |st1.slots| > 0 &&
            var st2 := EraseAll(hash, st1, Keys(kvs), blank).0;
            InsertAllCorrected(hash, st2, kvs, blank).1
            && FindsAll(hash, InsertAllCorrected(hash, st2, kvs, blank).0.slots, kvs)
  {
    SpecialWords();
    var st0 := Fresh(blank);
    FreshIsValid(hash, blank);
    InsertAllBinds(hash, st0, kvs, blank);
    var st1 := InsertAll(hash, st0, kvs, blank).0;
    HoldsBatchFindsAll(hash, st1, kvs);
    EraseBatchEmpties(hash, st1, kvs, blank);
    var st2 := EraseAll(hash, st1, Keys(kvs), blank).0;
    EmptyFindsNone(hash, st2);
    InsertAllCorrectedBinds(hash, st2, kvs, blank);
    var st3 := InsertAllCorrected(hash, st2, kvs, blank).0;
    HoldsBatchFindsAll(hash, st3, kvs);
  }

  /** Binding a batch into an empty map binds only the batch's keys. */
  lemma {:induction false} BindOnlyBatch<K, V>(m: map<K, V>, kvs: seq<(K, V)>, k: K)
    requires k in Bind(m, kvs)
    ensures k in m || exists i :: 0 <= i < |kvs| && kvs[i].0 == k
    decreases |kvs|
  {
    if kvs != [] {
      BindOnlyBatch(m[kvs[0].0 := kvs[0].1], kvs[1..], k);
      if k !in m && k != kvs[0].0 {
        var i :| 0 <= i < |kvs[1..]| && kvs[1..][i].0 == k;
        assert kvs[i + 1].0 == k;
      }
    }
  }
}
