/**
 * Facts about slot sequences: how the two counters' reference counts and
 * the abstract map change when one slot is rewritten.
 */
module VmapSlots {

  import opened Bits
  import opened VmapMeta
  import opened VmapSpec

  function Bit(b: bool): nat { if b then 1 else 0 }

  /** Rewriting one slot changes each count by that slot's contribution only. */
  lemma {:induction false} CountsUpdate<K, V>(s: seq<Slot<K, V>>, i: nat, y: Slot<K, V>)
    requires i < |s|
    ensures CountFull(s[i := y]) + Bit(IsFull(s[i])) == CountFull(s) + Bit(IsFull(y))
    ensures CountUsed(s[i := y]) + Bit(!IsEmpty(s[i])) == CountUsed(s) + Bit(!IsEmpty(y))
    decreases |s|
  {
    var t := s[i := y];
    var n := |s| - 1;
    if i == n {
      assert t[..n] == s[..n];
    } else {
      assert t[..n] == s[..n][i := y];
      CountsUpdate(s[..n], i, y);
    }
  }

  /** Rewriting one slot swaps that slot's contribution to the FULL slots. */
  lemma {:induction false} FullSlotsUpdate<K, V>(s: seq<Slot<K, V>>, i: nat, y: Slot<K, V>)
    requires i < |s|
    ensures FullSlots(s[i := y]) + FullPart(s[i]) == FullSlots(s) + FullPart(y)
    decreases |s|
  {
    var t := s[i := y];
    var n := |s| - 1;
    if i == n {
      assert t[..n] == s[..n];
    } else {
      assert t[..n] == s[..n][i := y];
      FullSlotsUpdate(s[..n], i, y);
    }
  }

  /** Dropping the last slot. */
  lemma CountsPrefix<K, V>(s: seq<Slot<K, V>>, n: nat)
    requires 0 < n <= |s|
    ensures CountFull(s[..n]) == CountFull(s[..n - 1]) + Bit(IsFull(s[n - 1]))
    ensures CountUsed(s[..n]) == CountUsed(s[..n - 1]) + Bit(!IsEmpty(s[n - 1]))
  {
    assert s[..n][..n - 1] == s[..n - 1];
  }

  /** Dropping the last slot drops its contribution to the FULL slots. */
  lemma FullSlotsPrefix<K, V>(s: seq<Slot<K, V>>, n: nat)
    requires 0 < n <= |s|
    ensures FullSlots(s[..n]) == FullSlots(s[..n - 1]) + FullPart(s[n - 1])
  {
    assert s[..n][..n - 1] == s[..n - 1];
  }

  /** A prefix holds no more FULL slots than the whole sequence. */
  lemma {:induction false} CountFullPrefixBound<K, V>(s: seq<Slot<K, V>>, n: nat)
    requires n <= |s|
    ensures CountFull(s[..n]) <= CountFull(s)
    decreases |s| - n
  {
    if n < |s| {
      CountsPrefix(s, n + 1);
      CountFullPrefixBound(s, n + 1);
    } else {
      assert s[..n] == s;
    }
  }

  /** A FULL slot is used, so there are never more FULL slots than used ones. */
  lemma {:induction false} FullAtMostUsed<K, V>(s: seq<Slot<K, V>>)
    ensures CountFull(s) <= CountUsed(s)
  {
    if s != [] {
      FullAtMostUsed(s[..|s| - 1]);
    }
  }

  /** In a sequence of only EMPTY and FULL slots the two counts agree. */
  lemma {:induction false} CountsAgree<K, V>(s: seq<Slot<K, V>>)
    requires forall i :: 0 <= i < |s| ==> IsEmpty(s[i]) || IsFull(s[i])
    ensures CountFull(s) == CountUsed(s)
  {
    if s != [] {
      CountsAgree(s[..|s| - 1]);
    }
  }

  /** Fewer used slots than slots leaves an EMPTY one. */
  lemma {:induction false} EmptyExists<K, V>(s: seq<Slot<K, V>>)
    requires CountUsed(s) < |s|
    ensures HasEmpty(s)
  {
    var n := |s| - 1;
    if !IsEmpty(s[n]) {
      EmptyExists(s[..n]);
      var i :| 0 <= i < n && IsEmpty(s[..n][i]);
      assert IsEmpty(s[i]);
    }
  }

  /** Fewer FULL slots than slots leaves one that is not FULL. */
  lemma {:induction false} NonFullExists<K, V>(s: seq<Slot<K, V>>) returns (j: nat)
    requires CountFull(s) < |s|
    ensures j < |s| && !IsFull(s[j])
  {
    var n := |s| - 1;
    if IsFull(s[n]) {
      j := NonFullExists(s[..n]);
    } else {
      j := n;
    }
  }

  /** A sequence of one repeated EMPTY slot counts nothing. */
  lemma {:induction false} BlankCounts<K, V>(cap: nat, blank: Slot<K, V>)
    requires IsEmpty(blank)
    ensures CountFull(seq(cap, _ => blank)) == 0 && CountUsed(seq(cap, _ => blank)) == 0
    ensures FullSlots(seq(cap, _ => blank)) == multiset{}
  {
    if cap > 0 {
      assert seq(cap, _ => blank)[..cap - 1] == seq(cap - 1, _ => blank);
      BlankCounts(cap - 1, blank);
    }
  }

  /** Overwriting the value of a FULL slot rebinds its key and nothing else. */
  lemma ModelUpdateValue<K, V>(s: seq<Slot<K, V>>, i: nat, value: V)
    requires NoDup(s) && i < |s| && IsFull(s[i])
    ensures NoDup(s[i := s[i].(value := value)])
    ensures Model(s[i := s[i].(value := value)]) == Model(s)[s[i].key := value]
  {
    NoDupUpdateValue(s, i, value);
    UpdatedKeysStay(s, i, value);
    UpdatedKeysOnly(s, i, value);
  }

  /** After the overwrite, every key is still there, and only the written key changes its value. */
  lemma UpdatedKeysStay<K, V>(s: seq<Slot<K, V>>, i: nat, value: V)
    requires NoDup(s) && i < |s| && IsFull(s[i]) && NoDup(s[i := s[i].(value := value)])
    ensures var m, m' := Model(s), Model(s[i := s[i].(value := value)]);
            s[i].key in m' && m'[s[i].key] == value
            && forall k :: k in m && k != s[i].key ==> k in m' && m'[k] == m[k]
  {
    var t := s[i := s[i].(value := value)];
    var m, m' := Model(s), Model(t);
    assert IsFull(t[i]) && t[i].key == s[i].key;
    forall k | k in m && k != s[i].key
      ensures k in m' && m'[k] == m[k]
    {
      var j :| 0 <= j < |s| && IsFull(s[j]) && s[j].key == k;
      assert j != i && t[j] == s[j];
    }
  }

  /** After the overwrite, no key is there that was not there before. */
  lemma UpdatedKeysOnly<K, V>(s: seq<Slot<K, V>>, i: nat, value: V)
    requires NoDup(s) && i < |s| && IsFull(s[i]) && NoDup(s[i := s[i].(value := value)])
    ensures var m, m' := Model(s), Model(s[i := s[i].(value := value)]);
            forall k :: k in m' ==> k in m
  {
    var t := s[i := s[i].(value := value)];
    var m, m' := Model(s), Model(t);
    forall k | k in m'
      ensures k in m
    {
      var j :| 0 <= j < |t| && IsFull(t[j]) && t[j].key == k;
      assert t[j].meta == s[j].meta && t[j].key == s[j].key;
    }
  }


  /** Writing an entry for an absent key into a slot that is not FULL adds that binding. */
  lemma ModelPlace<K, V>(s: seq<Slot<K, V>>, j: nat, x: Slot<K, V>)
    requires NoDup(s) && j < |s| && !IsFull(s[j]) && IsFull(x) && x.key !in Model(s)
    ensures NoDup(s[j := x])
    ensures Model(s[j := x]) == Model(s)[x.key := x.value]
  {
    var t := s[j := x];
    assert NoDup(t);
    var m, m' := Model(s), Model(t);
    forall k | k in m'
      ensures k in m[x.key := x.value] && m'[k] == m[x.key := x.value][k]
    {
      var i :| 0 <= i < |t| && IsFull(t[i]) && t[i].key == k;
      if i != j {
        assert IsFull(s[i]) && s[i].key == k;
      }
    }
    forall k | k in m[x.key := x.value]
      ensures k in m'
    {
      if k != x.key {
        var i :| 0 <= i < |s| && IsFull(s[i]) && s[i].key == k;
        assert t[i] == s[i];
      } else {
        assert IsFull(t[j]) && t[j].key == k;
      }
    }
  }

  /** Overwriting the value of a FULL slot keeps keys unique. */
  lemma NoDupUpdateValue<K, V>(s: seq<Slot<K, V>>, i: nat, value: V)
    requires NoDup(s) && i < |s| && IsFull(s[i])
    ensures NoDup(s[i := s[i].(value := value)])
  {
    var t := s[i := s[i].(value := value)];
    forall a, b | 0 <= a < b < |t| && IsFull(t[a]) && IsFull(t[b])
      ensures t[a].key != t[b].key
    {
      assert t[a].meta == s[a].meta && t[a].key == s[a].key;
      assert t[b].meta == s[b].meta && t[b].key == s[b].key;
    }
  }

  /** Marking a slot DELETED keeps keys unique. */
  lemma NoDupErase<K, V>(s: seq<Slot<K, V>>, i: nat)
    requires NoDup(s) && i < |s| && IsFull(s[i])
    ensures NoDup(s[i := s[i].(meta := DELETED)])
  {
    SpecialWords();
    var t := s[i := s[i].(meta := DELETED)];
    forall a, b | 0 <= a < b < |t| && IsFull(t[a]) && IsFull(t[b])
      ensures t[a].key != t[b].key
    {
      assert a != i && b != i;
      assert t[a] == s[a] && t[b] == s[b];
    }
  }

  /** Turning a FULL slot into a tombstone removes exactly its key. */
  lemma ModelErase<K, V>(s: seq<Slot<K, V>>, i: nat)
    requires NoDup(s) && i < |s| && IsFull(s[i])
    ensures NoDup(s[i := s[i].(meta := DELETED)])
    ensures Model(s[i := s[i].(meta := DELETED)]) == Model(s) - {s[i].key}
  {
    NoDupErase(s, i);
    ErasedKeysShrink(s, i);
    ErasedKeysStay(s, i);
  }

  /** After the erase, every key left was there before, with its value, and is not the erased key. */
  lemma ErasedKeysShrink<K, V>(s: seq<Slot<K, V>>, i: nat)
    requires NoDup(s) && i < |s| && IsFull(s[i]) && NoDup(s[i := s[i].(meta := DELETED)])
    ensures var m, m' := Model(s), Model(s[i := s[i].(meta := DELETED)]);
            forall k :: k in m' ==> k in m && k != s[i].key && m'[k] == m[k]
  {
    SpecialWords();
    var t := s[i := s[i].(meta := DELETED)];
    var m, m' := Model(s), Model(t);
    forall k | k in m'
      ensures k in m && k != s[i].key && m'[k] == m[k]
    {
      var j :| 0 <= j < |t| && IsFull(t[j]) && t[j].key == k;
      assert j != i && s[j] == t[j];
    }
  }

  /** After the erase, every other key is still there. */
  lemma ErasedKeysStay<K, V>(s: seq<Slot<K, V>>, i: nat)
    requires NoDup(s) && i < |s| && IsFull(s[i]) && NoDup(s[i := s[i].(meta := DELETED)])
    ensures var m, m' := Model(s), Model(s[i := s[i].(meta := DELETED)]);
            forall k :: k in m && k != s[i].key ==> k in m'
  {
    var t := s[i := s[i].(meta := DELETED)];
    var m, m' := Model(s), Model(t);
    forall k | k in m && k != s[i].key
      ensures k in m'
    {
      var j :| 0 <= j < |s| && IsFull(s[j]) && s[j].key == k;
      assert j != i && t[j] == s[j];
    }
  }

}
