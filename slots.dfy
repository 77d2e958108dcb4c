/**
 * The slot array of the map (map.go, `es []KeyValue`), as a sequence.
 *
 * A slot whose key is `FreeKey` (0) is empty; every other slot holds one
 * entry. `Mapping` is what the slots mean: the key-to-value map of the
 * occupied slots. The lemmas say how a store into one slot or the clearing
 * of one slot changes that meaning, the number of occupied slots (the
 * map's `size`) and the uniqueness of keys.
 */
module Slots {

  /** The key that marks an empty slot (map.go, `freeKey`). */
  const FreeKey: int := 0

  /** One slot: a key and its value (map.go, `KeyValue`). */
  datatype KeyValue<V> = KeyValue(key: int, value: V)

  /** Slot i of s holds an entry. */
  predicate Occupied<V>(s: seq<KeyValue<V>>, i: int)
  {
    0 <= i < |s| && s[i].key != FreeKey
  }

  /** No key is held by two slots. */
  predicate DistinctKeys<V>(s: seq<KeyValue<V>>)
  {
    forall i, j :: 0 <= i < |s| && 0 <= j < |s| && i != j && s[i].key != FreeKey ==> s[i].key != s[j].key
  }

  /** The number of occupied slots. */
  function Count<V>(s: seq<KeyValue<V>>): (c: nat)
    ensures c <= |s|
  {
    if |s| == 0 then 0
    else Count(s[..|s| - 1]) + (if s[|s| - 1].key != FreeKey then 1 else 0)
  }

  /** The entries held by the slots, as a map. */
  function Mapping<V>(s: seq<KeyValue<V>>): map<int, V>
  {
    if |s| == 0 then map[]
    else
      var m := Mapping(s[..|s| - 1]);
      var e := s[|s| - 1];
      if e.key != FreeKey then m[e.key := e.value] else m
  }

  /** The keys of the occupied slots, in slot order. */
  function NonzeroKeys<V>(s: seq<KeyValue<V>>): seq<int>
  {
    if |s| == 0 then []
    else NonzeroKeys(s[..|s| - 1]) + (if s[|s| - 1].key != FreeKey then [s[|s| - 1].key] else [])
  }

  /** The least empty slot of a table that is not full. */
  function FirstEmpty<V>(s: seq<KeyValue<V>>): (i: nat)
    requires Count(s) < |s|
    ensures i < |s| && s[i].key == FreeKey
    ensures forall j :: 0 <= j < i ==> s[j].key != FreeKey
  {
    var p := s[..|s| - 1];
    if Count(p) < |p| then
      var i := FirstEmpty(p);
      assert forall j :: 0 <= j < i ==> s[j] == p[j];
      i
    else
      assert Count(p) == |p|;
      AllOccupied(p);
      |s| - 1
  }

  // ---------------------------------------------------------------------
  // Count

  lemma {:induction false} AllOccupied<V>(s: seq<KeyValue<V>>)
    requires Count(s) == |s|
    ensures forall j :: 0 <= j < |s| ==> s[j].key != FreeKey
  {
    if |s| > 0 {
      var p := s[..|s| - 1];
      assert Count(p) == |p|;
      AllOccupied(p);
      assert forall j :: 0 <= j < |p| ==> s[j] == p[j];
    }
  }

  /** A table with no entry has count 0, an empty mapping and no keys. */
  lemma {:induction false} NoEntries<V>(s: seq<KeyValue<V>>)
    requires forall j :: 0 <= j < |s| ==> s[j].key == FreeKey
    ensures Count(s) == 0 && Mapping(s) == map[] && NonzeroKeys(s) == []
  {
    if |s| > 0 {
      var p := s[..|s| - 1];
      assert forall j :: 0 <= j < |p| ==> p[j] == s[j];
      NoEntries(p);
    }
  }

  /** A prefix of the table holds no more entries than the whole. */
  lemma {:induction false} CountPrefix<V>(s: seq<KeyValue<V>>, i: int)
    requires 0 <= i <= |s|
    ensures Count(s[..i]) <= Count(s)
    decreases |s|
  {
    if i < |s| {
      var p := s[..|s| - 1];
      assert p[..i] == s[..i];
      CountPrefix(p, i);
    } else {
      assert s[..i] == s;
    }
  }

  /** Extending a prefix of the table by the next slot. */
  lemma PrefixStep<V>(s: seq<KeyValue<V>>, i: int)
    requires 0 <= i < |s|
    ensures Count(s[..i + 1]) == Count(s[..i]) + (if s[i].key != FreeKey then 1 else 0)
    ensures Mapping(s[..i + 1])
      == if s[i].key != FreeKey then Mapping(s[..i])[s[i].key := s[i].value] else Mapping(s[..i])
    ensures DistinctKeys(s) && s[i].key != FreeKey ==> s[i].key !in Mapping(s[..i]) && Count(s[..i]) < Count(s)
  {
    var p := s[..i + 1];
    assert p[..i] == s[..i];
    CountPrefix(s, i + 1);
    if DistinctKeys(s) && s[i].key != FreeKey {
      assert forall a :: 0 <= a < |p| ==> p[a] == s[a];
      LastKeyNew(p);
    }
  }

  /** Storing an entry into one slot changes the count by the change of that slot's occupancy. */
  lemma {:induction false} CountStore<V>(s: seq<KeyValue<V>>, i: int, e: KeyValue<V>)
    requires 0 <= i < |s|
    ensures Count(s[i := e]) == Count(s)
      - (if s[i].key != FreeKey then 1 else 0) + (if e.key != FreeKey then 1 else 0)
  {
    var t := s[i := e];
    var n := |s| - 1;
    if i < n {
      assert t[..n] == s[..n][i := e];
      CountStore(s[..n], i, e);
    } else {
      assert t[..n] == s[..n];
    }
  }

  // ---------------------------------------------------------------------
  // Mapping

  /** A key is mapped exactly when it is nonzero and some slot holds it. */
  lemma {:induction false} MappingDomain<V>(s: seq<KeyValue<V>>, k: int)
    ensures k in Mapping(s) <==> k != FreeKey && exists i :: 0 <= i < |s| && s[i].key == k
  {
    if |s| > 0 {
      var n := |s| - 1;
      var p := s[..n];
      MappingDomain(p, k);
      if k in Mapping(p) {
        var i :| 0 <= i < |p| && p[i].key == k;
        assert s[i].key == k;
      }
      if k != FreeKey && (exists i :: 0 <= i < |s| && s[i].key == k) {
        var i :| 0 <= i < |s| && s[i].key == k;
        if i < n {
          assert p[i].key == k;
        }
      }
    }
  }

  /** A slot that holds the mapped key k. */
  ghost function SlotOf<V>(s: seq<KeyValue<V>>, k: int): (i: int)
    requires k in Mapping(s)
    ensures Occupied(s, i) && s[i].key == k
  {
    MappingDomain(s, k);
    var i :| 0 <= i < |s| && s[i].key == k; i
  }

  /** With distinct keys, the key of the last slot is not held by any earlier slot. */
  lemma LastKeyNew<V>(s: seq<KeyValue<V>>)
    requires DistinctKeys(s) && |s| > 0 && s[|s| - 1].key != FreeKey
    ensures s[|s| - 1].key !in Mapping(s[..|s| - 1])
  {
    var n := |s| - 1;
    var p := s[..n];
    forall j | 0 <= j < n
      ensures p[j].key != s[n].key
    {
      assert p[j] == s[j];
    }
    MappingDomain(p, s[n].key);
  }

  /** With distinct keys, an occupied slot's entry is what the mapping holds for its key. */
  lemma {:induction false} MappingValue<V>(s: seq<KeyValue<V>>, i: int)
    requires DistinctKeys(s) && Occupied(s, i)
    ensures s[i].key in Mapping(s) && Mapping(s)[s[i].key] == s[i].value
  {
    var n := |s| - 1;
    var p := s[..n];
    if i < n {
      assert DistinctKeys(p) by {
        assert forall a :: 0 <= a < |p| ==> p[a] == s[a];
      }
      MappingValue(p, i);
      assert s[n].key != s[i].key;
    }
  }

  /** Storing an entry with a new key into an empty slot adds that key. */
  lemma {:induction false} MappingStoreNew<V>(s: seq<KeyValue<V>>, i: int, e: KeyValue<V>)
    requires 0 <= i < |s| && s[i].key == FreeKey && e.key != FreeKey && e.key !in Mapping(s)
    ensures Mapping(s[i := e]) == Mapping(s)[e.key := e.value]
  {
    var t := s[i := e];
    var n := |s| - 1;
    if i < n {
      assert t[..n] == s[..n][i := e];
      MappingDomain(s, e.key);
      assert s[n].key != e.key;
      MappingDomain(s[..n], e.key);
      MappingStoreNew(s[..n], i, e);
    } else {
      assert t[..n] == s[..n];
    }
  }

  /** Storing an entry over the slot holding the same key replaces that key's value. */
  lemma {:induction false} MappingStoreSame<V>(s: seq<KeyValue<V>>, i: int, e: KeyValue<V>)
    requires DistinctKeys(s) && Occupied(s, i) && s[i].key == e.key
    ensures Mapping(s[i := e]) == Mapping(s)[e.key := e.value]
  {
    var t := s[i := e];
    var n := |s| - 1;
    var p := s[..n];
    if i < n {
      assert t[..n] == p[i := e];
      assert DistinctKeys(p) by {
        assert forall a :: 0 <= a < |p| ==> p[a] == s[a];
      }
      MappingStoreSame(p, i, e);
      assert s[n].key != e.key;
    } else {
      assert t[..n] == p;
      LastKeyNew(s);
    }
  }

  /** Clearing the slot of a key removes that key and nothing else. */
  lemma {:induction false} MappingClear<V>(s: seq<KeyValue<V>>, i: int, e: KeyValue<V>)
    requires DistinctKeys(s) && Occupied(s, i) && e.key == FreeKey
    ensures Mapping(s[i := e]) == Mapping(s) - {s[i].key}
  {
    var t := s[i := e];
    var n := |s| - 1;
    var p := s[..n];
    if i < n {
      assert t[..n] == p[i := e];
      assert DistinctKeys(p) by {
        assert forall a :: 0 <= a < |p| ==> p[a] == s[a];
      }
      MappingClear(p, i, e);
      assert s[n].key != s[i].key;
    } else {
      assert t[..n] == p;
      LastKeyNew(s);
    }
  }

  // ---------------------------------------------------------------------
  // Distinct keys

  lemma DistinctStoreNew<V>(s: seq<KeyValue<V>>, i: int, e: KeyValue<V>)
    requires DistinctKeys(s) && 0 <= i < |s| && s[i].key == FreeKey && e.key !in Mapping(s)
    ensures DistinctKeys(s[i := e])
  {
    forall a | 0 <= a < |s| && a != i && s[a].key != FreeKey
      ensures s[a].key != e.key
    {
      MappingDomain(s, s[a].key);
    }
  }

  lemma DistinctStoreSame<V>(s: seq<KeyValue<V>>, i: int, e: KeyValue<V>)
    requires DistinctKeys(s) && 0 <= i < |s| && s[i].key == e.key
    ensures DistinctKeys(s[i := e])
  {
  }

  lemma DistinctClear<V>(s: seq<KeyValue<V>>, i: int, e: KeyValue<V>)
    requires DistinctKeys(s) && 0 <= i < |s| && e.key == FreeKey
    ensures DistinctKeys(s[i := e])
  {
  }

  /** With distinct keys the mapping has one key per occupied slot. */
  lemma {:induction false} MappingSize<V>(s: seq<KeyValue<V>>)
    requires DistinctKeys(s)
    ensures |Mapping(s)| == Count(s)
  {
    if |s| > 0 {
      var n := |s| - 1;
      var p := s[..n];
      assert DistinctKeys(p) by {
        assert forall a :: 0 <= a < |p| ==> p[a] == s[a];
      }
      MappingSize(p);
      var k := s[n].key;
      if k != FreeKey {
        LastKeyNew(s);
        var m := Mapping(p);
        assert m[k := s[n].value].Keys == m.Keys + {k};
      }
    }
  }

  // ---------------------------------------------------------------------
  // Keys in slot order

  /** There is one key in slot order per occupied slot. */
  lemma {:induction false} NonzeroKeysCount<V>(s: seq<KeyValue<V>>)
    ensures |NonzeroKeys(s)| == Count(s)
  {
    if |s| > 0 {
      NonzeroKeysCount(s[..|s| - 1]);
    }
  }

  /** The keys in slot order are the mapped keys, one per occupied slot, without repetition. */
  lemma {:induction false} NonzeroKeysSpec<V>(s: seq<KeyValue<V>>)
    requires DistinctKeys(s)
    ensures forall k :: k in NonzeroKeys(s) <==> k in Mapping(s)
    ensures forall a, b :: 0 <= a < b < |NonzeroKeys(s)| ==> NonzeroKeys(s)[a] != NonzeroKeys(s)[b]
  {
    if |s| > 0 {
      var n := |s| - 1;
      var p := s[..n];
      assert DistinctKeys(p) by {
        assert forall a :: 0 <= a < |p| ==> p[a] == s[a];
      }
      NonzeroKeysSpec(p);
      var k := s[n].key;
      if k != FreeKey {
        LastKeyNew(s);
        MappingDomain(p, k);
      }
    }
  }
}
