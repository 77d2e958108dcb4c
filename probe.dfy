/**
 * Linear probing over a table of n slots (map.go, `Set`, `Get`, `Delete`).
 *
 * A key is looked for from its home slot, `hash(key) & (len - 1)`, stepping
 * to the next slot with wrap-around, `nextIdx(idx) & mod`. The hash is a
 * parameter `h` here: the table's correctness does not depend on which hash
 * is used, and module Word64 shows that the source's mask is `KeyHash(key) % n`.
 *
 * `Reachable` is the invariant that makes lookups work: no empty slot lies
 * between an entry's home slot and the slot that holds it.
 */
module Probe {
  import opened Slots

  /** The slot after i, wrapping to 0 (map.go, `nextIdx(idx) & mod`). */
  function Next(i: int, n: int): (r: int)
    requires 0 <= i < n
    ensures 0 <= r < n && r == (i + 1) % n
  {
    if i + 1 == n then 0 else i + 1
  }

  /** The slot d steps after slot a. */
  function Pos(a: int, d: int, n: int): (r: int)
    requires 0 <= a < n && 0 <= d < n
    ensures 0 <= r < n
  {
    if a + d < n then a + d else a + d - n
  }

  /** The number of steps from slot a forward to slot b. */
  function Dist(a: int, b: int, n: int): (d: int)
    requires 0 <= a < n && 0 <= b < n
    ensures 0 <= d < n && Pos(a, d, n) == b
    ensures d == 0 <==> a == b
  {
    if a <= b then b - a else b - a + n
  }

  /** The home slot of key k: where probing for k starts. */
  function Home(h: int -> int, k: int, n: int): (r: int)
    requires n > 0
    ensures 0 <= r < n
  {
    h(k) % n
  }

  // ---------------------------------------------------------------------
  // Distances

  /** The distance grows by one per step until it wraps back to a. */
  lemma DistNext(a: int, b: int, n: int)
    requires 0 <= a < n && 0 <= b < n
    ensures Dist(a, Next(b, n), n) == if Dist(a, b, n) == n - 1 then 0 else Dist(a, b, n) + 1
  {
  }

  /** Distances add up along a path that does not go all the way round. */
  lemma DistAdd(a: int, b: int, c: int, n: int)
    requires 0 <= a < n && 0 <= b < n && 0 <= c < n
    requires Dist(a, b, n) + Dist(b, c, n) < n
    ensures Dist(a, c, n) == Dist(a, b, n) + Dist(b, c, n)
  {
  }

  /** A slot is determined by its distance from a. */
  lemma DistInjective(a: int, b: int, c: int, n: int)
    requires 0 <= a < n && 0 <= b < n && 0 <= c < n
    ensures Dist(a, b, n) == Dist(a, c, n) ==> b == c
  {
  }

  // ---------------------------------------------------------------------
  // The lookup invariant

  /**
   * Every entry is reachable from its home slot: every slot on the probe
   * path from the home slot of the key in slot j up to j is occupied.
   */
  predicate Reachable<V>(h: int -> int, s: seq<KeyValue<V>>)
  {
    forall j, x {:trigger Dist(Home(h, s[j].key, |s|), x, |s|)} :: 0 <= j < |s| && 0 <= x < |s| && s[j].key != FreeKey
      && Dist(Home(h, s[j].key, |s|), x, |s|) < Dist(Home(h, s[j].key, |s|), j, |s|)
      ==> s[x].key != FreeKey
  }

  /** The first d slots of the probe path from start hold neither an empty slot nor k. */
  predicate Probed<V>(s: seq<KeyValue<V>>, k: int, start: int, d: int)
    requires 0 <= start < |s|
  {
    forall x :: 0 <= x < |s| && Dist(start, x, |s|) < d ==> s[x].key != FreeKey && s[x].key != k
  }

  /** Stepping past a slot that is occupied by another key extends the probed path. */
  lemma ProbeStep<V>(s: seq<KeyValue<V>>, k: int, start: int, idx: int)
    requires 0 <= start < |s| && 0 <= idx < |s|
    requires Probed(s, k, start, Dist(start, idx, |s|))
    requires s[idx].key != FreeKey && s[idx].key != k
    ensures Probed(s, k, start, Dist(start, idx, |s|) + 1)
  {
    forall x | 0 <= x < |s| && Dist(start, x, |s|) < Dist(start, idx, |s|) + 1
      ensures s[x].key != FreeKey && s[x].key != k
    {
      DistInjective(start, x, idx, |s|);
    }
  }

  /**
   * Reaching an empty slot on the probe path from k's home slot proves k
   * absent (map.go, the `freeKey` case of `Get`, `Delete` and `Set`).
   */
  lemma ProbeMiss<V>(h: int -> int, s: seq<KeyValue<V>>, k: int, idx: int)
    requires Reachable(h, s) && k != FreeKey && 0 <= idx < |s|
    requires Probed(s, k, Home(h, k, |s|), Dist(Home(h, k, |s|), idx, |s|))
    requires s[idx].key == FreeKey
    ensures k !in Mapping(s)
  {
    var start := Home(h, k, |s|);
    forall j | 0 <= j < |s|
      ensures s[j].key != k
    {
      DistInjective(start, idx, j, |s|);
    }
    MappingDomain(s, k);
  }

  /** Probing all the way round without meeting k proves k absent (map.go:228-230). */
  lemma ProbeWrapped<V>(s: seq<KeyValue<V>>, k: int, start: int)
    requires 0 <= start < |s| && Probed(s, k, start, |s|)
    ensures k !in Mapping(s)
  {
    MappingDomain(s, k);
  }

  /** The probe path of k meets an empty slot no later than at a given empty slot e. */
  lemma ProbeBound<V>(s: seq<KeyValue<V>>, k: int, start: int, d: int, e: int)
    requires 0 <= start < |s| && 0 <= e < |s| && s[e].key == FreeKey
    requires Probed(s, k, start, d)
    ensures d <= Dist(start, e, |s|)
  {
  }

  // ---------------------------------------------------------------------
  // Keeping the invariant

  /** A table with no entry satisfies the invariant. */
  lemma EmptyReachable<V>(h: int -> int, s: seq<KeyValue<V>>)
    requires forall j :: 0 <= j < |s| ==> s[j].key == FreeKey
    ensures Reachable(h, s)
  {
  }

  /**
   * Storing a new key into the first empty slot of its probe path keeps
   * every entry reachable, the new one included (map.go:176-181).
   */
  lemma InsertReachable<V>(h: int -> int, s: seq<KeyValue<V>>, idx: int, e: KeyValue<V>)
    requires Reachable(h, s) && 0 <= idx < |s| && s[idx].key == FreeKey && e.key != FreeKey
    requires Probed(s, e.key, Home(h, e.key, |s|), Dist(Home(h, e.key, |s|), idx, |s|))
    ensures Reachable(h, s[idx := e])
  {
  }

  /** Replacing an entry's value keeps every entry reachable (map.go:179-181). */
  lemma OverwriteReachable<V>(h: int -> int, s: seq<KeyValue<V>>, idx: int, e: KeyValue<V>)
    requires Reachable(h, s) && 0 <= idx < |s| && s[idx].key == e.key
    ensures Reachable(h, s[idx := e])
  {
  }

  /**
   * Storing entry e into the slot where the probe for its key stopped (an
   * empty slot, or the slot holding the key) maps the key to e's value, adds
   * one entry when the slot was empty, and keeps keys distinct and every
   * entry reachable (map.go:172-184).
   */
  lemma StoreEntry<V>(h: int -> int, s: seq<KeyValue<V>>, idx: int, e: KeyValue<V>)
    requires Reachable(h, s) && DistinctKeys(s) && e.key != FreeKey && 0 <= idx < |s|
    requires Probed(s, e.key, Home(h, e.key, |s|), Dist(Home(h, e.key, |s|), idx, |s|))
    requires s[idx].key == FreeKey || s[idx].key == e.key
    ensures e.key in Mapping(s) <==> s[idx].key == e.key
    ensures e.key in Mapping(s) ==> idx == SlotOf(s, e.key)
    ensures Mapping(s[idx := e]) == Mapping(s)[e.key := e.value]
    ensures Count(s[idx := e]) == Count(s) + (if s[idx].key == FreeKey then 1 else 0)
    ensures DistinctKeys(s[idx := e]) && Reachable(h, s[idx := e])
  {
    CountStore(s, idx, e);
    if s[idx].key == FreeKey {
      ProbeMiss(h, s, e.key, idx);
      MappingStoreNew(s, idx, e);
      DistinctStoreNew(s, idx, e);
      InsertReachable(h, s, idx, e);
    } else {
      MappingValue(s, idx);
      assert idx == SlotOf(s, e.key);
      MappingStoreSame(s, idx, e);
      DistinctStoreSame(s, idx, e);
      OverwriteReachable(h, s, idx, e);
    }
  }
}
