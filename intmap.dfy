/**
 * The map of int keys (map.go, `Map` and `Iterator`), as classes over an
 * array of slots, for the 64-bit build (map_64.go).
 *
 * `Valid` is the invariant every operation keeps: the slot array is empty
 * (the zero Map) or a power of two long and never full, `size` counts its
 * entries, no key is held twice, and every entry is reachable from its home
 * slot by linear probing. `Contents` is what a Map means: the entries of the
 * slots plus the entry of key 0, which is kept outside the array.
 */
module IntMap {
  import opened Word64
  import opened Slots
  import opened Probe
  import opened Backshift
  import opened Iteration

  /** `hash(key) & mod`: the home slot of key in a table of n slots. */
  method HomeSlot(key: int, n: int) returns (r: int)
    requires IsPow2(n) && n <= 0x4000_0000_0000_0000
    ensures r == Home(KeyHash, key, n)
  {
    HomeIsMask(key, n);
    r := ToInt(Hash(FromInt(key)) & FromInt(n - 1));
  }

  /** `nextIdx(idx) & mod`: the slot after idx in a table of n slots. */
  method NextSlot(idx: int, n: int) returns (r: int)
    requires IsPow2(n) && n <= 0x4000_0000_0000_0000 && 0 <= idx < n
    ensures r == Next(idx, n)
  {
    MaskIsMod(idx + 1, n);
    r := ToInt(FromInt(idx + 1) & FromInt(n - 1));
  }

  /**
   * `nextPowerOf2` on a capacity that Init accepts: the least power of two
   * not below a positive capacity, and 0 for the others.
   */
  method RoundUpCapacity(capacity: int) returns (r: int)
    requires MinInt < capacity <= 0x4000_0000_0000_0000
    ensures capacity >= 1 ==> IsPow2(r) && capacity <= r < 2 * capacity && r <= 0x4000_0000_0000_0000
    ensures capacity <= 0 ==> r == 0
  {
    r := NextPowerOf2Int(capacity);
    if capacity >= 1 {
      NextPowerOf2RoundsUp(capacity);
      Pow2WithinLimit(r);
    } else {
      NextPowerOf2NonPositive(capacity);
    }
  }

  /** The entries of the slots m, plus key 0 mapped to v when present. */
  ghost function WithFreeKey<V>(m: map<int, V>, present: bool, v: V): map<int, V>
  {
    if present then m[FreeKey := v] else m
  }

  /** A change to a nonzero key of the slots is the same change to the whole map. */
  lemma WithFreeKeyUpdate<V>(m: map<int, V>, present: bool, v: V, k: int, x: V)
    requires k != FreeKey
    ensures WithFreeKey(m[k := x], present, v) == WithFreeKey(m, present, v)[k := x]
    ensures WithFreeKey(m - {k}, present, v) == WithFreeKey(m, present, v) - {k}
    ensures k in WithFreeKey(m, present, v) <==> k in m
  {
  }

  /**
   * The slots a differ from t only at the gap `last`; copying the entry of
   * idx into the gap leaves them differing from the shifted t only at the
   * new gap idx.
   */
  lemma GapMoves<V>(a: seq<KeyValue<V>>, t: seq<KeyValue<V>>, last: int, idx: int, e: KeyValue<V>)
    requires |a| == |t| && 0 <= last < |t| && 0 <= idx < |t| && last != idx && a == t[last := a[last]]
    ensures a[last := a[idx]] == t[last := t[idx]][idx := e][idx := a[idx]]
  {
  }

  /** Keys 3 and 8 share home slot 3 in a table of 4 slots. */
  lemma ThreeAndEightCollide()
    ensures Home(KeyHash, 3, 4) == 3 && Home(KeyHash, 8, 4) == 3
  {
    HomeIsMask(3, 4);
    HomeIsMask(8, 4);
    SmallWords();
    assert Hash(3) & 3 == 3 && Hash(8) & 3 == 3;
  }

  /**
   * The wrap-around repeat under the hash of the map: with 8 in slot 0 and
   * 3 in slot 3 of a four-slot table, deleting 3 once the iterator has
   * returned it moves 8 into slot 3, and the iterator reports 8 again.
   */
  lemma DeleteReturnedRepeatsUnderHash<V>(zero: V)
    ensures var s := [KeyValue(8, zero), Empty(zero), Empty(zero), KeyValue(3, zero)];
      Reachable(KeyHash, s) && DistinctKeys(s) && Count(s) < |s|
      && PendingFrom(s, 0, FreeKey) == [8] + NonzeroKeys(s[1..])
      && PendingFrom(s, 3, 3) == []
      && PendingFrom(Erase(KeyHash, s, 3, zero), 3, 3) == [8]
  {
    ThreeAndEightCollide();
    DeleteReturnedRepeatsOnWrap(KeyHash, 8, 3, zero);
  }

  /**
   * `New`: a Map with room for capacity entries. `rawThreshold(c)` stands
   * for `int(float32(c) * fillratio)`, the fill ratio applied to c slots.
   */
  method New<V>(capacity: int, rawThreshold: int -> int, zero: V) returns (m: Map<V>)
    requires MinInt < capacity <= 0x4000_0000_0000_0000
    ensures fresh(m) && fresh(m.es) && m.Valid() && m.Contents() == map[] && m.size == 0
    ensures m.zero == zero && m.freeKeyValue == zero && !m.hasFreeKey
    ensures IsPow2(m.es.Length) && 2 <= m.es.Length && capacity <= m.es.Length
    ensures m.es.Length == 2 || m.es.Length < 2 * capacity
    ensures IsPow2(capacity) && 2 <= capacity ==> m.es.Length == capacity
    ensures var raw := rawThreshold(m.es.Length);
      m.threshold == if raw <= 0 then 1 else if raw >= m.es.Length then m.es.Length - 1 else raw
  {
    m := new Map(zero);
    m.Init(capacity, rawThreshold);
    if IsPow2(capacity) && 2 <= capacity {
      Pow2Between(capacity, m.es.Length);
    }
  }

  class Map<V> {
    var es: array<KeyValue<V>>
    var size: int
    var threshold: int
    var freeKeyValue: V
    var hasFreeKey: bool
    /** The zero value of the value type (Go's nil `Value`). */
    const zero: V

    ghost predicate Valid()
      reads this, es
    {
      && (es.Length == 0 ==> threshold == 0)
      && (es.Length > 0 ==>
            IsPow2(es.Length) && es.Length <= 0x4000_0000_0000_0000 && 1 <= threshold < es.Length)
      && 0 <= size <= threshold
      && size == Count(es[..])
      && DistinctKeys(es[..])
      && Reachable(KeyHash, es[..])
    }

    /** The entries of the map: those in the slots, and key 0 when it is set. */
    ghost function Contents(): map<int, V>
      reads this, es
    {
      WithFreeKey(Mapping(es[..]), hasFreeKey, freeKeyValue)
    }

    /** The zero Map (`var m Map`): no slots; the first Set allocates them. */
    constructor (zero: V)
      ensures Valid() && fresh(es) && Contents() == map[] && es.Length == 0 && size == 0 && threshold == 0
      ensures this.zero == zero && freeKeyValue == zero && !hasFreeKey
    {
      this.zero := zero;
      es := new KeyValue<V>[0];
      size := 0;
      threshold := 0;
      freeKeyValue := zero;
      hasFreeKey := false;
    }

    /**
     * `Init`: empties the map and gives it the least power of two slots that
     * is at least capacity and at least 2, and a threshold of the fill ratio
     * applied to them, kept between 1 and one less than the slot count.
     */
    method Init(capacity: int, rawThreshold: int -> int)
      requires MinInt < capacity <= 0x4000_0000_0000_0000
      modifies this
      ensures Valid() && fresh(es) && Contents() == map[] && size == 0
      ensures freeKeyValue == zero && !hasFreeKey
      ensures IsPow2(es.Length) && 2 <= es.Length && capacity <= es.Length
      ensures es.Length == 2 || es.Length < 2 * capacity
      ensures var raw := rawThreshold(es.Length);
        threshold == if raw <= 0 then 1 else if raw >= es.Length then es.Length - 1 else raw
    {
      var c := RoundUpCapacity(capacity);
      // the source panics when c < 0, which the precondition rules out
      if c < 2 {
        c := 2;
      }
      var t := rawThreshold(c);
      if t <= 0 {
        t := 1;
      } else if t >= c {
        t := c - 1;
      }
      Allocate(c, t);
      freeKeyValue := zero;
      hasFreeKey := false;
    }

    /** `make([]KeyValue, n)` with size 0 and threshold t: an empty table of n slots. */
    method Allocate(n: int, t: int)
      requires IsPow2(n) && n <= 0x4000_0000_0000_0000 && 1 <= t < n
      modifies this
      ensures fresh(es) && es.Length == n && threshold == t && size == 0
      ensures Valid() && Mapping(es[..]) == map[]
      ensures hasFreeKey == old(hasFreeKey) && freeKeyValue == old(freeKeyValue)
    {
      es := new KeyValue<V>[n](_ => Empty(zero));
      size := 0;
      threshold := t;
      NoEntries(es[..]);
      EmptyReachable(KeyHash, es[..]);
    }

    /**
     * `Set`: maps key to value. Key 0 is kept outside the slots. A new key
     * that would take the size over the threshold first grows the table: a
     * zero Map gets 8 slots and a threshold of 7, any other Map doubles.
     */
    method Set(key: int, value: V)
      requires Valid()
      requires key != FreeKey && size >= threshold && es.Length > 0 ==> 2 * es.Length <= MaxInt
      modifies this, es
      ensures Valid()
      ensures Contents() == old(Contents())[key := value]
      ensures key == FreeKey ==> es == old(es) && es[..] == old(es[..]) && size == old(size) && threshold == old(threshold)
      ensures key != FreeKey ==> hasFreeKey == old(hasFreeKey) && freeKeyValue == old(freeKeyValue)
      ensures key != FreeKey ==> Mapping(es[..]) == old(Mapping(es[..]))[key := value]
      ensures key != FreeKey ==> size == old(size) + (if key in old(Contents()) then 0 else 1)
      ensures key != FreeKey && old(size) >= old(threshold) ==> fresh(es)
      ensures key != FreeKey && old(size) >= old(threshold) ==>
        if old(es.Length) == 0 then es.Length == 8 && threshold == 7
        else es.Length == 2 * old(es.Length) && threshold == 2 * old(threshold)
      ensures key == FreeKey || old(size) < old(threshold) ==> es == old(es) && threshold == old(threshold)
      ensures key != FreeKey && old(size) < old(threshold) && key in old(Mapping(es[..])) ==>
        es[..] == old(es[..])[SlotOf(old(es[..]), key) := KeyValue(key, value)]
      decreases if key != FreeKey && size >= threshold then 3 else 0
    {
      if key == FreeKey {
        hasFreeKey := true;
        freeKeyValue := value;
        return;
      }
      ghost var before := Mapping(es[..]);
      WithFreeKeyUpdate(before, hasFreeKey, freeKeyValue, key, value);
      if size >= threshold {
        Grow();
      }
      Insert(key, value);
    }

    /**
     * The growth step of `Set`, taken when the size has reached the
     * threshold: a zero Map gets 8 slots and a threshold of 7, the fill
     * ratio of 87.5% applied to 8 slots; any other Map is rehashed.
     */
    method Grow()
      requires Valid() && size >= threshold && (es.Length > 0 ==> 2 * es.Length <= MaxInt)
      modifies this
      ensures Valid() && fresh(es) && size < threshold
      ensures if old(es.Length) == 0 then es.Length == 8 && threshold == 7
              else es.Length == 2 * old(es.Length) && threshold == 2 * old(threshold)
      ensures Mapping(es[..]) == old(Mapping(es[..])) && size == old(size)
      ensures hasFreeKey == old(hasFreeKey) && freeKeyValue == old(freeKeyValue)
      decreases 2
    {
      if es.Length == 0 {
        Allocate(8, 7);
      } else {
        Rehash();
      }
    }

    /**
     * The probe loop of `Set` once there is room: key overwrites its own
     * slot, or takes the first empty slot of its probe path and counts as
     * one more entry.
     */
    method Insert(key: int, value: V)
      requires Valid() && key != FreeKey && size < threshold
      modifies this, es
      ensures Valid() && es == old(es) && threshold == old(threshold)
      ensures hasFreeKey == old(hasFreeKey) && freeKeyValue == old(freeKeyValue)
      ensures Mapping(es[..]) == old(Mapping(es[..]))[key := value]
      ensures size == old(size) + (if key in old(Mapping(es[..])) then 0 else 1)
      ensures key in old(Mapping(es[..])) ==>
        es[..] == old(es[..])[SlotOf(old(es[..]), key) := KeyValue(key, value)]
    {
      var idx := FindSlot(key);
      ghost var s := es[..];
      var entry := KeyValue(key, value);
      StoreEntry(KeyHash, s, idx, entry);
      var n := if es[idx].key == FreeKey then size + 1 else size;
      es[idx] := entry;
      assert es[..] == s[idx := entry];
      size := n;
    }

    /**
     * The probe loop of `Set`: the first slot on the probe path of key that
     * is empty or holds key. It exists because the table is never full.
     */
    method FindSlot(key: int) returns (idx: int)
      requires key != FreeKey && IsPow2(es.Length) && es.Length <= 0x4000_0000_0000_0000
      requires Count(es[..]) < es.Length
      ensures 0 <= idx < es.Length && (es[idx].key == FreeKey || es[idx].key == key)
      ensures Probed(es[..], key, Home(KeyHash, key, es.Length), Dist(Home(KeyHash, key, es.Length), idx, es.Length))
    {
      var n := es.Length;
      ghost var e := FirstEmpty(es[..]);
      idx := HomeSlot(key, n);
      ghost var start := idx;
      while true
        invariant 0 <= idx < n
        invariant Probed(es[..], key, start, Dist(start, idx, n))
        decreases Dist(start, e, n) - Dist(start, idx, n)
      {
        var k := es[idx].key;
        if k == FreeKey || k == key {
          return;
        }
        ProbeStep(es[..], key, start, idx);
        ProbeBound(es[..], key, start, Dist(start, idx, n) + 1, e);
        DistNext(start, idx, n);
        idx := NextSlot(idx, n);
      }
    }

    /**
     * `rehash`: moves every entry into a fresh table of twice the slots and
     * doubles the threshold. The source panics when the doubled length is
     * not a Go int, which the precondition rules out.
     */
    method Rehash()
      requires Valid() && es.Length > 0 && size >= threshold && 2 * es.Length <= MaxInt
      modifies this
      ensures Valid() && fresh(es)
      ensures es.Length == 2 * old(es.Length) && threshold == 2 * old(threshold)
      ensures Mapping(es[..]) == old(Mapping(es[..])) && size == old(size)
      ensures hasFreeKey == old(hasFreeKey) && freeKeyValue == old(freeKeyValue)
      decreases 1
    {
      var prev := es;
      var l := prev.Length * 2;
      DoubleWithinLimit(prev.Length);
      Allocate(l, threshold * 2);
      var i := 0;
      while i < prev.Length
        invariant 0 <= i <= prev.Length
        invariant fresh(es) && es.Length == l
        invariant Valid() && threshold == 2 * old(threshold)
        invariant hasFreeKey == old(hasFreeKey) && freeKeyValue == old(freeKeyValue)
        invariant prev[..] == old(es[..])
        invariant size == Count(prev[..i]) && Mapping(es[..]) == Mapping(prev[..i])
      {
        PrefixStep(prev[..], i);
        if prev[i].key != FreeKey {
          Set(prev[i].key, prev[i].value);
        }
        i := i + 1;
      }
      assert prev[..i] == prev[..];
    }

    /** `Get`: the value of key and true when the map holds key, zero and false otherwise. */
    method Get(key: int) returns (v: V, ok: bool)
      requires Valid()
      ensures ok == (key in Contents())
      ensures v == if ok then Contents()[key] else zero
    {
      if key == FreeKey {
        if hasFreeKey {
          return freeKeyValue, true;
        }
        MappingDomain(es[..], FreeKey);
        return zero, false;
      }
      var mask := es.Length - 1;
      if mask < 0 {
        return zero, false;
      }
      var n := es.Length;
      var start := HomeSlot(key, n);
      var idx := start;
      while true
        invariant 0 <= idx < n
        invariant Probed(es[..], key, start, Dist(start, idx, n))
        decreases n - Dist(start, idx, n)
      {
        var k := es[idx].key;
        if k == FreeKey {
          ProbeMiss(KeyHash, es[..], key, idx);
          return zero, false;
        }
        if k == key {
          MappingValue(es[..], idx);
          return es[idx].value, true;
        }
        ProbeStep(es[..], key, start, idx);
        DistNext(start, idx, n);
        idx := NextSlot(idx, n);
        if idx == start {
          ProbeWrapped(es[..], key, start);
          return zero, false;
        }
      }
    }

    /**
     * `Delete`: removes key and tells whether it was there. Key 0 is
     * cleared outside the slots; any other key is found by the probe loop
     * and its slot is erased by `ShiftKeys`.
     */
    method Delete(key: int) returns (present: bool)
      requires Valid()
      modifies this, es
      ensures Valid() && es == old(es) && threshold == old(threshold)
      ensures present == (key in old(Contents()))
      ensures Contents() == old(Contents()) - {key}
      ensures key == FreeKey ==> es[..] == old(es[..]) && size == old(size) && freeKeyValue == zero && !hasFreeKey
      ensures key != FreeKey ==> hasFreeKey == old(hasFreeKey) && freeKeyValue == old(freeKeyValue)
      ensures key != FreeKey ==> size == old(size) - (if present then 1 else 0)
      ensures key != FreeKey && !present ==> es[..] == old(es[..])
      ensures key != FreeKey && present ==>
        es[..] == Erase(KeyHash, old(es[..]), SlotOf(old(es[..]), key), zero)
    {
      if key == FreeKey {
        present := hasFreeKey;
        freeKeyValue := zero;
        hasFreeKey := false;
        MappingDomain(es[..], FreeKey);
        return;
      }
      WithFreeKeyUpdate(Mapping(es[..]), hasFreeKey, freeKeyValue, key, zero);
      var idx := Lookup(key);
      if idx < 0 {
        return false;
      }
      MappingValue(es[..], idx);
      RemoveAt(idx);
      present := true;
    }

    /**
     * The end of `Delete` once the probe has found the key in slot idx: the
     * backward shift, and one entry fewer.
     */
    method RemoveAt(idx: int)
      requires Valid() && Occupied(es[..], idx)
      modifies this, es
      ensures Valid() && es == old(es) && threshold == old(threshold)
      ensures hasFreeKey == old(hasFreeKey) && freeKeyValue == old(freeKeyValue)
      ensures size == old(size) - 1 && es[..] == Erase(KeyHash, old(es[..]), idx, zero)
      ensures Mapping(es[..]) == old(Mapping(es[..])) - {old(es[idx].key)}
    {
      ghost var s := es[..];
      EraseSpec(KeyHash, s, idx, zero);
      ShiftKeys(idx);
      size := size - 1;
    }

    /**
     * The probe loop of `Delete`: the slot that holds key, or -1 when the
     * probe meets an empty slot or comes back to the home slot.
     */
    method Lookup(key: int) returns (idx: int)
      requires Valid() && key != FreeKey
      ensures idx < 0 <==> key !in Mapping(es[..])
      ensures idx >= 0 ==> idx == SlotOf(es[..], key)
    {
      var mask := es.Length - 1;
      if mask < 0 {
        return -1;
      }
      var n := es.Length;
      var start := HomeSlot(key, n);
      idx := start;
      while true
        invariant 0 <= idx < n
        invariant Probed(es[..], key, start, Dist(start, idx, n))
        decreases n - Dist(start, idx, n)
      {
        var k := es[idx].key;
        if k == FreeKey {
          ProbeMiss(KeyHash, es[..], key, idx);
          return -1;
        }
        if k == key {
          MappingValue(es[..], idx);
          return;
        }
        ProbeStep(es[..], key, start, idx);
        DistNext(start, idx, n);
        idx := NextSlot(idx, n);
        if idx == start {
          ProbeWrapped(es[..], key, start);
          return -1;
        }
      }
    }

    /**
     * The inner loop of `shiftKeys`: from idx0 on, the first slot that is
     * empty or whose entry may move back into the gap `last`. The skipped
     * slots are the steps in which `Shift` leaves the table as it is.
     */
    method ScanForMove(ghost t: seq<KeyValue<V>>, last: int, idx0: int, ghost fuel0: nat)
        returns (idx: int, ghost fuel: nat)
      requires IsPow2(es.Length) && es.Length <= 0x4000_0000_0000_0000 && |t| == es.Length
      requires 0 <= last < |t| && 0 <= idx0 < |t| && t[last].key == FreeKey && es[..] == t[last := es[last]]
      requires fuel0 < Dist(idx0, last, |t|) && t[Pos(idx0, fuel0, |t|)].key == FreeKey
      ensures 0 <= idx < |t| && fuel <= fuel0
      ensures fuel < Dist(idx, last, |t|) && t[Pos(idx, fuel, |t|)].key == FreeKey
      ensures t[idx].key == FreeKey || CanMove(last, Home(KeyHash, t[idx].key, |t|), idx)
      ensures Shift(KeyHash, t, last, idx, fuel, zero) == Shift(KeyHash, t, last, idx0, fuel0, zero)
    {
      var n := es.Length;
      idx, fuel := idx0, fuel0;
      while true
        invariant 0 <= idx < n && fuel <= fuel0
        invariant fuel < Dist(idx, last, n) && t[Pos(idx, fuel, n)].key == FreeKey
        invariant Shift(KeyHash, t, last, idx, fuel, zero) == Shift(KeyHash, t, last, idx0, fuel0, zero)
        decreases fuel
      {
        var k := es[idx].key;
        if k == FreeKey {
          return;
        }
        ShiftStep(KeyHash, t, last, idx, fuel, zero);
        var slot := HomeSlot(k, n);
        if CanMove(last, slot, idx) {
          return;
        }
        fuel := fuel - 1;
        idx := NextSlot(idx, n);
      }
    }

    /**
     * `shiftKeys`: erases slot p by backward shifting. The gap `last` is
     * held by a stale entry until it is overwritten, either by the next
     * entry that may move back into it or, at the first empty slot, by an
     * empty entry. `t` is the table as `Shift` sees it, with the gap empty.
     */
    method ShiftKeys(p: int)
      requires IsPow2(es.Length) && es.Length <= 0x4000_0000_0000_0000
      requires Occupied(es[..], p) && Count(es[..]) < es.Length
      modifies es
      ensures es[..] == Erase(KeyHash, old(es[..]), p, zero)
    {
      var n := es.Length;
      ghost var t := es[..][p := Empty(zero)];
      ghost var fuel: nat := EraseFuel(es[..], p);
      ghost var result := Erase(KeyHash, es[..], p, zero);
      var idx := p;
      while true
        invariant 0 <= idx < n && |t| == n
        invariant t[idx] == Empty(zero) && es[..] == t[idx := es[idx]]
        invariant fuel < Dist(Next(idx, n), idx, n) && t[Pos(Next(idx, n), fuel, n)].key == FreeKey
        invariant Shift(KeyHash, t, idx, Next(idx, n), fuel, zero) == result
        decreases fuel
      {
        var last := idx;
        idx := NextSlot(idx, n);
        idx, fuel := ScanForMove(t, last, idx, fuel);
        var k := es[idx].key;
        if k == FreeKey {
          CloseGap(t, last);
          return;
        }
        t, fuel := MoveBack(t, last, idx, k, fuel);
      }
    }

    /** The last store of `shiftKeys`: the gap gets an empty entry. */
    method CloseGap(ghost t: seq<KeyValue<V>>, last: int)
      requires 0 <= last < es.Length && |t| == es.Length
      requires t[last] == Empty(zero) && es[..] == t[last := es[last]]
      modifies es
      ensures es[..] == t
    {
      es[last] := Empty(zero);
      assert es[..] == t[last := Empty(zero)];
    }

    /**
     * The store of the outer loop of `shiftKeys`: the entry of idx, whose
     * key is k, moves back into the gap, and idx becomes the gap. This is
     * one step of `Shift`.
     */
    method MoveBack(ghost t: seq<KeyValue<V>>, last: int, idx: int, k: int, ghost fuel: nat)
        returns (ghost t': seq<KeyValue<V>>, ghost fuel': nat)
      requires |t| == es.Length && 0 <= last < |t| && 0 <= idx < |t|
      requires t[last] == Empty(zero) && es[..] == t[last := es[last]]
      requires fuel < Dist(idx, last, |t|) && t[Pos(idx, fuel, |t|)].key == FreeKey
      requires k == t[idx].key && k != FreeKey && CanMove(last, Home(KeyHash, k, |t|), idx)
      modifies es
      ensures |t'| == |t| && t'[idx] == Empty(zero) && es[..] == t'[idx := es[idx]]
      ensures fuel' < fuel && fuel' < Dist(Next(idx, |t|), idx, |t|) && t'[Pos(Next(idx, |t|), fuel', |t|)].key == FreeKey
      ensures Shift(KeyHash, t', idx, Next(idx, |t|), fuel', zero) == Shift(KeyHash, t, last, idx, fuel, zero)
    {
      ShiftStep(KeyHash, t, last, idx, fuel, zero);
      ghost var before := es[..];
      es[last] := KeyValue(k, es[idx].value);
      assert es[..] == before[last := before[idx]];
      GapMoves(before, t, last, idx, Empty(zero));
      t' := t[last := t[idx]][idx := Empty(zero)];
      fuel' := fuel - 1;
    }

    /** `Size`: the number of keys in the map, key 0 included. */
    function Size(): (r: int)
      reads this, es
      requires Valid()
      ensures r == |Contents()|
    {
      MappingSize(es[..]);
      MappingDomain(es[..], FreeKey);
      if hasFreeKey then size + 1 else size
    }

    /** The keys in the order `Keys` and the iterator report them: key 0 first, then slot order. */
    ghost function KeyList(): seq<int>
      reads this, es
    {
      (if hasFreeKey then [FreeKey] else []) + NonzeroKeys(es[..])
    }

    /** The key list names every key of the map exactly once. */
    lemma KeyListSpec()
      requires Valid()
      ensures |KeyList()| == |Contents()|
      ensures forall k :: k in KeyList() <==> k in Contents()
      ensures forall a, b :: 0 <= a < b < |KeyList()| ==> KeyList()[a] != KeyList()[b]
    {
      var ks := NonzeroKeys(es[..]);
      NonzeroKeysSpec(es[..]);
      NonzeroKeysCount(es[..]);
      MappingSize(es[..]);
      MappingDomain(es[..], FreeKey);
      assert FreeKey !in ks;
      if hasFreeKey {
        assert KeyList() == [FreeKey] + ks;
        forall a, b | 0 <= a < b < |KeyList()|
          ensures KeyList()[a] != KeyList()[b]
        {
          if a == 0 {
            assert KeyList()[b] == ks[b - 1];
          } else {
            assert KeyList()[a] == ks[a - 1] && KeyList()[b] == ks[b - 1];
          }
        }
      } else {
        assert KeyList() == ks;
      }
    }

    /** `Keys`: a fresh array of the map's keys, key 0 first, then in slot order. */
    method Keys() returns (ks: array<int>)
      requires Valid()
      ensures fresh(ks) && ks[..] == KeyList()
    {
      var sz := Size();
      ks := new int[sz];
      var i := 0;
      if hasFreeKey {
        ks[i] := FreeKey;
        i := i + 1;
      }
      MappingSize(es[..]);
      FillKeys(ks, i);
      assert ks[..i] == if hasFreeKey then [FreeKey] else [];
    }

    /** The loop of `Keys`: from index start on, ks gets the keys of the slots in order. */
    method FillKeys(ks: array<int>, start: int)
      requires 0 <= start && start + Count(es[..]) == ks.Length
      modifies ks
      ensures ks[..] == old(ks[..start]) + NonzeroKeys(es[..])
    {
      var i := start;
      var e := 0;
      CountPrefix(es[..], 0);
      while e < es.Length
        invariant 0 <= e <= es.Length && i == start + Count(es[..e]) && i <= ks.Length
        invariant ks[..i] == old(ks[..start]) + NonzeroKeys(es[..e])
      {
        PrefixStep(es[..], e);
        CountPrefix(es[..], e + 1);
        assert es[..e + 1][..e] == es[..e];
        var k := es[e].key;
        if k != FreeKey {
          ks[i] := k;
          i := i + 1;
        }
        e := e + 1;
      }
      assert es[..e] == es[..];
    }

    /**
     * The scan of `HasNext`: the first slot from `from` on that holds a
     * key, or the slot count when there is none.
     */
    method NextOccupied(from: int) returns (e: int)
      requires 0 <= from <= es.Length
      ensures from <= e <= es.Length
      ensures forall y :: from <= y < e ==> es[y].key == FreeKey
      ensures e < es.Length ==> es[e].key != FreeKey
    {
      e := from;
      while e < es.Length
        invariant from <= e <= es.Length
        invariant forall y :: from <= y < e ==> es[y].key == FreeKey
      {
        if es[e].key != FreeKey {
          return;
        }
        e := e + 1;
      }
    }

    /** `Iterator`: an iterator standing before the first key. */
    method Iterator() returns (it: Iterator<V>)
      requires Valid()
      ensures fresh(it) && it.m == this && it.lastKey == -1 && it.i == -1
      ensures it.Valid() && it.Pending() == KeyList()
    {
      it := new Iterator(this);
    }
  }

  /**
   * `Iterator`: a cursor over a Map. `i` is -1 before the first call to
   * `HasNext`, then the slot of the key last found, and the slot count once
   * the keys are exhausted. `lastKey` is the key `Next` returned last.
   */
  class Iterator<V> {
    const m: Map<V>
    var lastKey: int
    var i: int

    /**
     * The iterator invariant: no key is held by two slots, the cursor is in
     * range, and no slot after the cursor holds the key returned last. A
     * valid Map gives the first; the iterator needs no more of `Map.Valid`.
     */
    ghost predicate Valid()
      reads this, m, m.es
    {
      && DistinctKeys(m.es[..])
      && -1 <= i <= m.es.Length
      && (0 <= i ==> forall y :: i < y < m.es.Length && m.es[y].key != FreeKey ==> m.es[y].key != lastKey)
    }

    /** The keys the iterator has yet to report, in order. */
    ghost function Pending(): seq<int>
      reads this, m, m.es
      requires Valid()
    {
      if i < 0 then
        (if m.hasFreeKey && lastKey != FreeKey then [FreeKey] else []) + NonzeroKeys(m.es[..])
      else if i < m.es.Length then PendingFrom(m.es[..], i, lastKey)
      else []
    }

    /** The cursor is on the first pending key: what `Next` returns. */
    ghost predicate Current()
      reads this, m, m.es
      requires Valid()
    {
      if i < 0 then m.hasFreeKey && lastKey != FreeKey
      else i < m.es.Length && m.es[i].key != FreeKey && m.es[i].key != lastKey
    }

    /** `lastKey` starts as `freeKey ^ -1`, which is -1: a key other than 0. */
    constructor (m: Map<V>)
      requires m.Valid()
      ensures this.m == m && lastKey == -1 && i == -1
      ensures Valid() && Pending() == m.KeyList()
    {
      this.m := m;
      lastKey := -1;
      i := -1;
    }

    /**
     * The key under the cursor, the one `Next` returns, is a key of the map,
     * and the value `Next` returns with it is the map's value for it.
     */
    lemma CurrentInMap()
      requires Valid() && Current()
      ensures var k := if i < 0 then FreeKey else m.es[i].key;
        k in m.Contents() && m.Contents()[k] == if i < 0 then m.freeKeyValue else m.es[i].value
    {
      if i >= 0 {
        MappingValue(m.es[..], i);
        WithFreeKeyUpdate(Mapping(m.es[..]), m.hasFreeKey, m.freeKeyValue, m.es[i].key, m.es[i].value);
      }
    }

    /**
     * `HasNext`: whether keys are left, moving the cursor to the next one
     * unless it is already on one. Calling it again once it has returned
     * false reads past the slots, which the precondition rules out.
     */
    method HasNext() returns (b: bool)
      requires Valid() && (i < 0 || i < m.es.Length)
      modifies this
      ensures Valid() && Pending() == old(Pending())
      ensures b == (Pending() != [])
      ensures b ==> Current()
      ensures !b ==> i == m.es.Length
      ensures old(Current()) ==> i == old(i) && lastKey == old(lastKey)
    {
      if i < 0 {
        if m.hasFreeKey && lastKey != FreeKey {
          return true;
        }
        lastKey := FreeKey;
      } else {
        var k := m.es[i].key;
        if k != FreeKey && k != lastKey {
          return true;
        }
      }
      b := Advance();
    }

    /**
     * The loop of `HasNext`, once the cursor is not on a pending key: the
     * cursor moves to the next occupied slot, or past the last slot.
     */
    method Advance() returns (b: bool)
      requires Valid() && (i < 0 || i < m.es.Length) && !Current() && (i < 0 ==> lastKey == FreeKey)
      modifies this
      ensures Valid() && Pending() == old(Pending()) && lastKey == old(lastKey)
      ensures b == (Pending() != [])
      ensures b ==> Current()
      ensures !b ==> i == m.es.Length
    {
      var l := m.es.Length;
      var e := m.NextOccupied(i + 1);
      AdvanceKeepsPending(m.es[..], i, e, lastKey);
      b := e < l;
      i := if b then e else l;
    }

    /**
     * `Next`: the key under the cursor and its value, which becomes the
     * last key returned. Before the first call to `HasNext` this is key 0,
     * and the source panics when the map does not hold it.
     */
    method Next() returns (key: int, value: V)
      requires Valid() && i < m.es.Length && (i < 0 ==> m.hasFreeKey)
      modifies this
      ensures Valid() && i == old(i) && lastKey == key
      ensures key == (if i < 0 then FreeKey else m.es[i].key)
      ensures value == (if i < 0 then m.freeKeyValue else m.es[i].value)
      ensures old(Current()) ==> [key] + Pending() == old(Pending())
    {
      if i < 0 {
        lastKey := FreeKey;
        return FreeKey, m.freeKeyValue;
      }
      ghost var s := m.es[..];
      key, value := m.es[i].key, m.es[i].value;
      if key != FreeKey && key != lastKey {
        ReturnCurrent(s, i, lastKey);
      }
      lastKey := key;
      assert m.es[..] == s;
    }
  }
}
