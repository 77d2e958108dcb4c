/**
 * What an iterator over the slots still has to report (map.go, `Iterator`),
 * and what deleting the key it returned last does to that.
 *
 * An iterator standing at slot i, having returned `lastKey`, reports the key
 * of slot i if that slot holds a key other than `lastKey` (the entry shifted
 * into slot i by a deletion), then the keys of the later slots in order.
 * Deleting the key just returned shifts later entries back; the lemmas show
 * that no pending key is lost, that without wrap-around no key comes back,
 * and, by a four-slot table, that with wrap-around a key can come back.
 */
module Iteration {
  import opened Slots
  import opened Probe
  import opened Backshift

  /** The keys still to be reported by an iterator at slot i that last returned lastKey. */
  function PendingFrom<V>(s: seq<KeyValue<V>>, i: int, lastKey: int): seq<int>
    requires 0 <= i < |s|
  {
    (if s[i].key != FreeKey && s[i].key != lastKey then [s[i].key] else []) + NonzeroKeys(s[i + 1..])
  }

  /**
   * The scan of `HasNext`: the keys of the slots from a on are those the
   * iterator has pending once it stands at the first occupied slot e, or
   * none when there is no such slot.
   */
  lemma ScanKeepsPending<V>(s: seq<KeyValue<V>>, a: int, e: int, lastKey: int)
    requires 0 <= a <= e <= |s| && forall y :: a <= y < e ==> s[y].key == FreeKey
    requires e < |s| ==> s[e].key != FreeKey && s[e].key != lastKey
    ensures NonzeroKeys(s[a..]) == if e < |s| then PendingFrom(s, e, lastKey) else []
  {
    SkipEmpty(s, a, e);
    if e < |s| {
      KeysAhead(s, e);
    } else {
      assert s[e..] == [];
    }
  }

  /**
   * The loop of `HasNext` from a cursor i that is not on a pending key (or
   * stands before the slots, with key 0 returned last): moving to the first
   * occupied slot e after i keeps the pending keys.
   */
  lemma AdvanceKeepsPending<V>(s: seq<KeyValue<V>>, i: int, e: int, lastKey: int)
    requires -1 <= i < e <= |s| && forall y :: i < y < e ==> s[y].key == FreeKey
    requires e < |s| ==> s[e].key != FreeKey
    requires i < 0 ==> lastKey == FreeKey
    requires 0 <= i ==> s[i].key == FreeKey || s[i].key == lastKey
    requires 0 <= i ==> forall y :: i < y < |s| && s[y].key != FreeKey ==> s[y].key != lastKey
    ensures e < |s| ==> s[e].key != lastKey
    ensures (if i < 0 then NonzeroKeys(s) else PendingFrom(s, i, lastKey))
      == if e < |s| then PendingFrom(s, e, lastKey) else []
  {
    if i < 0 {
      assert s[0..] == s;
    } else {
      assert PendingFrom(s, i, lastKey) == [] + NonzeroKeys(s[i + 1..]);
    }
    ScanKeepsPending(s, i + 1, e, lastKey);
  }

  /**
   * `Next` at slot i: returning the key of slot i takes it off the front of
   * the pending keys, and no later slot holds it.
   */
  lemma ReturnCurrent<V>(s: seq<KeyValue<V>>, i: int, lastKey: int)
    requires DistinctKeys(s) && 0 <= i < |s| && s[i].key != FreeKey && s[i].key != lastKey
    ensures [s[i].key] + PendingFrom(s, i, s[i].key) == PendingFrom(s, i, lastKey)
    ensures forall y :: i < y < |s| && s[y].key != FreeKey ==> s[y].key != s[i].key
  {
    assert PendingFrom(s, i, s[i].key) == [] + NonzeroKeys(s[i + 1..]);
  }

  /** The keys held in slot lo and the slots after it. */
  function KeysFrom<V>(s: seq<KeyValue<V>>, lo: int): set<int>
  {
    set y | 0 <= y < |s| && lo <= y && s[y].key != FreeKey :: s[y].key
  }

  // ---------------------------------------------------------------------
  // Keys in slot order

  lemma {:induction false} NonzeroKeysAppend<V>(a: seq<KeyValue<V>>, b: seq<KeyValue<V>>)
    ensures NonzeroKeys(a + b) == NonzeroKeys(a) + NonzeroKeys(b)
    decreases |b|
  {
    if |b| == 0 {
      assert a + b == a;
    } else {
      var c := b[..|b| - 1];
      assert (a + b)[..|a + b| - 1] == a + c;
      NonzeroKeysAppend(a, c);
    }
  }

  /** A key is listed exactly when it is nonzero and some slot holds it. */
  lemma {:induction false} NonzeroKeysMember<V>(s: seq<KeyValue<V>>, k: int)
    ensures k in NonzeroKeys(s) <==> k != FreeKey && exists y :: 0 <= y < |s| && s[y].key == k
  {
    if |s| > 0 {
      var p := s[..|s| - 1];
      NonzeroKeysMember(p, k);
      if k in NonzeroKeys(p) {
        var y :| 0 <= y < |p| && p[y].key == k;
        assert s[y].key == k;
      }
      if k != FreeKey && (exists y :: 0 <= y < |s| && s[y].key == k) {
        var y :| 0 <= y < |s| && s[y].key == k;
        if y < |p| {
          assert p[y].key == k;
        }
      }
    }
  }

  /** Skipping empty slots does not change the keys ahead (map.go, the scan of `HasNext`). */
  lemma SkipEmpty<V>(s: seq<KeyValue<V>>, a: int, e: int)
    requires 0 <= a <= e <= |s|
    requires forall y :: a <= y < e ==> s[y].key == FreeKey
    ensures NonzeroKeys(s[a..]) == NonzeroKeys(s[e..])
  {
    var gap := s[a..e];
    assert s[a..] == gap + s[e..];
    assert forall y :: 0 <= y < |gap| ==> gap[y] == s[a + y];
    NoEntries(gap);
    NonzeroKeysAppend(gap, s[e..]);
  }

  /** The keys from slot e on: slot e's key, if it holds one, then those after it. */
  lemma KeysAhead<V>(s: seq<KeyValue<V>>, e: int)
    requires 0 <= e < |s|
    ensures NonzeroKeys(s[e..]) == (if s[e].key != FreeKey then [s[e].key] else []) + NonzeroKeys(s[e + 1..])
  {
    assert s[e..] == [s[e]] + s[e + 1..];
    assert [s[e]][..0] == [];
    NonzeroKeysAppend([s[e]], s[e + 1..]);
  }

  /** The keys listed from slot lo on are the keys held in those slots. */
  lemma SuffixKeys<V>(s: seq<KeyValue<V>>, lo: int, k: int)
    requires 0 <= lo <= |s|
    ensures k in NonzeroKeys(s[lo..]) <==> k in KeysFrom(s, lo)
  {
    NonzeroKeysMember(s[lo..], k);
    if k in NonzeroKeys(s[lo..]) {
      var y :| 0 <= y < |s[lo..]| && s[lo..][y].key == k;
      assert s[lo + y].key == k;
    }
    if k in KeysFrom(s, lo) {
      var y :| lo <= y < |s| && s[y].key != FreeKey && s[y].key == k;
      assert s[lo..][y - lo].key == k;
    }
  }

  /** A key is pending exactly when it is in slot i and not the one returned last, or in a later slot. */
  lemma PendingMember<V>(s: seq<KeyValue<V>>, i: int, lastKey: int, k: int)
    requires 0 <= i < |s|
    ensures k in PendingFrom(s, i, lastKey)
      <==> (k == s[i].key && k != FreeKey && k != lastKey) || k in KeysFrom(s, i + 1)
  {
    SuffixKeys(s, i + 1, k);
  }

  // ---------------------------------------------------------------------
  // The shift and the slots after the deleted one

  /** Moving an entry back into a gap that is no further from p keeps it in the slots from p on. */
  lemma MoveKeepsLater<V>(t: seq<KeyValue<V>>, last: int, idx: int, p: int, zero: V)
    requires 0 <= p < |t| && 0 <= last < |t| && 0 <= idx < |t| && t[last].key == FreeKey
    requires Dist(p, last, |t|) < Dist(p, idx, |t|)
    ensures KeysFrom(t, p) <= KeysFrom(t[last := t[idx]][idx := Empty(zero)], p)
  {
    var u := t[last := t[idx]][idx := Empty(zero)];
    forall k | k in KeysFrom(t, p)
      ensures k in KeysFrom(u, p)
    {
      var y :| p <= y < |t| && t[y].key != FreeKey && t[y].key == k;
      if y == idx {
        assert u[last].key == k;
      } else {
        assert u[y].key == k;
      }
    }
  }

  /**
   * While the gap and the slot examined stay no further round from p than
   * an empty slot, every key held in the slots from p on is still held there
   * after the shift.
   */
  lemma {:induction false} ShiftKeepsLater<V>(h: int -> int, t: seq<KeyValue<V>>, last: int, idx: int, fuel: nat, zero: V, p: int)
    requires 0 <= last < |t| && 0 <= idx < |t| && t[last].key == FreeKey
    requires fuel < Dist(idx, last, |t|) && t[Pos(idx, fuel, |t|)].key == FreeKey
    requires 0 <= p < |t| && Dist(p, last, |t|) < Dist(p, idx, |t|) && Dist(p, idx, |t|) + fuel < |t|
    ensures KeysFrom(t, p) <= KeysFrom(Shift(h, t, last, idx, fuel, zero), p)
    decreases fuel
  {
    var n := |t|;
    if t[idx].key != FreeKey {
      FuelStep(last, idx, fuel, n);
      DistNext(p, idx, n);
      if CanMove(last, Home(h, t[idx].key, n), idx) {
        MoveKeepsLater(t, last, idx, p, zero);
        ShiftKeepsLater(h, t[last := t[idx]][idx := Empty(zero)], idx, Next(idx, n), fuel - 1, zero, p);
      } else {
        ShiftKeepsLater(h, t, last, Next(idx, n), fuel - 1, zero, p);
      }
    }
  }

  /** Without wrap-around, a move stays within the slots from p on and leaves the earlier slots alone. */
  lemma MoveStaysLater<V>(t: seq<KeyValue<V>>, last: int, idx: int, p: int, zero: V)
    requires 0 <= p <= last < idx < |t|
    ensures var u := t[last := t[idx]][idx := Empty(zero)];
      u[..p] == t[..p] && KeysFrom(u, p) <= KeysFrom(t, p)
  {
    var u := t[last := t[idx]][idx := Empty(zero)];
    forall k | k in KeysFrom(u, p)
      ensures k in KeysFrom(t, p)
    {
      var y :| p <= y < |u| && u[y].key != FreeKey && u[y].key == k;
      if y == last {
        assert t[idx].key == k;
      } else {
        assert t[y].key == k;
      }
    }
  }

  /**
   * A shift that reaches its empty slot before the end of the table moves
   * entries only within the slots from p on: the earlier slots are left as
   * they were, and no key enters the slots from p on.
   */
  lemma {:induction false} ShiftStaysLater<V>(h: int -> int, t: seq<KeyValue<V>>, last: int, idx: int, fuel: nat, zero: V, p: int)
    requires 0 <= last < |t| && 0 <= idx < |t| && t[last].key == FreeKey
    requires fuel < Dist(idx, last, |t|) && t[Pos(idx, fuel, |t|)].key == FreeKey
    requires 0 <= p <= last < idx && idx + fuel < |t|
    ensures var r := Shift(h, t, last, idx, fuel, zero);
      |r| == |t| && r[..p] == t[..p] && KeysFrom(r, p) <= KeysFrom(t, p)
    decreases fuel
  {
    var n := |t|;
    if t[idx].key != FreeKey {
      FuelStep(last, idx, fuel, n);
      if CanMove(last, Home(h, t[idx].key, n), idx) {
        var u := t[last := t[idx]][idx := Empty(zero)];
        MoveStaysLater(t, last, idx, p, zero);
        ShiftStaysLater(h, u, idx, Next(idx, n), fuel - 1, zero, p);
      } else {
        ShiftStaysLater(h, t, last, Next(idx, n), fuel - 1, zero, p);
      }
    }
  }

  /** The result of a shift does not depend on how much fuel it is given. */
  lemma {:induction false} ShiftFuel<V>(h: int -> int, t: seq<KeyValue<V>>, last: int, idx: int, f: nat, g: nat, zero: V)
    requires 0 <= last < |t| && 0 <= idx < |t| && t[last].key == FreeKey
    requires f < Dist(idx, last, |t|) && t[Pos(idx, f, |t|)].key == FreeKey
    requires g < Dist(idx, last, |t|) && t[Pos(idx, g, |t|)].key == FreeKey
    ensures Shift(h, t, last, idx, f, zero) == Shift(h, t, last, idx, g, zero)
    decreases f
  {
    var n := |t|;
    if t[idx].key != FreeKey {
      FuelStep(last, idx, f, n);
      FuelStep(last, idx, g, n);
      if CanMove(last, Home(h, t[idx].key, n), idx) {
        ShiftFuel(h, t[last := t[idx]][idx := Empty(zero)], idx, Next(idx, n), f - 1, g - 1, zero);
      } else {
        ShiftFuel(h, t, last, Next(idx, n), f - 1, g - 1, zero);
      }
    }
  }

  // ---------------------------------------------------------------------
  // Deleting the key returned last

  /** Clearing slot i leaves the keys of the later slots in the slots from i on, and adds none. */
  lemma ClearedKeys<V>(s: seq<KeyValue<V>>, i: int, zero: V)
    requires 0 <= i < |s|
    ensures KeysFrom(s[i := Empty(zero)], i) == KeysFrom(s, i + 1)
  {
    var t := s[i := Empty(zero)];
    forall k | k in KeysFrom(s, i + 1)
      ensures k in KeysFrom(t, i)
    {
      var y :| 0 <= y < |s| && i + 1 <= y && s[y].key != FreeKey && s[y].key == k;
      assert t[y].key == k;
    }
    forall k | k in KeysFrom(t, i)
      ensures k in KeysFrom(s, i + 1)
    {
      var y :| 0 <= y < |t| && i <= y && t[y].key != FreeKey && t[y].key == k;
      assert s[y].key == k;
    }
  }

  /** Deleting slot i keeps the keys of the later slots in the slots from i on. */
  lemma EraseKeepsLater<V>(h: int -> int, s: seq<KeyValue<V>>, i: int, zero: V)
    requires Occupied(s, i) && Count(s) < |s|
    ensures KeysFrom(s, i + 1) <= KeysFrom(Erase(h, s, i, zero), i)
  {
    var n := |s|;
    var fuel := EraseFuel(s, i);
    DistNext(i, i, n);
    DistAdd(i, Next(i, n), Pos(Next(i, n), fuel, n), n);
    ClearedKeys(s, i, zero);
    ShiftKeepsLater(h, s[i := Empty(zero)], i, Next(i, n), fuel, zero, i);
  }

  /** The deleted key is held by no slot afterwards. */
  lemma EraseDropsKey<V>(h: int -> int, s: seq<KeyValue<V>>, i: int, zero: V)
    requires Occupied(s, i) && Count(s) < |s| && DistinctKeys(s)
    ensures forall y :: 0 <= y < |s| ==> Erase(h, s, i, zero)[y].key != s[i].key
  {
    var r := Erase(h, s, i, zero);
    MappingClear(s, i, Empty(zero));
    DistinctClear(s, i, Empty(zero));
    ShiftPreserves(h, s[i := Empty(zero)], i, Next(i, |s|), EraseFuel(s, i), zero);
    MappingDomain(r, s[i].key);
  }

  /** A key held from slot i on, other than the one returned last, is pending. */
  lemma PendingCovers<V>(r: seq<KeyValue<V>>, i: int, lastKey: int, k: int)
    requires 0 <= i < |r| && k in KeysFrom(r, i) && k != lastKey
    ensures k in PendingFrom(r, i, lastKey)
  {
    PendingMember(r, i, lastKey, k);
    var z :| 0 <= z < |r| && i <= z && r[z].key != FreeKey && r[z].key == k;
    if z != i {
      assert k in KeysFrom(r, i + 1);
    }
  }

  /**
   * Deleting the key the iterator returned last, from the slot it stands
   * at, loses no pending key (map.go:326-328, map.go:355-358): every key
   * pending before is pending after.
   */
  lemma DeleteReturnedKeepsPending<V>(h: int -> int, s: seq<KeyValue<V>>, i: int, zero: V)
    requires Occupied(s, i) && Count(s) < |s| && DistinctKeys(s)
    ensures forall k :: k in PendingFrom(s, i, s[i].key) ==> k in PendingFrom(Erase(h, s, i, zero), i, s[i].key)
  {
    var r := Erase(h, s, i, zero);
    EraseKeepsLater(h, s, i, zero);
    EraseDropsKey(h, s, i, zero);
    forall k | k in PendingFrom(s, i, s[i].key)
      ensures k in PendingFrom(r, i, s[i].key)
    {
      PendingMember(s, i, s[i].key, k);
      var z :| 0 <= z < |r| && i <= z && r[z].key != FreeKey && r[z].key == k;
      PendingCovers(r, i, s[i].key, k);
    }
  }

  /**
   * Deleting slot i when an empty slot e follows it before the end of the
   * table leaves the earlier slots alone and brings no key into the slots
   * from i on.
   */
  lemma EraseNoWrap<V>(h: int -> int, s: seq<KeyValue<V>>, i: int, e: int, zero: V)
    requires Occupied(s, i) && Count(s) < |s|
    requires i < e < |s| && s[e].key == FreeKey
    ensures var r := Erase(h, s, i, zero); r[..i] == s[..i] && KeysFrom(r, i) <= KeysFrom(s, i + 1)
  {
    var n := |s|;
    var t := s[i := Empty(zero)];
    var fuel := e - (i + 1);
    assert Pos(i + 1, fuel, n) == e;
    ShiftFuel(h, t, i, Next(i, n), EraseFuel(s, i), fuel, zero);
    ShiftStaysLater(h, t, i, i + 1, fuel, zero, i);
    assert t[..i] == s[..i];
    ClearedKeys(s, i, zero);
  }

  /**
   * When an empty slot follows the deleted one before the end of the table,
   * the slots before it are unchanged and no key becomes pending that was
   * not pending before: no key is reported twice.
   */
  lemma DeleteReturnedNoRepeat<V>(h: int -> int, s: seq<KeyValue<V>>, i: int, e: int, zero: V)
    requires Occupied(s, i) && Count(s) < |s| && DistinctKeys(s)
    requires i < e < |s| && s[e].key == FreeKey
    ensures Erase(h, s, i, zero)[..i] == s[..i]
    ensures forall k :: k in PendingFrom(Erase(h, s, i, zero), i, s[i].key) ==> k in PendingFrom(s, i, s[i].key)
  {
    var r := Erase(h, s, i, zero);
    EraseNoWrap(h, s, i, e, zero);
    forall k | k in PendingFrom(r, i, s[i].key)
      ensures k in PendingFrom(s, i, s[i].key)
    {
      PendingMember(r, i, s[i].key, k);
      PendingMember(s, i, s[i].key, k);
      if k == r[i].key {
        assert k in KeysFrom(r, i);
      } else {
        var y :| 0 <= y < |r| && i + 1 <= y && r[y].key != FreeKey && r[y].key == k;
        assert k in KeysFrom(r, i);
      }
    }
  }

  /** Slots that hold the same key, position by position, list the same keys. */
  lemma {:induction false} SameKeysSameList<V>(s: seq<KeyValue<V>>, t: seq<KeyValue<V>>)
    requires |s| == |t| && forall y :: 0 <= y < |s| ==> s[y].key == t[y].key
    ensures NonzeroKeys(s) == NonzeroKeys(t)
    decreases |s|
  {
    if |s| > 0 {
      var n := |s| - 1;
      SameKeysSameList(s[..n], t[..n]);
    }
  }

  /**
   * Changing the value held in slot j, as `Set` does for a key already in
   * the map, leaves the keys of the table and the keys an iterator has still
   * to report as they were.
   */
  lemma OverwriteKeepsPending<V>(s: seq<KeyValue<V>>, j: int, v: V, i: int, lastKey: int)
    requires 0 <= j < |s| && 0 <= i < |s|
    ensures var t := s[j := KeyValue(s[j].key, v)];
      NonzeroKeys(t) == NonzeroKeys(s) && PendingFrom(t, i, lastKey) == PendingFrom(s, i, lastKey)
  {
    var t := s[j := KeyValue(s[j].key, v)];
    SameKeysSameList(t, s);
    SameKeysSameList(t[i + 1..], s[i + 1..]);
  }

  /**
   * With wrap-around a key is reported twice: in a four-slot table where
   * distinct keys a and b both have home slot 3, b sits in slot 3 and a in
   * slot 0. The iterator reports a (slot 0), then b (slot 3); deleting b
   * moves a into slot 3, where the iterator reports it again.
   */
  lemma DeleteReturnedRepeatsOnWrap<V>(h: int -> int, a: int, b: int, zero: V)
    requires a != FreeKey && b != FreeKey && a != b
    requires h(a) % 4 == 3 && h(b) % 4 == 3
    ensures var s := [KeyValue(a, zero), Empty(zero), Empty(zero), KeyValue(b, zero)];
      Reachable(h, s) && DistinctKeys(s) && Count(s) < |s|
      && PendingFrom(s, 0, FreeKey) == [a] + NonzeroKeys(s[1..])
      && PendingFrom(s, 3, b) == []
      && PendingFrom(Erase(h, s, 3, zero), 3, b) == [a]
  {
    var s := [KeyValue(a, zero), Empty(zero), Empty(zero), KeyValue(b, zero)];
    assert s[..3][..2][..1] == [KeyValue(a, zero)];
    assert FirstEmpty(s) == 1;
    var t := s[3 := Empty(zero)];
    assert EraseFuel(s, 3) == 1;
    var u := t[3 := t[0]][0 := Empty(zero)];
    assert Shift(h, t, 3, 0, 1, zero) == Shift(h, u, 0, 1, 0, zero) == u;
    assert u[4..] == [];
  }
}
