/**
 * Backward-shift deletion (map.go, `shiftKeys`): Knuth's Algorithm R,
 * The Art of Computer Programming, volume 3, section 6.4.
 *
 * Deleting the entry in slot p leaves a gap. The slots after the gap are
 * examined one by one up to the next empty slot; an entry whose home slot
 * does not lie cyclically between the gap and itself is moved back into the
 * gap, and its old slot becomes the new gap. `Shift` is that process on the
 * table's contents, with the gap held empty; `Erase` is deletion of slot p.
 * The lemmas show that the entries other than the deleted one survive,
 * unchanged, and stay reachable from their home slots.
 */
module Backshift {
  import opened Slots
  import opened Probe

  /** An empty slot, `KeyValue{Key: freeKey}`, whose value is the zero value. */
  function Empty<V>(zero: V): KeyValue<V>
  {
    KeyValue(FreeKey, zero)
  }

  /**
   * map.go:278-284: the entry in slot idx, whose home is `slot`, is moved
   * into the gap `last` (the inner loop breaks).
   */
  predicate CanMove(last: int, slot: int, idx: int)
  {
    if last <= idx then last >= slot || slot > idx
    else last >= slot && slot > idx
  }

  /** An entry may move exactly when the gap lies on its probe path, before it. */
  lemma CanMoveIsGapOnPath(last: int, slot: int, idx: int, n: int)
    requires 0 <= last < n && 0 <= slot < n && 0 <= idx < n && last != idx
    ensures CanMove(last, slot, idx) <==> Dist(slot, last, n) < Dist(slot, idx, n)
  {
  }

  /** The bookkeeping of one step of the shift: there is fuel left and the empty slot ahead stays put. */
  lemma FuelStep(last: int, idx: int, fuel: nat, n: int)
    requires 0 <= last < n && 0 <= idx < n && fuel < Dist(idx, last, n) && Pos(idx, fuel, n) != idx
    ensures 1 <= fuel && last != idx && n >= 2
    ensures Pos(Next(idx, n), fuel - 1, n) == Pos(idx, fuel, n) != last
    ensures fuel - 1 < Dist(Next(idx, n), last, n) && fuel - 1 < Dist(Next(idx, n), idx, n)
  {
  }

  /**
   * The slots of t after shifting from the gap `last` onwards, the next slot
   * to examine being idx. `fuel` is the distance from idx to an empty slot,
   * which bounds the number of steps.
   */
  function Shift<V>(h: int -> int, t: seq<KeyValue<V>>, last: int, idx: int, fuel: nat, zero: V): (r: seq<KeyValue<V>>)
    requires 0 <= last < |t| && 0 <= idx < |t| && t[last].key == FreeKey
    requires fuel < Dist(idx, last, |t|) && t[Pos(idx, fuel, |t|)].key == FreeKey
    ensures |r| == |t|
    decreases fuel
  {
    if t[idx].key == FreeKey then t
    else
      FuelStep(last, idx, fuel, |t|);
      if CanMove(last, Home(h, t[idx].key, |t|), idx) then
        Shift(h, t[last := t[idx]][idx := Empty(zero)], idx, Next(idx, |t|), fuel - 1, zero)
      else
        Shift(h, t, last, Next(idx, |t|), fuel - 1, zero)
  }

  /**
   * One step of `Shift` at an occupied slot idx: the entry moves back into
   * the gap, which moves to idx, or it stays and idx advances; either way
   * one unit of fuel is spent.
   */
  lemma ShiftStep<V>(h: int -> int, t: seq<KeyValue<V>>, last: int, idx: int, fuel: nat, zero: V)
    requires 0 <= last < |t| && 0 <= idx < |t| && t[last].key == FreeKey
    requires fuel < Dist(idx, last, |t|) && t[Pos(idx, fuel, |t|)].key == FreeKey
    requires t[idx].key != FreeKey
    ensures 1 <= fuel && last != idx
    ensures var n := |t|; var u := t[last := t[idx]][idx := Empty(zero)];
      CanMove(last, Home(h, t[idx].key, n), idx) ==>
        && u[idx] == Empty(zero)
        && fuel - 1 < Dist(Next(idx, n), idx, n) && u[Pos(Next(idx, n), fuel - 1, n)].key == FreeKey
        && Shift(h, t, last, idx, fuel, zero) == Shift(h, u, idx, Next(idx, n), fuel - 1, zero)
    ensures var n := |t|;
      !CanMove(last, Home(h, t[idx].key, n), idx) ==>
        && fuel - 1 < Dist(Next(idx, n), last, n) && t[Pos(Next(idx, n), fuel - 1, n)].key == FreeKey
        && Shift(h, t, last, idx, fuel, zero) == Shift(h, t, last, Next(idx, n), fuel - 1, zero)
  {
    FuelStep(last, idx, fuel, |t|);
  }

  /** The distance from the slot after p to the first empty slot of s. */
  function EraseFuel<V>(s: seq<KeyValue<V>>, p: int): (fuel: nat)
    requires Occupied(s, p) && Count(s) < |s|
    ensures fuel < Dist(Next(p, |s|), p, |s|)
    ensures s[Pos(Next(p, |s|), fuel, |s|)].key == FreeKey
  {
    var e := FirstEmpty(s);
    DistInjective(Next(p, |s|), p, e, |s|);
    DistNext(p, p, |s|);
    Dist(Next(p, |s|), e, |s|)
  }

  /** The slots after deleting the entry in slot p (map.go, `shiftKeys(idx)`). */
  function Erase<V>(h: int -> int, s: seq<KeyValue<V>>, p: int, zero: V): (r: seq<KeyValue<V>>)
    requires Occupied(s, p) && Count(s) < |s|
    ensures |r| == |s|
  {
    Shift(h, s[p := Empty(zero)], p, Next(p, |s|), EraseFuel(s, p), zero)
  }

  // ---------------------------------------------------------------------
  // Entries survive

  /** Moving the entry of slot idx into the empty slot last keeps the mapping, the count and distinct keys. */
  lemma MovePreserves<V>(t: seq<KeyValue<V>>, last: int, idx: int, zero: V)
    requires DistinctKeys(t) && 0 <= last < |t| && t[last].key == FreeKey && Occupied(t, idx)
    ensures var u := t[last := t[idx]][idx := Empty(zero)];
      Mapping(u) == Mapping(t) && Count(u) == Count(t) && DistinctKeys(u)
  {
    var e := t[idx];
    var c := t[idx := Empty(zero)];
    var u := c[last := e];
    assert u == t[last := t[idx]][idx := Empty(zero)];
    MappingValue(t, idx);
    MappingClear(t, idx, Empty(zero));
    DistinctClear(t, idx, Empty(zero));
    CountStore(t, idx, Empty(zero));
    MappingStoreNew(c, last, e);
    DistinctStoreNew(c, last, e);
    CountStore(c, last, e);
  }

  /** Shifting keeps every entry with its value, and the number of entries. */
  lemma {:induction false} ShiftPreserves<V>(h: int -> int, t: seq<KeyValue<V>>, last: int, idx: int, fuel: nat, zero: V)
    requires 0 <= last < |t| && 0 <= idx < |t| && t[last].key == FreeKey
    requires fuel < Dist(idx, last, |t|) && t[Pos(idx, fuel, |t|)].key == FreeKey
    requires DistinctKeys(t)
    ensures var r := Shift(h, t, last, idx, fuel, zero);
      |r| == |t| && Mapping(r) == Mapping(t) && Count(r) == Count(t) && DistinctKeys(r)
    decreases fuel
  {
    if t[idx].key != FreeKey {
      FuelStep(last, idx, fuel, |t|);
      if CanMove(last, Home(h, t[idx].key, |t|), idx) {
        MovePreserves(t, last, idx, zero);
        ShiftPreserves(h, t[last := t[idx]][idx := Empty(zero)], idx, Next(idx, |t|), fuel - 1, zero);
      } else {
        ShiftPreserves(h, t, last, Next(idx, |t|), fuel - 1, zero);
      }
    }
  }

  // ---------------------------------------------------------------------
  // Entries stay reachable

  /**
   * While shifting, every entry is reachable except that the gap may lie on
   * the probe path of an entry that is still to be examined (idx or later).
   */
  predicate ReachableExcept<V>(h: int -> int, t: seq<KeyValue<V>>, last: int, idx: int)
    requires 0 <= last < |t| && 0 <= idx < |t|
  {
    forall j, x :: 0 <= j < |t| && 0 <= x < |t| && t[j].key != FreeKey
      && Dist(Home(h, t[j].key, |t|), x, |t|) < Dist(Home(h, t[j].key, |t|), j, |t|)
      ==> t[x].key != FreeKey || (x == last && Dist(last, idx, |t|) <= Dist(last, j, |t|))
  }

  /** A slot m strictly on the path from a to j, and b no further from m than j, put b on that path. */
  lemma PathThrough(a: int, m: int, b: int, j: int, n: int)
    requires 0 <= a < n && 0 <= m < n && 0 <= b < n && 0 <= j < n
    ensures Dist(a, m, n) < Dist(a, j, n) && Dist(m, b, n) <= Dist(m, j, n) ==> Dist(a, b, n) <= Dist(a, j, n)
  {
  }

  /** Deleting the entry of slot p from a table that satisfies the invariant starts the shift. */
  lemma ReachableStart<V>(h: int -> int, s: seq<KeyValue<V>>, p: int, zero: V)
    requires Reachable(h, s) && Occupied(s, p)
    ensures ReachableExcept(h, s[p := Empty(zero)], p, Next(p, |s|))
  {
    var t := s[p := Empty(zero)];
    var n := |s|;
    forall j, x | 0 <= j < n && 0 <= x < n && t[j].key != FreeKey
      && Dist(Home(h, t[j].key, n), x, n) < Dist(Home(h, t[j].key, n), j, n)
      ensures t[x].key != FreeKey || (x == p && Dist(p, Next(p, n), n) <= Dist(p, j, n))
    {
      DistNext(p, p, n);
    }
  }

  /** At the end of the shift, a slot on the probe path of an entry is occupied. */
  lemma OccupiedAtEnd<V>(h: int -> int, t: seq<KeyValue<V>>, last: int, idx: int, j: int, x: int)
    requires 0 <= last < |t| && 0 <= idx < |t| && last != idx && t[idx].key == FreeKey
    requires ReachableExcept(h, t, last, idx)
    requires 0 <= j < |t| && 0 <= x < |t| && t[j].key != FreeKey
    requires Dist(Home(h, t[j].key, |t|), x, |t|) < Dist(Home(h, t[j].key, |t|), j, |t|)
    ensures t[x].key != FreeKey
  {
    var n := |t|;
    var a := Home(h, t[j].key, n);
    PathThrough(a, last, idx, j, n);
    DistInjective(a, idx, j, n);
  }

  /** Reaching an empty slot ends the shift with every entry reachable. */
  lemma ReachableAtEnd<V>(h: int -> int, t: seq<KeyValue<V>>, last: int, idx: int)
    requires 0 <= last < |t| && 0 <= idx < |t| && last != idx && t[idx].key == FreeKey
    requires ReachableExcept(h, t, last, idx)
    ensures Reachable(h, t)
  {
    forall j, x | 0 <= j < |t| && 0 <= x < |t| && t[j].key != FreeKey
      && Dist(Home(h, t[j].key, |t|), x, |t|) < Dist(Home(h, t[j].key, |t|), j, |t|)
      ensures t[x].key != FreeKey
    {
      OccupiedAtEnd(h, t, last, idx, j, x);
    }
  }

  /** An entry that may not move does not have the gap on its path: the next slot is examined. */
  lemma ReachableAfterSkip<V>(h: int -> int, t: seq<KeyValue<V>>, last: int, idx: int)
    requires 0 <= last < |t| && 0 <= idx < |t| && last != idx && Next(idx, |t|) != last
    requires t[idx].key != FreeKey
    requires Dist(Home(h, t[idx].key, |t|), idx, |t|) <= Dist(Home(h, t[idx].key, |t|), last, |t|)
    requires ReachableExcept(h, t, last, idx)
    ensures ReachableExcept(h, t, last, Next(idx, |t|))
  {
    var n := |t|;
    forall j, x | 0 <= j < n && 0 <= x < n && t[j].key != FreeKey
      && Dist(Home(h, t[j].key, n), x, n) < Dist(Home(h, t[j].key, n), j, n)
      ensures t[x].key != FreeKey || (x == last && Dist(last, Next(idx, n), n) <= Dist(last, j, n))
    {
      DistNext(last, idx, n);
      DistInjective(last, idx, j, n);
    }
  }

  /** After a move, a slot on the probe path of an entry is occupied or is the new gap. */
  lemma OccupiedAfterMove<V>(h: int -> int, t: seq<KeyValue<V>>, last: int, idx: int, zero: V, j: int, x: int)
    requires 0 <= last < |t| && 0 <= idx < |t| && last != idx && t[last].key == FreeKey
    requires t[idx].key != FreeKey
    requires Dist(Home(h, t[idx].key, |t|), last, |t|) < Dist(Home(h, t[idx].key, |t|), idx, |t|)
    requires ReachableExcept(h, t, last, idx)
    requires var u := t[last := t[idx]][idx := Empty(zero)];
      0 <= j < |t| && 0 <= x < |t| && u[j].key != FreeKey
      && Dist(Home(h, u[j].key, |t|), x, |t|) < Dist(Home(h, u[j].key, |t|), j, |t|)
    ensures var u := t[last := t[idx]][idx := Empty(zero)];
      u[x].key != FreeKey || (x == idx && Dist(idx, Next(idx, |t|), |t|) <= Dist(idx, j, |t|))
  {
    var n := |t|;
    var u := t[last := t[idx]][idx := Empty(zero)];
    var a := Home(h, u[j].key, n);
    DistNext(idx, idx, n);
    DistInjective(a, x, last, n);
    DistInjective(a, x, idx, n);
    DistInjective(idx, idx, j, n);
  }

  /** An entry moved into the gap is reachable there; its old slot becomes the gap. */
  lemma ReachableAfterMove<V>(h: int -> int, t: seq<KeyValue<V>>, last: int, idx: int, zero: V)
    requires 0 <= last < |t| && 0 <= idx < |t| && last != idx && t[last].key == FreeKey
    requires t[idx].key != FreeKey
    requires Dist(Home(h, t[idx].key, |t|), last, |t|) < Dist(Home(h, t[idx].key, |t|), idx, |t|)
    requires ReachableExcept(h, t, last, idx)
    ensures ReachableExcept(h, t[last := t[idx]][idx := Empty(zero)], idx, Next(idx, |t|))
  {
    var n := |t|;
    var u := t[last := t[idx]][idx := Empty(zero)];
    forall j, x | 0 <= j < n && 0 <= x < n && u[j].key != FreeKey
      && Dist(Home(h, u[j].key, n), x, n) < Dist(Home(h, u[j].key, n), j, n)
      ensures u[x].key != FreeKey || (x == idx && Dist(idx, Next(idx, n), n) <= Dist(idx, j, n))
    {
      OccupiedAfterMove(h, t, last, idx, zero, j, x);
    }
  }

  /** Shifting ends with every entry reachable from its home slot. */
  lemma {:induction false} ShiftReachable<V>(h: int -> int, t: seq<KeyValue<V>>, last: int, idx: int, fuel: nat, zero: V)
    requires 0 <= last < |t| && 0 <= idx < |t| && t[last].key == FreeKey
    requires fuel < Dist(idx, last, |t|) && t[Pos(idx, fuel, |t|)].key == FreeKey
    requires ReachableExcept(h, t, last, idx)
    ensures Reachable(h, Shift(h, t, last, idx, fuel, zero))
    decreases fuel
  {
    var n := |t|;
    if t[idx].key == FreeKey {
      ReachableAtEnd(h, t, last, idx);
    } else {
      FuelStep(last, idx, fuel, n);
      var a := Home(h, t[idx].key, n);
      CanMoveIsGapOnPath(last, a, idx, n);
      DistNext(idx, last, n);
      if CanMove(last, a, idx) {
        ReachableAfterMove(h, t, last, idx, zero);
        ShiftReachable(h, t[last := t[idx]][idx := Empty(zero)], idx, Next(idx, n), fuel - 1, zero);
      } else {
        ReachableAfterSkip(h, t, last, idx);
        ShiftReachable(h, t, last, Next(idx, n), fuel - 1, zero);
      }
    }
  }

  // ---------------------------------------------------------------------
  // Deletion

  /**
   * Deleting the entry of slot p removes exactly its key: every other key
   * keeps its value and stays reachable, and there is one entry fewer.
   */
  lemma EraseSpec<V>(h: int -> int, s: seq<KeyValue<V>>, p: int, zero: V)
    requires Occupied(s, p) && Count(s) < |s| && DistinctKeys(s) && Reachable(h, s)
    ensures var r := Erase(h, s, p, zero);
      |r| == |s| && Mapping(r) == Mapping(s) - {s[p].key} && Count(r) == Count(s) - 1
      && DistinctKeys(r) && Reachable(h, r)
  {
    var t := s[p := Empty(zero)];
    MappingClear(s, p, Empty(zero));
    DistinctClear(s, p, Empty(zero));
    CountStore(s, p, Empty(zero));
    ShiftPreserves(h, t, p, Next(p, |s|), EraseFuel(s, p), zero);
    ReachableStart(h, s, p, zero);
    ShiftReachable(h, t, p, Next(p, |s|), EraseFuel(s, p), zero);
  }
}
