/**
 * The word-level helpers of the 32-bit build (map_32.go), on `bv32`.
 *
 * The map itself is modelled once, for the 64-bit build (module IntMap);
 * this module states what the 32-bit `hash` and `nextPowerOf2` compute.
 * Go defines a shift by the full width or more: `v >> 32` on a 32-bit
 * signed int yields 0 for a non-negative v and -1 for a negative one, so
 * the `hash` of map_32.go never folds the product's high half into its
 * low half. `HashAsWritten` models the source as it stands; `Hash` is the
 * evidently intended fold by half a word (`v >> 16`).
 */
module Word32 {

  const SignBit: bv32 := 0x8000_0000

  /** 0x9E3779B9, written in the source as the signed literal -1640531527. */
  const Golden: bv32 := 0x9E37_79B9

  /** Go's `x >> s` on a signed 32-bit word, for a shift count below the width. */
  function Sar(x: bv32, s: bv32): (r: bv32)
    requires s < 32
    ensures r & SignBit == x & SignBit
    ensures x & SignBit == 0 ==> r == x >> s
  {
    if x & SignBit == 0 then x >> s else !((!x) >> s)
  }

  /**
   * Go's `x >> s` on a signed 32-bit word for a shift count of 32 or more:
   * every bit is a copy of the sign bit.
   */
  function SignFill(x: bv32): (r: bv32)
    ensures r & SignBit == x & SignBit
  {
    if x & SignBit == 0 then 0 else 0xFFFF_FFFF
  }

  // ---------------------------------------------------------------------
  // hash

  /** The last step of `hash` as written, `v ^ (v >> 32)` on a 32-bit word. */
  function FoldAsWritten(p: bv32): bv32
  {
    p ^ SignFill(p)
  }

  /** `hash` of map_32.go as written: `v *= Golden; return v ^ (v >> 32)`. */
  function HashAsWritten(v: bv32): bv32
  {
    FoldAsWritten(v * Golden)
  }

  lemma FoldAsWrittenNonNegative(p: bv32)
    requires p & SignBit == 0
    ensures FoldAsWritten(p) == p
  {
  }

  lemma FoldAsWrittenNegative(p: bv32)
    requires p & SignBit != 0
    ensures FoldAsWritten(p) == !p
  {
  }

  /** As written, the fold returns the product itself, complemented when negative. */
  lemma FoldAsWrittenIsSignFold(p: bv32)
    ensures FoldAsWritten(p) == (if p & SignBit == 0 then p else !p)
    ensures FoldAsWritten(p) & SignBit == 0
  {
    if p & SignBit == 0 {
      FoldAsWrittenNonNegative(p);
    } else {
      FoldAsWrittenNegative(p);
    }
  }

  lemma ComplementLowBits(p: bv32)
    requires p & 7 == 0
    ensures (!p) & 7 == 7
  {
  }

  /** As written, the low three bits of the hash are those of the product or their complement. */
  lemma FoldAsWrittenLowBits(p: bv32)
    requires p & 7 == 0
    ensures FoldAsWritten(p) & 7 == 0 || FoldAsWritten(p) & 7 == 7
  {
    if p & SignBit == 0 {
      FoldAsWrittenNonNegative(p);
    } else {
      FoldAsWrittenNegative(p);
      ComplementLowBits(p);
    }
  }

  lemma MultipleOf8(v: bv32)
    requires v & 7 == 0
    ensures v == (v >> 3) * 8
  {
  }

  lemma ProductByEight(w: bv32)
    ensures ((w * 8) * Golden) & 7 == 0
  {
    assert (w * 8) * Golden == (w * Golden) * 8;
  }

  lemma ProductOfMultipleOf8(v: bv32)
    requires v & 7 == 0
    ensures (v * Golden) & 7 == 0
  {
    MultipleOf8(v);
    ProductByEight(v >> 3);
  }

  /**
   * As written, the low bits of the hash depend on the low bits of the key
   * only: every multiple of 8 lands in slot 0 or slot 7 of an 8-slot table.
   */
  lemma HashAsWrittenMultipleOf8(v: bv32)
    requires v & 7 == 0
    ensures HashAsWritten(v) & 7 == 0 || HashAsWritten(v) & 7 == 7
  {
    ProductOfMultipleOf8(v);
    FoldAsWrittenLowBits(v * Golden);
  }

  /** Keys 8 and 16 share slot 7 of an 8-slot table. */
  lemma HashAsWrittenCollides()
    ensures HashAsWritten(8) & 7 == 7 && HashAsWritten(16) & 7 == 7
  {
    assert 8 * Golden == 0xF1BB_CDC8;
    assert 16 * Golden == 0xE377_9B90;
    FoldAsWrittenIsSignFold(0xF1BB_CDC8);
    FoldAsWrittenIsSignFold(0xE377_9B90);
  }

  /** The intended last step of `hash` on a 32-bit word: `v ^ (v >> 16)`. */
  function Fold(p: bv32): (r: bv32)
    ensures r & SignBit == 0
  {
    p ^ Sar(p, 16)
  }

  /** The intended `hash` of the 32-bit build. */
  function Hash(v: bv32): (r: bv32)
    ensures r & SignBit == 0
  {
    Fold(v * Golden)
  }

  lemma FoldMixesHalvesNonNegative(p: bv32)
    requires p & SignBit == 0
    ensures Fold(p) & 0xFFFF == (p & 0xFFFF) ^ (p >> 16)
  {
  }

  lemma FoldMixesHalvesNegative(p: bv32)
    requires p & SignBit != 0
    ensures Fold(p) & 0xFFFF == (p & 0xFFFF) ^ (p >> 16)
  {
    assert Sar(p, 16) == !((!p) >> 16);
  }

  /** The low half of the intended fold mixes both halves of the product. */
  lemma FoldMixesHalves(p: bv32)
    ensures Fold(p) & 0xFFFF == (p & 0xFFFF) ^ (p >> 16)
  {
    if p & SignBit == 0 {
      FoldMixesHalvesNonNegative(p);
    } else {
      FoldMixesHalvesNegative(p);
    }
  }

  /** With the intended fold, keys 8 and 16 land in different slots of an 8-slot table. */
  lemma HashSeparates()
    ensures Hash(8) & 7 == 3 && Hash(16) & 7 == 7
  {
    assert 8 * Golden == 0xF1BB_CDC8;
    assert 16 * Golden == 0xE377_9B90;
  }

  // ---------------------------------------------------------------------
  // nextPowerOf2

  /** `nextPowerOf2` of map_32.go, on the word. */
  function NextPowerOf2(v: bv32): bv32
  {
    var v := v - 1;
    var v := v | Sar(v, 1);
    var v := v | Sar(v, 2);
    var v := v | Sar(v, 4);
    var v := v | Sar(v, 8);
    var v := v | Sar(v, 16);
    v + 1
  }

  /** The word is a positive power of two. */
  predicate IsPow2Word(r: bv32)
  {
    r != 0 && r & SignBit == 0 && r & (r - 1) == 0
  }

  /** Capacities 1 .. 2^30 are rounded up to the least power of two that is not below them. */
  lemma NextPowerOf2RoundsUp(v: bv32)
    requires 1 <= v <= 0x4000_0000
    ensures var r := NextPowerOf2(v); IsPow2Word(r) && v <= r && r >> 1 < v
  {
  }

  /** Powers of two up to 2^30 are left unchanged. */
  lemma NextPowerOf2KeepsPow2(v: bv32)
    requires IsPow2Word(v) && v <= 0x4000_0000
    ensures NextPowerOf2(v) == v
  {
  }

  /** Zero and the negative words other than the most negative one round to 0. */
  lemma NextPowerOf2NonPositive(v: bv32)
    requires v == 0 || (v & SignBit != 0 && v != SignBit)
    ensures NextPowerOf2(v) == 0
  {
  }

  /** Capacities above 2^30, and the most negative word, round to a negative word: Init panics. */
  lemma NextPowerOf2Negative(v: bv32)
    requires v == SignBit || (0x4000_0000 < v && v & SignBit == 0)
    ensures NextPowerOf2(v) & SignBit != 0
  {
  }
}
