/**
 * The word-level helpers of the 64-bit build (map_64.go).
 *
 * Go's `int` is a 64-bit two's complement word: it is modelled as `bv64`,
 * with `*`, `+` and `-` wrapping around and `>>` on a signed word written out
 * as an arithmetic shift (`Sar`). `ToNat`/`FromNat` and `ToInt`/`FromInt`
 * connect words and mathematical integers, so that what the map relies on
 * can be stated on `int`.
 */
module Word64 {

  const MinInt: int := -0x8000_0000_0000_0000
  const MaxInt: int := 0x7FFF_FFFF_FFFF_FFFF
  const Modulus: int := 0x1_0000_0000_0000_0000
  const SignBit: bv64 := 0x8000_0000_0000_0000

  /** 0x9E3779B97F4A7C15, written in the source as the signed literal -7046029254386353131. */
  const Golden: bv64 := 0x9E37_79B9_7F4A_7C15

  /** n is a positive power of two. */
  predicate IsPow2(n: int)
    decreases if n < 0 then 0 else n
  {
    n == 1 || (n > 1 && n % 2 == 0 && IsPow2(n / 2))
  }

  /** A power of two between a and 2a (exclusive) is a itself. */
  lemma {:induction false} Pow2Between(a: int, b: int)
    requires IsPow2(a) && IsPow2(b) && a <= b < 2 * a
    ensures a == b
    decreases a
  {
    if a != 1 {
      Pow2Between(a / 2, b / 2);
    }
  }

  /** 2^31, checked one doubling at a time. */
  lemma Pow2Middle()
    ensures IsPow2(0x8000_0000)
  {
    assert IsPow2(0x2);
    assert IsPow2(0x4);
    assert IsPow2(0x8);
    assert IsPow2(0x10);
    assert IsPow2(0x20);
    assert IsPow2(0x40);
    assert IsPow2(0x80);
    assert IsPow2(0x100);
    assert IsPow2(0x200);
    assert IsPow2(0x400);
    assert IsPow2(0x800);
    assert IsPow2(0x1000);
    assert IsPow2(0x2000);
    assert IsPow2(0x4000);
    assert IsPow2(0x8000);
    assert IsPow2(0x10000);
    assert IsPow2(0x20000);
    assert IsPow2(0x40000);
    assert IsPow2(0x80000);
    assert IsPow2(0x100000);
    assert IsPow2(0x200000);
    assert IsPow2(0x400000);
    assert IsPow2(0x800000);
    assert IsPow2(0x1000000);
    assert IsPow2(0x2000000);
    assert IsPow2(0x4000000);
    assert IsPow2(0x8000000);
    assert IsPow2(0x10000000);
    assert IsPow2(0x20000000);
    assert IsPow2(0x40000000);
  }

  /** 2^62, the largest power of two that is a Go int. */
  lemma Pow2Limit()
    ensures IsPow2(0x4000_0000_0000_0000)
  {
    Pow2Middle();
    assert IsPow2(0x100000000);
    assert IsPow2(0x200000000);
    assert IsPow2(0x400000000);
    assert IsPow2(0x800000000);
    assert IsPow2(0x1000000000);
    assert IsPow2(0x2000000000);
    assert IsPow2(0x4000000000);
    assert IsPow2(0x8000000000);
    assert IsPow2(0x10000000000);
    assert IsPow2(0x20000000000);
    assert IsPow2(0x40000000000);
    assert IsPow2(0x80000000000);
    assert IsPow2(0x100000000000);
    assert IsPow2(0x200000000000);
    assert IsPow2(0x400000000000);
    assert IsPow2(0x800000000000);
    assert IsPow2(0x1000000000000);
    assert IsPow2(0x2000000000000);
    assert IsPow2(0x4000000000000);
    assert IsPow2(0x8000000000000);
    assert IsPow2(0x10000000000000);
    assert IsPow2(0x20000000000000);
    assert IsPow2(0x40000000000000);
    assert IsPow2(0x80000000000000);
    assert IsPow2(0x100000000000000);
    assert IsPow2(0x200000000000000);
    assert IsPow2(0x400000000000000);
    assert IsPow2(0x800000000000000);
    assert IsPow2(0x1000000000000000);
    assert IsPow2(0x2000000000000000);
  }

  /** A power of two below another is at most half of it. */
  lemma {:induction false} Pow2Double(a: int, b: int)
    requires IsPow2(a) && IsPow2(b) && a < b
    ensures 2 * a <= b
    decreases b
  {
    if a != 1 {
      Pow2Double(a / 2, b / 2);
    }
  }

  /**
   * A power-of-two length whose double is still a Go int doubles to a power
   * of two of at most 2^62 (map.go, `len(es) << 1` in `rehash`).
   */
  lemma DoubleWithinLimit(n: int)
    requires IsPow2(n) && 2 * n <= MaxInt
    ensures IsPow2(2 * n) && 2 * n <= 0x4000_0000_0000_0000
  {
    assert (2 * n) / 2 == n;
    Pow2WithinLimit(2 * n);
  }

  /** A power of two that is a Go int is at most 2^62. */
  lemma Pow2WithinLimit(r: int)
    requires IsPow2(r) && r <= MaxInt
    ensures r <= 0x4000_0000_0000_0000
  {
    if r > 0x4000_0000_0000_0000 {
      Pow2Limit();
      Pow2Double(0x4000_0000_0000_0000, r);
    }
  }

  // ---------------------------------------------------------------------
  // Words

  /** Go's `x >> s` on a signed word: the sign bit is shifted in. */
  function Sar(x: bv64, s: bv64): (r: bv64)
    requires s < 64
    ensures r & SignBit == x & SignBit
    ensures x & SignBit == 0 ==> r == x >> s
  {
    if x & SignBit == 0 then x >> s else !((!x) >> s)
  }

  /** The last step of `hash`, `v ^ (v >> 32)`: the high half is folded into the low half. */
  function Fold(p: bv64): (r: bv64)
    ensures r & SignBit == 0
  {
    p ^ Sar(p, 32)
  }

  /** `hash` of map_64.go: a Fibonacci multiplication followed by `Fold`. */
  function Hash(v: bv64): (r: bv64)
    ensures r & SignBit == 0
  {
    Fold(v * Golden)
  }

  /** `nextPowerOf2` of map_64.go, on the word. */
  function NextPowerOf2(v: bv64): bv64
  {
    var v := v - 1;
    var v := v | Sar(v, 1);
    var v := v | Sar(v, 2);
    var v := v | Sar(v, 4);
    var v := v | Sar(v, 8);
    var v := v | Sar(v, 16);
    var v := v | Sar(v, 32);
    v + 1
  }

  /** The same smearing of the highest set bit, with logical shifts. */
  function Smear(x: bv64): bv64
  {
    var x := x | (x >> 1);
    var x := x | (x >> 2);
    var x := x | (x >> 4);
    var x := x | (x >> 8);
    var x := x | (x >> 16);
    x | (x >> 32)
  }

  lemma SmearStep(x: bv64, s: bv64)
    requires s < 64 && x & SignBit == 0
    ensures x | Sar(x, s) == x | (x >> s)
    ensures (x | (x >> s)) & SignBit == 0
  {
  }

  /** On a word whose sign bit is clear after the decrement, the arithmetic shifts are logical ones. */
  lemma NextPowerOf2IsSmear(v: bv64)
    requires (v - 1) & SignBit == 0
    ensures NextPowerOf2(v) == Smear(v - 1) + 1
  {
    var x0 := v - 1;
    SmearStep(x0, 1);
    var x1 := x0 | (x0 >> 1);
    SmearStep(x1, 2);
    var x2 := x1 | (x1 >> 2);
    SmearStep(x2, 4);
    var x3 := x2 | (x2 >> 4);
    SmearStep(x3, 8);
    var x4 := x3 | (x3 >> 8);
    SmearStep(x4, 16);
    var x5 := x4 | (x4 >> 16);
    SmearStep(x5, 32);
  }

  /** Smearing a non-zero word gives one more low one than smearing its half. */
  lemma SmearHalf(y: bv64)
    requires y != 0
    ensures Smear(y) == (Smear(y >> 1) << 1) | 1
  {
  }

  lemma SmearSignClear(y: bv64)
    requires y & SignBit == 0
    ensures Smear(y) & SignBit == 0
  {
  }

  /** Zero and the negative words other than the most negative one round to 0. */
  lemma NextPowerOf2WordNonPositive(v: bv64)
    requires v == 0 || (v & SignBit != 0 && v != SignBit)
    ensures NextPowerOf2(v) == 0
  {
  }

  /** Words above 2^62, and the most negative word, round to the most negative word. */
  lemma NextPowerOf2WordOverflow(v: bv64)
    requires v == SignBit || (v & SignBit == 0 && v & 0x4000_0000_0000_0000 != 0 && v != 0x4000_0000_0000_0000)
    ensures NextPowerOf2(v) == SignBit
  {
  }

  // ---------------------------------------------------------------------
  // From words to integers

  /** The unsigned value of a word. */
  function ToNat(x: bv64): nat
    decreases x
  {
    if x == 0 then 0 else 2 * ToNat(x >> 1) + (if x & 1 == 1 then 1 else 0)
  }

  /** The word whose unsigned value is n modulo 2^64. */
  function FromNat(n: nat): bv64
  {
    if n == 0 then 0
    else if n % 2 == 1 then (FromNat(n / 2) << 1) | 1
    else FromNat(n / 2) << 1
  }

  /** The signed value of a word (two's complement). */
  function ToInt(x: bv64): int
  {
    if x & SignBit == 0 then ToNat(x) else ToNat(x) - Modulus
  }

  /** The word holding v modulo 2^64: for v in [MinInt, MaxInt], its two's complement. */
  function FromInt(v: int): bv64
  {
    FromNat(v % Modulus)
  }

  lemma UnfoldToNat(x: bv64)
    ensures ToNat(x) == 2 * ToNat(x >> 1) + (if x & 1 == 1 then 1 else 0)
  {
  }

  lemma SplitBits(x: bv64, y: bv64)
    requires x >> 1 == y >> 1 && x & 1 == y & 1
    ensures x == y
  {
  }

  lemma {:induction false} ToNatZero(x: bv64)
    requires ToNat(x) == 0
    ensures x == 0
    decreases x
  {
    if x != 0 {
      UnfoldToNat(x);
      ToNatZero(x >> 1);
      SplitBits(x, 0);
    }
  }

  lemma ToNatPositive(x: bv64)
    requires x != 0
    ensures ToNat(x) > 0
  {
    if ToNat(x) == 0 {
      ToNatZero(x);
    }
  }

  /** Halving a word halves its value; the low bit is the value's parity. */
  lemma ValueHalves(x: bv64)
    ensures ToNat(x) / 2 == ToNat(x >> 1)
    ensures ToNat(x) % 2 == 1 <==> x & 1 == 1
  {
    UnfoldToNat(x);
  }

  lemma RebuildOdd(x: bv64)
    requires x & 1 == 1
    ensures ((x >> 1) << 1) | 1 == x
  {
  }

  lemma RebuildEven(x: bv64)
    requires x & 1 == 0
    ensures (x >> 1) << 1 == x
  {
  }

  lemma FromNatOddCase(x: bv64, n: nat)
    requires x & 1 == 1 && n % 2 == 1 && FromNat(n / 2) == x >> 1
    ensures FromNat(n) == x
  {
    RebuildOdd(x);
  }

  lemma FromNatEvenCase(x: bv64, n: nat)
    requires x & 1 == 0 && n > 0 && n % 2 == 0 && FromNat(n / 2) == x >> 1
    ensures FromNat(n) == x
  {
    RebuildEven(x);
  }

  lemma FromNatHalf(x: bv64)
    requires x != 0 && FromNat(ToNat(x >> 1)) == x >> 1
    ensures FromNat(ToNat(x)) == x
  {
    ToNatPositive(x);
    ValueHalves(x);
    var n := ToNat(x);
    if n % 2 == 1 {
      FromNatOddCase(x, n);
    } else {
      FromNatEvenCase(x, n);
    }
  }

  lemma HalfSmaller(x: bv64)
    requires x != 0
    ensures ToNat(x >> 1) < ToNat(x)
  {
    ToNatPositive(x);
    ValueHalves(x);
  }

  /** FromNat undoes ToNat. */
  lemma {:induction false} FromNatOfToNat(x: bv64)
    ensures FromNat(ToNat(x)) == x
    decreases ToNat(x)
  {
    if x != 0 {
      HalfSmaller(x);
      FromNatOfToNat(x >> 1);
      FromNatHalf(x);
    }
  }

  /** Distinct words have distinct values. */
  lemma ToNatInjective(x: bv64, y: bv64)
    requires ToNat(x) == ToNat(y)
    ensures x == y
  {
    FromNatOfToNat(x);
    FromNatOfToNat(y);
  }

  lemma SubsetHalves(a: bv64, b: bv64)
    requires a & b == a
    ensures (a >> 1) & (b >> 1) == a >> 1
    ensures a & 1 == 1 ==> b & 1 == 1
    ensures b == 0 ==> a == 0
  {
  }

  /** A word whose bits are among those of b is not above b. */
  lemma {:induction false} ToNatSubset(a: bv64, b: bv64)
    requires a & b == a
    ensures ToNat(a) <= ToNat(b)
    decreases ToNat(b)
  {
    SubsetHalves(a, b);
    if b != 0 {
      HalfSmaller(b);
      ToNatSubset(a >> 1, b >> 1);
      UnfoldToNat(a);
      UnfoldToNat(b);
    }
  }

  lemma DecrementHalves(x: bv64)
    requires x != 0
    ensures x & 1 == 1 ==> (x - 1) >> 1 == x >> 1 && (x - 1) & 1 == 0
    ensures x & 1 == 0 ==> (x >> 1) != 0 && (x - 1) >> 1 == (x >> 1) - 1 && (x - 1) & 1 == 1
  {
  }

  lemma {:induction false} ToNatDecrement(x: bv64)
    requires x != 0
    ensures ToNat(x - 1) + 1 == ToNat(x)
    decreases ToNat(x)
  {
    var p := x - 1;
    UnfoldToNat(x);
    UnfoldToNat(p);
    DecrementHalves(x);
    if x & 1 == 0 {
      var h := x >> 1;
      if ToNat(h) == 0 {
        ToNatZero(h);
      }
      ToNatDecrement(h);
      assert p >> 1 == h - 1;
    }
  }

  /** The value of 2^32, computed one bit at a time. */
  lemma LowPowers()
    ensures ToNat(0x1_0000_0000) == 0x1_0000_0000
  {
    assert ToNat(0x1) == 0x1;
    assert ToNat(0x2) == 0x2;
    assert ToNat(0x4) == 0x4;
    assert ToNat(0x8) == 0x8;
    assert ToNat(0x10) == 0x10;
    assert ToNat(0x20) == 0x20;
    assert ToNat(0x40) == 0x40;
    assert ToNat(0x80) == 0x80;
    assert ToNat(0x100) == 0x100;
    assert ToNat(0x200) == 0x200;
    assert ToNat(0x400) == 0x400;
    assert ToNat(0x800) == 0x800;
    assert ToNat(0x1000) == 0x1000;
    assert ToNat(0x2000) == 0x2000;
    assert ToNat(0x4000) == 0x4000;
    assert ToNat(0x8000) == 0x8000;
    assert ToNat(0x10000) == 0x10000;
    assert ToNat(0x20000) == 0x20000;
    assert ToNat(0x40000) == 0x40000;
    assert ToNat(0x80000) == 0x80000;
    assert ToNat(0x100000) == 0x100000;
    assert ToNat(0x200000) == 0x200000;
    assert ToNat(0x400000) == 0x400000;
    assert ToNat(0x800000) == 0x800000;
    assert ToNat(0x1000000) == 0x1000000;
    assert ToNat(0x2000000) == 0x2000000;
    assert ToNat(0x4000000) == 0x4000000;
    assert ToNat(0x8000000) == 0x8000000;
    assert ToNat(0x10000000) == 0x10000000;
    assert ToNat(0x20000000) == 0x20000000;
    assert ToNat(0x40000000) == 0x40000000;
    assert ToNat(0x80000000) == 0x80000000;
  }

  lemma TopPowers()
    ensures ToNat(0x4000_0000_0000_0000) == 0x4000_0000_0000_0000
    ensures ToNat(0x8000_0000_0000_0000) == 0x8000_0000_0000_0000
    ensures ToNat(0x3FFF_FFFF_FFFF_FFFF) == 0x3FFF_FFFF_FFFF_FFFF
    ensures ToNat(0x7FFF_FFFF_FFFF_FFFF) == 0x7FFF_FFFF_FFFF_FFFF
  {
    LowPowers();
    assert ToNat(0x200000000) == 0x200000000;
    assert ToNat(0x400000000) == 0x400000000;
    assert ToNat(0x800000000) == 0x800000000;
    assert ToNat(0x1000000000) == 0x1000000000;
    assert ToNat(0x2000000000) == 0x2000000000;
    assert ToNat(0x4000000000) == 0x4000000000;
    assert ToNat(0x8000000000) == 0x8000000000;
    assert ToNat(0x10000000000) == 0x10000000000;
    assert ToNat(0x20000000000) == 0x20000000000;
    assert ToNat(0x40000000000) == 0x40000000000;
    assert ToNat(0x80000000000) == 0x80000000000;
    assert ToNat(0x100000000000) == 0x100000000000;
    assert ToNat(0x200000000000) == 0x200000000000;
    assert ToNat(0x400000000000) == 0x400000000000;
    assert ToNat(0x800000000000) == 0x800000000000;
    assert ToNat(0x1000000000000) == 0x1000000000000;
    assert ToNat(0x2000000000000) == 0x2000000000000;
    assert ToNat(0x4000000000000) == 0x4000000000000;
    assert ToNat(0x8000000000000) == 0x8000000000000;
    assert ToNat(0x10000000000000) == 0x10000000000000;
    assert ToNat(0x20000000000000) == 0x20000000000000;
    assert ToNat(0x40000000000000) == 0x40000000000000;
    assert ToNat(0x80000000000000) == 0x80000000000000;
    assert ToNat(0x100000000000000) == 0x100000000000000;
    assert ToNat(0x200000000000000) == 0x200000000000000;
    assert ToNat(0x400000000000000) == 0x400000000000000;
    assert ToNat(0x800000000000000) == 0x800000000000000;
    assert ToNat(0x1000000000000000) == 0x1000000000000000;
    assert ToNat(0x2000000000000000) == 0x2000000000000000;
    assert ToNat(0x4000000000000000) == 0x4000000000000000;
    assert ToNat(0x8000000000000000) == 0x8000000000000000;
    ToNatDecrement(0x4000_0000_0000_0000);
    ToNatDecrement(0x8000_0000_0000_0000);
  }

  lemma SignClearBound(x: bv64)
    requires x & SignBit == 0
    ensures ToNat(x) < 0x8000_0000_0000_0000
  {
    TopPowers();
    assert x & 0x7FFF_FFFF_FFFF_FFFF == x;
    ToNatSubset(x, 0x7FFF_FFFF_FFFF_FFFF);
  }

  lemma BitSetBound(x: bv64, p: bv64)
    requires p & x == p
    ensures ToNat(p) <= ToNat(x)
  {
    ToNatSubset(p, x);
  }

  /** The sign bit is clear exactly when the unsigned value is below 2^63. */
  lemma SignBitBound(x: bv64)
    ensures x & SignBit == 0 <==> ToNat(x) < 0x8000_0000_0000_0000
  {
    if x & SignBit == 0 {
      SignClearBound(x);
    } else {
      TopPowers();
      BitSetBound(x, SignBit);
    }
  }

  lemma TopTwoClearBound(x: bv64)
    requires x & 0xC000_0000_0000_0000 == 0
    ensures ToNat(x) < 0x4000_0000_0000_0000
  {
    TopPowers();
    assert x & 0x3FFF_FFFF_FFFF_FFFF == x;
    ToNatSubset(x, 0x3FFF_FFFF_FFFF_FFFF);
  }

  /** Bits 62 and 63 are both clear exactly when the unsigned value is below 2^62. */
  lemma TopTwoBitsBound(x: bv64)
    ensures x & 0xC000_0000_0000_0000 == 0 <==> ToNat(x) < 0x4000_0000_0000_0000
  {
    if x & 0xC000_0000_0000_0000 == 0 {
      TopTwoClearBound(x);
    } else if x & SignBit != 0 {
      SignBitBound(x);
    } else {
      TopPowers();
      BitSetBound(x, 0x4000_0000_0000_0000);
    }
  }

  lemma ShiftInOneBits(h: bv64)
    requires h & SignBit == 0
    ensures ((h << 1) | 1) >> 1 == h && ((h << 1) | 1) & 1 == 1
  {
  }

  lemma ShiftInZeroBits(h: bv64)
    requires h & SignBit == 0
    ensures (h << 1) >> 1 == h && (h << 1) & 1 == 0
  {
  }

  lemma ShiftInOne(h: bv64)
    requires h & SignBit == 0
    ensures ToNat((h << 1) | 1) == 2 * ToNat(h) + 1
  {
    var x := (h << 1) | 1;
    ShiftInOneBits(h);
    UnfoldToNat(x);
  }

  lemma ShiftInZero(h: bv64)
    requires h & SignBit == 0
    ensures ToNat(h << 1) == 2 * ToNat(h)
  {
    var x := h << 1;
    ShiftInZeroBits(h);
    UnfoldToNat(x);
  }

  lemma FromNatOdd(n: nat, h: bv64)
    requires n % 2 == 1 && h == FromNat(n / 2) && h & SignBit == 0
    ensures ToNat(FromNat(n)) == 2 * ToNat(h) + 1
  {
    ShiftInOne(h);
  }

  lemma FromNatEven(n: nat, h: bv64)
    requires 0 < n && n % 2 == 0 && h == FromNat(n / 2) && h & SignBit == 0
    ensures ToNat(FromNat(n)) == 2 * ToNat(h)
  {
    ShiftInZero(h);
  }

  lemma FromNatStep(n: nat)
    requires 0 < n && ToNat(FromNat(n / 2)) < 0x8000_0000_0000_0000
    ensures ToNat(FromNat(n)) == 2 * ToNat(FromNat(n / 2)) + n % 2
  {
    var h := FromNat(n / 2);
    SignBitBound(h);
    if n % 2 == 1 {
      FromNatOdd(n, h);
    } else {
      FromNatEven(n, h);
    }
  }

  lemma {:induction false} FromNatToNat(n: nat)
    requires n < Modulus
    ensures ToNat(FromNat(n)) == n
  {
    if n != 0 {
      FromNatToNat(n / 2);
      FromNatStep(n);
    }
  }

  lemma MulAtLeast(c: int, d: int)
    requires c >= 1 && d > 0
    ensures c * d >= d
  {
  }

  lemma Distribute(a: int, b: int, d: int)
    ensures a * d - b * d == (a - b) * d
  {
  }

  lemma ModUnique(a: int, d: int, k: int, r: int)
    requires d > 0 && 0 <= r < d && a == k * d + r
    ensures a % d == r
  {
    var k' := a / d;
    assert a == k' * d + a % d;
    Distribute(k, k', d);
    Distribute(k', k, d);
    if k' < k {
      MulAtLeast(k - k', d);
    } else if k' > k {
      MulAtLeast(k' - k, d);
    }
  }

  lemma ModDouble(q: int, b: int, m: int)
    requires q >= 0 && 0 <= b <= 1 && m > 0
    ensures (2 * q + b) % (2 * m) == 2 * (q % m) + b
  {
    var k := q / m;
    assert q == k * m + q % m;
    assert k * (2 * m) == 2 * (k * m);
    ModUnique(2 * q + b, 2 * m, k, 2 * (q % m) + b);
  }

  lemma LowBitSet(mask: bv64)
    requires mask & 1 == 1
    ensures mask == ((mask >> 1) << 1) | 1
    ensures (mask >> 1) & SignBit == 0
  {
  }

  lemma OddMask(mask: bv64)
    requires ToNat(mask) % 2 == 1
    ensures mask & 1 == 1
    ensures (mask >> 1) & SignBit == 0
    ensures ToNat(mask >> 1) == ToNat(mask) / 2
  {
    ValueHalves(mask);
    LowBitSet(mask);
  }

  lemma MaskHalvesOdd(x: bv64, mask: bv64)
    requires mask & 1 == 1
    ensures (x & mask) >> 1 == (x >> 1) & (mask >> 1)
    ensures (x & mask) & 1 == x & 1
  {
  }

  lemma SameParity(a: bv64, b: bv64)
    requires a & 1 == b & 1
    ensures ToNat(a) % 2 == ToNat(b) % 2
  {
    ValueHalves(a);
    ValueHalves(b);
  }

  /** Masking with an odd mask keeps the low bit and masks the rest with the halved mask. */
  lemma MaskValue(x: bv64, mask: bv64)
    requires mask & 1 == 1
    ensures ToNat(x & mask) == 2 * ToNat((x >> 1) & (mask >> 1)) + ToNat(x) % 2
  {
    MaskHalvesOdd(x, mask);
    ValueHalves(x & mask);
    SameParity(x & mask, x);
  }

  lemma RemainderStep(t: int, q: int, a: int, b: int, n: int)
    requires q >= 0 && 0 <= b <= 1 && 2 <= n && n % 2 == 0
    requires t == 2 * q + b && a == q % (n / 2)
    ensures t % n == 2 * a + b
  {
    assert 2 * (n / 2) == n;
    ModDouble(q, b, n / 2);
  }

  lemma MaskZero(x: bv64, mask: bv64)
    requires ToNat(mask) == 0
    ensures ToNat(x & mask) == 0
  {
    ToNatZero(mask);
    assert x & mask == 0;
  }

  lemma PredecessorOdd(n: int)
    requires 2 <= n && n % 2 == 0
    ensures (n - 1) % 2 == 1
    ensures (n - 1) / 2 == n / 2 - 1
  {
  }

  lemma MaskRemainderStep(x: bv64, mask: bv64, n: int)
    requires 2 <= n && n % 2 == 0 && ToNat(mask) == n - 1
    requires ToNat((x >> 1) & (mask >> 1)) == ToNat(x >> 1) % (n / 2)
    ensures ToNat(x & mask) == ToNat(x) % n
  {
    PredecessorOdd(n);
    OddMask(mask);
    MaskValue(x, mask);
    ValueHalves(x);
    RemainderStep(ToNat(x), ToNat(x >> 1), ToNat((x >> 1) & (mask >> 1)), ToNat(x) % 2, n);
  }

  /**
   * Masking with `len - 1` is taking the remainder modulo `len` when `len`
   * is a power of two: `hash(key) & mod` is the home slot `hash(key) % len`.
   */
  lemma {:induction false} MaskIsRemainder(x: bv64, mask: bv64, n: int)
    requires IsPow2(n) && ToNat(mask) == n - 1
    ensures ToNat(x & mask) == ToNat(x) % n
    decreases n
  {
    if n == 1 {
      MaskZero(x, mask);
    } else {
      PredecessorOdd(n);
      OddMask(mask);
      assert IsPow2(n / 2) && ToNat(mask >> 1) == n / 2 - 1;
      MaskIsRemainder(x >> 1, mask >> 1, n / 2);
      MaskRemainderStep(x, mask, n);
    }
  }

  // ---------------------------------------------------------------------
  // What the map relies on, on integers

  /** `hash` on a Go int (a key of the map); keys outside the int64 range are taken modulo 2^64. */
  function KeyHash(k: int): (h: int)
    ensures 0 <= h <= MaxInt
  {
    var x := Hash(FromInt(k));
    SignBitBound(x);
    ToInt(x)
  }

  lemma MaskedValue(x: bv64, mask: bv64, n: int)
    requires x & SignBit == 0 && IsPow2(n) && ToNat(mask) == n - 1
    ensures ToInt(x & mask) == ToInt(x) % n
  {
    MaskIsRemainder(x, mask, n);
    assert (x & mask) & SignBit == 0;
  }

  /** The home slot the source computes, `hash(key) & (len - 1)`, is KeyHash(key) % len. */
  lemma HomeIsMask(k: int, n: int)
    requires IsPow2(n) && n <= 0x4000_0000_0000_0000
    ensures ToInt(Hash(FromInt(k)) & FromInt(n - 1)) == KeyHash(k) % n
  {
    PowerMask(Hash(FromInt(k)), n);
  }

  /** For a word without the sign bit, masking with `n - 1` is the remainder modulo n. */
  lemma PowerMask(x: bv64, n: int)
    requires x & SignBit == 0 && IsPow2(n) && n <= 0x4000_0000_0000_0000
    ensures ToInt(x & FromInt(n - 1)) == ToInt(x) % n
  {
    var mask := FromInt(n - 1);
    assert ToNat(mask) == n - 1 by {
      SmallRemainder(n - 1);
      FromNatToNat(n - 1);
    }
    MaskedValue(x, mask, n);
  }

  /** The words of the small values 3 and 8. */
  lemma SmallWords()
    ensures FromInt(3) == 3 && FromInt(8) == 8 && ToInt(3) == 3
  {
    SmallRemainder(3);
    SmallRemainder(8);
    assert FromNat(1) == 1 && FromNat(2) == 2 && FromNat(4) == 4;
    UnfoldToNat(3);
    UnfoldToNat(1);
  }

  /** A value already in [0, 2^64) is its own remainder. */
  lemma SmallRemainder(v: int)
    requires 0 <= v < Modulus
    ensures v % Modulus == v
  {
  }

  lemma NonNegativeWord(v: int)
    requires 0 <= v <= MaxInt
    ensures ToNat(FromInt(v)) == v && FromInt(v) & SignBit == 0
  {
    SmallRemainder(v);
    FromNatToNat(v);
    SignBitBound(FromInt(v));
  }

  /** For a non-negative v and a power of two n, `v & (n - 1)` is v % n. */
  lemma MaskIsMod(v: int, n: int)
    requires 0 <= v <= MaxInt && IsPow2(n) && n <= 0x4000_0000_0000_0000
    ensures ToInt(FromInt(v) & FromInt(n - 1)) == v % n
  {
    NonNegativeWord(v);
    NonNegativeWord(n - 1);
    MaskedValue(FromInt(v), FromInt(n - 1), n);
  }

  /** `nextPowerOf2` on a Go int. */
  function NextPowerOf2Int(v: int): int
  {
    ToInt(NextPowerOf2(FromInt(v)))
  }

  lemma SmearStepValue(y: bv64)
    requires y != 0 && y & SignBit == 0
    ensures (y >> 1) & SignBit == 0
    ensures ToNat(Smear(y)) == 2 * ToNat(Smear(y >> 1)) + 1
  {
    SmearHalf(y);
    SmearSignClear(y >> 1);
    ShiftInOne(Smear(y >> 1));
  }

  lemma SmearOfZero()
    ensures ToNat(Smear(0)) == 0
  {
    assert Smear(0) == 0;
  }

  lemma SmearArithmetic(t: int, q: int, s: int, sq: int)
    requires t > 0 && q == t / 2 && s == 2 * sq + 1 && IsPow2(sq + 1) && q <= sq
    requires (q == 0 ==> sq == 0) && (q > 0 ==> sq < 2 * q)
    ensures IsPow2(s + 1) && t <= s < 2 * t
  {
  }

  /** Smearing y gives 2^k - 1 for the least k with y < 2^k. */
  lemma {:induction false} SmearValue(y: bv64)
    requires y & SignBit == 0
    ensures IsPow2(ToNat(Smear(y)) + 1)
    ensures ToNat(y) <= ToNat(Smear(y))
    ensures ToNat(y) == 0 ==> ToNat(Smear(y)) == 0
    ensures ToNat(y) > 0 ==> ToNat(Smear(y)) < 2 * ToNat(y)
    decreases ToNat(y)
  {
    if ToNat(y) == 0 {
      ToNatZero(y);
      SmearOfZero();
    } else {
      SmearStepValue(y);
      HalfSmaller(y);
      ValueHalves(y);
      SmearValue(y >> 1);
      SmearArithmetic(ToNat(y), ToNat(y >> 1), ToNat(Smear(y)), ToNat(Smear(y >> 1)));
    }
  }

  lemma DecrementInRange(x: bv64, v: int)
    requires ToNat(x) == v && 1 <= v <= 0x4000_0000_0000_0000
    ensures x != 0 && (x - 1) & SignBit == 0 && ToNat(x - 1) == v - 1
  {
    if x == 0 {
      ToNatZero(x);
    }
    ToNatDecrement(x);
    SignBitBound(x - 1);
  }

  /** One more than a smeared word with a clear sign bit does not wrap around. */
  lemma SmearSuccessor(y: bv64)
    requires y & SignBit == 0
    ensures Smear(y) + 1 != 0 && ToNat(Smear(y) + 1) == ToNat(Smear(y)) + 1
  {
    SmearSignClear(y);
    var r := Smear(y) + 1;
    assert r != 0 && r - 1 == Smear(y);
    ToNatDecrement(r);
  }

  lemma RoundsUpValue(v: int, s: int, y: int)
    requires 1 <= v && y == v - 1 && y <= s && (y > 0 ==> s < 2 * y) && (y == 0 ==> s == 0)
    ensures v <= s + 1 < 2 * v
  {
  }

  lemma SmearedSuccessorValue(y: bv64, v: int)
    requires y & SignBit == 0 && ToNat(y) == v - 1 && 1 <= v <= 0x4000_0000_0000_0000
    ensures var r := Smear(y) + 1; IsPow2(ToNat(r)) && v <= ToNat(r) < 2 * v && r & SignBit == 0
  {
    SmearValue(y);
    SmearSuccessor(y);
    RoundsUpValue(v, ToNat(Smear(y)), ToNat(y));
    SignBitBound(Smear(y) + 1);
  }

  lemma SmearsDecrement(x: bv64, v: int)
    requires ToNat(x) == v && 1 <= v <= 0x4000_0000_0000_0000
    ensures NextPowerOf2(x) == Smear(x - 1) + 1
  {
    DecrementInRange(x, v);
    NextPowerOf2IsSmear(x);
  }

  lemma RoundsUpSmeared(x: bv64, v: int)
    requires NextPowerOf2(x) == Smear(x - 1) + 1
    requires ToNat(x) == v && 1 <= v <= 0x4000_0000_0000_0000
    requires (x - 1) & SignBit == 0 && ToNat(x - 1) == v - 1
    ensures var r := NextPowerOf2(x); IsPow2(ToNat(r)) && v <= ToNat(r) < 2 * v && r & SignBit == 0
  {
    SmearedSuccessorValue(x - 1, v);
  }

  lemma RoundsUpWord(x: bv64, v: int)
    requires ToNat(x) == v && 1 <= v <= 0x4000_0000_0000_0000
    ensures var r := NextPowerOf2(x); IsPow2(ToNat(r)) && v <= ToNat(r) < 2 * v && r & SignBit == 0
  {
    SmearsDecrement(x, v);
    DecrementInRange(x, v);
    RoundsUpSmeared(x, v);
  }

  /** Capacities 1 .. 2^62 are rounded up to the least power of two that is not below them. */
  lemma NextPowerOf2RoundsUp(v: int)
    requires 1 <= v <= 0x4000_0000_0000_0000
    ensures var r := NextPowerOf2Int(v); IsPow2(r) && v <= r < 2 * v
  {
    SmallRemainder(v);
    FromNatToNat(v);
    RoundsUpWord(FromInt(v), v);
  }

  /** Powers of two up to 2^62 are left unchanged. */
  lemma NextPowerOf2KeepsPow2(v: int)
    requires IsPow2(v) && v <= 0x4000_0000_0000_0000
    ensures NextPowerOf2Int(v) == v
  {
    NextPowerOf2RoundsUp(v);
    Pow2Between(v, NextPowerOf2Int(v));
  }

  lemma NonPositiveWordNegative(x: bv64)
    requires 0x8000_0000_0000_0000 < ToNat(x)
    ensures NextPowerOf2(x) == 0
  {
    SignBitBound(x);
    TopPowers();
    if x == SignBit {
      assert false;
    }
    NextPowerOf2WordNonPositive(x);
  }

  /** Capacities in MinInt+1 .. 0 give 0. */
  lemma NextPowerOf2NonPositive(v: int)
    requires MinInt < v <= 0
    ensures NextPowerOf2Int(v) == 0
  {
    FromNatToNat(v % Modulus);
    if v < 0 {
      NonPositiveWordNegative(FromInt(v));
    } else {
      assert FromInt(v) == 0;
    }
  }

  lemma OverflowWordMin(x: bv64)
    requires ToNat(x) == 0x8000_0000_0000_0000
    ensures ToInt(NextPowerOf2(x)) < 0
  {
    TopPowers();
    ToNatInjective(x, SignBit);
    NextPowerOf2WordOverflow(x);
  }

  lemma OverflowWordLarge(x: bv64)
    requires 0x4000_0000_0000_0000 < ToNat(x) < 0x8000_0000_0000_0000
    ensures ToInt(NextPowerOf2(x)) < 0
  {
    TopPowers();
    SignBitBound(x);
    TopTwoBitsBound(x);
    assert x != 0x4000_0000_0000_0000;
    NextPowerOf2WordOverflow(x);
  }

  /** Capacities above 2^62, and MinInt, give a negative result: Init panics on them. */
  lemma NextPowerOf2Negative(v: int)
    requires v == MinInt || 0x4000_0000_0000_0000 < v <= MaxInt
    ensures NextPowerOf2Int(v) < 0
  {
    FromNatToNat(v % Modulus);
    if v == MinInt {
      OverflowWordMin(FromInt(v));
    } else {
      OverflowWordLarge(FromInt(v));
    }
  }
}
