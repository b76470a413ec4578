/**
 The two requantization helpers the kernel calls on every element:
 `arm_nn_sat_doubling_high_mult` and `arm_nn_divide_by_power_of_two`.
 Their C text lives in arm_nnsupportfunctions.h, which is not part of this
 model; the definitions below follow the library's portable C versions and
 are an assumption of the model. Each is paired with an independent
 reference definition (plain rounding arithmetic) and a lemma tying the two.
 */
module FixedPoint {
  import opened Integers

  /** 2^e. */
  function Pow2(e: nat): (r: nat)
    ensures r >= 1
  {
    if e == 0 then 1 else 2 * Pow2(e - 1)
  }

  /** C's signed `/`, which truncates toward zero. */
  function TruncDiv(a: int, d: int): int
    requires d > 0
  {
    if a >= 0 then a / d else -((-a) / d)
  }

  /**
   Saturating rounding doubling high multiply: the high word of `2 * m1 * m2`
   rounded at bit 31. The nudge `2^30` (or `1 - 2^30` when the operand signs
   differ) is added to the 64-bit product, the sum is divided by `2^31` with C's
   truncating division and stored into 32 bits; the single overflowing case
   `INT32_MIN * INT32_MIN` is replaced by `INT32_MAX`.
   */
  function SatDoublingHighMult(m1: int32, m2: int32): int32
  {
    var nudge := if (m1 < 0) != (m2 < 0) then 1 - 0x4000_0000 else 0x4000_0000;
    var mult := nudge + m1 * m2;
    var result := Wrap32(TruncDiv(mult, 0x8000_0000));
    if m1 == m2 && m1 == INT32_MIN then INT32_MAX else result
  }

  /** Reference: `p / 2^31` rounded to the nearest integer, halves rounded up. */
  function RoundedHighHalf(p: int): int
  {
    (p + 0x4000_0000) / 0x8000_0000
  }

  /**
   Rounding divide by `2^exponent`: an arithmetic shift right, then a
   correction by one when the bits shifted out are at least half of the
   divisor (more than half, for a negative quotient). `mask & dividend` on a
   two's-complement value is `dividend % 2^exponent`, and `dividend >> exponent`
   is the floor quotient.
   */
  function DivideByPowerOfTwo(dividend: int32, exponent: int): int
    requires 0 <= exponent <= 31
  {
    var d := Pow2(exponent);
    var remainderMask := d - 1;
    var remainder := dividend % d;
    var result := dividend / d;
    var threshold := remainderMask / 2 + (if result < 0 then 1 else 0);
    if remainder > threshold then result + 1 else result
  }

  /** Reference: `x / d` rounded to the nearest integer, halves away from zero. */
  function RoundHalfAwayDiv(x: int, d: int): int
    requires d >= 1
  {
    if x >= 0 then (x + d / 2) / d else -((-x + d / 2) / d)
  }

  /** The product of two int32 values other than `INT32_MIN * INT32_MIN` stays
      at least `2^31` away from the 2^62 boundary. */
  lemma ProductBound(m1: int32, m2: int32)
    requires !(m1 == INT32_MIN && m2 == INT32_MIN)
    ensures -0x4000_0000_0000_0000 + 0x8000_0000 <= m1 * m2 <= 0x4000_0000_0000_0000 - 0x8000_0000
    ensures (m1 < 0) != (m2 < 0) ==> m1 * m2 <= 0
    ensures (m1 < 0) == (m2 < 0) ==> m1 * m2 >= 0
  {
    var a1: int := if m1 < 0 then -(m1 as int) else m1;
    var a2: int := if m2 < 0 then -(m2 as int) else m2;
    assert a1 * a2 == (if (m1 < 0) == (m2 < 0) then m1 * m2 else -(m1 * m2));
    if a1 == 0x8000_0000 {
      MulMonoRight(a2, 0x7FFF_FFFF, a1);
    } else if a2 == 0x8000_0000 {
      MulMonoRight(a1, 0x7FFF_FFFF, a2);
    } else {
      MulMonoRight(a1, 0x7FFF_FFFF, a2);
      MulMonoRight(a2, 0x7FFF_FFFF, 0x7FFF_FFFF);
    }
  }

  /**
   The helper computes the rounded high half of the doubled product exactly,
   and saturates only for `INT32_MIN * INT32_MIN`, whose rounded high half
   `2^31` would not fit in 32 bits.
   */
  lemma SatDoublingHighMultSpec(m1: int32, m2: int32)
    ensures m1 == INT32_MIN && m2 == INT32_MIN ==>
              RoundedHighHalf(m1 * m2) == INT32_MAX + 1 && SatDoublingHighMult(m1, m2) == INT32_MAX
    ensures !(m1 == INT32_MIN && m2 == INT32_MIN) ==>
              IsInt32(RoundedHighHalf(m1 * m2)) && SatDoublingHighMult(m1, m2) == RoundedHighHalf(m1 * m2)
  {
    if !(m1 == INT32_MIN && m2 == INT32_MIN) {
      var p := m1 * m2;
      ProductBound(m1, m2);
      DivBounds(p + 0x4000_0000, 0x8000_0000, INT32_MIN, INT32_MAX);
      var nudge := if (m1 < 0) != (m2 < 0) then 1 - 0x4000_0000 else 0x4000_0000;
      if (m1 < 0) != (m2 < 0) {
        DivNeg(p + 0x4000_0000, 0x8000_0000);
      }
      assert TruncDiv(nudge + p, 0x8000_0000) == RoundedHighHalf(p);
      Wrap32Spec(RoundedHighHalf(p));
    }
  }

  /** `INT32_MAX` as multiplier with no shift is the identity on accumulators
      in `(-2^30, 2^30]`: the closest the Q31 format comes to a scale of 1.0. */
  lemma UnityMultiplier(p: int32)
    requires -0x4000_0000 < p <= 0x4000_0000
    ensures SatDoublingHighMult(p, INT32_MAX) == p
    ensures DivideByPowerOfTwo(SatDoublingHighMult(p, INT32_MAX), 0) == p
  {
    SatDoublingHighMultSpec(p, INT32_MAX);
    DivModUnique(p * INT32_MAX + 0x4000_0000, 0x8000_0000, p, 0x4000_0000 - p);
    DivideByPowerOfTwoRounds(p, 0);
  }

  /** The helper's mask-and-threshold rounding is division by `2^exponent`
      rounded to nearest with halves away from zero. */
  lemma DivideByPowerOfTwoRounds(x: int32, e: int)
    requires 0 <= e <= 31
    ensures DivideByPowerOfTwo(x, e) == RoundHalfAwayDiv(x, Pow2(e))
  {
    var d := Pow2(e);
    if e == 0 {
      DivModUnique(x, 1, x, 0);
    } else {
      var h := Pow2(e - 1);
      assert d == 2 * h;
      DivModUnique(d - 1, 2, h - 1, 1);
      DivSign(x, d);
      if x >= 0 {
        RoundUpHalf(x, d, h);
      } else {
        RoundDownHalf(x, d, h);
      }
    }
  }

  /** A floor quotient is negative exactly when the dividend is. */
  lemma DivSign(x: int, d: int)
    requires d >= 1
    ensures (x / d < 0) == (x < 0)
  {
    var q := x / d;
    assert x == q * d + x % d;
    if q < 0 {
      MulMonoRight(q, -1, d);
    } else {
      MulMonoRight(0, q, d);
    }
  }

  /** Non-negative case of `DivideByPowerOfTwoRounds`: the remainder is
      compared with `h - 1`, where `d == 2 * h`. */
  lemma RoundUpHalf(x: int, d: int, h: int)
    requires h >= 1 && d == 2 * h && x >= 0
    ensures x / d + (if x % d > h - 1 then 1 else 0) == (x + d / 2) / d
  {
    var q, r := x / d, x % d;
    assert x == q * d + r;
    DivModUnique(d, 2, h, 0);
    if r < h {
      DivModUnique(x + h, d, q, r + h);
    } else {
      DivModUnique(x + h, d, q + 1, r - h);
    }
  }

  /** Negative case of `DivideByPowerOfTwoRounds`: the remainder is compared
      with `h`, where `d == 2 * h`. */
  lemma RoundDownHalf(x: int, d: int, h: int)
    requires h >= 1 && d == 2 * h && x < 0
    ensures x / d + (if x % d > h then 1 else 0) == -((-x + d / 2) / d)
  {
    var q, r := x / d, x % d;
    assert x == q * d + r;
    DivModUnique(d, 2, h, 0);
    if r == 0 {
      DivModUnique(-x + h, d, -q, h);
    } else if r <= h {
      DivModUnique(-x + h, d, -q, h - r);
    } else {
      DivModUnique(-x + h, d, -q - 1, d + h - r);
    }
  }

  /** Rounding division by `d >= 1` never moves away from zero and never
      changes sign, so a 32-bit dividend gives a 32-bit result. */
  lemma RoundHalfAwayDivBounds(x: int, d: int)
    requires d >= 1
    ensures x >= 0 ==> 0 <= RoundHalfAwayDiv(x, d) <= x
    ensures x < 0 ==> x <= RoundHalfAwayDiv(x, d) <= 0
  {
    var m := if x >= 0 then x else -x;
    MulMonoRight(1, d, m);
    DivBounds(m + d / 2, d, 0, m);
  }

  /** `DivideByPowerOfTwo` shrinks toward zero and keeps the sign. */
  lemma DivideByPowerOfTwoBounds(x: int32, e: int)
    requires 0 <= e <= 31
    ensures x >= 0 ==> 0 <= DivideByPowerOfTwo(x, e) <= x
    ensures x < 0 ==> x <= DivideByPowerOfTwo(x, e) <= 0
  {
    DivideByPowerOfTwoRounds(x, e);
    RoundHalfAwayDivBounds(x, Pow2(e));
  }

  /** An int32 factor scales the magnitude of `m1` by at most 2^31. */
  lemma ProductWithinFirst(m1: int, m2: int32)
    ensures m1 >= 0 ==> -m1 * 0x8000_0000 <= m1 * m2 <= m1 * 0x8000_0000
    ensures m1 < 0 ==> m1 * 0x8000_0000 <= m1 * m2 <= -m1 * 0x8000_0000
  {
    var a: int := if m1 < 0 then -m1 else m1;
    var b: int := if m2 < 0 then -(m2 as int) else m2;
    MulMonoRight(b, 0x8000_0000, a);
    assert a * b == (if (m1 < 0) == (m2 < 0) then m1 * m2 else -(m1 * m2));
  }

  /** The high-half multiply never grows its first operand's magnitude. */
  lemma SatDoublingHighMultBounds(m1: int32, m2: int32)
    ensures m1 >= 0 ==> -m1 <= SatDoublingHighMult(m1, m2) <= m1
    ensures m1 < 0 ==> m1 <= SatDoublingHighMult(m1, m2) <= -(m1 as int)
  {
    SatDoublingHighMultSpec(m1, m2);
    if !(m1 == INT32_MIN && m2 == INT32_MIN) {
      var a: int := if m1 < 0 then -(m1 as int) else m1;
      ProductWithinFirst(m1, m2);
      DivBounds(m1 * m2 + 0x4000_0000, 0x8000_0000, -a, a);
    }
  }

  /** A halfway remainder rounds away from zero: `3 / 2` gives 2 and `-3 / 2` gives -2. */
  lemma RoundingBoundary()
    ensures DivideByPowerOfTwo(3, 1) == 2
    ensures DivideByPowerOfTwo(-3, 1) == -2
  {
    DivideByPowerOfTwoRounds(3, 1);
    DivideByPowerOfTwoRounds(-3, 1);
  }
}
