/**
 Fixed-width two's-complement integers as the kernel's C code uses them, the
 narrowing conversions C performs when a value is stored into a narrower signed
 type (`(q7_t)x`, `(int16_t)x`, `(int32_t)x` on a two's-complement target), and a
 few facts about Euclidean division and multiplication that the proofs need.
 */
module Integers {

  const INT8_MIN: int := -0x80
  const INT8_MAX: int := 0x7F
  const INT16_MIN: int := -0x8000
  const INT16_MAX: int := 0x7FFF
  const INT32_MIN: int := -0x8000_0000
  const INT32_MAX: int := 0x7FFF_FFFF

  type int8 = x: int | -0x80 <= x < 0x80
  type int16 = x: int | -0x8000 <= x < 0x8000
  type int32 = x: int | -0x8000_0000 <= x < 0x8000_0000
  type uint32 = x: int | 0 <= x < 0x1_0000_0000

  predicate IsInt8(x: int) { INT8_MIN <= x <= INT8_MAX }
  predicate IsInt16(x: int) { INT16_MIN <= x <= INT16_MAX }
  predicate IsInt32(x: int) { INT32_MIN <= x <= INT32_MAX }

  /** The int8 congruent to `x` modulo 2^8: the value of `(q7_t)x`. */
  function Wrap8(x: int): int8
  {
    var u := x % 0x100;
    if u < 0x80 then u else u - 0x100
  }

  /** The int16 congruent to `x` modulo 2^16: the value of `(int16_t)x`. */
  function Wrap16(x: int): int16
  {
    var u := x % 0x1_0000;
    if u < 0x8000 then u else u - 0x1_0000
  }

  /** The int32 congruent to `x` modulo 2^32: the value of `(int32_t)x`. */
  function Wrap32(x: int): int32
  {
    var u := x % 0x1_0000_0000;
    if u < 0x8000_0000 then u else u - 0x1_0000_0000
  }

  /** `Wrap8(x)` is the int8 congruent to `x`; it is `x` itself when `x` is an int8. */
  lemma Wrap8Spec(x: int)
    ensures (x - Wrap8(x)) % 0x100 == 0
    ensures IsInt8(x) ==> Wrap8(x) == x
  {
  }

  /** `Wrap16(x)` is the int16 congruent to `x`; it is `x` itself when `x` is an int16. */
  lemma Wrap16Spec(x: int)
    ensures (x - Wrap16(x)) % 0x1_0000 == 0
    ensures IsInt16(x) ==> Wrap16(x) == x
  {
  }

  /** `Wrap32(x)` is the int32 congruent to `x`; it is `x` itself when `x` is an int32. */
  lemma Wrap32Spec(x: int)
    ensures (x - Wrap32(x)) % 0x1_0000_0000 == 0
    ensures IsInt32(x) ==> Wrap32(x) == x
  {
  }

  /** Values congruent modulo 2^16 narrow to the same int16. */
  lemma Wrap16Congruent(x: int, y: int)
    requires (x - y) % 0x1_0000 == 0
    ensures Wrap16(x) == Wrap16(y)
  {
    var k := (x - y) / 0x1_0000;
    assert x == y + k * 0x1_0000;
    assert x % 0x1_0000 == y % 0x1_0000;
  }

  /** Values congruent modulo 2^32 narrow to the same int32. */
  lemma Wrap32Congruent(x: int, y: int)
    requires (x - y) % 0x1_0000_0000 == 0
    ensures Wrap32(x) == Wrap32(y)
  {
    var k := (x - y) / 0x1_0000_0000;
    assert x == y + k * 0x1_0000_0000;
    assert x % 0x1_0000_0000 == y % 0x1_0000_0000;
  }

  /** Narrowing an operand before a 16-bit lane addition does not change the lane result. */
  lemma Wrap16Add(x: int, y: int)
    ensures Wrap16(x + Wrap16(y)) == Wrap16(x + y)
  {
    Wrap16Spec(y);
    Wrap16Congruent(x + Wrap16(y), x + y);
  }

  /** Euclidean quotient and remainder are the unique pair with `0 <= r < d`. */
  lemma DivModUnique(x: int, d: int, q: int, r: int)
    requires d > 0 && 0 <= r < d
    requires x == q * d + r
    ensures x / d == q && x % d == r
  {
    var q', r' := x / d, x % d;
    assert x == q' * d + r';
    assert (q - q') * d == r' - r;
    MulSmallIsZero(q - q', d);
  }

  /** Multiplying by a non-negative factor keeps the order. */
  lemma MulMonoRight(a: int, b: int, d: int)
    requires a <= b && 0 <= d
    ensures a * d <= b * d
  {
    assert b * d - a * d == (b - a) * d;
  }

  /** The only multiple of `d` strictly between `-d` and `d` is zero. */
  lemma MulSmallIsZero(k: int, d: int)
    requires d > 0 && -d < k * d < d
    ensures k == 0
  {
    if k >= 1 {
      MulMonoRight(1, k, d);
    } else if k <= -1 {
      MulMonoRight(k, -1, d);
    }
  }

  /** Bounds on a quotient follow from bounds on the dividend. */
  lemma DivBounds(x: int, d: int, lo: int, hi: int)
    requires d > 0
    requires lo * d <= x < (hi + 1) * d
    ensures lo <= x / d <= hi
  {
    var q := x / d;
    assert x == q * d + x % d;
    if q < lo {
      MulMonoRight(q + 1, lo, d);
    }
    if hi < q {
      MulMonoRight(hi + 1, q, d);
    }
  }

  /** Euclidean division of a negated dividend rounds the other way. */
  lemma DivNeg(x: int, d: int)
    requires d > 0
    ensures (-x) / d == -((x + d - 1) / d)
  {
    var q, r := (x + d - 1) / d, (x + d - 1) % d;
    assert x + d - 1 == q * d + r;
    assert -x == (-q) * d + (d - 1 - r);
    DivModUnique(-x, d, -q, d - 1 - r);
  }
}
