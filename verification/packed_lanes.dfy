/**
 The packed representation used by the kernel's four-at-a-time loop: a 32-bit
 word (a C `int32_t`) read as two signed 16-bit lanes, or as four bytes.

 The lane accessors and the packing of the zero-point offset are written in the
 kernel itself. The DSP intrinsics it calls (`read_and_pad_reordered`,
 `__SADD16`, `__PACKq7`, `write_q7x4_ia`) are foreign; they are modelled here
 by their documented lane behaviour, which is an assumption of the model.
 */
module PackedLanes {
  import opened Integers

  const LANE: int := 0x1_0000

  /** The word whose low lane holds `lo` and whose high lane holds `hi`, each
      reduced to 16 bits. */
  function Pack16x2(lo: int, hi: int): int32
  {
    Wrap32((hi % LANE) * LANE + lo % LANE)
  }

  /** `(int16_t)(w & 0x0FFFF)`: the low lane. */
  function LaneLo(w: int32): int16
  {
    Wrap16(w % LANE)
  }

  /** `(int16_t)((w >> 16) & 0x0FFFF)`: the high lane (`>>` is arithmetic, a floor division). */
  function LaneHi(w: int32): int16
  {
    Wrap16((w / LANE) % LANE)
  }

  /** Each lane of a packed word reads back as the 16-bit narrowing of what was packed. */
  lemma PackLanes(lo: int, hi: int)
    ensures LaneLo(Pack16x2(lo, hi)) == Wrap16(lo)
    ensures LaneHi(Pack16x2(lo, hi)) == Wrap16(hi)
  {
    var u := (hi % LANE) * LANE + lo % LANE;
    var w := Pack16x2(lo, hi);
    assert 0 <= u < 0x1_0000_0000;
    assert w == u || w == u - 0x1_0000_0000;
    DivModUnique(u, LANE, hi % LANE, lo % LANE);
    Wrap16Congruent(w % LANE, lo);
    if w == u - 0x1_0000_0000 {
      DivModUnique(w, LANE, hi % LANE - LANE, lo % LANE);
    }
    Wrap16Congruent((w / LANE) % LANE, hi);
  }

  /**
   The replicated offset word `(offset << 16) | (offset & 0x0FFFF)`. The shift
   wraps to 32 bits and leaves the low 16 bits clear, so the OR of the two
   disjoint bit ranges is their sum.
   */
  function PackOffset(offset: int32): int32
  {
    Wrap32(offset * LANE + offset % LANE)
  }

  /** Both lanes of the offset word hold the offset narrowed to 16 bits. */
  lemma PackOffsetLanes(offset: int32)
    ensures LaneLo(PackOffset(offset)) == Wrap16(offset)
    ensures LaneHi(PackOffset(offset)) == Wrap16(offset)
  {
    var k := offset / LANE;
    assert offset == k * LANE + offset % LANE;
    assert offset * LANE + offset % LANE
        == (offset % LANE) * LANE + offset % LANE + k * 0x1_0000_0000;
    Wrap32Congruent(offset * LANE + offset % LANE, (offset % LANE) * LANE + offset % LANE);
    PackLanes(offset, offset);
  }

  /** `__SADD16`: lane-wise addition, each lane wrapping to 16 bits. */
  function Sadd16(x: int32, y: int32): int32
  {
    Pack16x2(LaneLo(x) + LaneLo(y), LaneHi(x) + LaneHi(y))
  }

  /** Adding the replicated offset word adds the offset to both lanes, modulo 2^16. */
  lemma Sadd16OffsetLanes(x: int32, offset: int32)
    ensures LaneLo(Sadd16(x, PackOffset(offset))) == Wrap16(LaneLo(x) + offset)
    ensures LaneHi(Sadd16(x, PackOffset(offset))) == Wrap16(LaneHi(x) + offset)
  {
    PackOffsetLanes(offset);
    PackLanes(LaneLo(x) + LaneLo(PackOffset(offset)), LaneHi(x) + LaneHi(PackOffset(offset)));
    Wrap16Add(LaneLo(x), offset);
    Wrap16Add(LaneHi(x), offset);
  }

  /**
   `read_and_pad_reordered`: four consecutive int8 samples starting at `k`,
   sign-extended into two words, `b` holding elements 0 and 2 and `a` holding
   elements 1 and 3 (low lane first).
   */
  function ReadAndPadReordered(s: seq<int8>, k: nat): (int32, int32)
    requires k + 4 <= |s|
  {
    (Pack16x2(s[k], s[k + 2]), Pack16x2(s[k + 1], s[k + 3]))
  }

  /** The lanes of the two words are the four samples in the order 0, 2 / 1, 3. */
  lemma ReadAndPadReorderedLanes(s: seq<int8>, k: nat)
    requires k + 4 <= |s|
    ensures LaneLo(ReadAndPadReordered(s, k).0) == s[k]
    ensures LaneHi(ReadAndPadReordered(s, k).0) == s[k + 2]
    ensures LaneLo(ReadAndPadReordered(s, k).1) == s[k + 1]
    ensures LaneHi(ReadAndPadReordered(s, k).1) == s[k + 3]
  {
    PackLanes(s[k], s[k + 2]);
    PackLanes(s[k + 1], s[k + 3]);
    Wrap16Spec(s[k]);
    Wrap16Spec(s[k + 1]);
    Wrap16Spec(s[k + 2]);
    Wrap16Spec(s[k + 3]);
  }

  /** `__PACKq7(v0, v1, v2, v3)`: four bytes in one word, `v0` in the lowest byte. */
  function PackQ7(v0: int8, v1: int8, v2: int8, v3: int8): int32
  {
    Wrap32(v0 % 0x100 + (v1 % 0x100) * 0x100 + (v2 % 0x100) * 0x1_0000 + (v3 % 0x100) * 0x100_0000)
  }

  /** Byte `j` of a word in memory order (little-endian), read as an int8. */
  function ByteOf(w: int32, j: nat): int8
    requires j < 4
  {
    var scale := if j == 0 then 1 else if j == 1 then 0x100 else if j == 2 then 0x1_0000 else 0x100_0000;
    Wrap8((w / scale) % 0x100)
  }

  /** Unpacking the bytes of a packed word gives back the four values in order. */
  lemma PackQ7RoundTrip(v0: int8, v1: int8, v2: int8, v3: int8)
    ensures ByteOf(PackQ7(v0, v1, v2, v3), 0) == v0
    ensures ByteOf(PackQ7(v0, v1, v2, v3), 1) == v1
    ensures ByteOf(PackQ7(v0, v1, v2, v3), 2) == v2
    ensures ByteOf(PackQ7(v0, v1, v2, v3), 3) == v3
  {
    var w := PackQ7(v0, v1, v2, v3);
    PackQ7Word(v0, v1, v2, v3);
    WordBytes(w, v0 % 0x100, v1 % 0x100, v2 % 0x100, v3);
    assert ByteOf(w, 0) == Wrap8((w / 1) % 0x100);
    assert ByteOf(w, 1) == Wrap8((w / 0x100) % 0x100);
    assert ByteOf(w, 2) == Wrap8((w / 0x1_0000) % 0x100);
    assert ByteOf(w, 3) == Wrap8((w / 0x100_0000) % 0x100);
    Wrap8OfByte(v0);
    Wrap8OfByte(v1);
    Wrap8OfByte(v2);
    Wrap8OfByte(v3);
  }

  /** An int8 is recovered from its byte. */
  lemma Wrap8OfByte(v: int8)
    ensures Wrap8(v % 0x100) == v
  {
  }

  /** The packed word read as a signed number: the top byte carries the sign of `v3`. */
  lemma PackQ7Word(v0: int8, v1: int8, v2: int8, v3: int8)
    ensures PackQ7(v0, v1, v2, v3) == v0 % 0x100 + (v1 % 0x100) * 0x100 + (v2 % 0x100) * 0x1_0000 + v3 * 0x100_0000
  {
  }

  /** The base-256 digits of `w`, its top digit taken modulo 256. */
  lemma WordBytes(w: int, b0: int, b1: int, b2: int, top: int)
    requires 0 <= b0 < 0x100 && 0 <= b1 < 0x100 && 0 <= b2 < 0x100
    requires w == b0 + b1 * 0x100 + b2 * 0x1_0000 + top * 0x100_0000
    ensures (w / 1) % 0x100 == b0
    ensures (w / 0x100) % 0x100 == b1
    ensures (w / 0x1_0000) % 0x100 == b2
    ensures (w / 0x100_0000) % 0x100 == top % 0x100
  {
    DivModUnique(w, 0x100, b1 + b2 * 0x100 + top * 0x1_0000, b0);
    DivModUnique(w, 0x1_0000, b2 + top * 0x100, b0 + b1 * 0x100);
    DivModUnique(w, 0x100_0000, top, b0 + b1 * 0x100 + b2 * 0x1_0000);
    DivModUnique(b1 + b2 * 0x100 + top * 0x1_0000, 0x100, b2 + top * 0x100, b1);
    DivModUnique(b2 + top * 0x100, 0x100, top, b2);
  }

  /** `write_q7x4_ia`: store the four bytes of `w` at `out[k..k + 4]`. */
  function WriteQ7x4(out: seq<int8>, k: nat, w: int32): (r: seq<int8>)
    requires k + 4 <= |out|
    ensures |r| == |out|
    ensures forall j :: 0 <= j < 4 ==> r[k + j] == ByteOf(w, j)
    ensures forall i :: 0 <= i < |out| && !(k <= i < k + 4) ==> r[i] == out[i]
  {
    out[..k] + [ByteOf(w, 0), ByteOf(w, 1), ByteOf(w, 2), ByteOf(w, 3)] + out[k + 4..]
  }
}
