/**
 The s8 elementwise multiplication kernel `arm_elementwise_mul_s8`.

 Every output element is the requantized, clamped, narrowed product of the
 offset-corrected input pair at the same index. The kernel has two builds: a
 scalar loop over all elements, and (with loop unrolling and the DSP extension)
 a loop handling four elements per iteration through packed 16-bit lanes,
 followed by the scalar loop for the last `block_size & 3` elements.

 Buffers are modelled as sequences: the inputs are values the kernel cannot
 change, and the method returns the new contents of the output buffer.
 */
module ElementwiseMul {
  import opened Integers
  import opened FixedPoint
  import opened PackedLanes

  /** The `arm_status` the kernel returns; it has no failure path, so success
      is the only code it can produce. */
  datatype ArmStatus = ArmMathSuccess

  /** The kernel's scalar arguments, fixed for one call. */
  datatype MulParams = MulParams(
    input1Offset: int32,
    input2Offset: int32,
    outOffset: int32,
    outMult: int32,
    outShift: int32,
    activationMin: int32,
    activationMax: int32)

  /** The rounding shift is called with exponent `-out_shift`, which it takes in `[0, 31]`. */
  predicate ShiftSupported(p: MulParams)
  {
    -31 <= p.outShift <= 0
  }

  /** The activation bounds form a non-empty range of int8 values. */
  predicate ActivationInInt8(p: MulParams)
  {
    INT8_MIN <= p.activationMin <= p.activationMax <= INT8_MAX
  }

  /** `MIN(MAX(x, lo), hi)`. */
  function Clamp(x: int, lo: int, hi: int): (r: int)
    ensures lo <= hi ==> lo <= r <= hi
    ensures lo <= x <= hi ==> r == x
    ensures lo <= hi && x < lo ==> r == lo
    ensures lo <= hi && hi < x ==> r == hi
  {
    var m := if x > lo then x else lo;
    if m < hi then m else hi
  }

  /** The requantization of an int32 accumulator: the high-half multiply by
      `out_mult`, then the rounding shift right by `-out_shift`. */
  function Rescale(acc: int32, p: MulParams): int
    requires ShiftSupported(p)
  {
    DivideByPowerOfTwo(SatDoublingHighMult(acc, p.outMult), -p.outShift)
  }

  /**
   Rescaling is `acc * out_mult / 2^31` rounded (halves up), then divided by
   `2^-out_shift` rounded (halves away from zero); only the product
   `INT32_MIN * INT32_MIN` saturates, to `INT32_MAX` before the shift. The
   result always fits in 32 bits.
   */
  lemma RescaleMatchesReference(acc: int32, p: MulParams)
    requires ShiftSupported(p)
    ensures IsInt32(Rescale(acc, p))
    ensures !(acc == INT32_MIN && p.outMult == INT32_MIN) ==>
              Rescale(acc, p) == RoundHalfAwayDiv(RoundedHighHalf(acc * p.outMult), Pow2(-p.outShift))
    ensures acc == INT32_MIN && p.outMult == INT32_MIN ==>
              Rescale(acc, p) == RoundHalfAwayDiv(INT32_MAX, Pow2(-p.outShift))
  {
    SatDoublingHighMultSpec(acc, p.outMult);
    DivideByPowerOfTwoRounds(SatDoublingHighMult(acc, p.outMult), -p.outShift);
    DivideByPowerOfTwoBounds(SatDoublingHighMult(acc, p.outMult), -p.outShift);
  }

  /** With multiplier `INT32_MAX` and shift 0, accumulators in `(-2^30, 2^30]`
      pass through the rescale unchanged. */
  lemma UnityRescale(acc: int32, p: MulParams)
    requires p.outMult == INT32_MAX && p.outShift == 0
    requires -0x4000_0000 < acc <= 0x4000_0000
    ensures Rescale(acc, p) == acc
  {
    UnityMultiplier(acc);
  }

  /** The requantize step is free of signed overflow for this operand pair:
      the product and the offset rescaled value fit in int32. */
  predicate RequantizeDefined(x1: int, x2: int, p: MulParams)
  {
    && ShiftSupported(p)
    && IsInt32(x1 * x2)
    && IsInt32(Rescale(x1 * x2, p) + p.outOffset)
  }

  /** The rescaled, offset value of the product `x1 * x2`, before the clamp. */
  function Rescaled(x1: int, x2: int, p: MulParams): int
    requires RequantizeDefined(x1, x2, p)
  {
    Rescale(x1 * x2, p) + p.outOffset
  }

  /**
   Clamp to the activation range, then narrow with `(q7_t)`. With activation
   bounds inside int8 the narrowing loses nothing: values in range pass
   through and the others land on the nearer bound.
   */
  function ClampNarrow(v: int, p: MulParams): (r: int8)
    ensures ActivationInInt8(p) ==> p.activationMin <= r <= p.activationMax
    ensures ActivationInInt8(p) && p.activationMin <= v <= p.activationMax ==> r == v
    ensures ActivationInInt8(p) && v < p.activationMin ==> r == p.activationMin
    ensures ActivationInInt8(p) && v > p.activationMax ==> r == p.activationMax
  {
    var c := Clamp(v, p.activationMin, p.activationMax);
    Wrap8Spec(c);
    Wrap8(c)
  }

  /** Multiply two corrected operands, requantize, add the output offset,
      clamp to the activation range and narrow. */
  function Requantize(x1: int, x2: int, p: MulParams): (r: int8)
    requires RequantizeDefined(x1, x2, p)
    ensures ActivationInInt8(p) ==> p.activationMin <= r <= p.activationMax
  {
    ClampNarrow(Rescaled(x1, x2, p), p)
  }

  /** The scalar path is free of signed overflow for this sample pair: the
      offset additions, the product and the output offset addition all fit in int32. */
  predicate ScalarDefined(s1: int8, s2: int8, p: MulParams)
  {
    && IsInt32(s1 + p.input1Offset)
    && IsInt32(s2 + p.input2Offset)
    && RequantizeDefined(s1 + p.input1Offset, s2 + p.input2Offset, p)
  }

  /** The element transform: requantize the product of the offset-corrected samples. */
  function Transform(s1: int8, s2: int8, p: MulParams): (r: int8)
    requires ScalarDefined(s1, s2, p)
    ensures ActivationInInt8(p) ==> p.activationMin <= r <= p.activationMax
  {
    Requantize(s1 + p.input1Offset, s2 + p.input2Offset, p)
  }

  /** An independent statement of the element transform in plain rounding
      arithmetic, without the helpers' nudges, masks and thresholds. */
  function ReferenceTransform(s1: int8, s2: int8, p: MulParams): int
    requires ShiftSupported(p)
  {
    var product := (s1 + p.input1Offset) * (s2 + p.input2Offset);
    var high := if product == INT32_MIN && p.outMult == INT32_MIN then INT32_MAX
                else RoundedHighHalf(product * p.outMult);
    var shifted := RoundHalfAwayDiv(high, Pow2(-p.outShift));
    Wrap8(Clamp(shifted + p.outOffset, p.activationMin, p.activationMax))
  }

  /** The element transform agrees with the reference arithmetic. */
  lemma TransformMatchesReference(s1: int8, s2: int8, p: MulParams)
    requires ScalarDefined(s1, s2, p)
    ensures Transform(s1, s2, p) == ReferenceTransform(s1, s2, p)
  {
    RescaleMatchesReference((s1 + p.input1Offset) * (s2 + p.input2Offset), p);
  }

  /** The corrected samples fit in the 16-bit lanes of the packed path. */
  predicate LanesFit(s1: int8, s2: int8, p: MulParams)
  {
    IsInt16(s1 + p.input1Offset) && IsInt16(s2 + p.input2Offset)
  }

  /** The packed path is free of signed overflow for this sample pair. */
  predicate PackedDefined(s1: int8, s2: int8, p: MulParams)
  {
    RequantizeDefined(Wrap16(s1 + p.input1Offset), Wrap16(s2 + p.input2Offset), p)
  }

  /** What one lane of the packed path computes: the offset addition is a
      16-bit lane addition (`__SADD16`), so the corrected samples wrap to int16. */
  function PackedLaneTransform(s1: int8, s2: int8, p: MulParams): int8
    requires PackedDefined(s1, s2, p)
  {
    Requantize(Wrap16(s1 + p.input1Offset), Wrap16(s2 + p.input2Offset), p)
  }

  /** When the corrected samples fit in 16 bits, a packed lane is defined exactly
      when the scalar step is, and both give the same output. */
  lemma PackedLaneAgrees(s1: int8, s2: int8, p: MulParams)
    requires LanesFit(s1, s2, p)
    ensures PackedDefined(s1, s2, p) <==> ScalarDefined(s1, s2, p)
    ensures ScalarDefined(s1, s2, p) ==> PackedLaneTransform(s1, s2, p) == Transform(s1, s2, p)
  {
    Wrap16Spec(s1 + p.input1Offset);
    Wrap16Spec(s2 + p.input2Offset);
  }

  /** Multiplier `INT32_MAX`, shift 0, no offsets, full int8 activation range:
      the requantization that leaves small products unchanged. */
  const UnityParams := MulParams(0, 0, 0, INT32_MAX, 0, INT8_MIN, INT8_MAX)

  /**
   Without the 16-bit fit the paths differ. Under unity requantization with
   no output offset and the full int8 activation range, a first corrected
   sample of exactly `0x8000` times a second of 1 saturates the scalar output
   high, while its lane wraps to `-0x8000` and saturates the packed output low.
   */
  lemma PackedLaneDiverges(s1: int8, s2: int8, p: MulParams)
    requires p.outMult == INT32_MAX && p.outShift == 0 && p.outOffset == 0
    requires p.activationMin == INT8_MIN && p.activationMax == INT8_MAX
    requires s1 + p.input1Offset == 0x8000 && s2 + p.input2Offset == 1
    ensures !LanesFit(s1, s2, p)
    ensures ScalarDefined(s1, s2, p) && PackedDefined(s1, s2, p)
    ensures Transform(s1, s2, p) == INT8_MAX
    ensures PackedLaneTransform(s1, s2, p) == INT8_MIN
  {
    assert Wrap16(0x8000) == -0x8000;
    Wrap16Spec(1);
    UnityRescale(0x8000, p);
    UnityRescale(-0x8000, p);
  }

  /** A concrete instance: samples `1` and `1`, first input offset `0x7FFF`. */
  lemma PackedLaneDivergesExample()
    ensures ScalarDefined(1, 1, UnityParams.(input1Offset := 0x7FFF))
         && Transform(1, 1, UnityParams.(input1Offset := 0x7FFF)) == 127
    ensures PackedDefined(1, 1, UnityParams.(input1Offset := 0x7FFF))
         && PackedLaneTransform(1, 1, UnityParams.(input1Offset := 0x7FFF)) == -128
  {
    PackedLaneDiverges(1, 1, UnityParams.(input1Offset := 0x7FFF));
  }

  /** Zero points in the int9 range `[-256, 255]`, as produced by int8 quantization. */
  predicate ZeroPointsInRange(p: MulParams)
  {
    && -256 <= p.input1Offset <= 255
    && -256 <= p.input2Offset <= 255
    && -256 <= p.outOffset <= 255
  }

  /**
   With such zero points every int8 sample pair is safe on both paths: the
   corrected samples fit in 16-bit lanes, their product fits in int32 (at most
   `384 * 384` in magnitude), and so does the rescaled value plus the output offset.
   */
  lemma ZeroPointsDefined(s1: int8, s2: int8, p: MulParams)
    requires ZeroPointsInRange(p) && ShiftSupported(p)
    ensures LanesFit(s1, s2, p)
    ensures -384 * 384 <= (s1 + p.input1Offset) * (s2 + p.input2Offset) <= 384 * 384
    ensures ScalarDefined(s1, s2, p) && PackedDefined(s1, s2, p)
  {
    var x1, x2 := s1 + p.input1Offset, s2 + p.input2Offset;
    ProductMagnitude(x1, x2, 384);
    var product := x1 * x2;
    SatDoublingHighMultBounds(product, p.outMult);
    DivideByPowerOfTwoBounds(SatDoublingHighMult(product, p.outMult), -p.outShift);
    Wrap16Spec(x1);
    Wrap16Spec(x2);
  }

  /** Factors of magnitude at most `m` have a product of magnitude at most `m * m`. */
  lemma ProductMagnitude(x1: int, x2: int, m: int)
    requires 0 <= m
    requires -m <= x1 <= m && -m <= x2 <= m
    ensures -m * m <= x1 * x2 <= m * m
  {
    var a1: int := if x1 < 0 then -x1 else x1;
    var a2: int := if x2 < 0 then -x2 else x2;
    MulMonoRight(a1, m, a2);
    MulMonoRight(a2, m, m);
    assert a1 * a2 == (if (x1 < 0) == (x2 < 0) then x1 * x2 else -(x1 * x2));
  }

  /** Whether element `i` of a `blockSize` call goes through the four-wide loop. */
  predicate InPackedLoop(packedBuild: bool, blockSize: nat, i: nat)
  {
    packedBuild && i < 4 * (blockSize / 4)
  }

  /** The element at a given position is free of signed overflow on the path that handles it. */
  predicate ElementDefined(s1: int8, s2: int8, p: MulParams, packedLane: bool)
  {
    if packedLane then PackedDefined(s1, s2, p) else ScalarDefined(s1, s2, p)
  }

  /** The output for one sample pair on the path that handles it. */
  function ElementResult(s1: int8, s2: int8, p: MulParams, packedLane: bool): int8
    requires ElementDefined(s1, s2, p, packedLane)
  {
    if packedLane then PackedLaneTransform(s1, s2, p) else Transform(s1, s2, p)
  }

  /** The call is free of signed overflow: every element is, on its own path. */
  predicate KernelDefined(in1: seq<int8>, in2: seq<int8>, p: MulParams, blockSize: nat, packedBuild: bool)
    requires blockSize <= |in1| && blockSize <= |in2|
  {
    forall i :: 0 <= i < blockSize ==>
      ElementDefined(in1[i], in2[i], p, InPackedLoop(packedBuild, blockSize, i))
  }

  /**
   `arm_elementwise_mul_s8`. `packedBuild` stands for the build with
   `ARM_MATH_LOOPUNROLL` and `ARM_MATH_DSP` defined. Exactly the first
   `blockSize` output elements are written, each from the input pair at the
   same index on the path that handles it, and the call always succeeds. When
   the corrected samples of the packed elements fit in 16 bits (always, for
   int9 zero points), both builds write `Transform` of every pair.
   */
  method ElementwiseMulS8(
    in1: seq<int8>, in2: seq<int8>, output: seq<int8>, p: MulParams,
    blockSize: uint32, packedBuild: bool)
    returns (out: seq<int8>, status: ArmStatus)
    requires blockSize <= |in1| && blockSize <= |in2| && blockSize <= |output|
    requires KernelDefined(in1, in2, p, blockSize, packedBuild)
    ensures status == ArmMathSuccess
    ensures |out| == |output|
    ensures forall i :: 0 <= i < blockSize ==>
              out[i] == ElementResult(in1[i], in2[i], p, InPackedLoop(packedBuild, blockSize, i))
    ensures forall i :: blockSize <= i < |output| ==> out[i] == output[i]
    ensures blockSize == 0 ==> out == output
    ensures (forall i :: 0 <= i < blockSize && InPackedLoop(packedBuild, blockSize, i) ==> LanesFit(in1[i], in2[i], p)) ==>
              forall i :: 0 <= i < blockSize ==>
                ScalarDefined(in1[i], in2[i], p) && out[i] == Transform(in1[i], in2[i], p)
  {
    var packedEnd: nat := if packedBuild then 4 * (blockSize / 4) else 0;
    out := output;
    if packedBuild {
      assert forall i :: 0 <= i < packedEnd ==> PackedDefined(in1[i], in2[i], p) by {
        forall i | 0 <= i < packedEnd
          ensures PackedDefined(in1[i], in2[i], p)
        {
          assert ElementDefined(in1[i], in2[i], p, InPackedLoop(packedBuild, blockSize, i));
        }
      }
      out := PackedLoop(in1, in2, out, p, blockSize);
    }
    assert forall i :: packedEnd <= i < blockSize ==> ScalarDefined(in1[i], in2[i], p) by {
      forall i | packedEnd <= i < blockSize
        ensures ScalarDefined(in1[i], in2[i], p)
      {
        assert ElementDefined(in1[i], in2[i], p, InPackedLoop(packedBuild, blockSize, i));
      }
    }
    var prefix := out;
    out := ScalarLoop(in1, in2, prefix, p, packedEnd, blockSize);

    forall i | 0 <= i < blockSize
      ensures out[i] == ElementResult(in1[i], in2[i], p, InPackedLoop(packedBuild, blockSize, i))
    {
      if i < packedEnd {
        assert out[i] == prefix[i];
      }
    }
    forall i | 0 <= i < blockSize && InPackedLoop(packedBuild, blockSize, i) && LanesFit(in1[i], in2[i], p)
      ensures ScalarDefined(in1[i], in2[i], p) && out[i] == Transform(in1[i], in2[i], p)
    {
      PackedLaneAgrees(in1[i], in2[i], p);
    }
    status := ArmMathSuccess;
  }

  /**
   With int9 zero points and a supported shift, both builds are free of
   signed overflow on every input, and they produce the same output buffer:
   `Transform` of each pair in `output[0..blockSize)` and the old contents
   beyond it.
   */
  method BuildsAgree(
    in1: seq<int8>, in2: seq<int8>, output: seq<int8>, p: MulParams, blockSize: uint32)
    returns (packedOut: seq<int8>, plainOut: seq<int8>)
    requires blockSize <= |in1| && blockSize <= |in2| && blockSize <= |output|
    requires ZeroPointsInRange(p) && ShiftSupported(p)
    ensures packedOut == plainOut
    ensures |packedOut| == |output|
    ensures forall i :: 0 <= i < blockSize ==>
              ScalarDefined(in1[i], in2[i], p) && packedOut[i] == Transform(in1[i], in2[i], p)
    ensures forall i :: blockSize <= i < |output| ==> packedOut[i] == output[i]
  {
    forall i | 0 <= i < blockSize
      ensures LanesFit(in1[i], in2[i], p)
      ensures ScalarDefined(in1[i], in2[i], p) && PackedDefined(in1[i], in2[i], p)
    {
      ZeroPointsDefined(in1[i], in2[i], p);
    }
    var s1, s2;
    packedOut, s1 := ElementwiseMulS8(in1, in2, output, p, blockSize, true);
    plainOut, s2 := ElementwiseMulS8(in1, in2, output, p, blockSize, false);
    assert forall i :: 0 <= i < |output| ==> packedOut[i] == plainOut[i];
  }

  /**
   The four-wide loop of the packed build: the offsets are packed once, then
   each iteration handles the next four elements, `blockSize / 4` times. The
   first `4 * (blockSize / 4)` outputs get the lane transform of their pair.
   */
  method PackedLoop(in1: seq<int8>, in2: seq<int8>, output: seq<int8>, p: MulParams, blockSize: nat)
    returns (out: seq<int8>)
    requires blockSize <= |in1| && blockSize <= |in2| && blockSize <= |output|
    requires forall i :: 0 <= i < 4 * (blockSize / 4) ==> PackedDefined(in1[i], in2[i], p)
    ensures |out| == |output|
    ensures forall i :: 0 <= i < 4 * (blockSize / 4) ==> out[i] == PackedLaneTransform(in1[i], in2[i], p)
    ensures forall i :: 4 * (blockSize / 4) <= i < |output| ==> out[i] == output[i]
  {
    out := output;
    var offset1Packed := PackOffset(p.input1Offset);
    var offset2Packed := PackOffset(p.input2Offset);
    var loopCount: nat := blockSize / 4;
    var k: nat := 0;
    while loopCount > 0
      invariant loopCount <= blockSize / 4
      invariant k == 4 * (blockSize / 4 - loopCount)
      invariant |out| == |output|
      invariant forall i :: 0 <= i < k ==> out[i] == PackedLaneTransform(in1[i], in2[i], p)
      invariant forall i :: k <= i < |output| ==> out[i] == output[i]
    {
      out := MulGroupOfFour(in1, in2, out, p, k, offset1Packed, offset2Packed);
      k := k + 4;
      loopCount := loopCount - 1;
    }
  }

  /**
   The element-at-a-time loop: elements `start` up to `blockSize` get the
   scalar transform of their pair, one per iteration, and nothing else changes.
   It is the whole kernel in the plain build and handles the `blockSize % 4`
   leftover elements in the packed one.
   */
  method ScalarLoop(in1: seq<int8>, in2: seq<int8>, output: seq<int8>, p: MulParams, start: nat, blockSize: nat)
    returns (out: seq<int8>)
    requires start <= blockSize <= |in1| && blockSize <= |in2| && blockSize <= |output|
    requires forall i :: start <= i < blockSize ==> ScalarDefined(in1[i], in2[i], p)
    ensures |out| == |output|
    ensures forall i :: start <= i < blockSize ==> out[i] == Transform(in1[i], in2[i], p)
    ensures forall i :: 0 <= i < |output| && !(start <= i < blockSize) ==> out[i] == output[i]
  {
    out := output;
    var k := start;
    var loopCount: nat := blockSize - start;
    while loopCount > 0
      invariant k + loopCount == blockSize
      invariant start <= k
      invariant |out| == |output|
      invariant forall i :: start <= i < k ==> out[i] == Transform(in1[i], in2[i], p)
      invariant forall i :: 0 <= i < |output| && !(start <= i < k) ==> out[i] == output[i]
    {
      var r := MulScalar(in1[k], in2[k], p);
      out := out[k := r];
      k := k + 1;
      loopCount := loopCount - 1;
    }
  }

  /**
   One iteration of the four-wide loop: read four samples of each input as two
   words of 16-bit lanes, add the replicated offset words, requantize the lanes
   in the order r1, r3, r2, r4, and store the four results packed as r1..r4.
   */
  method MulGroupOfFour(
    in1: seq<int8>, in2: seq<int8>, out: seq<int8>, p: MulParams, k: nat,
    offset1Packed: int32, offset2Packed: int32)
    returns (out': seq<int8>)
    requires k + 4 <= |in1| && k + 4 <= |in2| && k + 4 <= |out|
    requires offset1Packed == PackOffset(p.input1Offset) && offset2Packed == PackOffset(p.input2Offset)
    requires PackedDefined(in1[k], in2[k], p) && PackedDefined(in1[k + 1], in2[k + 1], p)
    requires PackedDefined(in1[k + 2], in2[k + 2], p) && PackedDefined(in1[k + 3], in2[k + 3], p)
    ensures |out'| == |out|
    ensures out'[k] == PackedLaneTransform(in1[k], in2[k], p)
    ensures out'[k + 1] == PackedLaneTransform(in1[k + 1], in2[k + 1], p)
    ensures out'[k + 2] == PackedLaneTransform(in1[k + 2], in2[k + 2], p)
    ensures out'[k + 3] == PackedLaneTransform(in1[k + 3], in2[k + 3], p)
    ensures forall i :: 0 <= i < |out| && !(k <= i < k + 4) ==> out'[i] == out[i]
  {
    var b1, a1 := ReadOffsetLanes(in1, k, offset1Packed, p.input1Offset);
    var b2, a2 := ReadOffsetLanes(in2, k, offset2Packed, p.input2Offset);
    var r1 := MulLane(LaneLo(b1), LaneLo(b2), in1[k], in2[k], p);
    var r3 := MulLane(LaneHi(b1), LaneHi(b2), in1[k + 2], in2[k + 2], p);
    var r2 := MulLane(LaneLo(a1), LaneLo(a2), in1[k + 1], in2[k + 1], p);
    var r4 := MulLane(LaneHi(a1), LaneHi(a2), in1[k + 3], in2[k + 3], p);
    out' := WritePacked(out, k, r1, r2, r3, r4);
  }

  /** One iteration of the scalar loop: correct both samples by their offsets,
      multiply, requantize, clamp and narrow. */
  method MulScalar(s1: int8, s2: int8, p: MulParams) returns (r: int8)
    requires ScalarDefined(s1, s2, p)
    ensures r == Transform(s1, s2, p)
    ensures r == ReferenceTransform(s1, s2, p)
  {
    var input1 := s1 + p.input1Offset;
    var input2 := s2 + p.input2Offset;
    var mulRes := input1 * input2;
    mulRes := Rescale(mulRes, p) + p.outOffset;
    mulRes := if mulRes > p.activationMin then mulRes else p.activationMin;
    mulRes := if mulRes < p.activationMax then mulRes else p.activationMax;
    r := Wrap8(mulRes);
    TransformMatchesReference(s1, s2, p);
  }

  /**
   One "Mul" block of the four-wide loop: multiply the two lane values taken
   from the offset words, requantize, clamp and narrow. The lane values are the
   samples `s1`, `s2` plus their offsets, wrapped to 16 bits.
   */
  method MulLane(input1: int16, input2: int16, ghost s1: int8, ghost s2: int8, p: MulParams)
    returns (r: int8)
    requires input1 == Wrap16(s1 + p.input1Offset) && input2 == Wrap16(s2 + p.input2Offset)
    requires PackedDefined(s1, s2, p)
    ensures r == PackedLaneTransform(s1, s2, p)
    ensures LanesFit(s1, s2, p) ==> ScalarDefined(s1, s2, p) && r == Transform(s1, s2, p)
  {
    var mulRes := input1 * input2;
    mulRes := Rescale(mulRes, p) + p.outOffset;
    mulRes := if mulRes > p.activationMin then mulRes else p.activationMin;
    mulRes := if mulRes < p.activationMax then mulRes else p.activationMax;
    r := Wrap8(mulRes);
    if LanesFit(s1, s2, p) {
      PackedLaneAgrees(s1, s2, p);
    }
  }

  /**
   Read four samples of one input as two lane words (`b`: elements 0 and 2,
   `a`: elements 1 and 3) and add the replicated offset word to each with
   `__SADD16`. Each lane then holds its sample plus the offset, modulo 2^16.
   */
  method ReadOffsetLanes(s: seq<int8>, k: nat, offsetPacked: int32, ghost offset: int32)
    returns (b: int32, a: int32)
    requires k + 4 <= |s|
    requires offsetPacked == PackOffset(offset)
    ensures LaneLo(b) == Wrap16(s[k] + offset) && LaneHi(b) == Wrap16(s[k + 2] + offset)
    ensures LaneLo(a) == Wrap16(s[k + 1] + offset) && LaneHi(a) == Wrap16(s[k + 3] + offset)
  {
    var words := ReadAndPadReordered(s, k);
    b, a := words.0, words.1;
    assert LaneLo(b) == s[k] && LaneHi(b) == s[k + 2] && LaneLo(a) == s[k + 1] && LaneHi(a) == s[k + 3] by {
      ReadAndPadReorderedLanes(s, k);
    }
    Sadd16OffsetLanes(a, offset);
    Sadd16OffsetLanes(b, offset);
    a := Sadd16(a, offsetPacked);
    b := Sadd16(b, offsetPacked);
  }

  /** `write_q7x4_ia(&output, __PACKq7(r1, r2, r3, r4))`: the four results land
      at `out[k..k + 4]` in order and nothing else changes. */
  function WritePacked(out: seq<int8>, k: nat, r1: int8, r2: int8, r3: int8, r4: int8): (out': seq<int8>)
    requires k + 4 <= |out|
    ensures |out'| == |out|
    ensures out'[k] == r1 && out'[k + 1] == r2 && out'[k + 2] == r3 && out'[k + 3] == r4
    ensures forall i :: 0 <= i < |out| && !(k <= i < k + 4) ==> out'[i] == out[i]
  {
    PackQ7RoundTrip(r1, r2, r3, r4);
    var out' := WriteQ7x4(out, k, PackQ7(r1, r2, r3, r4));
    assert out'[k] == ByteOf(PackQ7(r1, r2, r3, r4), 0);
    assert out'[k + 1] == ByteOf(PackQ7(r1, r2, r3, r4), 1);
    assert out'[k + 2] == ByteOf(PackQ7(r1, r2, r3, r4), 2);
    assert out'[k + 3] == ByteOf(PackQ7(r1, r2, r3, r4), 3);
    out'
  }

  /** Under unity requantization the element transform is the clamped product
      of the corrected samples plus the output offset. */
  lemma UnityTransform(s1: int8, s2: int8, p: MulParams)
    requires p.outMult == INT32_MAX && p.outShift == 0
    requires -0x100 <= p.input1Offset <= 0x100 && -0x100 <= p.input2Offset <= 0x100
    requires -0x100 <= p.outOffset <= 0x100
    ensures ScalarDefined(s1, s2, p)
    ensures Transform(s1, s2, p)
         == ClampNarrow((s1 + p.input1Offset) * (s2 + p.input2Offset) + p.outOffset, p)
  {
    var x1, x2 := s1 + p.input1Offset, s2 + p.input2Offset;
    ProductMagnitude(x1, x2, 0x180);
    UnityRescale(x1 * x2, p);
  }

  /** Unity requantization reproduces small products: `[10, -5] * [3, 3]` gives `[30, -15]`. */
  lemma UnityScaleScenario()
    ensures ScalarDefined(10, 3, UnityParams) && Transform(10, 3, UnityParams) == 30
    ensures ScalarDefined(-5, 3, UnityParams) && Transform(-5, 3, UnityParams) == -15
  {
    UnityTransform(10, 3, UnityParams);
    assert ClampNarrow(30, UnityParams) == 30;
    UnityTransform(-5, 3, UnityParams);
    assert ClampNarrow(-15, UnityParams) == -15;
  }

  /** The multiplication uses offset-corrected samples: `0` with offset 5 times `2` gives 10. */
  lemma OffsetCorrectionScenario()
    ensures ScalarDefined(0, 2, UnityParams.(input1Offset := 5))
    ensures Transform(0, 2, UnityParams.(input1Offset := 5)) == 10
  {
    UnityTransform(0, 2, UnityParams.(input1Offset := 5));
  }
}
