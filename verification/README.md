# arm_elementwise_mul_s8 in Dafny

A model of the CMSIS-NN kernel `arm_elementwise_mul_s8`. The kernel multiplies
two int8 vectors element by element in the affine-quantized domain:

- each sample is corrected by its input zero point;
- the two corrected samples are multiplied;
- the int32 product is requantized with the multiplier/shift pair
  (`out_mult`, `out_shift`) through two helpers: the saturating rounding
  doubling high multiply and the rounding divide by a power of two;
- the output zero point is added;
- the result is clamped to the activation range and narrowed to int8.

The kernel has two builds:

- the plain build runs one scalar loop over all `block_size` elements;
- the build with `ARM_MATH_LOOPUNROLL` and `ARM_MATH_DSP` first handles four
  elements per iteration through words of two 16-bit lanes, then hands the
  `block_size & 3` leftover elements to the scalar loop.

Files:

- `integers.dfy` (`Integers`): the C integer widths, and the narrowing
  conversions `(q7_t)`, `(int16_t)` and `(int32_t)` as explicit
  two's-complement wrap-around. It also holds the division facts the proofs use.
- `fixed_point.dfy` (`FixedPoint`): the two requantization helpers. Each is
  proved equal to a plain rounding reference:
  - round half up for the high-half multiply;
  - round half away from zero for the shift.
- `packed_lanes.dfy` (`PackedLanes`): the 16x2 lane words. This covers
  - the replicated offset word;
  - `__SADD16`, the lane-wise add that wraps each lane to 16 bits;
  - `read_and_pad_reordered`, with lane order elements {0, 2} / {1, 3};
  - `__PACKq7` with `write_q7x4_ia`, whose little-endian byte store is proved
    to round-trip.
- `elementwise_mul.dfy` (`ElementwiseMul`): the element transform, the packed
  lane transform and the kernel itself.

The kernel is `ElementwiseMulS8`. Its `packedBuild` flag selects the build. It
returns the new output contents and the status. It proves three things:

- exactly `output[0..block_size)` is written, each element from the input pair
  at the same index;
- the call always succeeds;
- whenever the corrected samples of the packed elements fit in 16 bits, both
  builds write `Transform(in1[i], in2[i], p)` at every index. This always holds
  for int9 zero points (`ZeroPointsDefined`).

Signed overflow is undefined in C. The model therefore does not wrap the
32-bit additions and multiplications: each precondition (`ScalarDefined`,
`PackedDefined`, `KernelDefined`) requires that they stay in range.

## Model

| member | source | states |
|---|---|---|
| ElementwiseMul.ElementwiseMulS8 | CMSIS/NN/Source/BasicMathFunctions/arm_elementwise_mul_s8.c:51-166 | Always returns success. Writes exactly the first `block_size` outputs, each from the pair at the same index on the path that handles it. Leaves the rest unchanged; nothing changes for `block_size == 0`. When the packed lanes fit, every written output is `Transform` of its pair. |
| ElementwiseMul.BuildsAgree | CMSIS/NN/Source/BasicMathFunctions/arm_elementwise_mul_s8.c:70-165 | With int9 zero points and `-31 <= out_shift <= 0`, both builds are defined on every input and write identical buffers: `Transform` of each pair in `output[0..block_size)` and the old contents beyond it. |
| ElementwiseMul.PackedLoop | CMSIS/NN/Source/BasicMathFunctions/arm_elementwise_mul_s8.c:77-139 | After `block_size >> 2` iterations, the first `4 * (block_size >> 2)` outputs hold the lane transform of their pairs. Every later output is unchanged. |
| ElementwiseMul.ScalarLoop | CMSIS/NN/Source/BasicMathFunctions/arm_elementwise_mul_s8.c:141-163 | Elements from the loop's start index up to `block_size` get the scalar transform of their pair. All other elements are unchanged. |
| ElementwiseMul.MulGroupOfFour | CMSIS/NN/Source/BasicMathFunctions/arm_elementwise_mul_s8.c:84-136 | One four-wide iteration writes `out[k..k+4]` with the lane transforms of pairs `k..k+3`, in element order. This holds although the lanes are read as {0,2}/{1,3} and computed as r1, r3, r2, r4. Nothing outside `out[k..k+4]` changes. |
| ElementwiseMul.ReadOffsetLanes | CMSIS/NN/Source/BasicMathFunctions/arm_elementwise_mul_s8.c:86-93 | After the reordered read and the `__SADD16` with the replicated offset, `b` holds samples 0 and 2 and `a` holds samples 1 and 3. Each lane is the sample plus the offset, modulo 2^16. |
| ElementwiseMul.MulLane | CMSIS/NN/Source/BasicMathFunctions/arm_elementwise_mul_s8.c:95-104 | One "Mul" block, given the two lane values, yields the lane transform of its sample pair. When the corrected samples fit in 16 bits, that is also the scalar `Transform` of the pair, and the scalar path is defined for it. |
| ElementwiseMul.WritePacked | CMSIS/NN/Source/BasicMathFunctions/arm_elementwise_mul_s8.c:136 | Storing `__PACKq7(r1, r2, r3, r4)` puts r1..r4 at `out[k..k+4]` in order. Nothing else changes. |
| ElementwiseMul.MulScalar | CMSIS/NN/Source/BasicMathFunctions/arm_elementwise_mul_s8.c:150-159 | The scalar loop body, step by step, computes the element transform. That result equals the plain rounding reference `ReferenceTransform`: the corrected product times `out_mult / 2^31` rounded half up, divided by `2^-out_shift` rounded half away from zero, plus the output offset, clamped and narrowed. |
| ElementwiseMul.Clamp | CMSIS/NN/Source/BasicMathFunctions/arm_elementwise_mul_s8.c:156-157 | `MIN(MAX(x, lo), hi)` lies in `[lo, hi]`. It is `x` when `x` is in range and the nearer bound otherwise. |
| ElementwiseMul.ClampNarrow | CMSIS/NN/Source/BasicMathFunctions/arm_elementwise_mul_s8.c:156-159 | With int8 activation bounds, the clamped value lies in the activation range and the `(q7_t)` narrowing loses nothing. In-range values pass through; others land on the nearer bound. |
| ElementwiseMul.Requantize | CMSIS/NN/Source/BasicMathFunctions/arm_elementwise_mul_s8.c:153-159 | With int8 activation bounds, every requantized output lies in `[out_activation_min, out_activation_max]`. |
| ElementwiseMul.Transform | CMSIS/NN/Source/BasicMathFunctions/arm_elementwise_mul_s8.c:150-159 | With int8 activation bounds, the element transform of any pair the scalar path handles without overflow lies in `[out_activation_min, out_activation_max]`. |
| ElementwiseMul.TransformMatchesReference | CMSIS/NN/Source/BasicMathFunctions/arm_elementwise_mul_s8.c:150-159 | The element transform equals a reference stated in plain rounding arithmetic, with no nudge, mask or threshold. |
| ElementwiseMul.RescaleMatchesReference | CMSIS/NN/Source/BasicMathFunctions/arm_elementwise_mul_s8.c:154 | The requantization of an accumulator fits in int32. It equals `acc * out_mult / 2^31`, rounded half up, then divided by `2^-out_shift` rounded half away from zero. Only `INT32_MIN * INT32_MIN` saturates. |
| ElementwiseMul.UnityRescale | CMSIS/NN/Source/BasicMathFunctions/arm_elementwise_mul_s8.c:154 | Multiplier `INT32_MAX` with shift 0 leaves accumulators in `(-2^30, 2^30]` unchanged. |
| ElementwiseMul.UnityTransform | CMSIS/NN/Source/BasicMathFunctions/arm_elementwise_mul_s8.c:150-159 | Under unity requantization with small zero points, the transform is the clamped, narrowed product of the corrected samples plus the output offset. |
| ElementwiseMul.PackedLaneAgrees | CMSIS/NN/Source/BasicMathFunctions/arm_elementwise_mul_s8.c:89-134 | When the corrected samples fit in 16 bits, a packed lane is defined exactly when the scalar step is, and both give the same output. |
| ElementwiseMul.PackedLaneDiverges | CMSIS/NN/Source/BasicMathFunctions/arm_elementwise_mul_s8.c:89-104 | Without the 16-bit fit, the paths differ: a corrected sample of `0x8000` gives `127` on the scalar path and `-128` in a lane. |
| ElementwiseMul.PackedLaneDivergesExample | CMSIS/NN/Source/BasicMathFunctions/arm_elementwise_mul_s8.c:89-104 | Samples 1 and 1 with first input offset `0x7FFF` under unity requantization: scalar 127, packed -128. |
| ElementwiseMul.ZeroPointsDefined | CMSIS/NN/Source/BasicMathFunctions/arm_elementwise_mul_s8.c:150-154 | For int9 zero points, both paths are defined for every int8 pair. The corrected samples fit in 16-bit lanes, and the product fits in int32 with magnitude at most `384 * 384`. |
| ElementwiseMul.UnityScaleScenario | CMSIS/NN/Source/BasicMathFunctions/arm_elementwise_mul_s8.c:150-159 | `[10, -5] * [3, 3]` under unity requantization gives `[30, -15]`. |
| ElementwiseMul.OffsetCorrectionScenario | CMSIS/NN/Source/BasicMathFunctions/arm_elementwise_mul_s8.c:150-153 | The product uses corrected samples: sample `0` with offset 5, times `2`, gives 10. |
| FixedPoint.SatDoublingHighMultSpec | CMSIS/NN/Source/BasicMathFunctions/arm_elementwise_mul_s8.c:154 | The high-half multiply equals `m1 * m2 / 2^31` rounded half up. It saturates to `INT32_MAX` only for `INT32_MIN * INT32_MIN`, whose rounded value `2^31` does not fit. |
| FixedPoint.SatDoublingHighMultBounds | CMSIS/NN/Source/BasicMathFunctions/arm_elementwise_mul_s8.c:154 | The high-half multiply never exceeds the magnitude of its first operand. |
| FixedPoint.UnityMultiplier | CMSIS/NN/Source/BasicMathFunctions/arm_elementwise_mul_s8.c:154 | `INT32_MAX` is the closest Q31 multiplier to 1.0. With exponent 0, both helpers together are the identity on `(-2^30, 2^30]`. |
| FixedPoint.DivideByPowerOfTwoRounds | CMSIS/NN/Source/BasicMathFunctions/arm_elementwise_mul_s8.c:154 | The mask-and-threshold shift is division by `2^exponent`, rounded to nearest with halves away from zero. |
| FixedPoint.DivideByPowerOfTwoBounds | CMSIS/NN/Source/BasicMathFunctions/arm_elementwise_mul_s8.c:154 | The rounding shift moves toward zero and never changes the sign. |
| FixedPoint.RoundingBoundary | CMSIS/NN/Source/BasicMathFunctions/arm_elementwise_mul_s8.c:154 | A halfway case rounds away from zero: 3 and -3 shifted by one give 2 and -2. |
| PackedLanes.PackOffsetLanes | CMSIS/NN/Source/BasicMathFunctions/arm_elementwise_mul_s8.c:77-78 | Both lanes of the replicated offset word (the shifted offset OR-ed with its low 16 bits) hold the offset narrowed to 16 bits. |
| PackedLanes.PackLanes | CMSIS/NN/Source/BasicMathFunctions/arm_elementwise_mul_s8.c:96-97 | `(int16_t)(w & 0xFFFF)` and `(int16_t)((w >> 16) & 0xFFFF)` read back the two values packed into `w`. |
| PackedLanes.Sadd16OffsetLanes | CMSIS/NN/Source/BasicMathFunctions/arm_elementwise_mul_s8.c:89-93 | `__SADD16` with the replicated offset word adds the offset to each lane, modulo 2^16. |
| PackedLanes.ReadAndPadReorderedLanes | CMSIS/NN/Source/BasicMathFunctions/arm_elementwise_mul_s8.c:84-87 | The reordered read puts samples 0 and 2 in the lanes of `b` and samples 1 and 3 in the lanes of `a`, each sign-extended. |
| PackedLanes.PackQ7RoundTrip | CMSIS/NN/Source/BasicMathFunctions/arm_elementwise_mul_s8.c:136 | The bytes of `__PACKq7(v0, v1, v2, v3)` in memory order are `v0..v3`. |
| PackedLanes.WriteQ7x4 | CMSIS/NN/Source/BasicMathFunctions/arm_elementwise_mul_s8.c:136 | The word store writes the four bytes of the word at `out[k..k+4]` and leaves the rest of the buffer unchanged. |

## Left out

- `arm_nn_sat_doubling_high_mult` and `arm_nn_divide_by_power_of_two` are
  defined in arm_nnsupportfunctions.h, which is not part of this model. Their
  definitions follow the library's portable C versions, which is an assumption:
  - the high-half multiply uses a nudge and truncating division;
  - the shift uses mask and threshold.
- The assumed high-half multiply rounds ties up, not away from zero: its
  nudge is `1 - 2^30` when the operand signs differ and `2^30` otherwise, and
  the nudged product is divided by `2^31` with truncation.
  `FixedPoint.SatDoublingHighMultSpec` proves the round-half-up form.
- `out_shift > 0` is not modelled. The kernel passes `-out_shift` as the
  exponent, the helper only covers exponents in `[0, 31]`, and this code has
  no left-shift path for a negative exponent. Each requantizing member
  therefore requires `-31 <= out_shift <= 0`.
- Signed 32-bit overflow in the offset additions, the product and the output
  offset addition is undefined behaviour in C. It is excluded by preconditions
  rather than given a wrapped meaning.
- `PackedLanes.PackOffset`: the shift `input_offset << 16U` that builds the
  replicated offset word is undefined in C for a negative offset and
  overflows for offsets of magnitude `2^15` or more. The model gives it the
  two's-complement wrap-around the target produces, so that the offset word
  is defined for every int32 offset.
- The intrinsics `read_and_pad_reordered`, `__SADD16`, `__PACKq7` and
  `write_q7x4_ia` are foreign code. They are modelled by their lane and byte
  behaviour on a little-endian target; the big-endian lane order is not
  modelled.
- Pointers, pointer increments, unaligned 32-bit access and buffer aliasing
  are not modelled. Buffers are sequences, the inputs cannot change, and the
  kernel returns the new output contents.
- The preprocessor configuration is reduced to the single boolean
  `packedBuild`.
- A scale of exactly 1.0 cannot be written as a Q31 multiplier. The unity
  scenarios use multiplier `INT32_MAX` with shift 0, which is the identity on
  accumulators in `(-2^30, 2^30]`.
- Concurrency and performance are not modelled; the kernel is a single-threaded
  loop.
