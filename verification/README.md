# Fixed-point numerics and register code of the Nano IP board support

The board support of Nano IP brings its own copies of the CMSIS headers. Three of them contain C code
with loops, state and arithmetic of its own: the fixed-point DSP routines of `arm_math.h`, the interrupt
priority functions of `core_cm3.h`, and the bit reversal and rotation of `cmsis_gcc.h`. This project
models that code and proves what it computes, for every input it accepts.

The build modelled is the one in which everything is C (`ARM_MATH_CM0_FAMILY`, little endian): there
`__SSAT`, `__CLZ` and the SIMD instructions are loops and shifts instead of instructions. For the Q15 PID
controller the other branch, written on the dual multiplies, is modelled too and compared with the first.

All arithmetic is on mathematical integers. A cast is a named wrap (`ToInt32`, `ToUint32`, ...: two's
complement), a right shift of a signed value is a floor division, and a mask or an or works on the bits
of the word. Every cast of the C code that can change a value is written out, so the absence of overflow
is a theorem and, where there is overflow, the theorem says exactly when.

| module | contents |
|---|---|
| `Words` | integer types, casts, bitwise operations and the facts about them |
| `Divisors` | greatest common divisors and multiples modulo a number |
| `Saturation` | the clips, the 64 by 32 multiply, saturating addition, the loop of `__SSAT` |
| `Simd` | the emulated SIMD instructions as operations on lanes |
| `BitReversal` | the loop of `__RBIT`, rotation, and how they combine |
| `Reciprocal` | leading zeros, normalisation, two Newton steps |
| `Pid` | the Q15 controller in both forms and the Q31 controller, over whole runs |
| `Transforms` | Clarke and Park and their inverses |
| `LinearInterpolation`, `BilinearInterpolation` | table interpolation in three formats |
| `CircularBuffer` | strided block write and read, delay lines |
| `Nvic` | priority encoding and the priority registers |

Operations that change state or loop in the C code are methods and classes here (`SSat`, `Clz`, `RecipQ15`,
`PidQ15`, `CircularWrite`, `BilinearQ15`, `Controller`, ...). Each is proved equal to a function on values,
and the properties are lemmas about that function.

## Where the code and its documentation differ

The model follows the code. Each difference is a lemma.

- `clip_q63_to_q15` is the clamp of x / 2^15 except on two intervals next to the 32-bit limits
  (`Saturation.ClipQ63ToQ15IsClampExactlyWhen`); `clip_q31_to_q7` is a clamp on even fewer values
  (`Saturation.ClipQ31ToQ7IsClampExactlyWhen`).
- `__SMUAD`, `__SMUADX`, `__SMLALD` and `__SMLALDX` add the two products in 32 bits; when all four lanes are
  -2^15 the sum wraps (`Simd.DualMultiplyAddExactlyWhen`, `Simd.LongAccumulateExactlyWhen`).
- The two branches of `arm_pid_q15` differ: the dual multiply also multiplies the sign-extended upper halves
  of A0 and the input (`Pid.SimdStepEqualsScalarExactlyWhen`).
- `arm_pid_q31` is documented as saturating, but wraps (`Pid.PidQ31SaturatesExactlyWhen`, `Pid.PidQ31Wraps`).
- `arm_clarke_q31` and `arm_park_q31` are documented as free of overflow because their additions saturate, but
  the products are cast to 32 bits before. Clarke fails exactly for |b| above 1859775393
  (`Transforms.ClarkeSaturatesExactlyWhen`), Park and its inverse exactly when a product is -1.0 times -1.0 and
  no other one makes up for it (`Transforms.ParkSaturatesExactlyWhen`, `Transforms.InvParkSaturatesExactlyWhen`);
  this happens on the unit circle, at 270 degrees (`Transforms.ParkWrapsOnTheCircle`).
- Linear interpolation gives weights that add up to 2^20 - 1, so a positive entry comes out one smaller at its
  own table point but not to the left of the table (`LinearInterpolation.LinearQ15MonotoneExactlyWhen`). The Q31
  form truncates twice: on a nondecreasing table it can fall back, by at most 2
  (`LinearInterpolation.LinearQ31AlmostMonotone`). It does so on a table of threes
  (`LinearInterpolation.LinearQ31IsNotMonotone`), but not on steep tables
  (`LinearInterpolation.SteepLinearQ31MonotoneExactlyWhen`), and which constant tables are safe is known exactly
  (`LinearInterpolation.ConstantLinearQ31MonotoneExactlyWhen`).
- The documentation speaks of tables of up to 2^12 entries. The index is the signed upper 12 bits of x, so it ends
  at 2047, and with the entry after it the last of at most 2049 entries can be used
  (`LinearInterpolation.LinearQ15LastEntryUsedExactlyWhen` and the same for Q7 and Q31).
- The bilinear functions compare the x index with the number of rows and the y index with the number of
  columns (`BilinearInterpolation.GuardIsTableTestExactlyWhen`). They also let the last row and column pass, whose
  neighbours are outside the table. The guard keeps all reads inside a full table exactly when
  min(rows, 2048) + columns * min(columns, 2048) < rows * columns
  (`BilinearInterpolation.GuardedReadsStayInsideExactlyWhen`), which no square table of up to 2048 rows does
  (`BilinearInterpolation.SquareTableReadsOutside`). In the last column the right-hand neighbour is the first
  cell of the next row (`BilinearInterpolation.LastColumnReadsNextRow`).
- The Q31 bilinear form can wrap near full negative scale, exactly if entries below -2^31 + 13 are allowed
  (`BilinearInterpolation.BlendQ31NeverWrapsExactlyWhen`, `BilinearInterpolation.FullNegativeScaleWraps`).
- The circular write hands its 32-bit offset back through 16 bits, so a buffer of more than 2^16 cells does not
  carry over from block to block (`CircularBuffer.BlocksAreOneWriteExactlyWhen`).
- The reciprocals have a branch for negative operands, but with non-negative table entries the steps do not follow
  it. The Q31 result is then not negative (`Reciprocal.RecipQ31LosesSign`), and with a table whose entries invert a
  point of their segment it is accurate exactly for positive operands (`Reciprocal.RecipQ31AccurateExactlyWhen`).
  The Q15 casts drop a carry besides, which can destroy the result
  (`Reciprocal.NegativeOperandIsNotInverted`) or hit it by accident
  (`Reciprocal.NegativeOperandInvertedByAccident`). With a negative entry both forms do invert a negative operand
  (`Reciprocal.RecipQ15ConvergesBelow`, `Reciprocal.RecipQ31ConvergesBelow`).

Park followed by its inverse can lose more than four units of beta (`Transforms.ParkBetaLosesFourUnits`); the
bound proved is 17/4. A block written with a stride that shares a factor with the buffer length is overwritten
by itself after less than one buffer length; it is read back if and only if it has at most
L / gcd(bufferInc, L) samples (`CircularBuffer.RoundTripExactlyWhen`).

## Model

| member | source | states |
|---|---|---|
| `Saturation.ClipQ63ToQ31IsClamp` | src/bsps/bsp_stm32f767/arm_math.h:484-489 | the comparison of sign words and the xor with the sign amount to the clamp to 32 bits, for every 64-bit value |
| `Saturation.HighWordTest` | src/bsps/bsp_stm32f767/arm_math.h:487 | the two sign words differ if and only if the value does not fit 32 bits |
| `Saturation.ClipQ63ToQ15IsClampExactlyWhen` | src/bsps/bsp_stm32f767/arm_math.h:494-499 | the result is the clamp of x / 2^15 if and only if x is outside [-2^31, -2^30) and [2^30, 2^31), and off by 2^16 from x / 2^15 inside |
| `Saturation.ClipQ31ToQ7IsClampExactlyWhen` | src/bsps/bsp_stm32f767/arm_math.h:504-509 | the exact set of values for which the result is a clamp to 8 bits, and the low byte below 2^23 in magnitude |
| `Saturation.ClipQ31ToQ15IsClamp` | src/bsps/bsp_stm32f767/arm_math.h:514-519 | the clamp to 16 bits, for every 32-bit value |
| `Saturation.Mult32x64NeverOverflows` | src/bsps/bsp_stm32f767/arm_math.h:525-531 | neither half product nor their sum leaves 64 bits |
| `Saturation.Mult32x64IsExact` | src/bsps/bsp_stm32f767/arm_math.h:525-531 | the split multiply is the floor of the full 96-bit product over 2^32 |
| `Saturation.QAdd` | src/bsps/bsp_stm32f767/arm_math.h:898-903 | the clamped exact sum |
| `Saturation.QSub` | src/bsps/bsp_stm32f767/arm_math.h:909-914 | the clamped exact difference |
| `Saturation.SSat` | src/bsps/bsp_stm32f767/arm_math.h:666-697 | the doubling loop and the comparisons give the clamp to y signed bits for y in 1..32, and what they give for any other y |
| `Simd.HalvesAreLanes` | src/bsps/bsp_stm32f767/arm_math.h:753-754 | the shift pairs extract the two sign-extended halfwords |
| `Simd.BytesAreLanes` | src/bsps/bsp_stm32f767/arm_math.h:716-719 | the shift pairs extract the four sign-extended bytes |
| `Simd.SaturatingBytesAreLanewise` | src/bsps/bsp_stm32f767/arm_math.h:710-740 | each byte of `__QADD8` and `__QSUB8` is the clamped sum or difference of the same bytes of x and y |
| `Simd.SaturatingHalvesAreLanewise` | src/bsps/bsp_stm32f767/arm_math.h:746-853 | each half of `__QADD16`, `__QSUB16`, `__QASX` and `__QSAX` is the clamped sum or difference of the right halves, crossed for the last two |
| `Simd.HalvingIsLanewise` | src/bsps/bsp_stm32f767/arm_math.h:763-869 | each half of `__SHADD16`, `__SHSUB16`, `__SHASX` and `__SHSAX` is the floor of half the exact sum or difference |
| `Simd.DualMultiplyAddExactlyWhen` | src/bsps/bsp_stm32f767/arm_math.h:886-998 | `__SMUAD` and `__SMUADX` are exact if and only if not all four lanes are -2^15, and -2^31 then |
| `Simd.DualMultiplySubtractIsExact` | src/bsps/bsp_stm32f767/arm_math.h:875-1010 | `__SMUSD` and `__SMUSDX` never overflow |
| `Simd.AccumulateIsModular` | src/bsps/bsp_stm32f767/arm_math.h:920-956 | `__SMLAD`, `__SMLADX` and `__SMLSDX` are the exact value modulo 2^32, whatever wraps on the way |
| `Simd.LongAccumulateExactlyWhen` | src/bsps/bsp_stm32f767/arm_math.h:962-986 | `__SMLALD` and `__SMLALDX` are exact modulo 2^64 if and only if not all lanes are -2^15, and then off by 2^32 |
| `Simd.Sxtb16ExtendsBytes` | src/bsps/bsp_stm32f767/arm_math.h:1016-1021 | the halves are the sign-extended bytes 0 and 2 |
| `Simd.PackBottomTopLanes` | src/bsps/bsp_stm32f767/arm_math.h:454-455 | `__PKHBT` with shift 16 puts the low halves of its arguments into the two lanes |
| `Simd.PackQ7RoundTrip` | src/bsps/bsp_stm32f767/arm_math.h:467-470 | packing four bytes and taking the lanes are inverse in both directions |
| `BitReversal.ReversedBits` | src/bsps/bsp_stm32f767/cmsis_gcc.h:526-545 | bit i of a reversed word is bit w-1-i of the word, for any width w |
| `BitReversal.ReversalIsInvolution` | src/bsps/bsp_stm32f767/cmsis_gcc.h:526-545 | reversing twice is the identity, for any width |
| `BitReversal.Rbit` | src/bsps/bsp_stm32f767/cmsis_gcc.h:526-545 | the loop with its early exit and final shift reverses all 32 bits |
| `BitReversal.RorBits` | src/bsps/bsp_stm32f767/cmsis_gcc.h:504-507 | bit i of the rotation is bit i+k of the word, cyclically |
| `BitReversal.RorComposes` | src/bsps/bsp_stm32f767/cmsis_gcc.h:504-507 | rotation counts add modulo 32 |
| `BitReversal.ReversalMirrorsRotation` | src/bsps/bsp_stm32f767/cmsis_gcc.h:504-545 | reversing a word rotated by k is rotating the reversed word by 32-k |
| `Reciprocal.Clz` | src/bsps/bsp_stm32f767/arm_math.h:543-556 | the loop ends for every non-zero word, and the count places the word between the two powers of two |
| `Reciprocal.NormalizedRange` | src/bsps/bsp_stm32f767/arm_math.h:573-583 | the shifted operand has its leading bit just below the sign |
| `Reciprocal.NewtonRanges` | src/bsps/bsp_stm32f767/arm_math.h:594-601 | every intermediate of a step stays within its type and n times the result stays below 2B^2, for any base B |
| `Reciprocal.NewtonContracts` | src/bsps/bsp_stm32f767/arm_math.h:594-601 | the new residual is positive and less than the square of the old one plus the two truncations |
| `Reciprocal.NewtonBound` | src/bsps/bsp_stm32f767/arm_math.h:594-601 | a computable bound on the residual after a step from one before it |
| `Reciprocal.NewtonBoundBelow` | src/bsps/bsp_stm32f767/arm_math.h:594-601 | with operand and approximation both negative a step contracts the residual by the same bound, and ends above -2B |
| `Reciprocal.StepQ15IsWrappedNewton` | src/bsps/bsp_stm32f767/arm_math.h:645-652 | for every operand and approximation the unsigned arithmetic is the Newton step wrapped once to 16 bits |
| `Reciprocal.StepQ31IsClampedNewton` | src/bsps/bsp_stm32f767/arm_math.h:594-601 | for every operand but -2^31 and every approximation the Q31 step is the Newton step clamped to 32 bits |
| `Reciprocal.RecipQ15IsWrappedNewton` | src/bsps/bsp_stm32f767/arm_math.h:633-655 | for every operand and table the result is two wrapped Newton steps from entry n / 2^8 mod 64 |
| `Reciprocal.RecipQ31IsClampedNewton` | src/bsps/bsp_stm32f767/arm_math.h:582-605 | for every operand and table the result is two clamped Newton steps from entry n / 2^24 mod 64 |
| `Reciprocal.StepQ15IsNewton` | src/bsps/bsp_stm32f767/arm_math.h:645-652 | for a normalised positive operand no cast of the Q15 step changes a value |
| `Reciprocal.StepQ31IsNewton` | src/bsps/bsp_stm32f767/arm_math.h:594-601 | likewise for Q31, where the clip never acts |
| `Reciprocal.StepQ15IsNewtonBelow` | src/bsps/bsp_stm32f767/arm_math.h:645-652 | nor does any cast with operand and approximation both negative |
| `Reciprocal.StepQ31IsNewtonBelow` | src/bsps/bsp_stm32f767/arm_math.h:594-601 | likewise for Q31 |
| `Reciprocal.StepQ31Opposite` | src/bsps/bsp_stm32f767/arm_math.h:594-601 | for operand and approximation of opposite sign a step at least doubles the approximation, up to the clip |
| `Reciprocal.RecipQ15` | src/bsps/bsp_stm32f767/arm_math.h:614-658 | the exponent for every operand but 0 and -2^15, the 32-bit leading-zero count less 17 being the right shift; the result as two wrapped Newton steps; for a positive operand below the true reciprocal, and accurate to 65620 / 2^29 with a bracketing table; never positive for a negative operand and table entry |
| `Reciprocal.RecipQ31` | src/bsps/bsp_stm32f767/arm_math.h:563-609 | the exponent for every operand but 0 and -2^31; the result as two clamped Newton steps; with a non-negative table below the true reciprocal of a positive operand and of the wrong sign for a negative one; with a bracketing table accurate if and only if the operand is positive |
| `Reciprocal.RecipQ15NeverOvershoots` | src/bsps/bsp_stm32f767/arm_math.h:614-658 | with any non-negative table, the reciprocal of a positive operand is non-negative and below the true one |
| `Reciprocal.RecipQ31NeverOvershoots` | src/bsps/bsp_stm32f767/arm_math.h:563-609 | likewise for Q31 |
| `Reciprocal.RecipQ15Converges` | src/bsps/bsp_stm32f767/arm_math.h:641-652 | the final residual is positive and bounded by two contractions of the residual of the table entry |
| `Reciprocal.RecipQ31Converges` | src/bsps/bsp_stm32f767/arm_math.h:590-601 | likewise for Q31 |
| `Reciprocal.RecipQ15ConvergesBelow` | src/bsps/bsp_stm32f767/arm_math.h:624-652 | a negative operand whose table entry is not positive: the final residual is above -2^15 and bounded by two contractions |
| `Reciprocal.RecipQ31ConvergesBelow` | src/bsps/bsp_stm32f767/arm_math.h:573-601 | likewise for Q31 |
| `Reciprocal.RecipQ15Accurate` | src/bsps/bsp_stm32f767/arm_math.h:614-658 | with a table whose entries invert a point of their segment, the result is at most 65620 / 2^29 too small, relatively |
| `Reciprocal.RecipQ31Accurate` | src/bsps/bsp_stm32f767/arm_math.h:563-609 | likewise for Q31, at most 141736558604 / 2^61 too small |
| `Reciprocal.RecipQ31LosesSign` | src/bsps/bsp_stm32f767/arm_math.h:563-609 | with any non-negative table the result for every negative operand is not negative |
| `Reciprocal.RecipQ31AccurateExactlyWhen` | src/bsps/bsp_stm32f767/arm_math.h:563-609 | with a bracketing table the result is accurate if and only if the operand is positive, and 2^31 - 1 for every negative one |
| `Reciprocal.NegativeOperandIsNotInverted` | src/bsps/bsp_stm32f767/arm_math.h:624-652 | a negative operand and a table entry for which the result is -6 instead of about -21845 |
| `Reciprocal.NegativeOperandInvertedByAccident` | src/bsps/bsp_stm32f767/arm_math.h:624-652 | and one with an entry between the reciprocals of its segment, for which the result is accurate: the sign is not the exact condition for Q15 |
| `Pid.ScalarOutput` | src/bsps/bsp_stm32f767/arm_math.h:4895-4907 | no cast of the scalar branch changes a value; the output is the clamped difference equation |
| `Pid.PidQ15.Process` | src/bsps/bsp_stm32f767/arm_math.h:4876-4916 | the update of the object is one step of the clamped difference equation, gains unchanged |
| `Pid.UnsaturatedRunIsIdeal` | src/bsps/bsp_stm32f767/arm_math.h:4876-4916 | as long as no output would leave 16 bits, a run is a run of the unclamped equation |
| `Pid.IdealRunTracksPositional` | src/bsps/bsp_stm32f767/arm_math.h:4742-4745 | with the documented gains, n steps of the incremental equation are below the positional form by less than n units and never above it |
| `Pid.PidQ15TracksPositional` | src/bsps/bsp_stm32f767/arm_math.h:4742-4916 | the same of the Q15 controller over every run without saturation |
| `Pid.FirstProduct` | src/bsps/bsp_stm32f767/arm_math.h:4889 | the dual multiply gives A0 * in, and one more when both are negative |
| `Pid.SecondProduct` | src/bsps/bsp_stm32f767/arm_math.h:4891-4893 | the accumulation adds both products, less 2^32 when all four values are -2^15 |
| `Pid.PidQ15Simd.Process` | src/bsps/bsp_stm32f767/arm_math.h:4883-4916 | the branch on dual multiplies, on packed gains and the pair of state words |
| `Pid.SimdStepEqualsScalarExactlyWhen` | src/bsps/bsp_stm32f767/arm_math.h:4883-4907 | one step of both branches agrees if and only if the pair does not overflow and the extra unit does not reach an unsaturated output |
| `Pid.SimdRunTracksScalar` | src/bsps/bsp_stm32f767/arm_math.h:4883-4907 | over every run in which no pair overflows the dual-multiply output is never below the scalar one and above it by at most the number of negative inputs |
| `Pid.SimdRunEqualsScalarRunExactlyWhen` | src/bsps/bsp_stm32f767/arm_math.h:4883-4907 | with a non-negative A0 both branches go through the same states if and only if no pair overflows in the run |
| `Pid.PidQ31.Process` | src/bsps/bsp_stm32f767/arm_math.h:4829-4858 | one step is the difference equation wrapped to 32 bits, though the accumulator wraps as well |
| `Pid.RunQ31WrapsOnce` | src/bsps/bsp_stm32f767/arm_math.h:4829-4858 | after any run the output is that of the unbounded equation wrapped once: intermediate wraps leave no trace |
| `Pid.PidQ31TracksPositional` | src/bsps/bsp_stm32f767/arm_math.h:4742-4858 | the Q31 output is below the positional form by less than n units whenever the unbounded output fits at the end |
| `Pid.PidQ31SaturatesExactlyWhen` | src/bsps/bsp_stm32f767/arm_math.h:4823-4858 | the output is the documented saturated one if and only if the sum fits, or is one of two values |
| `Pid.PidQ31Wraps` | src/bsps/bsp_stm32f767/arm_math.h:4845-4849 | one step from the largest output to the smallest |
| `Transforms.ClarkeSaturatesExactlyWhen` | src/bsps/bsp_stm32f767/arm_math.h:5014-5033 | beta is the clamped sum of the two products if and only if b is at most 1859775393 in magnitude |
| `Transforms.ClarkeBetaExactly` | src/bsps/bsp_stm32f767/arm_math.h:5014-5033 | for every input alpha is a and beta the clamped sum, after a second product outside 32 bits has lost 2^32 |
| `Transforms.ClarkeAccurate` | src/bsps/bsp_stm32f767/arm_math.h:4994-5033 | an unsaturated beta is within (-3, 1) of the documented (a + 2b) / sqrt(3) |
| `Transforms.ClarkeRoundTrip` | src/bsps/bsp_stm32f767/arm_math.h:5014-5130 | Clarke and back gives a exactly and b within [-3, 1], for every unsaturated input |
| `Transforms.HalfScaleClarkeIsUnsaturated` | src/bsps/bsp_stm32f767/arm_math.h:5014-5033 | currents below 2^30 are never saturated or wrapped |
| `Transforms.InvClarkeIsClamped` | src/bsps/bsp_stm32f767/arm_math.h:5111-5130 | for every input b is the clamped difference; no product wraps |
| `Transforms.InvClarkeAccurate` | src/bsps/bsp_stm32f767/arm_math.h:5111-5130 | an unsaturated b is within (-2, 1) of -a/2 + sqrt(3)/2 * beta |
| `Transforms.InverseClarkeRoundTrip` | src/bsps/bsp_stm32f767/arm_math.h:5014-5130 | the other way round: alpha exactly and beta within [-4, 1] |
| `Transforms.ParkSaturatesExactlyWhen` | src/bsps/bsp_stm32f767/arm_math.h:5225-5254 | for every vector, sine and cosine both outputs are the clamped sum or difference in which each product of -1.0 and -1.0 counts 2^32 less; d is the clamped exact sum if and only if there is no such product, q the clamped exact difference if and only if both or neither is one |
| `Transforms.InvParkSaturatesExactlyWhen` | src/bsps/bsp_stm32f767/arm_math.h:5338-5367 | the same for the inverse, with sum and difference exchanged |
| `Transforms.ParkWrapsOnTheCircle` | src/bsps/bsp_stm32f767/arm_math.h:5225-5254 | every vector with beta = -1.0, turned by sine -1.0 and cosine 0, gives d = -1.0 where the sum is +1.0 |
| `Transforms.ParkAccurate` | src/bsps/bsp_stm32f767/arm_math.h:5225-5254 | where nothing saturates or wraps, the outputs are the exact rotation up to less than two units for d and one for q, for every sine and cosine |
| `Transforms.ParkRoundTrip` | src/bsps/bsp_stm32f767/arm_math.h:5225-5367 | Park and back gives the input times (sin^2 + cos^2) / 2^62, alpha within 13/4 and beta within (-9/4, 17/4) units, for every sine and cosine inside or on the unit circle and every vector that neither saturates nor wraps on the way out |
| `Transforms.HalfScaleParkIsUnsaturated` | src/bsps/bsp_stm32f767/arm_math.h:5225-5254 | vectors with components below 2^30 are never saturated or wrapped, for every sine and cosine |
| `Transforms.ParkBetaLosesFourUnits` | src/bsps/bsp_stm32f767/arm_math.h:5225-5367 | a vector and a rotation for which more than 4.2 units of beta are lost |
| `LinearInterpolation.Position` | src/bsps/bsp_stm32f767/arm_math.h:5558-5575 | masks and shifts split x into the floor and the remainder of its division by 2^20, also for negative x |
| `LinearInterpolation.LinearQ15IsCurve` | src/bsps/bsp_stm32f767/arm_math.h:5548-5590 | no product, sum or cast loses anything, all reads are in the table, and the branches are the segments of one curve, whose values are in the rows below |
| `LinearInterpolation.LinearQ7IsCurve` | src/bsps/bsp_stm32f767/arm_math.h:5605-5647 | the Q7 form, in 32-bit arithmetic and with its own index computation, follows the same curve |
| `LinearInterpolation.LinearQ15OutsideTable` | src/bsps/bsp_stm32f767/arm_math.h:5563-5570 | for every table: left of it the result is the first entry, from the last table point on the last one |
| `LinearInterpolation.LinearQ7OutsideTable` | src/bsps/bsp_stm32f767/arm_math.h:5618-5632 | for every table: left of it the result is the first entry, from the last table point on the last one |
| `LinearInterpolation.LinearQ15Accurate` | src/bsps/bsp_stm32f767/arm_math.h:5548-5590 | between table points the result is in (exact - 33/32, exact + 1/32] of the straight line |
| `LinearInterpolation.LinearQ7Accurate` | src/bsps/bsp_stm32f767/arm_math.h:5605-5647 | the same for Q7, in (exact - 1 - 2^-13, exact + 2^-13] |
| `LinearInterpolation.CurveAtPoint` | src/bsps/bsp_stm32f767/arm_math.h:5575-5588 | at a table point the entry comes back as it is if it is not positive, and one smaller otherwise |
| `LinearInterpolation.LinearQ15MonotoneExactlyWhen` | src/bsps/bsp_stm32f767/arm_math.h:5548-5590 | a nondecreasing table gives a nondecreasing result for all x >= 0, and for all x if and only if it has one entry or its first is not positive |
| `LinearInterpolation.LinearQ7MonotoneExactlyWhen` | src/bsps/bsp_stm32f767/arm_math.h:5605-5647 | the same for Q7 |
| `LinearInterpolation.BlendQ31Accurate` | src/bsps/bsp_stm32f767/arm_math.h:5513-5529 | the two high words, their sum and the final shift never overflow, and the result is in (exact - 5, exact + 1], for any two entries |
| `LinearInterpolation.LinearQ31Accurate` | src/bsps/bsp_stm32f767/arm_math.h:5490-5532 | the same bound for a table and any x between its points |
| `LinearInterpolation.LinearQ31IsCurve` | src/bsps/bsp_stm32f767/arm_math.h:5490-5532 | the Q31 form overflows nowhere either and follows twice the sum of the two truncated halves |
| `LinearInterpolation.LinearQ31OutsideTable` | src/bsps/bsp_stm32f767/arm_math.h:5505-5512 | the same for Q31 |
| `LinearInterpolation.LinearQ31AlmostMonotone` | src/bsps/bsp_stm32f767/arm_math.h:5490-5532 | on every nondecreasing table a larger x gives a result smaller by at most 2 for x >= 0, and by at most 4 for any x |
| `LinearInterpolation.LinearQ31IsNotMonotone` | src/bsps/bsp_stm32f767/arm_math.h:5490-5532 | the bound 2 is reached: on the constant table 3, 3 the result is 2, then 0, then 2 |
| `LinearInterpolation.SteepLinearQ31MonotoneExactlyWhen` | src/bsps/bsp_stm32f767/arm_math.h:5490-5532 | if neighbouring entries rise by at least 2^21 the result is nondecreasing for x >= 0, and for all x if and only if there is one entry or the first is even and not positive |
| `LinearInterpolation.ConstantLinearQ31MonotoneExactlyWhen` | src/bsps/bsp_stm32f767/arm_math.h:5490-5532 | on a constant table of two or more entries the result is nondecreasing for x >= 0 if and only if the entry passes a test on its largest power of two or, when odd, its inverse modulo 2^21 |
| `LinearInterpolation.LinearQ15LastEntryUsedExactlyWhen` | src/bsps/bsp_stm32f767/arm_math.h:5548-5590 | the last entry can change the result for some x if and only if there are at most 2049 entries |
| `LinearInterpolation.LinearQ7LastEntryUsedExactlyWhen` | src/bsps/bsp_stm32f767/arm_math.h:5605-5647 | the same for Q7 |
| `LinearInterpolation.LinearQ31LastEntryUsedExactlyWhen` | src/bsps/bsp_stm32f767/arm_math.h:5490-5532 | the same for Q31 |
| `BilinearInterpolation.GuardIsTableTestExactlyWhen` | src/bsps/bsp_stm32f767/arm_math.h:6915-6920 | the guard tests for being in the table if and only if the table is empty or as many rows as columns can be addressed |
| `BilinearInterpolation.GuardedReadsStayInsideExactlyWhen` | src/bsps/bsp_stm32f767/arm_math.h:6917-6936 | for a full table every guarded position reads inside it if and only if min(rows, 2048) + columns * min(columns, 2048) < rows * columns |
| `BilinearInterpolation.SquareTableReadsOutside` | src/bsps/bsp_stm32f767/arm_math.h:6917-6936 | the last point of every full square table of up to 2048 rows passes the guard and is read past the end |
| `BilinearInterpolation.LastColumnReadsNextRow` | src/bsps/bsp_stm32f767/arm_math.h:6917-6936 | in the last column the two right-hand cells are the first ones of the next two rows |
| `BilinearInterpolation.BlendQ15InHull` | src/bsps/bsp_stm32f767/arm_math.h:6940-6959 | the result is in [min - 1, max] of the four corners, and not below min once min is at most -24 |
| `BilinearInterpolation.GuardIsRange` | src/bsps/bsp_stm32f767/arm_math.h:6907-6920 | a position passes if and only if x is from 0 to below the number of rows and y from 0 to below the number of columns, in units of 2^20 |
| `BilinearInterpolation.BlendQ15Accurate` | src/bsps/bsp_stm32f767/arm_math.h:6940-6959 | and in (exact - 9/8, exact + 1/16) of the documented weighted sum |
| `BilinearInterpolation.BilinearQ15` | src/bsps/bsp_stm32f767/arm_math.h:6892-6960 | for every position: zero outside the guard, a read past the table exactly when the guard passes and a neighbour is missing, otherwise a 16-bit value in (exact - 9/8, exact + 1/16) of the documented weighted sum |
| `BilinearInterpolation.BlendQ7InHull` | src/bsps/bsp_stm32f767/arm_math.h:7016-7033 | the same hull for Q7, exact once min is not positive |
| `BilinearInterpolation.BlendQ7Accurate` | src/bsps/bsp_stm32f767/arm_math.h:7016-7033 | and in (exact - 1 - 2^-12, exact + 2^-12) |
| `BilinearInterpolation.BilinearQ7` | src/bsps/bsp_stm32f767/arm_math.h:6970-7034 | the same for Q7, in (exact - 1 - 2^-12, exact + 2^-12) |
| `BilinearInterpolation.BlendQ31WrapsAtMostOnce` | src/bsps/bsp_stm32f767/arm_math.h:6864-6881 | every product and partial sum of the Q31 form fits 32 bits; only the final shift can wrap |
| `BilinearInterpolation.BlendQ31NeverWrapsExactlyWhen` | src/bsps/bsp_stm32f767/arm_math.h:6848-6881 | with no corner below lo the result wraps at no position if and only if lo is at least -2^31 + 13 |
| `BilinearInterpolation.BlendQ31WideAccurate` | src/bsps/bsp_stm32f767/arm_math.h:6864-6881 | for corners of at least -2^31 + 13 it does not, and the result is in (exact - 24, exact + 2) |
| `BilinearInterpolation.FullNegativeScaleWraps` | src/bsps/bsp_stm32f767/arm_math.h:6864-6881 | four corners of -1.0 and a position for which the result is almost +1.0 |
| `BilinearInterpolation.BilinearQ31` | src/bsps/bsp_stm32f767/arm_math.h:6818-6882 | for every position: zero outside the guard, a read past the table exactly when the guard passes and a neighbour is missing, otherwise in (exact - 24, exact + 2) of the documented weighted sum modulo 2^32, and without the modulo if none of the four cells read is below -2^31 + 13 |
| `BilinearInterpolation.GridAccuracy` | src/bsps/bsp_stm32f767/arm_math.h:6723-6728 | at every position whose four cells can be read all three formats are within their bounds of the documented weighted sum of those cells, Q31 modulo 2^32 if one of them is below -2^31 + 13 |
| `BilinearInterpolation.SurfaceIsReproduced` | src/bsps/bsp_stm32f767/arm_math.h:6713-6728 | a table sampled from a*x + b*y + c*x*y + d gives that surface back between its points within the same bounds, reading only inside the table |
| `CircularBuffer.CircularWrite` | src/bsps/bsp_stm32f767/arm_math.h:5905-5943 | cell (offset + k * inc) mod L receives source element start + k * srcInc unless a later sample takes the cell, cells no sample falls on are unchanged, and the next offset is handed back modulo 2^16 |
| `CircularBuffer.SplitBlock` | src/bsps/bsp_stm32f767/arm_math.h:5905-5943 | two calls have the effect of one call with both blocks, whenever the offset between them fits 16 bits |
| `CircularBuffer.LastWriter` | src/bsps/bsp_stm32f767/arm_math.h:5925-5938 | a cell holds the last sample that fell on it |
| `CircularBuffer.Untouched` | src/bsps/bsp_stm32f767/arm_math.h:5925-5938 | a cell no sample fell on is unchanged |
| `CircularBuffer.BlocksAreOneWrite` | src/bsps/bsp_stm32f767/arm_math.h:5905-5943 | for buffers of at most 2^16 cells: after any sequence of blocks, each starting at the 16-bit offset handed back by the one before, cells and offset are those of one long write |
| `CircularBuffer.BlocksAreOneWriteExactlyWhen` | src/bsps/bsp_stm32f767/arm_math.h:5905-5943 | offset and cells are right after every sequence of blocks if and only if the buffer has at most 2^16 cells |
| `CircularBuffer.DelayLineHistory` | src/bsps/bsp_stm32f767/arm_math.h:5905-5943 | with increment 1 and at most 2^16 cells, after any blocks of any sizes, the offset is (o + T) mod L, the last min(T, L) samples are in their cells, and cells not reached are unchanged |
| `CircularBuffer.FullDelayLineReadsLatest` | src/bsps/bsp_stm32f767/arm_math.h:5905-5999 | reading L samples from the offset of a filled delay line of at most 2^16 cells gives the latest L samples, oldest first |
| `CircularBuffer.CircularRead` | src/bsps/bsp_stm32f767/arm_math.h:5949-5999 | the place of value k receives cell (offset + k * inc) mod L of the buffer unless a later value takes the place, other places are unchanged, and the next offset is handed back; with unit increment through the destination the latest values are left in it, wrapped around its end |
| `CircularBuffer.TargetWraps` | src/bsps/bsp_stm32f767/arm_math.h:5975-5983 | from an aligned place in whole steps the destination index is (at + k * step) mod length |
| `CircularBuffer.TargetMissesEnd` | src/bsps/bsp_stm32f767/arm_math.h:5975-5983 | steps that miss the end never wrap |
| `CircularBuffer.TargetRestarts` | src/bsps/bsp_stm32f767/arm_math.h:5975-5983 | steps that hit the end go on from the base |
| `CircularBuffer.DeliveredAsWritten` | src/bsps/bsp_stm32f767/arm_math.h:5949-5999 | a read into an aligned destination leaves in it what a block write of the same values would |
| `CircularBuffer.WrappedReadHoldsLatest` | src/bsps/bsp_stm32f767/arm_math.h:5949-5999 | with unit increment the latest values are in their places (at + k) mod length, and places not reached are unchanged |
| `CircularBuffer.DeliveredInOrder` | src/bsps/bsp_stm32f767/arm_math.h:5975-5983 | with increment 1 a long enough destination receives the values in order and is unchanged behind them |
| `CircularBuffer.SlotsDiffer` | src/bsps/bsp_stm32f767/arm_math.h:5933-5936 | samples less than L / gcd(inc, L) apart use different cells |
| `CircularBuffer.PeriodReturns` | src/bsps/bsp_stm32f767/arm_math.h:5933-5936 | and exactly that far apart they use the same one |
| `CircularBuffer.StridedRoundTrip` | src/bsps/bsp_stm32f767/arm_math.h:5905-5999 | a block of at most that length is read back as it was written |
| `CircularBuffer.RoundTripExactlyWhen` | src/bsps/bsp_stm32f767/arm_math.h:5905-5999 | every block of n samples is read back if and only if n is at most L / gcd(inc, L) |
| `CircularBuffer.WriteThenRead` | src/bsps/bsp_stm32f767/arm_math.h:5905-5999 | write followed by read puts the source samples at the start of the destination and nothing else |
| `Nvic.FieldsShareBits` | src/bsps/bsp_lpc1788/core_cm3.h:1438-1439 | for every group and number of implemented bits the preempt field has min(bits, 7 - group) bits and the sub field the rest, despite the unsigned subtraction |
| `Nvic.EncodedValue` | src/bsps/bsp_lpc1788/core_cm3.h:1432-1446 | the masked and shifted fields are the two digits of a number below 2^bits, split at max(0, bits + group - 7) bits |
| `Nvic.DecodedValue` | src/bsps/bsp_lpc1788/core_cm3.h:1460-1471 | the decoded fields of any value are its digits at the same split, reduced to their widths |
| `Nvic.DecodeEncode` | src/bsps/bsp_lpc1788/core_cm3.h:1432-1471 | decoding an encoded priority gives both fields, reduced to their widths |
| `Nvic.EncodeDecode` | src/bsps/bsp_lpc1788/core_cm3.h:1432-1471 | encoding a decoded value gives it back, reduced to the implemented bits |
| `Nvic.EncodedOrder` | src/bsps/bsp_lpc1788/core_cm3.h:1432-1446 | encoded values are ordered as their reduced fields are, preempt first, in both directions |
| `Nvic.StoredValue` | src/bsps/bsp_lpc1788/core_cm3.h:1393-1395 | the byte holds the implemented bits at its top, and loading it gives them back |
| `Nvic.RegisterOrder` | src/bsps/bsp_lpc1788/core_cm3.h:1390-1446 | the bytes written to the registers are ordered as the priority fields are |
| `Nvic.HandlerIndexValue` | src/bsps/bsp_lpc1788/core_cm3.h:1393 | the masked handler number less 4 is the handler number plus 12, so inside the array, from -12 to -1 |
| `Nvic.Controller.SetPriority` | src/bsps/bsp_lpc1788/core_cm3.h:1390-1396 | sets SHP[irq + 12] of a handler or IP[irq] of an interrupt to the implemented bits at the top of the byte and leaves every other register unchanged |
| `Nvic.Controller.GetPriority` | src/bsps/bsp_lpc1788/core_cm3.h:1410-1417 | the implemented bits of SHP[irq + 12] or IP[irq] |
| `Nvic.PriorityRoundTrip` | src/bsps/bsp_lpc1788/core_cm3.h:1390-1471 | encode, set, get and decode gives the reduced fields |

## Left out

- RecipQ15: 0 and -2^15 are excluded because for 0 the leading-zero loop of the source does not end and for -2^15 the shift count is negative; for operand and table entry of opposite sign the value is given (two wrapped steps), but no condition on the operand alone for when it is accurate, which NegativeOperandInvertedByAccident shows to happen.
- RecipQ31: 0 and -2^31 are excluded for the same reasons.
- RecipQ15Accurate: the reciprocal tables are not part of the repository; the bound holds for every table whose entries each invert a point of their own segment, and RecipQ15Converges holds for any table.
- RecipQ31Accurate: the same table condition, with RecipQ31Converges for any table.
- Clz: zero is excluded, since the loop of the source does not end for it.
- Ror: a count of 0 is excluded, since the source then shifts by 32, which C does not define.
- SSat: shifts of a signed value past the sign bit and shift counts outside 0..31 are undefined in C; the doubling loop is modelled as two's complement wrap.
- CircularWrite: negative increments are excluded, for which only the comment of the source speaks, and so are lengths above 2^30; the source samples are a sequence of values, so a source inside the buffer is not captured.
- CircularRead: the same for increments and length; the destination is an array other than the buffer, and pointers into it are indices.
- ClarkeAccurate: stated for unsaturated results; what happens otherwise is ClarkeSaturatesExactlyWhen.
- LinearQ15: a table of more than 2^31 entries is excluded, also for Q31, and an empty one in all formats.
- SteepLinearQ31MonotoneExactlyWhen: for tables that are neither steep nor constant only LinearQ31AlmostMonotone is stated.
- BilinearQ15: what a read past the table returns is not modelled; it is an outcome of its own, in all three formats.
- ParkRoundTrip: sine and cosine are inputs within the unit circle; the table lookup that produces them has no body in the header.
- SurfaceIsReproduced: with one of the thirteen lowest values among the four cells, Q31 gives the surface only modulo 2^32.
- Controller: handler numbers below -12 and interrupts above 239 are excluded, since the index then leaves the register arrays.
- The initialisation of the PID controllers and their Kp, Ki and Kd fields: only prototypes in the header, so the derived gains are parameters of the theorems.
- Every prototype of `arm_math.h` without a body (filters, transforms, matrices, statistics) and every floating-point function.
- The big-endian form of `__PACKq7`, `__PKHTB` and shifts of `__PKHBT` other than 16.
- The instruction forms of `__SSAT`, `__CLZ`, `__RBIT` and the SIMD operations, and all other inline assembly, special-register accessors and barriers.
- Demos, board initialisation, clocks, UART, the packet capture library and the build script: calls into code that is not in the repository, or register writes.
