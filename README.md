# Fixed-point numbers and hardware registers

This project is a Dafny model of two C++ headers.

- `fixed_point.hpp` defines `fixed_point<T, I, F, W>`. A value is one integer
  cell `raw` of the native integer type `T`. It stands for the number
  `raw / 2^F`, with `I` integral and `F` fractional bits. `W` marks the widened
  companion type that holds exact products. The header gives the type its
  conversions, arithmetic operators, compound assignments, increment and
  decrement, comparisons, `std::numeric_limits` and a set of `<cmath>`-style
  functions.
- `hw_reg.hpp` defines `hw_reg<T, R, W, A>`. It is a hardware register cell
  with a read flag `R`, a write flag `W` and an address strategy `A`. Reads
  and writes are allowed only when the flags permit them. Each compound
  operator is a read-modify-write of the cell.

The model uses these modules:

| module | file | content |
|---|---|---|
| `Arith` | `arith.dfy` | powers of two; floor and truncating division; the lemmas about them |
| `CppInt` | `cpp_int.dfy` | C++ integer semantics for 8/16/32/64-bit signed and unsigned types |
| `FixedFormat` | `fixed_format.dfy` | the template parameters as a `Format`: validity, companion types, masks |
| `FixedPoint` | `fixed_point.dfy` | the `Fixed` value: integer conversion, `convert_to`, widening and narrowing, relationals |
| `FixedArith` | `fixed_arith.dfy` | the binary operators and multiply-accumulate |
| `FixedMath` | `fixed_math.dfy` | `numeric_limits` and the `std::` functions |
| `FixedVars` | `fixed_var.dfy` | class `FixedVar`: the compound assignments and `++`/`--`, which update the cell in place |
| `HwRegs` | `hw_reg.dfy` | the address-strategy check and class `HwReg`, the embedded register |

The C++ integer semantics in `CppInt` work as follows:

- Operands are promoted: 8- and 16-bit types compute as `int`.
- The usual arithmetic conversions choose the operation type.
- Storing a result in a narrower type is a modular conversion (`Wrap`).
- `/` and `%` truncate toward zero (`TruncDiv`, `TruncRem`).
- `>>` is an arithmetic shift, i.e. floor division by `2^s`.
- `<<` is the C++20 modular shift.
- Bitwise operators act on two's-complement patterns.

`ArithDefined` is the condition under which the operation is defined behaviour:
- the divisor is nonzero;
- the shift count is below the width;
- a signed result other than a shift does not overflow;
- for a signed `%`, the quotient `a / b` does not overflow, so `INT_MIN % -1`
  is undefined even though its remainder 0 would fit.

Every operator that could be undefined requires it. The meaning of a value is
the ghost function `FixedPoint.Value`, the real number `raw / 2^F`. The
properties about numbers are stated through it.

Compile-time rejections become preconditions. These include a 64-bit operand
of a widening multiplication, `I == 0`, an `I + F` that does not match the
width, a read of a register without `R`, a write without `W`, and an invalid
address strategy.

## Model

| member | source | states |
|---|---|---|
| `FixedFormat.ValidSplitsWidth` | fixed_point.hpp:230-238 | a format is valid exactly when I > 0 and I + F is the width of the raw type (sign bit included); a signed valid format has F <= width - 1 |
| `FixedFormat.WidenedRaw` | fixed_point.hpp:171-179 | the widened raw type exists exactly below 64 bits; it has the same signedness and the square of T's modulus, so it holds any product of two values of T |
| `FixedFormat.NarrowedRaw` | fixed_point.hpp:181-189 | the narrowed raw type exists exactly above 8 bits; it has the same signedness, and its widened raw type is T again |
| `FixedFormat.Widened` | fixed_point.hpp:224-227 | the widened companion exists exactly below 64 bits; it is a widened type with 2F fractional bits, valid whenever the original is |
| `FixedFormat.Narrowed` | fixed_point.hpp:225-228 | the narrowed companion exists exactly above 8 bits; it is unwidened, of the same signedness, and for even I and F it has half of each and widens back to T |
| `FixedFormat.DefaultFormat` | fixed_point.hpp:203-206 | the default F is the width minus I, and that format is valid exactly when I > 0 |
| `FixedFormat.WidenedCompanion` | fixed_point.hpp:171-179 | a widened companion exists exactly below 64 bits; it is valid, widened, of the same signedness and twice the width, and narrows back to the original |
| `FixedFormat.NarrowedCompanion` | fixed_point.hpp:181-189 | a narrowed companion exists exactly above 8 bits; it is valid exactly when I and F are even and I >= 2 |
| `FixedFormat.CompanionHalves` | fixed_point.hpp:224-228 | a widened companion has twice the fractional bits and twice the width of its narrowed type, which is unwidened and below 64 bits |
| `FixedFormat.WidenedIsCompanion` | fixed_point.hpp:227-228 | the widened type of an unwidened type below 64 bits is a widened companion whose narrowed type is the original |
| `FixedFormat.FractionalMask` | fixed_point.hpp:215 | the corrected fractional mask, 2^F - 1, is a nonnegative value of the raw type |
| `FixedFormat.IntegralMask` | fixed_point.hpp:216 | the integral mask, the complement of the fractional mask, is a value of the raw type |
| `FixedFormat.ShiftedOne` | fixed_point.hpp:215 | `raw_type(1) << F` is defined; it is 2^F, except that it is the minimum of the promoted type when F is the sign bit of a 32- or 64-bit signed type |
| `FixedFormat.FractionalMaskAsWritten` | fixed_point.hpp:215 | `(raw_type (1) << F) - 1` as written, None where the subtraction overflows; when defined it is a value of the raw type |
| `FixedFormat.FractionalMaskAsWrittenAgrees` | fixed_point.hpp:215 | the mask as written is undefined exactly in that sign-bit case; otherwise it equals 2^F - 1 |
| `FixedFormat.FractionalMaskOverflowExample` | fixed_point.hpp:215 | for `fixed_point<int32_t, 1, 31>` the written mask overflows, while the intended mask is 0x7FFFFFFF |
| `FixedFormat.FractionalMaskPattern` | fixed_point.hpp:215 | the bit pattern of the fractional mask is the low F bits set |
| `FixedFormat.IntegralMaskPattern` | fixed_point.hpp:216 | the integral mask is -2^F reduced to the raw type; its pattern is the high width - F bits set |
| `FixedFormat.MasksCover` | fixed_point.hpp:215-216 | the two mask patterns add up to all width bits set |
| `FixedFormat.MasksDisjoint` | fixed_point.hpp:215-216 | the two mask patterns have no bit in common |
| `FixedFormat.MasksSplitValue` | fixed_point.hpp:215-216 | anding a value with the fractional mask gives its value modulo 2^F, and the two masked parts add up to the value's pattern |
| `FixedPoint.FromRaw` | fixed_point.hpp:283-285 | the raw constructor stores the raw argument reduced to the raw type, so it keeps it when it is in range |
| `FixedPoint.FromInt` | fixed_point.hpp:245-248 | an integer n is stored as n * 2^F, reduced to the raw type |
| `FixedPoint.ToInt` | fixed_point.hpp:250-253 | conversion to an integer type is the floor of raw / 2^F, reduced to that type |
| `FixedPoint.IntRoundTrip` | fixed_point.hpp:245-253 | when n * 2^F fits, an integer converts in exactly, stands for n, and converts back to n |
| `FixedPoint.ToIntIsFloor` | fixed_point.hpp:250-253 | the integer k obtained brackets the raw value: k * 2^F <= raw < (k + 1) * 2^F |
| `FixedPoint.ToBool` | fixed_point.hpp:328-331 | conversion to bool is true exactly when the number is not zero |
| `FixedPoint.Not` | fixed_point.hpp:714-717 | `!a` is the negation of the bool conversion |
| `FixedPoint.Eq` | fixed_point.hpp:684-687 | `==` holds exactly for equal values, which are exactly those standing for the same number |
| `FixedPoint.Ne` | fixed_point.hpp:689-692 | `!=` holds exactly when the numbers differ |
| `FixedPoint.Lt` | fixed_point.hpp:694-697 | `<` holds exactly when the first number is smaller |
| `FixedPoint.Le` | fixed_point.hpp:699-702 | `<=` holds exactly when the first number is smaller or equal |
| `FixedPoint.Gt` | fixed_point.hpp:704-707 | `>` holds exactly when the first number is greater |
| `FixedPoint.Ge` | fixed_point.hpp:709-712 | `>=` holds exactly when the first number is greater or equal |
| `FixedPoint.RelationalsAreOneOrder` | fixed_point.hpp:684-712 | the six relationals form one total order: `!=` complements `==`, `>` and `>=` reverse `<` and `<=`, and exactly one of `<`, `==`, `>` holds |
| `FixedPoint.ZeroIsRawZero` | fixed_point.hpp:297-300 | the value constructed from the integer 0 has raw 0 and stands for zero |
| `FixedPoint.ConvertTo` | fixed_point.hpp:727-756 | `convert_to` (also the converting constructor and the explicit conversion) stores the raw value rescaled from F to the destination's F, reduced to the destination type |
| `FixedPoint.CastThenShift` | fixed_point.hpp:740-745 | casting to the destination type before shifting left is defined and equals the product reduced once |
| `FixedPoint.ConvertToFinerIsExact` | fixed_point.hpp:740-745 | converting to more fractional bits, when the result fits, is exact, keeps the number and converts back to the original |
| `FixedPoint.ConvertToCoarserIsFloor` | fixed_point.hpp:751-756 | converting to fewer fractional bits, shifting before the cast, floors the raw value to the coarser scale |
| `FixedPoint.ToWidened` | fixed_point.hpp:320-325 | the implicit widening conversion is exact: raw * 2^F in the widened type, the same number |
| `FixedPoint.ToNarrowed` | fixed_point.hpp:312-317 | the implicit narrowing conversion rescales to the narrowed F and reduces to the narrowed type |
| `FixedPoint.ToNarrowedHalves` | fixed_point.hpp:312-317 | from a widened companion, narrowing is the raw floored by 2^(F/2) and reduced to the narrowed type |
| `FixedPoint.NarrowWidenRoundTrip` | fixed_point.hpp:312-325 | widening and narrowing back returns the original value |
| `FixedArith.Add` | fixed_point.hpp:377-380 | `+` adds the raw cells and stores the sum reduced to the raw type |
| `FixedArith.Sub` | fixed_point.hpp:432-435 | `-` subtracts the raw cells and stores the difference reduced to the raw type |
| `FixedArith.AddExact` | fixed_point.hpp:377-380 | `+` is undefined only on a signed 32/64-bit overflow; a sum that fits is exact and adds the numbers |
| `FixedArith.SubExact` | fixed_point.hpp:432-435 | `-` is undefined only on a signed 32/64-bit overflow; a difference that fits is exact and subtracts the numbers |
| `FixedArith.AddCommutes` | fixed_point.hpp:395-404 | addition commutes, so the reversed mixed sum written `rhs + lhs` is the same |
| `FixedArith.SubThenAdd` | fixed_point.hpp:432-435 | subtracting then adding back the same value restores it, wrap-around included |
| `FixedArith.AddThenSub` | fixed_point.hpp:377-380 | adding then subtracting back the same value restores it, wrap-around included |
| `FixedArith.Neg` | fixed_point.hpp:426-429 | unary minus stores the negated raw reduced to the raw type |
| `FixedArith.NegDefinedWhen` | fixed_point.hpp:426-429 | negation is undefined only for the minimum of a signed 32/64-bit type |
| `FixedArith.NegCancels` | fixed_point.hpp:426-429 | a value plus its negation is defined and zero |
| `FixedArith.NegExact` | fixed_point.hpp:426-429 | when -raw fits, negation negates the number and is its own inverse |
| `FixedArith.Mul` | fixed_point.hpp:483-493 | `fixed * fixed` of one unwidened type below 64 bits is the widened companion with raw lhs.raw * rhs.raw, the exact product of the numbers |
| `FixedArith.WideProduct` | fixed_point.hpp:492 | both casts to the widened raw type keep the raw values, and their product is defined and exact there |
| `FixedArith.MulWidenedNarrow` | fixed_point.hpp:502-511 | `widened * narrowed` narrows the left operand and multiplies back into the widened type |
| `FixedArith.MulWidenedWidened` | fixed_point.hpp:514-523 | `widened * widened` narrows both operands and multiplies back into the widened type |
| `FixedArith.MixedProductsAgree` | fixed_point.hpp:502-523 | on widened values that came from widening, both mixed products equal the plain product |
| `FixedArith.MulIntAsWritten` | fixed_point.hpp:527-533 | `fixed * integer` as written: the raw product raw * n, reduced, becomes the raw cell of the widened type |
| `FixedArith.MulIntAsWrittenScale` | fixed_point.hpp:527-533 | the as-written integer product stands for value * n / 2^F, not value * n |
| `FixedArith.MulIntAsWrittenExample` | fixed_point.hpp:527-533 | 1.0 * 2 in 16.16 narrowed back has raw 2, while 2.0 has raw 0x20000 |
| `FixedArith.MulInt` | fixed_point.hpp:543-549 | corrected `fixed * integer` (and `integer * fixed`): the integer is scaled by 2^F into the widened product |
| `FixedArith.MulIntExact` | fixed_point.hpp:527-533 | the corrected integer product is exact when it fits the widened type |
| `FixedArith.MulIntIsProduct` | fixed_point.hpp:527-533 | the corrected integer product stands for value * n |
| `FixedArith.MulIntNarrowsBack` | fixed_point.hpp:527-533 | narrowing the corrected integer product gives raw * n in the original type |
| `FixedArith.MulIntWidened` | fixed_point.hpp:535-541 | `widened * integer` narrows the operand and takes the integer product, landing in the widened type again |
| `FixedArith.Div` | fixed_point.hpp:613-621 | `fixed / fixed` divides raw * 2^F, computed in the widened type, by the divisor's raw, truncating toward zero, and stores the quotient reduced |
| `FixedArith.PrescaledQuotient` | fixed_point.hpp:620 | the pre-scaling shift in the widened type is exact, and the division after it is defined and exact |
| `FixedArith.DivIsTruncatedQuotient` | fixed_point.hpp:613-621 | the quotient satisfies the truncated division equation with a remainder smaller than the divisor and of the dividend's sign; dividing by 1.0 returns the dividend |
| `FixedArith.DivWidenedNarrow` | fixed_point.hpp:631-640 | `widened / narrowed` divides the raw cells directly and stores the quotient in the narrowed type |
| `FixedArith.DivUndoesMul` | fixed_point.hpp:631-640 | dividing the exact widened product by one factor returns the other |
| `FixedArith.DivNarrowWidened` | fixed_point.hpp:643-652 | `narrowed / widened` narrows the divisor, then divides as `fixed / fixed` |
| `FixedArith.DivWidenedWidened` | fixed_point.hpp:655-664 | `widened / widened` narrows the divisor, then divides as `widened / narrowed` |
| `FixedArith.DivInt` | fixed_point.hpp:667-672 | `fixed / integer` divides the raw cell in the usual arithmetic conversions and keeps the scale |
| `FixedArith.DivIntSameSignedness` | fixed_point.hpp:667-672 | with a divisor of the same signedness, `fixed / integer` is defined exactly for a nonzero divisor and a fitting quotient, and is the truncated quotient |
| `FixedArith.DivIntUnsignedDivisor` | fixed_point.hpp:667-672 | an unsigned 32-bit divisor converts a signed 32-bit raw to unsigned: -1.0 / 2u in 16.16 gives raw 0x7FFF8000 |
| `FixedArith.AddWidenedNarrow` | fixed_point.hpp:383-392 | `widened + narrowed` converts the narrowed operand (cast, then shift by F/2) and adds in the widened type |
| `FixedArith.SubWidenedNarrow` | fixed_point.hpp:438-447 | `widened - narrowed` converts the narrowed operand and subtracts in the widened type |
| `FixedArith.SubNarrowWidened` | fixed_point.hpp:450-459 | `narrowed - widened` converts the narrowed operand and subtracts the widened one from it |
| `FixedArith.NarrowedExact` | fixed_point.hpp:312-317 | a widened companion value narrows to its raw floored by 2^(F/2), reduced |
| `FixedArith.MultiplyAccumulate` | fixed_point_compile_tests.cpp:107-110 | in `a * b + c * d` both products and their sum are exact in the widened type, and narrowing back floors the sum to F bits |
| `FixedArith.MultiplyAddExact` | fixed_point.hpp:383-392 | the widened sum behind `a * b + c` is defined and exact when it fits |
| `FixedArith.MultiplyAdd` | fixed_point.hpp:383-404 | `a * b + c` narrowed back is c plus the product floored to F fractional bits |
| `FixedMath.LimitMin` | fixed_point.hpp:817-825 | `min()` and `lowest()` are valid values of the type |
| `FixedMath.LimitMax` | fixed_point.hpp:827-830 | `max()` is a valid value of the type |
| `FixedMath.LimitsBound` | fixed_point.hpp:817-830 | every value lies between `min()` and `max()`, in raw order and in number |
| `FixedMath.Epsilon` | fixed_point.hpp:832-835 | `epsilon()` is a valid value of the type |
| `FixedMath.EpsilonIsSmallestStep` | fixed_point.hpp:832-835 | `epsilon()` stands for 2^-F and is no larger than any positive value |
| `FixedMath.RoundError` | fixed_point.hpp:837-840 | `round_error()` is a valid value of the type |
| `FixedMath.RoundErrorIsOneMinusEpsilon` | fixed_point.hpp:837-840 | `round_error()` and `epsilon()` add up to 1.0 |
| `FixedMath.ZeroLimit` | fixed_point.hpp:842-860 | `denorm_min`, `infinity`, `quiet_NaN` and `signaling_NaN` are all zero |
| `FixedMath.LimitDigits` | fixed_point.hpp:808 | `digits` is the positive number of integral bits, width - F |
| `FixedMath.LimitIsSigned` | fixed_point.hpp:801 | `is_signed` holds exactly when `min()` is negative |
| `FixedMath.Abs` | fixed_point.hpp:922-933 | `abs` and `fabs` store the magnitude of the raw reduced to the raw type, and are the identity for an unsigned type |
| `FixedMath.AbsDefinedWhen` | fixed_point.hpp:922-926 | `abs` is undefined only for the minimum of a signed 32/64-bit type |
| `FixedMath.AbsIsMagnitude` | fixed_point.hpp:922-926 | when -raw fits, `abs` is the nonnegative magnitude of the number and is idempotent |
| `FixedMath.AbsOfNeg` | fixed_point.hpp:922-926 | `abs(-a) == abs(a)` |
| `FixedMath.AbsOfNarrowMinimum` | fixed_point.hpp:922-926 | for a signed 8/16-bit type `abs(min())` wraps around to `min()`, which is negative |
| `FixedMath.Min` | fixed_point.hpp:938-950 | `min` and `fmin` return one of the operands, no larger than either |
| `FixedMath.Max` | fixed_point.hpp:952-964 | `max` and `fmax` return one of the operands, no smaller than either |
| `FixedMath.MinMaxLaws` | fixed_point.hpp:938-964 | `min` and `max` are idempotent and commutative, `min <= max`, and their raws add up to those of the operands |
| `FixedMath.Fma` | fixed_point.hpp:985-992 | `fma(x, y, z)` is a valid value of the type |
| `FixedMath.FmaIsMultiplyAdd` | fixed_point.hpp:985-992 | when the widened sum fits, `fma` is z plus x * y floored to F fractional bits, reduced |
| `FixedMath.FmaExact` | fixed_point.hpp:985-992 | when the product needs no rounding and the result fits, `fma` stands for x * y + z |
| `FixedMath.FmaWidened` | fixed_point.hpp:985-992 | `fma` on a widened type is a valid value of that type |
| `FixedMath.FmaWidenedAgrees` | fixed_point.hpp:985-992 | `fma` on widened copies, narrowed back, equals `fma` on the originals |
| `FixedMath.Fdim` | fixed_point.hpp:994-1000 | `fdim` is a valid value of the type |
| `FixedMath.FdimIsPositiveDifference` | fixed_point.hpp:994-1000 | `fdim(x, y)` is x - y when x > y and zero otherwise |
| `FixedMath.Trunc` | fixed_point.hpp:1284-1289 | `trunc` is a valid value of the type |
| `FixedMath.TruncIsFloor` | fixed_point.hpp:1284-1289 | `trunc` clears the fractional bits: its raw is 2^F * floor(raw / 2^F), and the difference is raw mod 2^F |
| `FixedMath.TruncIsIntegerPart` | fixed_point.hpp:1284-1289 | `trunc(a)` is the integer floor(a) converted in, and stands for that integer |
| `FixedMath.MaskedIsFloor` | fixed_point.hpp:1288 | `raw & integral_mask` is defined and equals raw - raw mod 2^F for every width and signedness |
| `FixedMath.TruncProperties` | fixed_point.hpp:1284-1289 | `trunc(a)` has no fractional bits, is <= a, within `round_error()` below a, and is idempotent |
| `FixedMath.TruncExample` | fixed_point.hpp:1284-1289 | in 16.16, `trunc(-1.5) == -2.0` and `trunc(1.5) == 1.0` |
| `FixedMath.Classify` | fixed_point.hpp:1405-1410 | `fpclassify` is zero exactly for the value zero, otherwise normal |
| `FixedMath.IsFinite` | fixed_point.hpp:1412-1417 | `isfinite` holds for every value, which is zero or normal |
| `FixedMath.IsInf` | fixed_point.hpp:1419-1424 | `isinf` is false for every value |
| `FixedMath.IsNan` | fixed_point.hpp:1426-1431 | `isnan` is false for every value |
| `FixedMath.IsNormal` | fixed_point.hpp:1433-1438 | `isnormal` holds exactly when the classification is normal, that is for a nonzero value |
| `FixedMath.Signbit` | fixed_point.hpp:1440-1445 | `signbit` is 1 exactly for a negative number, 0 otherwise, and always 0 for an unsigned type |
| `FixedMath.Copysign` | fixed_point.hpp:1447-1453 | `copysign` is a valid value of the type |
| `FixedMath.CopysignProperties` | fixed_point.hpp:1447-1453 | `copysign(x, y)` has the magnitude of x and the sign of y: the same `abs` as x, and y's `signbit` when x is not zero |
| `FixedMath.CopysignUnsigned` | fixed_point.hpp:1447-1453 | for an unsigned type, `copysign(x, y)` is x |
| `FixedVars.One` | fixed_point.hpp:341-368 | the `fixed_point (1)` added by `++` and `--` is 1.0 (raw 2^F), except that it wraps to -1.0 when F is the sign bit |
| `FixedVars.MulAssigned` | fixed_point.hpp:495-499 | what `*=` stores is a valid value of the same format; `MulAssignFloorsProduct` and `MulAssignExact` give its number |
| `FixedVars.MulIntAssigned` | fixed_point.hpp:559-565 | what `*=` by an integer stores is a valid value of the same format; `MulIntAssignMultiplies` gives its number |
| `FixedVars.DivAssigned` | fixed_point.hpp:623-627 | what `/=` stores is a valid value of the same format: the quotient for an unwidened type, the widened quotient for a widened one (`DivAssignWidenedAgrees`) |
| `FixedVars.MulAssignFloorsProduct` | fixed_point.hpp:495-499 | `a *= b` stores the raw product floored by 2^F, reduced to the raw type |
| `FixedVars.MulAssignExact` | fixed_point.hpp:495-499 | when the product needs no rounding and fits, `a *= b` stores the product of the numbers |
| `FixedVars.MulAssignWidenedKeepsProduct` | fixed_point.hpp:495-499 | `*=` on widened copies stores exactly the widened product of the originals |
| `FixedVars.MulIntAssignMultiplies` | fixed_point.hpp:559-565 | `a *= n` stores raw * n reduced, the number times n when it fits |
| `FixedVars.DivAssignWidenedAgrees` | fixed_point.hpp:623-627 | `/=` on widened copies stores the widened quotient of the originals |
| `FixedVars.FixedVar.constructor` | fixed_point.hpp:279 | a new variable holds the given value |
| `FixedVars.FixedVar.AddAssign` | fixed_point.hpp:406-410 | `+=` replaces the held value by the sum, which is its only effect |
| `FixedVars.FixedVar.SubAssign` | fixed_point.hpp:461-465 | `-=` replaces the held value by the difference |
| `FixedVars.FixedVar.MulAssign` | fixed_point.hpp:495-499 | `*=` replaces the held value by the narrowed product |
| `FixedVars.FixedVar.MulAssignInt` | fixed_point.hpp:559-565 | `*=` by an integer replaces the held value by the integer product narrowed back |
| `FixedVars.FixedVar.DivAssign` | fixed_point.hpp:623-627 | `/=` replaces the held value by the quotient |
| `FixedVars.FixedVar.DivAssignInt` | fixed_point.hpp:674-680 | `/=` by an integer replaces the held value by the integer quotient |
| `FixedVars.FixedVar.PreIncrement` | fixed_point.hpp:341-345 | `++a` adds `fixed_point(1)` to the held value |
| `FixedVars.FixedVar.PostIncrement` | fixed_point.hpp:348-353 | `a++` adds `fixed_point(1)` and returns the previous value |
| `FixedVars.FixedVar.PreDecrement` | fixed_point.hpp:356-360 | `--a` subtracts `fixed_point(1)` from the held value |
| `FixedVars.FixedVar.PostDecrement` | fixed_point.hpp:363-368 | `a--` subtracts `fixed_point(1)` and returns the previous value |
| `FixedVars.IncrementAddsOne` | fixed_point.hpp:341-353 | when F is not the sign bit and the result fits, incrementing adds exactly 1.0 |
| `FixedVars.DecrementSubtractsOne` | fixed_point.hpp:356-368 | when F is not the sign bit and the result fits, decrementing subtracts exactly 1.0 |
| `FixedVars.DecrementUndoesIncrement` | fixed_point.hpp:341-368 | decrementing after incrementing restores the value |
| `FixedVars.IncrementWithoutOne` | fixed_point.hpp:341-345 | in `fixed_point<int8_t, 1, 7>`, 1.0 is not representable, so incrementing 0 gives -1.0 |
| `HwRegs.IsValid` | hw_reg.hpp:103-131 | an address strategy is valid exactly when it is `void` (embedded) or `const_addr`; any other type is invalid |
| `HwRegs.Updated` | hw_reg.hpp:178-187 | what a compound operator stores, `read() op val` converted back to T, is a value of T |
| `HwRegs.HwReg.constructor` | hw_reg.hpp:155-160 | a register needs a valid (embedded) address strategy; it has the given type, flags and content |
| `HwRegs.HwReg.Read` | hw_reg.hpp:170 | `read()` requires R and returns the cell, changing nothing |
| `HwRegs.HwReg.Get` | hw_reg.hpp:171 | `operator T` requires R and returns the cell, changing nothing |
| `HwRegs.HwReg.Write` | hw_reg.hpp:174 | `write(v)` requires W and stores v in the cell |
| `HwRegs.HwReg.Assign` | hw_reg.hpp:175 | `operator =` requires W and stores v in the cell |
| `HwRegs.HwReg.Update` | hw_reg.hpp:178-187 | each compound operator requires R, W and a defined operation (so not `INT_MIN %= -1`) and stores `old op val` converted back to T |
| `HwRegs.NewWriteOnly` | hw_reg.hpp:190 | `hw_reg_w` is write-only: R false, W true |
| `HwRegs.NewReadOnly` | hw_reg.hpp:191 | `hw_reg_r` is read-only: R true, W false |
| `HwRegs.NewReadWrite` | hw_reg.hpp:192 | `hw_reg_rw` can be read and written |
| `HwRegs.WriteThenRead` | hw_reg.hpp:170-175 | reading after writing v returns v |
| `HwRegs.UpdateThenRead` | hw_reg.hpp:178-187 | reading after a compound operator returns the updated value |
| `HwRegs.AddStoresSum` | hw_reg.hpp:178 | `+=` is undefined only on a signed 32/64-bit overflow; it stores the sum modulo 2^width, exactly when it fits |
| `HwRegs.SubUndoesAdd` | hw_reg.hpp:179 | `-=` after `+=` of the same value restores the register |
| `HwRegs.MulStoresProduct` | hw_reg.hpp:180 | `*=` is undefined exactly when the promoted type is signed and the product overflows it; it stores the product modulo 2^width, exactly when it fits |
| `HwRegs.DivStoresQuotient` | hw_reg.hpp:181 | `/=` is defined exactly for a nonzero divisor with a fitting signed quotient, and stores the truncated quotient |
| `HwRegs.RemStoresRemainder` | hw_reg.hpp:182 | `%=` is defined exactly when `/=` is: a nonzero divisor and a signed quotient that fits the promoted type; it then stores the truncated remainder, which completes the division equation, is smaller than the divisor and has the dividend's sign |
| `HwRegs.RemOfMinimumByMinusOne` | hw_reg.hpp:182 | `%= -1` on the minimum of a 32- or 64-bit signed register is undefined, while on an `int16_t` register it is computed in `int` and stores 0 |
| `HwRegs.XorStoresPattern` | hw_reg.hpp:183 | `^=` stores the exclusive or of the two bit patterns |
| `HwRegs.XorTwiceRestores` | hw_reg.hpp:183 | `^=` twice with the same value restores the register |
| `HwRegs.AndKeepsLowBits` | hw_reg.hpp:184 | `&=` with 2^f - 1 keeps the value modulo 2^f |
| `HwRegs.OrStoresPattern` | hw_reg.hpp:185 | the or-assignment stores the inclusive or of the two bit patterns |
| `HwRegs.OrTwiceIsOnce` | hw_reg.hpp:185 | the or-assignment twice with the same value stores what it stores once |
| `HwRegs.ShiftRightStoresFloor` | hw_reg.hpp:186 | `>>= s` stores the floor of the value divided by 2^s |
| `HwRegs.ShiftLeftStoresProduct` | hw_reg.hpp:187 | `<<= s` stores the value times 2^s modulo 2^width |
| `HwRegs.ShiftLeftByEight` | hw_reg_compile_tests.cpp:68-71 | `<<= 8` on an `int` register: 0x12 becomes 0x1200, and 0x12345678 becomes 0x34567800 |

## Left out

- Floating point is not modelled. This covers `cast<float>`, the constructor
  from and conversion to a floating-point type, the multiplication with a
  floating-point operand and `digits10`, which is computed in floating point.
- The `std` type-trait specialisations are not modelled. They describe types
  and have no run-time behaviour.
- The commented-out functions at fixed_point.hpp:967-1403 are not modelled,
  because they have no code.
- Each overloaded operator is a separately named function, so C++ overload
  resolution and `enable_if` selection are not modelled. The reversed operand
  orders `integer * fixed` and `narrowed + widened` are the same computations
  as `MulInt` and `AddWidenedNarrow`. Unary plus, which returns its operand,
  has no function of its own.
- The chaining return value (`return *this`) of the compound assignments, of
  `++`/`--` and of the register operators is not modelled. The methods return
  nothing, and the new state is read back with `Get` or `Read`.
- The commented-out `+=`/`-=` with a widened right operand are not modelled,
  because they have no code.
- The namespace macros are not modelled.
- The `const_addr` register variant is not modelled. It reads and writes a
  fixed memory address through `reinterpret_cast`. `IsValid` accepts it, but
  the `HwReg` constructor admits only the embedded variant.
- `volatile` accesses, the register's `operator &`, and the deleted copy
  constructor and copy assignment are not modelled.
- The register's initial content is a constructor parameter, because the
  cell's initial content is whatever the hardware holds.
- The compile-test register of type `float` is not modelled; only integer
  register types are.
- `FixedMath.Fdim` takes the literal `0` in `fmax (x - y, 0)` as the value zero
  of the fixed-point type. Template deduction of that call with an `int` is
  not modelled.
- `FixedMath.IsFinite`, `FixedMath.IsInf`, `FixedMath.IsNan` and
  `FixedMath.IsNormal` return `bool`, where the header returns `int` 0 or 1.
  `FixedMath.Classify` returns a two-valued category in place of the
  `FP_ZERO`/`FP_NORMAL` constants.
- `FixedArith.MulIntWidened`, `FixedVars.MulIntAssigned`,
  `FixedVars.MulIntAssignMultiplies` and `FixedVars.FixedVar.MulAssignInt`
  use the corrected integer product (see Findings), not the product as
  written.
- `CppInt` models `<<` with C++20 semantics, where a left shift of a negative
  value or into the sign bit wraps modulo 2^width. Earlier standards make
  these undefined.
- `CppInt` models `>>` of a negative value as the arithmetic shift, the floor
  of the division by 2^s, as C++20 requires. Earlier standards leave it
  implementation-defined. `FixedPoint.ToInt`, `FixedPoint.ConvertTo` to fewer
  fractional bits, `FixedPoint.ToNarrowed` and the register's `>>=` rely on it.
- Signed-overflow undefined behaviour is modelled as a precondition
  (`ArithDefined`, `NegDefined`, `AbsDefined`), not as arbitrary behaviour.

## Findings

| source | as written | input that shows it | evidently intended | confidence | as-written member | corrected member |
|---|---|---|---|---|---|---|
| fixed_point.hpp:215 | `fractional_mask` shifts 1 left by F in the raw type and then subtracts 1. For a signed 32- or 64-bit raw type with F equal to width - 1, the shift gives the minimum value, and subtracting 1 overflows. | `fixed_point<int32_t, 1, 31>` is a valid type, but its mask computation overflows in a constant expression. | 2^F - 1, here 0x7FFFFFFF, the low F bits set, used by `trunc`'s `integral_mask` and `round_error()` | high, not executed | `FixedFormat.FractionalMaskAsWritten`, `FixedFormat.FractionalMaskOverflowExample` | `FixedFormat.FractionalMask`, `FixedFormat.MasksCover` |
| fixed_point.hpp:527-533 | `fixed * integer` (and `integer * fixed`, 543-549) stores raw * n as the raw cell of the widened type. That type has 2F fractional bits, so the product stands for value * n / 2^F. | For `fixed_point<int32_t, 16, 16>`, 1.0 * 2 narrowed back has raw 2 (about 0.00003), where 2.0 has raw 0x20000. | raw * n * 2^F in the widened type, which stands for value * n and narrows back to raw * n | high, not executed | `FixedArith.MulIntAsWritten`, `FixedArith.MulIntAsWrittenExample` | `FixedArith.MulInt`, `FixedArith.MulIntIsProduct` |
