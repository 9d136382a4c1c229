/**
 * The standard-library functions the header defines for fixed_point, and the
 * numeric_limits specialisation. All of them work on the raw cell: min and
 * max compare raw values, abs negates a negative raw value, trunc masks the
 * fractional bits away, and the classification functions look at the raw
 * value alone.
 */
module FixedMath {
  import opened Arith
  import opened CppInt
  import opened Optional
  import opened FixedFormat
  import opened FixedPoint
  import opened FixedArith

  // ---------------------------------------------------------------------------
  // numeric_limits

  /** `min ()` and `lowest ()`: the raw type's minimum as the raw cell. */
  function LimitMin(fmt: Format): (r: Fixed)
    requires fmt.Valid()
    ensures r.Valid() && r.fmt == fmt
  {
    FromRaw(fmt, MinValue(fmt.rawType))
  }

  /** `max ()`: the raw type's maximum as the raw cell. */
  function LimitMax(fmt: Format): (r: Fixed)
    requires fmt.Valid()
    ensures r.Valid() && r.fmt == fmt
  {
    FromRaw(fmt, MaxValue(fmt.rawType))
  }

  /** Every value of the format lies between `min ()` and `max ()`, which are themselves values of it. */
  lemma LimitsBound(a: Fixed)
    requires a.Valid()
    ensures Le(LimitMin(a.fmt), a) && Le(a, LimitMax(a.fmt))
    ensures Value(LimitMin(a.fmt)) <= Value(a) <= Value(LimitMax(a.fmt))
  {
    var t := a.fmt.rawType;
    var lo, hi := LimitMin(a.fmt), LimitMax(a.fmt);
    WrapInRange(t, MinValue(t));
    WrapInRange(t, MaxValue(t));
    assert lo.raw <= a.raw <= hi.raw;
    assert Le(lo, a) && Le(a, hi);
  }

  /** `epsilon ()`: the raw cell 1, the step between neighbouring values. */
  function Epsilon(fmt: Format): (r: Fixed)
    requires fmt.Valid()
    ensures r.Valid() && r.fmt == fmt
  {
    WrapInRange(fmt.rawType, 1);
    FromRaw(fmt, 1)
  }

  /** epsilon is 2^-F, and no value lies strictly between zero and it. */
  lemma EpsilonIsSmallestStep(a: Fixed)
    requires a.Valid()
    ensures Value(Epsilon(a.fmt)) == 1.0 / Pow2(a.fmt.fracBits) as real
    ensures Gt(a, FromInt(a.fmt, 0)) ==> Le(Epsilon(a.fmt), a)
  {
    WrapInRange(a.fmt.rawType, 1);
    ZeroIsRawZero(a.fmt);
  }

  /** `round_error ()`: the raw cell fractional_mask, the largest fraction below one. */
  function RoundError(fmt: Format): (r: Fixed)
    requires fmt.Valid()
    ensures r.Valid() && r.fmt == fmt
  {
    FromRaw(fmt, FractionalMask(fmt))
  }

  /** round_error plus epsilon is one whole unit, 2^F in the raw cell. */
  lemma RoundErrorIsOneMinusEpsilon(fmt: Format)
    requires fmt.Valid()
    ensures RoundError(fmt).raw + Epsilon(fmt).raw == Pow2(fmt.fracBits)
  {
    WrapInRange(fmt.rawType, 1);
    WrapInRange(fmt.rawType, FractionalMask(fmt));
  }

  /** `denorm_min ()`, `infinity ()`, `quiet_NaN ()` and `signaling_NaN ()`: all the raw cell 0. */
  function ZeroLimit(fmt: Format): (r: Fixed)
    requires fmt.Valid()
    ensures r.Valid() && r == FromInt(fmt, 0) && Value(r) == 0.0
  {
    WrapInRange(fmt.rawType, 0);
    ZeroIsRawZero(fmt);
    FromRaw(fmt, 0)
  }

  /** `digits`: the integral bit count, which together with F makes up the whole width. */
  function LimitDigits(fmt: Format): (d: int)
    requires fmt.Valid()
    ensures d + fmt.fracBits == fmt.rawType.width && d > 0
  {
    fmt.intBits
  }

  /** `is_signed`: the raw type's signedness; a signed format has a negative minimum. */
  function LimitIsSigned(fmt: Format): (r: bool)
    requires fmt.Valid()
    ensures r <==> LimitMin(fmt).raw < 0
  {
    WrapInRange(fmt.rawType, MinValue(fmt.rawType));
    fmt.rawType.signed
  }

  // ---------------------------------------------------------------------------
  // abs, fabs

  /** `val < 0 ? -val : val` is defined: negating a negative raw value does not overflow. */
  predicate AbsDefined(a: Fixed)
    requires a.Valid()
  {
    a.raw < 0 ==> NegDefined(a.fmt.rawType, a.raw)
  }

  /**
   * `abs` and `fabs` (the two bodies are the same): the comparison with the
   * integer 0 converts 0 to the raw value 0, so a negative raw value is
   * negated and any other value returned as it is. The result is the
   * magnitude of the raw value, reduced to the raw type, and an unsigned
   * value is returned unchanged.
   */
  function Abs(a: Fixed): (r: Fixed)
    requires a.Valid() && AbsDefined(a)
    ensures r.Valid() && r.fmt == a.fmt
    ensures r.raw == Wrap(a.fmt.rawType, Arith.Abs(a.raw))
    ensures !a.fmt.rawType.signed ==> r == a
  {
    ZeroIsRawZero(a.fmt);
    WrapInRange(a.fmt.rawType, a.raw);
    if Lt(a, FromInt(a.fmt, 0)) then Neg(a) else a
  }

  /** Negating the minimum is undefined for a 32- or 64-bit signed raw type, and only there. */
  lemma AbsDefinedWhen(a: Fixed)
    requires a.Valid()
    ensures AbsDefined(a) <==> !(a.fmt.rawType.signed && a.fmt.rawType.width >= 32 && a.raw == MinValue(a.fmt.rawType))
  {
    NegDefinedWhen(a);
  }

  /**
   * When the negated raw value fits, abs is the exact magnitude: never
   * negative, the magnitude of the number, the same for a value and its
   * negation, and abs of abs is abs.
   */
  lemma AbsIsMagnitude(a: Fixed)
    requires a.Valid() && InRange(a.fmt.rawType, -a.raw)
    ensures AbsDefined(a) && Abs(a).raw == Arith.Abs(a.raw) && Abs(a).raw >= 0
    ensures Value(Abs(a)) == if Value(a) < 0.0 then -Value(a) else Value(a)
    ensures AbsDefined(Abs(a)) && Abs(Abs(a)) == Abs(a)
  {
    NegRaw(a);
    WrapInRange(a.fmt.rawType, Arith.Abs(a.raw));
    ZeroIsRawZero(a.fmt);
    if a.raw < 0 {
      NegValue(a);
    }
  }

  /** abs of a value and abs of its negation agree when the negation fits. */
  lemma AbsOfNeg(a: Fixed)
    requires a.Valid() && InRange(a.fmt.rawType, -a.raw)
    ensures NegDefined(a.fmt.rawType, a.raw) && AbsDefined(a)
    ensures AbsDefined(Neg(a)) && Abs(Neg(a)) == Abs(a)
  {
    NegRaw(a);
    NegRaw(Neg(a));
    WrapInRange(a.fmt.rawType, Arith.Abs(a.raw));
  }

  /**
   * In an 8- or 16-bit signed format the minimum's negation is computed in
   * int and converted back, which gives the minimum again: abs of the
   * minimum is the (negative) minimum.
   */
  lemma AbsOfNarrowMinimum(fmt: Format)
    requires fmt.Valid() && fmt.rawType.signed && fmt.rawType.width < 32
    ensures var m := LimitMin(fmt); AbsDefined(m) && Abs(m) == m && m.raw < 0
  {
    var t := fmt.rawType;
    WrapInRange(t, MinValue(t));
    NegDefinedWhen(LimitMin(fmt));
    WrapShift(t, MinValue(t), 1);
  }

  // ---------------------------------------------------------------------------
  // min, max, fmin, fmax

  /** `min` and `fmin` (the same body): the operand with the smaller raw value, the second one on a tie. */
  function Min(a: Fixed, b: Fixed): (r: Fixed)
    requires a.Valid() && b.Valid() && a.fmt == b.fmt
    ensures r.Valid() && r.fmt == a.fmt
    ensures Le(r, a) && Le(r, b) && (r == a || r == b)
  {
    WrapInRange(a.fmt.rawType, a.raw);
    WrapInRange(a.fmt.rawType, b.raw);
    FromRaw(a.fmt, if a.raw < b.raw then a.raw else b.raw)
  }

  /** `max` and `fmax` (the same body): the operand with the larger raw value, the second one on a tie. */
  function Max(a: Fixed, b: Fixed): (r: Fixed)
    requires a.Valid() && b.Valid() && a.fmt == b.fmt
    ensures r.Valid() && r.fmt == a.fmt
    ensures Ge(r, a) && Ge(r, b) && (r == a || r == b)
  {
    WrapInRange(a.fmt.rawType, a.raw);
    WrapInRange(a.fmt.rawType, b.raw);
    FromRaw(a.fmt, if a.raw > b.raw then a.raw else b.raw)
  }

  /** min and max are idempotent and commutative, and between them return both operands. */
  lemma MinMaxLaws(a: Fixed, b: Fixed)
    requires a.Valid() && b.Valid() && a.fmt == b.fmt
    ensures Min(a, a) == a && Max(a, a) == a
    ensures Min(a, b) == Min(b, a) && Max(a, b) == Max(b, a)
    ensures Le(Min(a, b), Max(a, b))
    ensures Min(a, b).raw + Max(a, b).raw == a.raw + b.raw
  {
  }

  // ---------------------------------------------------------------------------
  // fma, fdim

  /** `x * y + z` is defined: the widened sum of the product and the converted z does not overflow. */
  predicate FmaDefined(x: Fixed, y: Fixed, z: Fixed)
    requires x.fmt.rawType.width < 64
  {
    var wt := WidenedRaw(x.fmt.rawType).value;
    ArithDefined(Op.Add, wt, x.raw * y.raw, wt, z.raw * Pow2(z.fmt.fracBits))
  }

  /**
   * `fma (x, y, z)` for an unwidened format: `x * y + z` multiplies into the
   * widened companion, adds z converted to it there, and the result is
   * narrowed back to the format on return.
   */
  function Fma(x: Fixed, y: Fixed, z: Fixed): (r: Fixed)
    requires x.Valid() && y.Valid() && z.Valid() && x.fmt == y.fmt == z.fmt
    requires !x.fmt.isWidened && x.fmt.rawType.width < 64
    requires FmaDefined(x, y, z)
    ensures r.Valid() && r.fmt == x.fmt
  {
    WidenedIsCompanion(x.fmt);
    ToNarrowed(AddWidenedNarrow(FixedArith.Mul(x, y), z))
  }

  /**
   * When the widened sum fits, fma is z plus the exact product floored to F
   * fractional bits, reduced to the raw type.
   */
  lemma FmaIsMultiplyAdd(x: Fixed, y: Fixed, z: Fixed)
    requires x.Valid() && y.Valid() && z.Valid() && x.fmt == y.fmt == z.fmt
    requires !x.fmt.isWidened && x.fmt.rawType.width < 64
    requires InRange(WidenedRaw(x.fmt.rawType).value, x.raw * y.raw + z.raw * Pow2(x.fmt.fracBits))
    ensures FmaDefined(x, y, z)
    ensures Fma(x, y, z) == FromRaw(x.fmt, x.raw * y.raw / Pow2(x.fmt.fracBits) + z.raw)
  {
    MultiplyAdd(x, y, z);
  }

  /**
   * When the product needs no more than F fractional bits and the result
   * fits, fma computes x * y + z exactly.
   */
  lemma FmaExact(x: Fixed, y: Fixed, z: Fixed)
    requires x.Valid() && y.Valid() && z.Valid() && x.fmt == y.fmt == z.fmt
    requires !x.fmt.isWidened && x.fmt.rawType.width < 64
    requires InRange(WidenedRaw(x.fmt.rawType).value, x.raw * y.raw + z.raw * Pow2(x.fmt.fracBits))
    requires (x.raw * y.raw) % Pow2(x.fmt.fracBits) == 0
    requires InRange(x.fmt.rawType, x.raw * y.raw / Pow2(x.fmt.fracBits) + z.raw)
    ensures FmaDefined(x, y, z)
    ensures Value(Fma(x, y, z)) == Value(x) * Value(y) + Value(z)
  {
    FmaIsMultiplyAdd(x, y, z);
    var p := Pow2(x.fmt.fracBits);
    var k := x.raw * y.raw / p;
    WrapInRange(x.fmt.rawType, k + z.raw);
    ExactProductValue(x, y, k);
    SumValue(Fixed(x.fmt, k), z, Fma(x, y, z));
  }

  /** A product of raw cells that is k whole steps of 2^F stands for the number k / 2^F. */
  lemma ExactProductValue(x: Fixed, y: Fixed, k: int)
    requires x.fmt == y.fmt && k == x.raw * y.raw / Pow2(x.fmt.fracBits)
    requires (x.raw * y.raw) % Pow2(x.fmt.fracBits) == 0
    ensures Value(Fixed(x.fmt, k)) == Value(x) * Value(y)
  {
    var p := Pow2(x.fmt.fracBits);
    assert x.raw * y.raw == k * p;
    RealScale(k, p, p);
    RealProduct(x.raw, y.raw, p);
  }

  /**
   * `fma (x, y, z)` for a widened format: `x * y` narrows both operands and
   * multiplies back into the same widened format, and z is added there.
   */
  function FmaWidened(x: Fixed, y: Fixed, z: Fixed): (r: Fixed)
    requires x.Valid() && y.Valid() && z.Valid() && x.fmt == y.fmt == z.fmt
    requires IsWidenedCompanion(x.fmt)
    requires ArithDefined(Op.Add, x.fmt.rawType, MulWidenedWidened(x, y).raw, x.fmt.rawType, z.raw)
    ensures r.Valid() && r.fmt == x.fmt
  {
    FixedArith.Add(MulWidenedWidened(x, y), z)
  }

  /**
   * fma on the widened forms of three values, narrowed back, is fma on the
   * values: widening loses nothing on the way in.
   */
  lemma FmaWidenedAgrees(a: Fixed, b: Fixed, c: Fixed)
    requires a.Valid() && b.Valid() && c.Valid() && a.fmt == b.fmt == c.fmt
    requires !a.fmt.isWidened && a.fmt.rawType.width < 64
    requires FmaDefined(a, b, c)
    ensures IsWidenedCompanion(ToWidened(a).fmt)
    ensures var wa, wb, wc := ToWidened(a), ToWidened(b), ToWidened(c);
      ArithDefined(Op.Add, wa.fmt.rawType, MulWidenedWidened(wa, wb).raw, wa.fmt.rawType, wc.raw) &&
      ToNarrowed(FmaWidened(wa, wb, wc)) == Fma(a, b, c)
  {
    MixedProductsAgree(a, b);
    WidenedIsCompanion(a.fmt);
  }

  /**
   * `fdim (x, y)`: `fmax (x - y, 0)`, the difference in the raw type or zero.
   * The literal 0 is taken as the zero of the format, the value the class's
   * implicit constructor makes of it.
   */
  function Fdim(x: Fixed, y: Fixed): (r: Fixed)
    requires x.Valid() && y.Valid() && x.fmt == y.fmt
    requires ArithDefined(Op.Sub, x.fmt.rawType, x.raw, x.fmt.rawType, y.raw)
    ensures r.Valid() && r.fmt == x.fmt
  {
    Max(FixedArith.Sub(x, y), FromInt(x.fmt, 0))
  }

  /**
   * When the difference fits the raw type, fdim is the positive difference:
   * x - y when x is the larger, zero otherwise.
   */
  lemma FdimIsPositiveDifference(x: Fixed, y: Fixed)
    requires x.Valid() && y.Valid() && x.fmt == y.fmt
    requires InRange(x.fmt.rawType, x.raw - y.raw)
    ensures ArithDefined(Op.Sub, x.fmt.rawType, x.raw, x.fmt.rawType, y.raw)
    ensures Fdim(x, y).raw == if x.raw > y.raw then x.raw - y.raw else 0
    ensures Value(Fdim(x, y)) == if Value(x) > Value(y) then Value(x) - Value(y) else 0.0
  {
    SubExact(x, y);
    ZeroIsRawZero(x.fmt);
  }

  // ---------------------------------------------------------------------------
  // trunc

  /** `trunc`: the raw cell and integral_mask, in the promoted raw type, stored back. */
  function Trunc(a: Fixed): (r: Fixed)
    requires a.Valid()
    ensures r.Valid() && r.fmt == a.fmt
  {
    var t := a.fmt.rawType;
    FromRaw(a.fmt, Compute(Op.BitAnd, t, a.raw, t, IntegralMask(a.fmt)))
  }

  /**
   * trunc rounds toward minus infinity: its raw cell is the greatest multiple
   * of 2^F not above the raw value, and what it drops is the raw value's
   * remainder modulo 2^F.
   */
  lemma TruncIsFloor(a: Fixed)
    requires a.Valid()
    ensures Trunc(a).raw == Pow2(a.fmt.fracBits) * (a.raw / Pow2(a.fmt.fracBits))
    ensures a.raw - Trunc(a).raw == a.raw % Pow2(a.fmt.fracBits)
  {
    var t, x, p := a.fmt.rawType, a.raw, Pow2(a.fmt.fracBits);
    FloorInRange(a.fmt, x);
    MaskedIsFloor(a.fmt, x);
    WrapInRange(t, x - x % p);
  }

  /** trunc is the conversion to an integer and back: it keeps the floor of the number. */
  lemma TruncIsIntegerPart(a: Fixed)
    requires a.Valid()
    ensures Trunc(a) == FromInt(a.fmt, a.raw / Pow2(a.fmt.fracBits))
    ensures Value(Trunc(a)) == (a.raw / Pow2(a.fmt.fracBits)) as real
  {
    var k := a.raw / Pow2(a.fmt.fracBits);
    TruncIsFloor(a);
    FromWholeInt(a.fmt, k);
    WholeValue(Trunc(a), k);
  }

  /** An integer whose scaled raw value fits converts without loss. */
  lemma FromWholeInt(fmt: Format, k: int)
    requires fmt.Valid() && InRange(fmt.rawType, Pow2(fmt.fracBits) * k)
    ensures FromInt(fmt, k).raw == Pow2(fmt.fracBits) * k
  {
    assert k * Pow2(fmt.fracBits) == Pow2(fmt.fracBits) * k;
    WrapInRange(fmt.rawType, Pow2(fmt.fracBits) * k);
  }

  /** A raw cell k * 2^F stands for the integer k. */
  lemma WholeValue(r: Fixed, k: int)
    requires r.raw == Pow2(r.fmt.fracBits) * k
    ensures Value(r) == k as real
  {
    var p := Pow2(r.fmt.fracBits);
    assert r.raw == k * p;
    ScaledValue(k, p);
  }

  /** The greatest multiple of 2^F not above a raw value is a raw value too. */
  lemma FloorInRange(fmt: Format, x: int)
    requires fmt.Valid() && InRange(fmt.rawType, x)
    ensures x - x % Pow2(fmt.fracBits) == Pow2(fmt.fracBits) * (x / Pow2(fmt.fracBits))
    ensures InRange(fmt.rawType, x - x % Pow2(fmt.fracBits))
  {
    var t := fmt.rawType;
    MinimumIsWhole(fmt);
    FloorMultipleBounds(x, Pow2(fmt.fracBits), MinValue(t), MaxValue(t));
  }

  /** The raw type's minimum is a whole number: a multiple of 2^F. */
  lemma MinimumIsWhole(fmt: Format)
    requires fmt.Valid()
    ensures MinValue(fmt.rawType) % Pow2(fmt.fracBits) == 0
  {
    var t, f := fmt.rawType, fmt.fracBits;
    if t.signed {
      ValidSplitsWidth(fmt);
      ModulusIsPow2(t);
      var k: nat := t.width - 1 - f;
      assert f + k == t.width - 1;
      NegPowerIsMultiple(MinValue(t), f, k);
    } else {
      ModOfSmall(0, Pow2(f));
    }
  }

  lemma NegPowerIsMultiple(m: int, f: nat, k: nat)
    requires m == -Pow2(f + k)
    ensures m % Pow2(f) == 0
  {
    Pow2Add(f, k);
    assert -Pow2(f + k) == (-Pow2(k)) * Pow2(f);
    MulDivCancel(-Pow2(k), Pow2(f));
  }

  /** `raw & integral_mask` computed as the class does: the raw value with its low F bits cleared. */
  lemma MaskedIsFloor(fmt: Format, x: int)
    requires fmt.Valid() && InRange(fmt.rawType, x)
    ensures ArithDefined(Op.BitAnd, fmt.rawType, x, fmt.rawType, IntegralMask(fmt))
    ensures Compute(Op.BitAnd, fmt.rawType, x, fmt.rawType, IntegralMask(fmt)) == x - x % Pow2(fmt.fracBits)
  {
    BitAndSameType(fmt.rawType, x, IntegralMask(fmt));
    MaskedPatterns(fmt, x);
  }

  /** The and of the raw value's and integral_mask's patterns in the promoted type, read back in it. */
  lemma MaskedPatterns(fmt: Format, x: int)
    requires fmt.Valid() && InRange(fmt.rawType, x)
    ensures var pt := Promote(fmt.rawType);
      Wrap(pt, AndBits(pt.width, x % Modulus(pt), IntegralMask(fmt) % Modulus(pt))) ==
      x - x % Pow2(fmt.fracBits)
  {
    if fmt.rawType.signed || fmt.rawType.width >= 32 {
      MaskedPatternsWide(fmt, x);
    } else {
      FloorInPromoted(fmt, x);
      NarrowUnsignedMask(fmt, x);
    }
  }

  lemma MaskedPatternsWide(fmt: Format, x: int)
    requires fmt.Valid() && InRange(fmt.rawType, x) && (fmt.rawType.signed || fmt.rawType.width >= 32)
    ensures var pt := Promote(fmt.rawType);
      Wrap(pt, AndBits(pt.width, x % Modulus(pt), IntegralMask(fmt) % Modulus(pt))) ==
      x - x % Pow2(fmt.fracBits)
  {
    var t, m, f := fmt.rawType, IntegralMask(fmt), fmt.fracBits;
    var pt := Promote(t);
    IntegralMaskInPromoted(fmt);
    assert Pattern(pt, x) == x % Modulus(pt) && Pattern(pt, m) == m % Modulus(pt);
    AndClearsLowBits(pt, x, m, f);
    FloorInPromoted(fmt, x);
  }

  /** The raw value rounded down to a multiple of 2^F is unchanged by conversion to the promoted type. */
  lemma FloorInPromoted(fmt: Format, x: int)
    requires fmt.Valid() && InRange(fmt.rawType, x)
    ensures Wrap(Promote(fmt.rawType), x - x % Pow2(fmt.fracBits)) == x - x % Pow2(fmt.fracBits)
  {
    var t, y := fmt.rawType, x - x % Pow2(fmt.fracBits);
    FloorInRange(fmt, x);
    PromoteKeepsRange(t, y);
    WrapInRange(Promote(t), y);
  }

  /**
   * For a signed raw type, or one that is not promoted, integral_mask read in
   * the promoted type has every bit set but the low F.
   */
  lemma IntegralMaskInPromoted(fmt: Format)
    requires fmt.Valid() && (fmt.rawType.signed || fmt.rawType.width >= 32)
    ensures Pattern(Promote(fmt.rawType), IntegralMask(fmt)) == Modulus(Promote(fmt.rawType)) - Pow2(fmt.fracBits)
  {
    var t, p := fmt.rawType, Pow2(fmt.fracBits);
    IntegralMaskPattern(fmt);
    if t.signed {
      PowerBelowSign(fmt);
      WrapInRange(t, -p);
      var q := Modulus(Promote(t));
      DivModUnique(-p, q, -1, q - p);
    }
  }

  /**
   * An 8- or 16-bit unsigned raw type is promoted to int, where integral_mask
   * has only the bits F to width-1 set; the raw value has no higher bits, so
   * the and still clears exactly the low F bits.
   */
  lemma NarrowUnsignedMask(fmt: Format, x: int)
    requires fmt.Valid() && !fmt.rawType.signed && fmt.rawType.width < 32 && InRange(fmt.rawType, x)
    ensures var pt := Promote(fmt.rawType);
      AndBits(pt.width, Pattern(pt, x), Pattern(pt, IntegralMask(fmt))) == x - x % Pow2(fmt.fracBits)
  {
    var t, f := fmt.rawType, fmt.fracBits;
    var m := IntegralMask(fmt);
    IntegralMaskPattern(fmt);
    ModulusIsPow2(t);
    ModOfSmall(m, Modulus(t));
    ModOfSmall(x, Modulus(Int32));
    ModOfSmall(m, Modulus(Int32));
    AndBitsNarrower(32, t.width, x, m);
    Pow2Mono(f, t.width);
    AndHighMask(t.width, f, x);
  }

  /**
   * trunc leaves no fractional bit, never rounds up, loses less than one
   * unit (at most round_error), and truncating again changes nothing.
   */
  lemma TruncProperties(a: Fixed)
    requires a.Valid()
    ensures Trunc(a).raw % Pow2(a.fmt.fracBits) == 0
    ensures Le(Trunc(a), a) && a.raw - Trunc(a).raw < Pow2(a.fmt.fracBits)
    ensures a.raw - Trunc(a).raw <= RoundError(a.fmt).raw
    ensures Trunc(Trunc(a)) == Trunc(a)
  {
    var p := Pow2(a.fmt.fracBits);
    var k := a.raw / p;
    TruncIsFloor(a);
    WholeMultiple(Trunc(a).raw, p, k);
    assert RoundError(a.fmt).raw == p - 1 by {
      WrapInRange(a.fmt.rawType, FractionalMask(a.fmt));
    }
    TruncIdempotent(a);
  }

  /** Truncating a truncated value changes nothing. */
  lemma TruncIdempotent(a: Fixed)
    requires a.Valid()
    ensures Trunc(Trunc(a)) == Trunc(a)
  {
    var p := Pow2(a.fmt.fracBits);
    var r := Trunc(a);
    TruncIsFloor(a);
    WholeMultiple(r.raw, p, a.raw / p);
    TruncIsFloor(r);
  }

  /** A multiple p * k of a positive p divides back to k with no remainder. */
  lemma WholeMultiple(r: int, p: int, k: int)
    requires p > 0 && r == p * k
    ensures r % p == 0 && r / p == k && p * (r / p) == r
  {
    MulDivCancel(k, p);
  }

  /**
   * The rounding direction on a concrete input: in fixed_point<int32_t, 16,
   * 16>, trunc (-1.5) is -2.0 and trunc (1.5) is 1.0.
   */
  lemma TruncExample()
    ensures var fmt := Format(Int32, 16, 16, false);
      fmt.Valid() &&
      Trunc(Fixed(fmt, -0x1_8000)).raw == -0x2_0000 &&
      Trunc(Fixed(fmt, 0x1_8000)).raw == 0x1_0000
  {
    var fmt := Format(Int32, 16, 16, false);
    Pow2Of16();
    TruncIsFloor(Fixed(fmt, -0x1_8000));
    TruncIsFloor(Fixed(fmt, 0x1_8000));
  }

  // ---------------------------------------------------------------------------
  // Classification and sign

  /** The two categories fpclassify reports. */
  datatype Category = Zero | Normal

  /** `fpclassify`: zero for the raw value 0, normal for every other value. */
  function Classify(a: Fixed): (r: Category)
    ensures r == Zero <==> Value(a) == 0.0
  {
    if a.raw == 0 then Zero else Normal
  }

  /** `isfinite`: every value is finite, since every value is zero or normal. */
  function IsFinite(a: Fixed): (r: bool)
    ensures r <==> Classify(a) == Zero || Classify(a) == Normal
  {
    true
  }

  /** `isinf`: no finite value is infinite. */
  function IsInf(a: Fixed): (r: bool)
    ensures !r
  {
    false
  }

  /** `isnan`: no finite value is a NaN. */
  function IsNan(a: Fixed): (r: bool)
    ensures !r
  {
    false
  }

  /** `isnormal`: the raw value is nonzero, which is also what the bool conversion tests. */
  function IsNormal(a: Fixed): (r: bool)
    ensures r <==> Classify(a) == Normal
    ensures r <==> ToBool(a)
  {
    a.raw != 0
  }

  /** `signbit`: 1 for a negative raw value, 0 otherwise. */
  function Signbit(a: Fixed): (r: int)
    ensures r == 0 || r == 1
    ensures r == 1 <==> Value(a) < 0.0
    ensures a.Valid() && !a.fmt.rawType.signed ==> r == 0
  {
    if a.raw < 0 then 1 else 0
  }

  /** `copysign (x, y)` is defined: abs of x is, and so is its negation when y is negative. */
  predicate CopysignDefined(x: Fixed, y: Fixed)
    requires x.Valid()
  {
    AbsDefined(x) && (Signbit(y) == 1 ==> NegDefined(x.fmt.rawType, Abs(x).raw))
  }

  /** `copysign (x, y)`: `signbit (y) ? -fabs (x) : fabs (x)`. */
  function Copysign(x: Fixed, y: Fixed): (r: Fixed)
    requires x.Valid() && y.Valid() && x.fmt == y.fmt
    requires CopysignDefined(x, y)
    ensures r.Valid() && r.fmt == x.fmt
  {
    if Signbit(y) == 1 then Neg(Abs(x)) else Abs(x)
  }

  /**
   * When x's negation fits, copysign gives the magnitude of x with the sign
   * of y: its abs is abs of x, and a nonzero x takes y's sign bit. An
   * unsigned y is never negative, so copysign is then abs.
   */
  lemma CopysignProperties(x: Fixed, y: Fixed)
    requires x.Valid() && y.Valid() && x.fmt == y.fmt
    requires InRange(x.fmt.rawType, -x.raw)
    ensures CopysignDefined(x, y)
    ensures Copysign(x, y).raw == (if y.raw < 0 then -1 else 1) * Arith.Abs(x.raw)
    ensures AbsDefined(Copysign(x, y)) && Abs(Copysign(x, y)) == Abs(x)
    ensures x.raw != 0 ==> Signbit(Copysign(x, y)) == Signbit(y)
  {
    AbsIsMagnitude(x);
    var ax := Abs(x);
    WrapInRange(x.fmt.rawType, -ax.raw);
    if y.raw < 0 {
      NegRaw(ax);
      AbsOfNeg(ax);
    }
  }

  /** For an unsigned raw type copysign returns x unchanged. */
  lemma CopysignUnsigned(x: Fixed, y: Fixed)
    requires x.Valid() && y.Valid() && x.fmt == y.fmt && !x.fmt.rawType.signed
    ensures CopysignDefined(x, y) && Copysign(x, y) == x
  {
  }
}
