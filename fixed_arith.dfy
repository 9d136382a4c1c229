/**
 * The arithmetic operators of fixed_point: addition, subtraction and
 * negation in the value's own type, the widening multiplication into the
 * widened companion, division with a pre-scaled dividend, the operators that
 * mix a widened value with its narrowed companion, and multiplication and
 * division by an integer. Each operator is a separate function; the reversed
 * operand orders the class also declares (`int * fixed`, `narrowed +
 * widened`) are the same computations and are noted on the function they
 * delegate to.
 */
module FixedArith {
  import opened Arith
  import opened CppInt
  import opened Optional
  import opened FixedFormat
  import opened FixedPoint

  // ---------------------------------------------------------------------------
  // Addition, subtraction, negation

  /** `fixed + fixed`: the raw cells are added in the promoted raw type and the sum stored back. */
  function Add(a: Fixed, b: Fixed): (r: Fixed)
    requires a.Valid() && b.Valid() && a.fmt == b.fmt
    requires ArithDefined(Op.Add, a.fmt.rawType, a.raw, a.fmt.rawType, b.raw)
    ensures r.Valid() && r.fmt == a.fmt
    ensures r.raw == Wrap(a.fmt.rawType, a.raw + b.raw)
  {
    var t := a.fmt.rawType;
    SameTypeArith(Op.Add, t, a.raw, b.raw, t);
    FromRaw(a.fmt, Compute(Op.Add, t, a.raw, t, b.raw))
  }

  /** `fixed - fixed`, and the compound `-=` that computes `value -= rhs.value`. */
  function Sub(a: Fixed, b: Fixed): (r: Fixed)
    requires a.Valid() && b.Valid() && a.fmt == b.fmt
    requires ArithDefined(Op.Sub, a.fmt.rawType, a.raw, a.fmt.rawType, b.raw)
    ensures r.Valid() && r.fmt == a.fmt
    ensures r.raw == Wrap(a.fmt.rawType, a.raw - b.raw)
  {
    var t := a.fmt.rawType;
    SameTypeArith(Op.Sub, t, a.raw, b.raw, t);
    FromRaw(a.fmt, Compute(Op.Sub, t, a.raw, t, b.raw))
  }

  /**
   * Addition is undefined only for a 32- or 64-bit signed raw type whose
   * exact sum is out of range; when the exact sum fits, it is computed exactly
   * and the numbers add.
   */
  lemma AddExact(a: Fixed, b: Fixed)
    requires a.Valid() && b.Valid() && a.fmt == b.fmt
    ensures var t := a.fmt.rawType;
      ArithDefined(Op.Add, t, a.raw, t, b.raw) <==> (t.width < 32 || !t.signed || InRange(t, a.raw + b.raw))
    ensures InRange(a.fmt.rawType, a.raw + b.raw) ==>
      ArithDefined(Op.Add, a.fmt.rawType, a.raw, a.fmt.rawType, b.raw) &&
      Add(a, b).raw == a.raw + b.raw && Value(Add(a, b)) == Value(a) + Value(b)
  {
    var t := a.fmt.rawType;
    SameTypeDefined(Op.Add, t, a.raw, b.raw);
    if InRange(t, a.raw + b.raw) {
      SameTypeExact(Op.Add, t, a.raw, b.raw);
      var r := Add(a, b);
      WrapInRange(t, a.raw + b.raw);
      SumValue(a, b, r);
    }
  }

  /** Subtraction, likewise: undefined only on a 32- or 64-bit signed overflow, otherwise exact when the difference fits. */
  lemma SubExact(a: Fixed, b: Fixed)
    requires a.Valid() && b.Valid() && a.fmt == b.fmt
    ensures var t := a.fmt.rawType;
      ArithDefined(Op.Sub, t, a.raw, t, b.raw) <==> (t.width < 32 || !t.signed || InRange(t, a.raw - b.raw))
    ensures InRange(a.fmt.rawType, a.raw - b.raw) ==>
      ArithDefined(Op.Sub, a.fmt.rawType, a.raw, a.fmt.rawType, b.raw) &&
      Sub(a, b).raw == a.raw - b.raw && Value(Sub(a, b)) == Value(a) - Value(b)
  {
    var t := a.fmt.rawType;
    SameTypeDefined(Op.Sub, t, a.raw, b.raw);
    if InRange(t, a.raw - b.raw) {
      SameTypeExact(Op.Sub, t, a.raw, b.raw);
      var r := Sub(a, b);
      WrapInRange(t, a.raw - b.raw);
      DifferenceValue(a, b, r);
    }
  }

  /** Addition commutes, so `narrowed + widened`, written `rhs + lhs`, is the same sum. */
  lemma AddCommutes(a: Fixed, b: Fixed)
    requires a.Valid() && b.Valid() && a.fmt == b.fmt
    requires ArithDefined(Op.Add, a.fmt.rawType, a.raw, a.fmt.rawType, b.raw)
    ensures ArithDefined(Op.Add, a.fmt.rawType, b.raw, a.fmt.rawType, a.raw)
    ensures Add(a, b) == Add(b, a)
  {
    SameTypeDefined(Op.Add, a.fmt.rawType, a.raw, b.raw);
    SameTypeDefined(Op.Add, a.fmt.rawType, b.raw, a.raw);
  }

  /** Subtracting and adding back the same value, with both steps defined, restores the value (modulo 2^width included). */
  lemma SubThenAdd(a: Fixed, b: Fixed)
    requires a.Valid() && b.Valid() && a.fmt == b.fmt
    requires ArithDefined(Op.Sub, a.fmt.rawType, a.raw, a.fmt.rawType, b.raw)
    requires ArithDefined(Op.Add, a.fmt.rawType, Sub(a, b).raw, a.fmt.rawType, b.raw)
    ensures Add(Sub(a, b), b) == a
  {
    var t := a.fmt.rawType;
    WrapAddCongruent(t, a.raw - b.raw, b.raw);
    WrapInRange(t, a.raw);
  }

  /** Adding and subtracting back the same value, with both steps defined, restores the value (modulo 2^width included). */
  lemma AddThenSub(a: Fixed, b: Fixed)
    requires a.Valid() && b.Valid() && a.fmt == b.fmt
    requires ArithDefined(Op.Add, a.fmt.rawType, a.raw, a.fmt.rawType, b.raw)
    requires ArithDefined(Op.Sub, a.fmt.rawType, Add(a, b).raw, a.fmt.rawType, b.raw)
    ensures Sub(Add(a, b), b) == a
  {
    var t := a.fmt.rawType;
    WrapAddCongruent(t, a.raw + b.raw, -b.raw);
    WrapInRange(t, a.raw);
  }

  /** Unary minus: `fixed_point (-value, FIXED_POINT_RAW)`, negated in the promoted raw type. */
  function Neg(a: Fixed): (r: Fixed)
    requires a.Valid() && NegDefined(a.fmt.rawType, a.raw)
    ensures r.Valid() && r.fmt == a.fmt
    ensures r.raw == Wrap(a.fmt.rawType, -a.raw)
  {
    var t := a.fmt.rawType;
    PromoteKeepsRange(t, a.raw);
    WrapInRange(Promote(t), a.raw);
    WrapThroughWider(t, Promote(t), -a.raw);
    FromRaw(a.fmt, Negate(t, a.raw))
  }

  /**
   * Negation is undefined only for the minimum of a 32- or 64-bit signed raw
   * type. (For an unsigned or an 8- or 16-bit minimum the negation wraps
   * around instead.)
   */
  lemma NegDefinedWhen(a: Fixed)
    requires a.Valid()
    ensures var t := a.fmt.rawType;
      NegDefined(t, a.raw) <==> !(t.signed && t.width >= 32 && a.raw == MinValue(t))
  {
    var t := a.fmt.rawType;
    PromoteKeepsRange(t, a.raw);
    WrapInRange(Promote(t), a.raw);
  }

  /** Where negation is defined, adding a value to its negation is defined too. */
  lemma NegSumDefined(t: Native, x: int)
    requires InRange(t, x) && NegDefined(t, x)
    ensures ArithDefined(Op.Add, t, x, t, Wrap(t, -x))
  {
    PromoteKeepsRange(t, x);
    WrapInRange(Promote(t), x);
    WrapInRange(t, Wrap(t, -x));
    SameTypeDefined(Op.Add, t, x, Wrap(t, -x));
    if t.signed && t.width >= 32 {
      WrapInRange(t, -x);
    }
  }

  lemma WrapNegCancels(t: Native, x: int)
    ensures Wrap(t, x + Wrap(t, -x)) == 0
  {
    WrapAddCongruent(t, -x, x);
    WrapInRange(t, 0);
  }

  /** A value plus its negation is zero. */
  lemma NegCancels(a: Fixed)
    requires a.Valid() && NegDefined(a.fmt.rawType, a.raw)
    ensures ArithDefined(Op.Add, a.fmt.rawType, a.raw, a.fmt.rawType, Neg(a).raw)
    ensures Add(a, Neg(a)).raw == 0
  {
    NegSumZero(a.fmt.rawType, a.raw, Neg(a).raw);
  }

  lemma NegSumZero(t: Native, x: int, y: int)
    requires InRange(t, x) && NegDefined(t, x) && y == Wrap(t, -x)
    ensures ArithDefined(Op.Add, t, x, t, y) && Wrap(t, x + y) == 0
  {
    NegSumDefined(t, x);
    WrapNegCancels(t, x);
  }

  /** When the negated raw value fits, negation is defined and exact. */
  lemma NegRaw(a: Fixed)
    requires a.Valid() && InRange(a.fmt.rawType, -a.raw)
    ensures NegDefined(a.fmt.rawType, a.raw) && Neg(a).raw == -a.raw
  {
    NegDefinedWhen(a);
    WrapInRange(a.fmt.rawType, -a.raw);
  }

  /** When the negated raw value fits, negation negates the number and undoes itself. */
  lemma NegExact(a: Fixed)
    requires a.Valid() && InRange(a.fmt.rawType, -a.raw)
    ensures NegDefined(a.fmt.rawType, a.raw) && Neg(a).raw == -a.raw && Value(Neg(a)) == -Value(a)
    ensures NegDefined(a.fmt.rawType, Neg(a).raw) && Neg(Neg(a)) == a
  {
    NegRaw(a);
    NegRaw(Neg(a));
    NegValue(a);
  }

  lemma NegValue(a: Fixed)
    requires a.Valid() && InRange(a.fmt.rawType, -a.raw)
    ensures NegDefined(a.fmt.rawType, a.raw) && Value(Neg(a)) == -Value(a)
  {
    NegRaw(a);
    DifferenceValue(Fixed(a.fmt, 0), a, Neg(a));
  }

  // ---------------------------------------------------------------------------
  // Multiplication

  /**
   * `fixed * fixed` of two values of one unwidened type: both raw cells are
   * cast to the widened raw type and multiplied there, and the product is the
   * raw cell of the widened companion (2I integral, 2F fractional bits). There
   * is no widened companion of a 64-bit type, so the product is unavailable
   * there. The product is exact: no bit is lost.
   */
  function Mul(a: Fixed, b: Fixed): (r: Fixed)
    requires a.Valid() && b.Valid() && a.fmt == b.fmt
    requires !a.fmt.isWidened && a.fmt.rawType.width < 64
    ensures Widened(a.fmt).Some? && r.fmt == Widened(a.fmt).value && r.Valid()
    ensures r.raw == a.raw * b.raw
    ensures Value(r) == Value(a) * Value(b)
  {
    WidenedCompanion(a.fmt);
    var g := Widened(a.fmt).value;
    var wt := g.rawType;
    WideProduct(a.fmt, a.raw, b.raw);
    var r := FromRaw(g, Compute(Op.Mul, wt, Wrap(wt, a.raw), wt, Wrap(wt, b.raw)));
    ProductValue(a, b, r);
    r
  }

  /** The product of two raw values, each cast to the widened raw type, is defined and exact there. */
  lemma WideProduct(fmt: Format, x: int, y: int)
    requires fmt.Valid() && fmt.rawType.width < 64 && InRange(fmt.rawType, x) && InRange(fmt.rawType, y)
    ensures Widened(fmt).Some?
    ensures var wt := Widened(fmt).value.rawType;
      InRange(wt, x * y) && ArithDefined(Op.Mul, wt, Wrap(wt, x), wt, Wrap(wt, y)) &&
      Compute(Op.Mul, wt, Wrap(wt, x), wt, Wrap(wt, y)) == x * y
  {
    CastsToWider(fmt, x);
    CastsToWider(fmt, y);
    MulFits(fmt, x, y);
    SameTypeExact(Op.Mul, Widened(fmt).value.rawType, x, y);
  }

  /** `static_cast<widened_raw_type>` of a raw value keeps it. */
  lemma CastsToWider(fmt: Format, x: int)
    requires fmt.Valid() && fmt.rawType.width < 64 && InRange(fmt.rawType, x)
    ensures Widened(fmt).Some?
    ensures InRange(Widened(fmt).value.rawType, x) && Wrap(Widened(fmt).value.rawType, x) == x
  {
    WidenedCompanion(fmt);
    WiderKeeps(fmt.rawType, Widened(fmt).value.rawType, x);
    WrapInRange(Widened(fmt).value.rawType, x);
  }

  /**
   * `widened * narrowed`: the widened operand is narrowed first (floored to
   * F/2 fractional bits and reduced to the narrower type) and the two are
   * multiplied into the widened type again. The reversed order is not
   * declared separately for this pair.
   */
  function MulWidenedNarrow(w: Fixed, n: Fixed): (r: Fixed)
    requires w.Valid() && n.Valid() && IsWidenedCompanion(w.fmt) && n.fmt == Narrowed(w.fmt).value
    ensures r.Valid() && r.fmt == w.fmt
    ensures r.raw == Wrap(n.fmt.rawType, w.raw / Pow2(n.fmt.fracBits)) * n.raw
  {
    CompanionHalves(w.fmt);
    ToNarrowedHalves(w);
    Mul(ToNarrowed(w), n)
  }

  /** `widened * widened`: both operands are narrowed first, so the result is again of the widened type. */
  function MulWidenedWidened(v: Fixed, w: Fixed): (r: Fixed)
    requires v.Valid() && w.Valid() && v.fmt == w.fmt && IsWidenedCompanion(v.fmt)
    ensures r.Valid() && r.fmt == v.fmt
    ensures var nf := Narrowed(v.fmt).value;
      r.raw == Wrap(nf.rawType, v.raw / Pow2(nf.fracBits)) * Wrap(nf.rawType, w.raw / Pow2(nf.fracBits))
  {
    CompanionHalves(v.fmt);
    ToNarrowedHalves(v);
    ToNarrowedHalves(w);
    Mul(ToNarrowed(v), ToNarrowed(w))
  }

  /**
   * Narrowing a widened value that came from widening loses nothing, so the
   * mixed products agree with the plain product of the original values.
   */
  lemma MixedProductsAgree(a: Fixed, b: Fixed)
    requires a.Valid() && b.Valid() && a.fmt == b.fmt
    requires !a.fmt.isWidened && a.fmt.rawType.width < 64
    ensures IsWidenedCompanion(ToWidened(a).fmt)
    ensures MulWidenedNarrow(ToWidened(a), b) == Mul(a, b)
    ensures MulWidenedWidened(ToWidened(a), ToWidened(b)) == Mul(a, b)
  {
    WidenedIsCompanion(a.fmt);
    NarrowWidenRoundTrip(a);
    NarrowWidenRoundTrip(b);
  }

  // ---------------------------------------------------------------------------
  // Multiplication by an integer

  /** `static_cast<widened_raw_type>(lhs.raw ()) * static_cast<widened_raw_type>(rhs)` is defined. */
  predicate MulIntDefined(a: Fixed, n: int)
    requires a.fmt.rawType.width < 64
  {
    var wt := WidenedRaw(a.fmt.rawType).value;
    ArithDefined(Op.Mul, wt, Wrap(wt, a.raw), wt, Wrap(wt, n))
  }

  /**
   * `fixed * integer` exactly as the class writes it: the raw cell and the
   * integer are cast to the widened raw type and multiplied, and the product
   * becomes the raw cell of the widened companion. The widened companion has
   * 2F fractional bits, so the stored number is the intended product divided
   * by 2^F. `integer * fixed` is written `rhs * lhs` and is the same.
   */
  function MulIntAsWritten(a: Fixed, n: int): (r: Fixed)
    requires a.Valid() && !a.fmt.isWidened && a.fmt.rawType.width < 64
    requires MulIntDefined(a, n)
    ensures Widened(a.fmt).Some? && r.fmt == Widened(a.fmt).value && r.Valid()
    ensures r.raw == Wrap(r.fmt.rawType, a.raw * n)
  {
    WidenedCompanion(a.fmt);
    var g := Widened(a.fmt).value;
    var wt := g.rawType;
    CastsToWider(a.fmt, a.raw);
    var m := Wrap(wt, n);
    SameTypeArith(Op.Mul, wt, a.raw, m, wt);
    WrapMulCongruent(wt, n, a.raw);
    FromRaw(g, Compute(Op.Mul, wt, Wrap(wt, a.raw), wt, m))
  }

  /**
   * The as-written integer product carries the wrong scale: when the product
   * of the raw value and the integer fits, the number it stands for is
   * value * n / 2^F, not value * n.
   */
  lemma MulIntAsWrittenScale(a: Fixed, n: int)
    requires a.Valid() && !a.fmt.isWidened && a.fmt.rawType.width < 64
    requires InRange(WidenedRaw(a.fmt.rawType).value, a.raw * n)
    requires InRange(WidenedRaw(a.fmt.rawType).value, n)
    ensures MulIntDefined(a, n)
    ensures Value(MulIntAsWritten(a, n)) == Value(a) * n as real / Pow2(a.fmt.fracBits) as real
  {
    MulIntAsWrittenExact(a, n);
    UnscaledProductValue(a, n, MulIntAsWritten(a, n));
  }

  /** The as-written integer product is exact whenever the raw product fits the widened type. */
  lemma MulIntAsWrittenExact(a: Fixed, n: int)
    requires a.Valid() && !a.fmt.isWidened && a.fmt.rawType.width < 64
    requires InRange(WidenedRaw(a.fmt.rawType).value, a.raw * n)
    requires InRange(WidenedRaw(a.fmt.rawType).value, n)
    ensures MulIntDefined(a, n)
    ensures MulIntAsWritten(a, n).raw == a.raw * n
  {
    var wt := WidenedRaw(a.fmt.rawType).value;
    CastsToWider(a.fmt, a.raw);
    WrapInRange(wt, n);
    SameTypeExact(Op.Mul, wt, a.raw, n);
    WrapInRange(wt, a.raw * n);
  }

  /**
   * The discrepancy on a concrete input: for fixed_point<int32_t, 16, 16>,
   * 1.0 * 2 narrowed back to the 16.16 type has raw value 2 (about 0.00003)
   * where 2.0 has raw value 0x2_0000.
   */
  lemma MulIntAsWrittenExample()
    ensures var fmt := Format(Int32, 16, 16, false);
      var one := FromInt(fmt, 1);
      fmt.Valid() && one.raw == 0x1_0000 && MulIntDefined(one, 2) &&
      ToNarrowed(MulIntAsWritten(one, 2)).raw == 2 && FromInt(fmt, 2).raw == 0x2_0000
  {
    var fmt := Format(Int32, 16, 16, false);
    Pow2Of16();
    var one := FromInt(fmt, 1);
    assert one.raw == 0x1_0000 && FromInt(fmt, 2).raw == 0x2_0000 by {
      IntRoundTrip(fmt, 1, Int32);
      IntRoundTrip(fmt, 2, Int32);
    }
    assert MulIntDefined(one, 2) && MulIntAsWritten(one, 2).raw == 0x2_0000 by {
      assert InRange(WidenedRaw(Int32).value, 0x2_0000) && InRange(WidenedRaw(Int32).value, 2) by {
        Pow2Of32();
        WiderKeeps(Int32, WidenedRaw(Int32).value, 0x2_0000);
        WiderKeeps(Int32, WidenedRaw(Int32).value, 2);
      }
      MulIntAsWrittenExact(one, 2);
    }
    WidenedIsCompanion(fmt);
    NarrowedExact(MulIntAsWritten(one, 2), 0x2_0000);
    DivModUnique(0x2_0000, Pow2(16), 2, 0);
    WrapInRange(Int32, 2);
  }

  /**
   * `fixed * integer` as evidently intended: the integer carries no fractional
   * bits, so it is scaled by 2^F on its way into the widened companion, which
   * is `lhs` converted to the widened type times the integer. The reversed
   * order `integer * fixed` is the same product.
   */
  predicate MulIntScaledDefined(a: Fixed, n: int)
    requires a.fmt.rawType.width < 64
  {
    var wt := WidenedRaw(a.fmt.rawType).value;
    ArithDefined(Op.Mul, wt, Wrap(wt, a.raw * Pow2(a.fmt.fracBits)), wt, Wrap(wt, n))
  }

  function MulInt(a: Fixed, n: int): (r: Fixed)
    requires a.Valid() && !a.fmt.isWidened && a.fmt.rawType.width < 64
    requires MulIntScaledDefined(a, n)
    ensures Widened(a.fmt).Some? && r.fmt == Widened(a.fmt).value && r.Valid()
    ensures r.raw == Wrap(r.fmt.rawType, a.raw * Pow2(a.fmt.fracBits) * n)
  {
    WidenedCompanion(a.fmt);
    var g := Widened(a.fmt).value;
    var wt := g.rawType;
    var x := ToWidened(a).raw;
    WrapInRange(wt, x);
    var m := Wrap(wt, n);
    SameTypeArith(Op.Mul, wt, x, m, wt);
    WrapMulCongruent(wt, n, x);
    FromRaw(g, Compute(Op.Mul, wt, x, wt, m))
  }

  /** The corrected integer product is exact whenever it fits the widened type. */
  lemma MulIntExact(a: Fixed, n: int)
    requires a.Valid() && !a.fmt.isWidened && a.fmt.rawType.width < 64
    requires InRange(WidenedRaw(a.fmt.rawType).value, a.raw * Pow2(a.fmt.fracBits) * n)
    requires InRange(WidenedRaw(a.fmt.rawType).value, n)
    ensures MulIntScaledDefined(a, n)
    ensures MulInt(a, n).raw == a.raw * Pow2(a.fmt.fracBits) * n
  {
    var wt := WidenedRaw(a.fmt.rawType).value;
    var p := Pow2(a.fmt.fracBits);
    WidenFits(a.fmt, a.raw);
    WrapInRange(wt, a.raw * p);
    WrapInRange(wt, n);
    SameTypeExact(Op.Mul, wt, a.raw * p, n);
    WrapInRange(wt, a.raw * p * n);
  }

  /**
   * The corrected integer product is the product of the numbers whenever it
   * fits the widened type.
   */
  lemma MulIntIsProduct(a: Fixed, n: int)
    requires a.Valid() && !a.fmt.isWidened && a.fmt.rawType.width < 64
    requires InRange(WidenedRaw(a.fmt.rawType).value, a.raw * Pow2(a.fmt.fracBits) * n)
    requires InRange(WidenedRaw(a.fmt.rawType).value, n)
    ensures MulIntScaledDefined(a, n)
    ensures Value(MulInt(a, n)) == Value(a) * n as real
  {
    MulIntExact(a, n);
    ScaledProductValue(a, n, MulInt(a, n));
  }

  /**
   * Narrowing the corrected integer product back to the original type gives
   * the integer multiple of the raw value, reduced to the width of the type.
   */
  lemma MulIntNarrowsBack(a: Fixed, n: int)
    requires a.Valid() && !a.fmt.isWidened && a.fmt.rawType.width < 64
    requires InRange(WidenedRaw(a.fmt.rawType).value, a.raw * Pow2(a.fmt.fracBits) * n)
    requires InRange(WidenedRaw(a.fmt.rawType).value, n)
    ensures MulIntScaledDefined(a, n)
    ensures WidenedIsCompanionOf(a.fmt) && ToNarrowed(MulInt(a, n)) == FromRaw(a.fmt, a.raw * n)
  {
    MulIntExact(a, n);
    WidenedIsCompanion(a.fmt);
    var p := Pow2(a.fmt.fracBits);
    NarrowedExact(MulInt(a, n), a.raw * p * n);
    MulDivMiddle(a.raw, p, n);
  }

  /**
   * `widened * integer`: the widened operand is narrowed first and the
   * integer product taken in the narrowed type, whose widened companion is
   * the operand's own type. `integer * widened` is the same.
   */
  function MulIntWidened(w: Fixed, n: int): (r: Fixed)
    requires w.Valid() && IsWidenedCompanion(w.fmt)
    requires MulIntScaledDefined(ToNarrowed(w), n)
    ensures r.Valid() && r.fmt == w.fmt
    ensures var nf := Narrowed(w.fmt).value;
      r.raw == Wrap(w.fmt.rawType, Wrap(nf.rawType, w.raw / Pow2(nf.fracBits)) * Pow2(nf.fracBits) * n)
  {
    var a := ToNarrowed(w);
    ToNarrowedHalves(w);
    assert a.fmt == Narrowed(w.fmt).value && Widened(a.fmt).value == w.fmt;
    MulInt(a, n)
  }

  // ---------------------------------------------------------------------------
  // Division

  /**
   * `fixed / fixed` of one unwidened type: the dividend is cast to the
   * widened raw type and shifted left by F there, then divided (truncating
   * toward zero) by the divisor's raw cell, and the quotient stored back in
   * the raw type. The pre-scaling keeps the F fractional bits of the quotient.
   */
  function Div(a: Fixed, b: Fixed): (r: Fixed)
    requires a.Valid() && b.Valid() && a.fmt == b.fmt
    requires !a.fmt.isWidened && a.fmt.rawType.width < 64 && b.raw != 0
    ensures r.Valid() && r.fmt == a.fmt
    ensures r.raw == Wrap(a.fmt.rawType, TruncDiv(a.raw * Pow2(a.fmt.fracBits), b.raw))
  {
    var t := a.fmt.rawType;
    WidenedCompanion(a.fmt);
    var wt := Widened(a.fmt).value.rawType;
    CastsToWider(a.fmt, a.raw);
    PrescaledQuotient(a.fmt, a.raw, b.raw);
    var s := Compute(Shl, wt, Wrap(wt, a.raw), UInt32, a.fmt.fracBits);
    FromRaw(a.fmt, Compute(Op.Div, Promote(wt), s, t, b.raw))
  }

  /**
   * The steps of the pre-scaled division: the shift in the promoted widened
   * type is exact, and the division of it by a raw value is defined and
   * exact, since the quotient is no larger than the dividend.
   */
  lemma PrescaledQuotient(fmt: Format, x: int, y: int)
    requires fmt.Valid() && fmt.rawType.width < 64 && InRange(fmt.rawType, x) && InRange(fmt.rawType, y) && y != 0
    ensures Widened(fmt).Some?
    ensures var wt, s := Widened(fmt).value.rawType, x * Pow2(fmt.fracBits);
      ArithDefined(Shl, wt, Wrap(wt, x), UInt32, fmt.fracBits) &&
      Compute(Shl, wt, Wrap(wt, x), UInt32, fmt.fracBits) == s &&
      ArithDefined(Op.Div, Promote(wt), s, fmt.rawType, y) &&
      Compute(Op.Div, Promote(wt), s, fmt.rawType, y) == TruncDiv(s, y)
  {
    var t := fmt.rawType;
    WidenedCompanion(fmt);
    var wt := Widened(fmt).value.rawType;
    var pw := Promote(wt);
    var s := x * Pow2(fmt.fracBits);
    ValidSplitsWidth(fmt);
    CastsToWider(fmt, x);
    WidenFits(fmt, x);
    ShiftLeftValue(wt, x, fmt.fracBits);
    PromoteKeepsRange(wt, s);
    WrapInRange(pw, s);
    WidenedCommon(t, wt);
    WiderKeeps(t, wt, y);
    PromoteKeepsRange(wt, y);
    if pw.signed {
      if t.signed {
        PromoteKeepsRange(wt, -s);
      } else {
        assert t.width < 32 && 0 <= s < 0x1_0000;
      }
      QuotientInRange(pw, s, y);
    }
    QuotientExact(pw, s, t, y);
  }

  /** A raw type and the promoted widened type compute in the promoted widened type. */
  lemma WidenedCommon(t: Native, wt: Native)
    requires t.width < 64 && wt == WidenedRaw(t).value
    ensures Common(Promote(wt), t) == Promote(wt) && Common(wt, t) == Promote(wt)
  {
  }

  /**
   * The quotient is the pre-scaled dividend divided with truncation toward
   * zero: when it fits the raw type, the division equation holds with a
   * remainder smaller than the divisor and of the dividend's sign, and
   * dividing by one returns the dividend.
   */
  lemma DivIsTruncatedQuotient(a: Fixed, b: Fixed)
    requires a.Valid() && b.Valid() && a.fmt == b.fmt
    requires !a.fmt.isWidened && a.fmt.rawType.width < 64 && b.raw != 0
    requires InRange(a.fmt.rawType, TruncDiv(a.raw * Pow2(a.fmt.fracBits), b.raw))
    ensures var q, d := Div(a, b).raw, a.raw * Pow2(a.fmt.fracBits);
      d == b.raw * q + TruncRem(d, b.raw) && Abs(TruncRem(d, b.raw)) < Abs(b.raw) &&
      (TruncRem(d, b.raw) == 0 || (TruncRem(d, b.raw) < 0 <==> d < 0))
    ensures b.raw == Pow2(a.fmt.fracBits) ==> Div(a, b) == a
  {
    var d := a.raw * Pow2(a.fmt.fracBits);
    WrapInRange(a.fmt.rawType, TruncDiv(d, b.raw));
    TruncDivSpec(d, b.raw);
    TruncDivExact(a.raw, Pow2(a.fmt.fracBits));
    WrapInRange(a.fmt.rawType, a.raw);
  }

  /**
   * `widened / narrowed`: the widened raw cell is divided by the narrowed one
   * (in the promoted widened type) and the quotient stored in the narrowed
   * type. A dividend with 2f fractional bits divided by a divisor with f
   * leaves f, those of the narrowed type, so no pre-scaling is needed.
   */
  function DivWidenedNarrow(w: Fixed, n: Fixed): (r: Fixed)
    requires w.Valid() && n.Valid() && IsWidenedCompanion(w.fmt) && n.fmt == Narrowed(w.fmt).value
    requires ArithDefined(Op.Div, w.fmt.rawType, w.raw, n.fmt.rawType, n.raw)
    ensures r.Valid() && r.fmt == n.fmt
    ensures n.raw != 0 && r.raw == Wrap(n.fmt.rawType, TruncDiv(w.raw, n.raw))
  {
    var wt, t := w.fmt.rawType, n.fmt.rawType;
    WidenedCommon(t, wt);
    CommonSymmetric(wt, t);
    WiderKeeps(t, wt, n.raw);
    PromoteKeepsRange(wt, n.raw);
    PromoteKeepsRange(wt, w.raw);
    QuotientExact(wt, w.raw, t, n.raw);
    FromRaw(n.fmt, Compute(Op.Div, wt, w.raw, t, n.raw))
  }

  /** Dividing an exact product by one of its factors gives back the other. */
  lemma DivUndoesMul(a: Fixed, b: Fixed)
    requires a.Valid() && b.Valid() && a.fmt == b.fmt
    requires !a.fmt.isWidened && a.fmt.rawType.width < 64 && b.raw != 0
    ensures IsWidenedCompanion(Mul(a, b).fmt) && Narrowed(Mul(a, b).fmt) == Some(a.fmt)
    ensures ArithDefined(Op.Div, Mul(a, b).fmt.rawType, Mul(a, b).raw, b.fmt.rawType, b.raw)
    ensures DivWidenedNarrow(Mul(a, b), b) == a
  {
    WidenedIsCompanion(a.fmt);
    var w := Mul(a, b);
    var wt, t := w.fmt.rawType, a.fmt.rawType;
    WidenedCommon(t, wt);
    CommonSymmetric(wt, t);
    WiderKeeps(t, wt, b.raw);
    PromoteKeepsRange(wt, b.raw);
    PromoteKeepsRange(wt, w.raw);
    TruncDivExact(a.raw, b.raw);
    WiderKeeps(t, wt, a.raw);
    PromoteKeepsRange(wt, a.raw);
    QuotientExact(wt, w.raw, t, b.raw);
    WrapInRange(t, a.raw);
  }

  /** `narrowed / widened`: the widened divisor is narrowed first, then `fixed / fixed`. */
  function DivNarrowWidened(n: Fixed, w: Fixed): (r: Fixed)
    requires w.Valid() && n.Valid() && IsWidenedCompanion(w.fmt) && n.fmt == Narrowed(w.fmt).value
    requires ToNarrowed(w).raw != 0
    ensures r.Valid() && r.fmt == n.fmt
    ensures r.raw == Wrap(n.fmt.rawType, TruncDiv(n.raw * Pow2(n.fmt.fracBits), ToNarrowed(w).raw))
  {
    Div(n, ToNarrowed(w))
  }

  /** `widened / widened`: the divisor is narrowed first, then `widened / narrowed`. */
  function DivWidenedWidened(v: Fixed, w: Fixed): (r: Fixed)
    requires v.Valid() && w.Valid() && v.fmt == w.fmt && IsWidenedCompanion(v.fmt)
    requires ArithDefined(Op.Div, v.fmt.rawType, v.raw, Narrowed(v.fmt).value.rawType, ToNarrowed(w).raw)
    ensures r.Valid() && r.fmt == Narrowed(v.fmt).value
    ensures r.raw == Wrap(r.fmt.rawType, TruncDiv(v.raw, ToNarrowed(w).raw))
  {
    DivWidenedNarrow(v, ToNarrowed(w))
  }

  /**
   * `fixed / integer` (for unwidened and widened types alike): the raw cell is
   * divided by the integer in the usual arithmetic conversions of the raw type
   * and the integer's type nt, and the quotient stored back; the scale is
   * unchanged.
   */
  function DivInt(a: Fixed, nt: Native, n: int): (r: Fixed)
    requires a.Valid() && InRange(nt, n)
    requires ArithDefined(Op.Div, a.fmt.rawType, a.raw, nt, n)
    ensures r.Valid() && r.fmt == a.fmt
    ensures r.raw == Wrap(a.fmt.rawType, Compute(Op.Div, a.fmt.rawType, a.raw, nt, n))
  {
    FromRaw(a.fmt, Compute(Op.Div, a.fmt.rawType, a.raw, nt, n))
  }

  /**
   * With a divisor type of the raw type's signedness, `fixed / integer`
   * divides the raw cell by the integer, truncating toward zero; it is
   * defined exactly when the integer is nonzero and a signed quotient fits.
   */
  lemma DivIntSameSignedness(a: Fixed, nt: Native, n: int)
    requires a.Valid() && InRange(nt, n) && nt.signed == a.fmt.rawType.signed
    ensures var t, c := a.fmt.rawType, Common(a.fmt.rawType, nt);
      ArithDefined(Op.Div, t, a.raw, nt, n) <==> n != 0 && (c.signed ==> InRange(c, TruncDiv(a.raw, n)))
    ensures ArithDefined(Op.Div, a.fmt.rawType, a.raw, nt, n) ==>
      n != 0 && DivInt(a, nt, n).raw == Wrap(a.fmt.rawType, TruncDiv(a.raw, n))
  {
    var t := a.fmt.rawType;
    CommonKeeps(t, nt, a.raw);
    CommonKeeps(nt, t, n);
    CommonSymmetric(t, nt);
    QuotientExact(t, a.raw, nt, n);
  }

  /**
   * With an unsigned 32-bit divisor and a signed 32-bit raw type, the raw cell
   * is converted to unsigned before the division: -1.0 in 16.16 divided by 2u
   * is 32767.5, not -0.5.
   */
  lemma DivIntUnsignedDivisor()
    ensures var fmt := Format(Int32, 16, 16, false);
      var minusOne := FromRaw(fmt, -0x1_0000);
      fmt.Valid() && ArithDefined(Op.Div, Int32, minusOne.raw, UInt32, 2) &&
      DivInt(minusOne, UInt32, 2).raw == 0x7FFF_8000
  {
    var fmt := Format(Int32, 16, 16, false);
    WrapInRange(Int32, -0x1_0000);
    assert Common(Int32, UInt32) == UInt32;
    assert Wrap(UInt32, -0x1_0000) == 0xFFFF_0000;
    WrapInRange(UInt32, 2);
    WrapInRange(UInt32, 0x7FFF_8000);
    WrapInRange(Int32, 0x7FFF_8000);
  }

  // ---------------------------------------------------------------------------
  // Multiply-accumulate

  /**
   * `widened + narrowed`: the narrowed operand is converted to the widened
   * type (cast, then shifted left by F/2) and the two widened values added.
   * `narrowed + widened` is written `rhs + lhs` and is the same sum.
   */
  function AddWidenedNarrow(w: Fixed, n: Fixed): (r: Fixed)
    requires w.Valid() && n.Valid() && IsWidenedCompanion(w.fmt) && n.fmt == Narrowed(w.fmt).value
    requires ArithDefined(Op.Add, w.fmt.rawType, w.raw, w.fmt.rawType, n.raw * Pow2(n.fmt.fracBits))
    ensures r.Valid() && r.fmt == w.fmt
    ensures r.raw == Wrap(w.fmt.rawType, w.raw + n.raw * Pow2(n.fmt.fracBits))
  {
    // the explicit conversion to the widened type is ToWidened
    Add(w, ToWidened(n))
  }

  /** `widened - narrowed`: `lhs - (widened)rhs`. */
  function SubWidenedNarrow(w: Fixed, n: Fixed): (r: Fixed)
    requires w.Valid() && n.Valid() && IsWidenedCompanion(w.fmt) && n.fmt == Narrowed(w.fmt).value
    requires ArithDefined(Op.Sub, w.fmt.rawType, w.raw, w.fmt.rawType, n.raw * Pow2(n.fmt.fracBits))
    ensures r.Valid() && r.fmt == w.fmt
    ensures r.raw == Wrap(w.fmt.rawType, w.raw - n.raw * Pow2(n.fmt.fracBits))
  {
    Sub(w, ToWidened(n))
  }

  /** `narrowed - widened`: `(widened)lhs - rhs`. */
  function SubNarrowWidened(n: Fixed, w: Fixed): (r: Fixed)
    requires w.Valid() && n.Valid() && IsWidenedCompanion(w.fmt) && n.fmt == Narrowed(w.fmt).value
    requires ArithDefined(Op.Sub, w.fmt.rawType, n.raw * Pow2(n.fmt.fracBits), w.fmt.rawType, w.raw)
    ensures r.Valid() && r.fmt == w.fmt
    ensures r.raw == Wrap(w.fmt.rawType, n.raw * Pow2(n.fmt.fracBits) - w.raw)
  {
    Sub(ToWidened(n), w)
  }

  /**
   * A widened companion value whose raw cell is x narrows to x floored to half
   * the fractional bits, reduced to the narrowed type.
   */
  lemma NarrowedExact(s: Fixed, x: int)
    requires s.Valid() && IsWidenedCompanion(s.fmt) && s.raw == x
    ensures ToNarrowed(s) == FromRaw(Narrowed(s.fmt).value, x / Pow2(Narrowed(s.fmt).value.fracBits))
  {
    ToNarrowedHalves(s);
  }

  /**
   * `a * b + c * d` for four values of one unwidened type: both products are
   * exact in the widened type and their sum is added there, and narrowing the
   * result back to the original type floors the sum to F fractional bits.
   */
  lemma MultiplyAccumulate(a: Fixed, b: Fixed, c: Fixed, d: Fixed)
    requires a.Valid() && b.Valid() && c.Valid() && d.Valid()
    requires a.fmt == b.fmt == c.fmt == d.fmt && !a.fmt.isWidened && a.fmt.rawType.width < 64
    requires InRange(WidenedRaw(a.fmt.rawType).value, a.raw * b.raw + c.raw * d.raw)
    ensures var wt := WidenedRaw(a.fmt.rawType).value;
      ArithDefined(Op.Add, wt, Mul(a, b).raw, wt, Mul(c, d).raw) &&
      Add(Mul(a, b), Mul(c, d)).raw == a.raw * b.raw + c.raw * d.raw
    ensures WidenedIsCompanionOf(a.fmt) &&
      ToNarrowed(Add(Mul(a, b), Mul(c, d))) ==
      FromRaw(a.fmt, (a.raw * b.raw + c.raw * d.raw) / Pow2(a.fmt.fracBits))
  {
    WidenedIsCompanion(a.fmt);
    var wt := WidenedRaw(a.fmt.rawType).value;
    var ab, cd := Mul(a, b), Mul(c, d);
    SameTypeExact(Op.Add, wt, ab.raw, cd.raw);
    var s := Add(ab, cd);
    WrapInRange(wt, ab.raw + cd.raw);
    NarrowedExact(s, ab.raw + cd.raw);
  }

  /** The widened sum behind `a * b + c` is exact when it fits. */
  lemma MultiplyAddExact(a: Fixed, b: Fixed, c: Fixed)
    requires a.Valid() && b.Valid() && c.Valid()
    requires a.fmt == b.fmt == c.fmt && !a.fmt.isWidened && a.fmt.rawType.width < 64
    requires InRange(WidenedRaw(a.fmt.rawType).value, a.raw * b.raw + c.raw * Pow2(a.fmt.fracBits))
    ensures IsWidenedCompanion(Mul(a, b).fmt) && Narrowed(Mul(a, b).fmt) == Some(c.fmt)
    ensures var wt := WidenedRaw(a.fmt.rawType).value;
      ArithDefined(Op.Add, wt, Mul(a, b).raw, wt, c.raw * Pow2(c.fmt.fracBits)) &&
      AddWidenedNarrow(Mul(a, b), c).raw == a.raw * b.raw + c.raw * Pow2(a.fmt.fracBits)
  {
    WidenedIsCompanion(a.fmt);
    var wt := WidenedRaw(a.fmt.rawType).value;
    var p := Pow2(a.fmt.fracBits);
    var ab := Mul(a, b);
    WidenFits(c.fmt, c.raw);
    SameTypeExact(Op.Add, wt, ab.raw, c.raw * p);
    WrapInRange(wt, ab.raw + c.raw * p);
  }

  /**
   * `a * b + c`: the product is exact in the widened type, c is converted to
   * it exactly, and narrowing the sum back gives c plus the product floored to
   * F fractional bits.
   */
  lemma MultiplyAdd(a: Fixed, b: Fixed, c: Fixed)
    requires a.Valid() && b.Valid() && c.Valid()
    requires a.fmt == b.fmt == c.fmt && !a.fmt.isWidened && a.fmt.rawType.width < 64
    requires InRange(WidenedRaw(a.fmt.rawType).value, a.raw * b.raw + c.raw * Pow2(a.fmt.fracBits))
    ensures IsWidenedCompanion(Mul(a, b).fmt) && Narrowed(Mul(a, b).fmt) == Some(c.fmt)
    ensures var wt := WidenedRaw(a.fmt.rawType).value;
      ArithDefined(Op.Add, wt, Mul(a, b).raw, wt, c.raw * Pow2(c.fmt.fracBits)) &&
      AddWidenedNarrow(Mul(a, b), c).raw == a.raw * b.raw + c.raw * Pow2(a.fmt.fracBits)
    ensures ToNarrowed(AddWidenedNarrow(Mul(a, b), c)) ==
      FromRaw(a.fmt, a.raw * b.raw / Pow2(a.fmt.fracBits) + c.raw)
  {
    MultiplyAddExact(a, b, c);
    NarrowSumWithMultiple(AddWidenedNarrow(Mul(a, b), c), a.fmt, a.raw * b.raw, c.raw);
  }

  /** Narrowing a widened raw value x + c * 2^F floors x and keeps c whole. */
  lemma NarrowSumWithMultiple(s: Fixed, fmt: Format, x: int, c: int)
    requires s.Valid() && IsWidenedCompanion(s.fmt) && Narrowed(s.fmt) == Some(fmt)
    requires s.raw == x + c * Pow2(fmt.fracBits)
    ensures ToNarrowed(s) == FromRaw(fmt, x / Pow2(fmt.fracBits) + c)
  {
    NarrowedExact(s, s.raw);
    DivAddMultiple(x, c, Pow2(fmt.fracBits));
  }
}
