/**
 * A fixed_point value: one raw integer cell of the format's raw type, read
 * as raw / 2^F. This module holds the value itself, its construction from
 * and conversion to integers, the conversion between formats
 * (`convert_to`, the widened and narrowed companions) and the comparisons.
 */
module FixedPoint {
  import opened Arith
  import opened CppInt
  import opened Optional
  import opened FixedFormat

  datatype Fixed = Fixed(fmt: Format, raw: int)
  {
    /** An instantiation that compiles, holding a value of its raw type. */
    predicate Valid()
    {
      fmt.Valid() && InRange(fmt.rawType, raw)
    }
  }

  /** The number a value stands for: raw / 2^F. */
  ghost function Value(a: Fixed): real
  {
    a.raw as real / Pow2(a.fmt.fracBits) as real
  }

  /**
   * The raw-init constructor `fixed_point (raw, FIXED_POINT_RAW)`: its
   * parameter is a `const raw_type&`, so the argument is converted to the raw
   * type on the way in.
   */
  function FromRaw(fmt: Format, x: int): (r: Fixed)
    requires fmt.Valid()
    ensures r.Valid() && r.fmt == fmt
    ensures r.raw % Modulus(fmt.rawType) == x % Modulus(fmt.rawType)
    ensures InRange(fmt.rawType, x) ==> r.raw == x
    ensures r.raw == Wrap(fmt.rawType, x)
  {
    WrapMod(fmt.rawType, x);
    if InRange(fmt.rawType, x) then WrapInRange(fmt.rawType, x); Fixed(fmt, Wrap(fmt.rawType, x))
    else Fixed(fmt, Wrap(fmt.rawType, x))
  }

  // ---------------------------------------------------------------------------
  // Integers

  /**
   * Construction from an integer, `cast<integral>::from`: the integer is cast
   * to the raw type and shifted left by F. The raw cell holds n * 2^F reduced
   * modulo 2^width.
   */
  function FromInt(fmt: Format, n: int): (r: Fixed)
    requires fmt.Valid()
    ensures r.Valid() && r.fmt == fmt
    ensures r.raw == Wrap(fmt.rawType, n * Pow2(fmt.fracBits))
  {
    var t := fmt.rawType;
    ShiftLeftValue(t, Wrap(t, n), fmt.fracBits);
    WrapMulCongruent(t, n, Pow2(fmt.fracBits));
    FromRaw(fmt, Compute(Shl, t, Wrap(t, n), UInt32, fmt.fracBits))
  }

  /**
   * Conversion to an integer type, `cast<integral>::to`: an arithmetic right
   * shift by F, then a cast to the integer type ot. The result is the floor of
   * the value, converted to ot.
   */
  function ToInt(a: Fixed, ot: Native): (r: int)
    requires a.Valid()
    ensures InRange(ot, r)
    ensures r == Wrap(ot, a.raw / Pow2(a.fmt.fracBits))
  {
    ShiftRightValue(a.fmt.rawType, a.raw, a.fmt.fracBits);
    Wrap(ot, Compute(Shr, a.fmt.rawType, a.raw, UInt32, a.fmt.fracBits))
  }

  /** An integer whose scaled value fits the raw type comes back out unchanged. */
  lemma IntRoundTrip(fmt: Format, n: int, ot: Native)
    requires fmt.Valid() && InRange(fmt.rawType, n * Pow2(fmt.fracBits)) && InRange(ot, n)
    ensures FromInt(fmt, n).raw == n * Pow2(fmt.fracBits)
    ensures Value(FromInt(fmt, n)) == n as real
    ensures ToInt(FromInt(fmt, n), ot) == n
  {
    var p := Pow2(fmt.fracBits);
    WrapInRange(fmt.rawType, n * p);
    MulDivCancel(n, p);
    WrapInRange(ot, n);
    ScaledValue(n, p);
  }

  lemma ScaledValue(n: int, p: int)
    requires p > 0
    ensures (n * p) as real / p as real == n as real
  {
  }

  /**
   * The integer part is the floor of the value: when it fits the integer
   * type, it is the greatest integer k with k * 2^F <= raw.
   */
  lemma ToIntIsFloor(a: Fixed, ot: Native)
    requires a.Valid() && InRange(ot, a.raw / Pow2(a.fmt.fracBits))
    ensures var k, p := ToInt(a, ot), Pow2(a.fmt.fracBits);
      k * p <= a.raw < (k + 1) * p
  {
    var p := Pow2(a.fmt.fracBits);
    WrapInRange(ot, a.raw / p);
    FloorBracket(a.raw, p);
  }

  /** `explicit operator bool`: the value is nonzero. */
  function ToBool(a: Fixed): (r: bool)
    ensures r <==> Value(a) != 0.0
  {
    a.raw != 0
  }

  /** `operator !`: the value is zero. */
  function Not(a: Fixed): (r: bool)
    ensures r <==> !ToBool(a)
  {
    a.raw == 0
  }

  // ---------------------------------------------------------------------------
  // Relationals: all six compare the raw cells of two values of one format,
  // which compares the numbers they stand for.

  /** `operator ==`: equal raw cells, the same value and the same number. */
  function Eq(a: Fixed, b: Fixed): (r: bool)
    requires a.fmt == b.fmt
    ensures r <==> a == b
    ensures r <==> Value(a) == Value(b)
  {
    ScaledOrder(a.raw, b.raw, Pow2(a.fmt.fracBits));
    a.raw == b.raw
  }

  /** `operator !=`: different numbers. */
  function Ne(a: Fixed, b: Fixed): (r: bool)
    requires a.fmt == b.fmt
    ensures r <==> Value(a) != Value(b)
  {
    ScaledOrder(a.raw, b.raw, Pow2(a.fmt.fracBits));
    a.raw != b.raw
  }

  /** `operator <`: a smaller number. */
  function Lt(a: Fixed, b: Fixed): (r: bool)
    requires a.fmt == b.fmt
    ensures r <==> Value(a) < Value(b)
  {
    ScaledOrder(a.raw, b.raw, Pow2(a.fmt.fracBits));
    a.raw < b.raw
  }

  /** `operator <=`: a smaller or equal number. */
  function Le(a: Fixed, b: Fixed): (r: bool)
    requires a.fmt == b.fmt
    ensures r <==> Value(a) <= Value(b)
  {
    ScaledOrder(a.raw, b.raw, Pow2(a.fmt.fracBits));
    a.raw <= b.raw
  }

  /** `operator >`: a greater number. */
  function Gt(a: Fixed, b: Fixed): (r: bool)
    requires a.fmt == b.fmt
    ensures r <==> Value(a) > Value(b)
  {
    ScaledOrder(a.raw, b.raw, Pow2(a.fmt.fracBits));
    a.raw > b.raw
  }

  /** `operator >=`: a greater or equal number. */
  function Ge(a: Fixed, b: Fixed): (r: bool)
    requires a.fmt == b.fmt
    ensures r <==> Value(a) >= Value(b)
  {
    ScaledOrder(a.raw, b.raw, Pow2(a.fmt.fracBits));
    a.raw >= b.raw
  }

  /**
   * The six relationals form one total order on the values of a format:
   * `!=` is the complement of `==`, `>` and `>=` are `<` and `<=` reversed,
   * `<=` is `<` or `==`, and exactly one of `<`, `==`, `>` holds.
   */
  lemma RelationalsAreOneOrder(a: Fixed, b: Fixed)
    requires a.fmt == b.fmt
    ensures Ne(a, b) <==> !Eq(a, b)
    ensures Gt(a, b) <==> Lt(b, a)
    ensures Ge(a, b) <==> Le(b, a)
    ensures Le(a, b) <==> Lt(a, b) || Eq(a, b)
    ensures Lt(a, b) || Eq(a, b) || Gt(a, b)
    ensures !(Lt(a, b) && Gt(a, b)) && !(Lt(a, b) && Eq(a, b)) && !(Eq(a, b) && Gt(a, b))
  {
  }

  lemma ScaledOrder(x: int, y: int, p: int)
    requires p > 0
    ensures x < y <==> x as real / p as real < y as real / p as real
    ensures x == y <==> x as real / p as real == y as real / p as real
  {
  }

  /** The number a sum of raw cells stands for, at one scale. */
  lemma SumValue(a: Fixed, b: Fixed, r: Fixed)
    requires a.fmt.fracBits == b.fmt.fracBits == r.fmt.fracBits && r.raw == a.raw + b.raw
    ensures Value(r) == Value(a) + Value(b)
  {
  }

  /** The number a difference of raw cells stands for, at one scale. */
  lemma DifferenceValue(a: Fixed, b: Fixed, r: Fixed)
    requires a.fmt.fracBits == b.fmt.fracBits == r.fmt.fracBits && r.raw == a.raw - b.raw
    ensures Value(r) == Value(a) - Value(b)
  {
  }

  /** A product of raw cells with F fractional bits each has 2F fractional bits. */
  lemma ProductValue(a: Fixed, b: Fixed, r: Fixed)
    requires a.fmt.fracBits == b.fmt.fracBits && r.fmt.fracBits == 2 * a.fmt.fracBits
    requires r.raw == a.raw * b.raw
    ensures Value(r) == Value(a) * Value(b)
  {
    var p := Pow2(a.fmt.fracBits);
    Pow2Add(a.fmt.fracBits, a.fmt.fracBits);
    RealProduct(a.raw, b.raw, p);
  }

  lemma RealProduct(x: int, y: int, p: int)
    requires p > 0
    ensures (x * y) as real / (p * p) as real == (x as real / p as real) * (y as real / p as real)
  {
  }

  /** A raw cell scaled by 2^F and by an integer n, read with 2F fractional bits, is n times the value. */
  lemma ScaledProductValue(a: Fixed, n: int, r: Fixed)
    requires r.fmt.fracBits == 2 * a.fmt.fracBits
    requires r.raw == a.raw * Pow2(a.fmt.fracBits) * n
    ensures Value(r) == Value(a) * n as real
  {
    var p := Pow2(a.fmt.fracBits);
    Pow2Add(a.fmt.fracBits, a.fmt.fracBits);
    assert r.raw == (a.raw * n) * p;
    RealScale(a.raw * n, p, p);
  }

  /** A raw cell x * n, read with 2F fractional bits, is n times the value divided by 2^F. */
  lemma UnscaledProductValue(a: Fixed, n: int, r: Fixed)
    requires r.fmt.fracBits == 2 * a.fmt.fracBits
    requires r.raw == a.raw * n
    ensures Value(r) == Value(a) * n as real / Pow2(a.fmt.fracBits) as real
  {
    var p := Pow2(a.fmt.fracBits);
    Pow2Add(a.fmt.fracBits, a.fmt.fracBits);
    RealRescaled(a.raw, n, p);
  }

  lemma RealRescaled(x: int, n: int, p: int)
    requires p > 0
    ensures (x * n) as real / (p * p) as real == x as real / p as real * n as real / p as real
  {
  }

  /** The comparisons with integer 0 that abs and copysign make: 0 converts to the raw value 0. */
  lemma ZeroIsRawZero(fmt: Format)
    requires fmt.Valid()
    ensures FromInt(fmt, 0).raw == 0 && Value(FromInt(fmt, 0)) == 0.0
  {
    WrapInRange(fmt.rawType, 0);
  }

  // ---------------------------------------------------------------------------
  // Conversion between formats

  /**
   * The raw value of a number with f fractional bits rescaled to g fractional
   * bits: multiplied by 2^(g-f) when g >= f, floor-divided by 2^(f-g) when g < f.
   */
  function Rescale(x: int, f: nat, g: nat): int
  {
    if g >= f then x * Pow2(g - f) else x / Pow2(f - g)
  }

  /**
   * `convert_to<destT, destI, destF, destW>`, which the explicit converting
   * constructor and the conversion operators use. With equal F the raw value
   * is cast to destT; with a finer destination it is cast first and shifted
   * left; with a coarser one it is shifted right first (an arithmetic,
   * flooring shift) and cast after. Either way the destination cell holds the
   * rescaled raw value reduced to the destination type.
   */
  function ConvertTo(a: Fixed, dest: Format): (r: Fixed)
    requires a.Valid() && dest.Valid()
    ensures r.Valid() && r.fmt == dest
    ensures r.raw == Wrap(dest.rawType, Rescale(a.raw, a.fmt.fracBits, dest.fracBits))
  {
    var t, dt := a.fmt.rawType, dest.rawType;
    var f, g := a.fmt.fracBits, dest.fracBits;
    ValidSplitsWidth(a.fmt);
    ValidSplitsWidth(dest);
    if g == f then
      SameScale(dt, a.raw, f);
      FromRaw(dest, Wrap(dt, a.raw))
    else if g > f then
      CastThenShift(dt, a.raw, g - f);
      FromRaw(dest, Compute(Shl, dt, Wrap(dt, a.raw), UInt32, g - f))
    else
      ShiftRightValue(t, a.raw, f - g);
      FromRaw(dest, Compute(Shr, t, a.raw, UInt32, f - g))
  }

  lemma SameScale(dt: Native, x: int, f: nat)
    ensures Wrap(dt, Wrap(dt, x)) == Wrap(dt, Rescale(x, f, f))
  {
    WrapThroughWider(dt, dt, x);
    assert Pow2(0) == 1;
  }

  /** `static_cast<destT> (x) << s`, stored in destT: x * 2^s reduced to destT. */
  lemma CastThenShift(dt: Native, x: int, s: nat)
    requires s < dt.width
    ensures ArithDefined(Shl, dt, Wrap(dt, x), UInt32, s)
    ensures Wrap(dt, Compute(Shl, dt, Wrap(dt, x), UInt32, s)) == Wrap(dt, x * Pow2(s))
  {
    ShiftLeftValue(dt, Wrap(dt, x), s);
    WrapMulCongruent(dt, x, Pow2(s));
  }

  /**
   * Converting to a format with at least as many fractional bits, when the
   * rescaled raw value fits the destination type, keeps the number exactly,
   * and converting back gives the original value.
   */
  lemma ConvertToFinerIsExact(a: Fixed, dest: Format)
    requires a.Valid() && dest.Valid() && dest.fracBits >= a.fmt.fracBits
    requires InRange(dest.rawType, a.raw * Pow2(dest.fracBits - a.fmt.fracBits))
    ensures ConvertTo(a, dest).raw == a.raw * Pow2(dest.fracBits - a.fmt.fracBits)
    ensures Value(ConvertTo(a, dest)) == Value(a)
    ensures ConvertTo(ConvertTo(a, dest), a.fmt) == a
  {
    var f, g := a.fmt.fracBits, dest.fracBits;
    var q := Pow2(g - f);
    WrapInRange(dest.rawType, a.raw * q);
    Pow2Add(f, g - f);
    RealScale(a.raw, Pow2(f), q);
    MulDivCancel(a.raw, q);
    WrapInRange(a.fmt.rawType, a.raw);
  }

  lemma RealScale(x: int, p: int, q: int)
    requires p > 0 && q > 0
    ensures (x * q) as real / (p * q) as real == x as real / p as real
  {
  }

  /**
   * Converting to a format with fewer fractional bits rounds toward minus
   * infinity: when the result fits, it is the greatest number of the
   * destination's resolution not above the original.
   */
  lemma ConvertToCoarserIsFloor(a: Fixed, dest: Format)
    requires a.Valid() && dest.Valid() && dest.fracBits < a.fmt.fracBits
    requires InRange(dest.rawType, a.raw / Pow2(a.fmt.fracBits - dest.fracBits))
    ensures var r, p := ConvertTo(a, dest), Pow2(a.fmt.fracBits - dest.fracBits);
      r.raw * p <= a.raw < (r.raw + 1) * p
  {
    var p := Pow2(a.fmt.fracBits - dest.fracBits);
    WrapInRange(dest.rawType, a.raw / p);
    FloorBracket(a.raw, p);
  }

  /**
   * The implicit conversion to widened_fixed_type: a raw type twice as wide,
   * 2I integral and 2F fractional bits. Every value converts exactly.
   */
  function ToWidened(a: Fixed): (r: Fixed)
    requires a.Valid() && a.fmt.rawType.width < 64
    ensures Widened(a.fmt).Some? && r.fmt == Widened(a.fmt).value && r.Valid()
    ensures r.raw == a.raw * Pow2(a.fmt.fracBits)
    ensures Value(r) == Value(a)
  {
    WidenedCompanion(a.fmt);
    WidenFits(a.fmt, a.raw);
    ConvertToFinerIsExact(a, Widened(a.fmt).value);
    ConvertTo(a, Widened(a.fmt).value)
  }

  /**
   * A value of a valid format, scaled by 2^F, fits the raw type twice as wide:
   * a signed value is at most 2^(w-1) in magnitude and 2^F is at most 2^(w-1),
   * an unsigned value is below 2^w and 2^F is at most 2^(w-1). A signed
   * scaled value also has its negation in range.
   */
  lemma WidenFits(fmt: Format, x: int)
    requires fmt.Valid() && fmt.rawType.width < 64 && InRange(fmt.rawType, x)
    ensures Widened(fmt).Some?
    ensures InRange(Widened(fmt).value.rawType, x * Pow2(fmt.fracBits))
    ensures fmt.rawType.signed ==> InRange(Widened(fmt).value.rawType, -(x * Pow2(fmt.fracBits)))
  {
    var t := fmt.rawType;
    var wt := Widened(fmt).value.rawType;
    var h, p := HalfModulus(t), Pow2(fmt.fracBits);
    PowerBelowSign(fmt);
    WiderModulus(t, wt);
    ProductBound(x, p, h);
  }

  /**
   * A product of two values of a valid format fits the raw type twice as wide:
   * the widening multiplication never overflows.
   */
  lemma MulFits(fmt: Format, x: int, y: int)
    requires fmt.Valid() && fmt.rawType.width < 64 && InRange(fmt.rawType, x) && InRange(fmt.rawType, y)
    ensures Widened(fmt).Some?
    ensures InRange(Widened(fmt).value.rawType, x * y)
  {
    var t := fmt.rawType;
    var wt := Widened(fmt).value.rawType;
    WiderModulus(t, wt);
    if t.signed {
      ProductBoundSigned(x, y, HalfModulus(t));
    } else {
      ProductBoundNat(x, y, Modulus(t));
    }
  }

  /** The moduli of a type and of the type of the same signedness twice as wide. */
  lemma WiderModulus(t: Native, wt: Native)
    requires t.width < 64 && wt.width == 2 * t.width
    ensures HalfModulus(wt) == 2 * HalfModulus(t) * HalfModulus(t)
    ensures Modulus(wt) == Modulus(t) * Modulus(t)
    ensures Modulus(t) == 2 * HalfModulus(t)
  {
  }

  lemma ProductBound(x: int, p: int, h: int)
    requires 1 <= p <= h && -h <= x < 2 * h
    ensures -(h * h) <= x * p < 2 * h * h
    ensures x < h ==> x * p <= h * h
  {
    if x > 0 {
      ScaleMono(x, p, h);
      if x < h {
        ScaleMono(h, x, h);
      } else {
        ScaleMono(h, x, 2 * h - 1);
        assert h * (2 * h - 1) == 2 * h * h - h;
      }
    } else if x < 0 {
      ScaleMono(-x, p, h);
      ScaleMono(h, -x, h);
      ScaleUp(p, -x);
    }
  }

  lemma ProductBoundSigned(x: int, y: int, h: int)
    requires h >= 1 && -h <= x <= h && -h <= y <= h
    ensures -(h * h) <= x * y <= h * h
  {
    var ax: int := if x < 0 then -x else x;
    var ay: int := if y < 0 then -y else y;
    MagnitudeBound(ax, ay, h);
    ProductMagnitude(x, y, ax, ay);
  }

  lemma MagnitudeBound(ax: int, ay: int, h: int)
    requires 0 <= ax <= h && 0 <= ay <= h
    ensures 0 <= ax * ay <= h * h
  {
    if ay > 0 {
      ScaleMono(ay, ax, h);
      ScaleMono(h, ay, h);
    }
  }

  lemma ProductMagnitude(x: int, y: int, ax: int, ay: int)
    requires ax == (if x < 0 then -x else x) && ay == (if y < 0 then -y else y)
    ensures x * y == ax * ay || x * y == -(ax * ay)
  {
    if x < 0 && y < 0 {
      assert x * y == (-x) * (-y);
    } else if x < 0 {
      assert x * y == -((-x) * y);
    } else if y < 0 {
      assert x * y == -(x * (-y));
    }
  }

  lemma ProductBoundNat(x: int, y: int, m: int)
    requires 0 <= x < m && 0 <= y < m
    ensures 0 <= x * y < m * m
  {
    if y > 0 {
      ScaleMono(y, x, m - 1);
      ScaleMono(m, y, m - 1);
      assert m * (m - 1) == m * m - m;
    }
  }

  /**
   * The implicit conversion to narrowed_fixed_type: a raw type half as wide,
   * I/2 integral and F/2 fractional bits, widened flag clear. The value is
   * floored to the coarser resolution and reduced to the narrower type.
   */
  function ToNarrowed(a: Fixed): (r: Fixed)
    requires a.Valid() && Narrowed(a.fmt).Some? && Narrowed(a.fmt).value.Valid()
    ensures r.fmt == Narrowed(a.fmt).value && r.Valid()
    ensures r.raw == Wrap(r.fmt.rawType, Rescale(a.raw, a.fmt.fracBits, r.fmt.fracBits))
  {
    ConvertTo(a, Narrowed(a.fmt).value)
  }

  /** Narrowing a widened companion value floors it to half the fractional bits. */
  lemma ToNarrowedHalves(w: Fixed)
    requires w.Valid() && IsWidenedCompanion(w.fmt)
    ensures var nf := Narrowed(w.fmt).value;
      ToNarrowed(w).raw == Wrap(nf.rawType, w.raw / Pow2(nf.fracBits))
  {
    CompanionHalves(w.fmt);
    var f := Narrowed(w.fmt).value.fracBits;
    assert 2 * f - f == f;
  }

  /** Widening and narrowing back is the identity on an unwidened value. */
  lemma NarrowWidenRoundTrip(a: Fixed)
    requires a.Valid() && !a.fmt.isWidened && a.fmt.rawType.width < 64
    ensures WidenedIsCompanionOf(a.fmt)
    ensures ToNarrowed(ToWidened(a)) == a
  {
    WidenedIsCompanion(a.fmt);
    WidenFits(a.fmt, a.raw);
    ConvertToFinerIsExact(a, Widened(a.fmt).value);
  }

  predicate WidenedIsCompanionOf(fmt: Format)
  {
    Widened(fmt).Some? && Narrowed(Widened(fmt).value) == Some(fmt)
  }
}
