/**
 * A fixed_point object as a variable: the compound assignments `+=`, `-=`,
 * `*=`, `/=` and the increment and decrement operators replace the raw cell
 * of the object in place. What each one stores is given by a function of the
 * old value and the operand; the lemmas below say what those functions
 * compute.
 */
module FixedVars {
  import opened Arith
  import opened CppInt
  import opened FixedFormat
  import opened FixedPoint
  import opened FixedArith
  import opened FixedMath

  // ---------------------------------------------------------------------------
  // What the compound assignments store

  /**
   * `fixed_point (1)`, the operand of `++` and `--`. It is the number 1, raw
   * 2^F, unless F puts the top bit of a signed raw type in the fractional
   * part: then 2^F does not fit and the value wraps around to the minimum, -1.
   */
  function One(fmt: Format): (r: Fixed)
    requires fmt.Valid()
    ensures r.Valid() && r.fmt == fmt
    ensures var t, p := fmt.rawType, Pow2(fmt.fracBits);
      r.raw == (if t.signed && fmt.fracBits == t.width - 1 then -p else p)
    ensures Value(r) == (if fmt.rawType.signed && fmt.fracBits == fmt.rawType.width - 1 then -1.0 else 1.0)
  {
    var t, p := fmt.rawType, Pow2(fmt.fracBits);
    var k := if t.signed && fmt.fracBits == t.width - 1 then -1 else 1;
    var r := FromInt(fmt, 1);
    PowerBelowSign(fmt);
    assert r.raw == Wrap(t, p);
    WrapOfPower(t, p, fmt.fracBits == t.width - 1);
    assert r.raw == p * k;
    WholeValue(r, k);
    r
  }

  /** A power of two no greater than the sign bit's weight converts to itself, or wraps to minus itself at the sign bit. */
  lemma WrapOfPower(t: Native, p: int, atSign: bool)
    requires 1 <= p <= HalfModulus(t) && (p == HalfModulus(t) <==> atSign)
    ensures Wrap(t, p) == (if t.signed && atSign then -p else p)
  {
    ModulusIsPow2(t);
    if t.signed && atSign {
      ModOfSmall(p, Modulus(t));
    } else {
      WrapInRange(t, p);
    }
  }

  /** The formats `*=` compiles for: an unwidened type below 64 bits, or a widened companion type. */
  predicate MulAssignable(fmt: Format)
  {
    if fmt.isWidened then IsWidenedCompanion(fmt) else fmt.Valid() && fmt.rawType.width < 64
  }

  /**
   * What `a *= b` stores: for an unwidened type, `(fixed_point)(a * b)`, the
   * widened product narrowed back; for a widened type, `a * b`, which
   * narrows both operands and multiplies back into the widened type.
   */
  function MulAssigned(a: Fixed, b: Fixed): (r: Fixed)
    requires a.Valid() && b.Valid() && a.fmt == b.fmt && MulAssignable(a.fmt)
    ensures r.Valid() && r.fmt == a.fmt
  {
    if a.fmt.isWidened then MulWidenedWidened(a, b)
    else
      WidenedIsCompanion(a.fmt);
      ToNarrowed(FixedArith.Mul(a, b))
  }

  /**
   * For an unwidened type `*=` stores the exact product of the raw cells
   * floored to F fractional bits and reduced to the raw type.
   */
  lemma MulAssignFloorsProduct(a: Fixed, b: Fixed)
    requires a.Valid() && b.Valid() && a.fmt == b.fmt
    requires !a.fmt.isWidened && a.fmt.rawType.width < 64
    ensures MulAssignable(a.fmt)
    ensures MulAssigned(a, b) == FromRaw(a.fmt, a.raw * b.raw / Pow2(a.fmt.fracBits))
  {
    WidenedIsCompanion(a.fmt);
    NarrowedExact(FixedArith.Mul(a, b), a.raw * b.raw);
  }

  /** When the product needs no more than F fractional bits and fits, `*=` stores the product of the numbers. */
  lemma MulAssignExact(a: Fixed, b: Fixed)
    requires a.Valid() && b.Valid() && a.fmt == b.fmt
    requires !a.fmt.isWidened && a.fmt.rawType.width < 64
    requires (a.raw * b.raw) % Pow2(a.fmt.fracBits) == 0
    requires InRange(a.fmt.rawType, a.raw * b.raw / Pow2(a.fmt.fracBits))
    ensures MulAssignable(a.fmt)
    ensures Value(MulAssigned(a, b)) == Value(a) * Value(b)
  {
    var k := a.raw * b.raw / Pow2(a.fmt.fracBits);
    MulAssignFloorsProduct(a, b);
    WrapInRange(a.fmt.rawType, k);
    ExactProductValue(a, b, k);
  }

  /**
   * On widened values that came from widening, `*=` keeps the full product:
   * it stores what `a * b` gives for the original values.
   */
  lemma MulAssignWidenedKeepsProduct(a: Fixed, b: Fixed)
    requires a.Valid() && b.Valid() && a.fmt == b.fmt
    requires !a.fmt.isWidened && a.fmt.rawType.width < 64
    ensures MulAssignable(ToWidened(a).fmt)
    ensures MulAssigned(ToWidened(a), ToWidened(b)) == FixedArith.Mul(a, b)
  {
    MixedProductsAgree(a, b);
  }

  /** `a *= n` with an integer n is defined: the (corrected) integer product does not overflow. */
  predicate MulIntAssignDefined(a: Fixed, n: int)
    requires a.Valid() && MulAssignable(a.fmt)
  {
    if a.fmt.isWidened then MulIntScaledDefined(ToNarrowed(a), n) else MulIntScaledDefined(a, n)
  }

  /**
   * What `a *= n` stores for an integer n: `a * n` (the corrected integer
   * product), narrowed back for an unwidened type; for a widened type the
   * product of the narrowed operand, which is of the widened type already.
   */
  function MulIntAssigned(a: Fixed, n: int): (r: Fixed)
    requires a.Valid() && MulAssignable(a.fmt) && MulIntAssignDefined(a, n)
    ensures r.Valid() && r.fmt == a.fmt
  {
    if a.fmt.isWidened then MulIntWidened(a, n)
    else
      WidenedIsCompanion(a.fmt);
      ToNarrowed(MulInt(a, n))
  }

  /**
   * For an unwidened type `*= n` multiplies the raw cell by n, reduced to the
   * raw type, and when that fits it multiplies the number by n.
   */
  lemma MulIntAssignMultiplies(a: Fixed, n: int)
    requires a.Valid() && !a.fmt.isWidened && a.fmt.rawType.width < 64
    requires InRange(WidenedRaw(a.fmt.rawType).value, a.raw * Pow2(a.fmt.fracBits) * n)
    requires InRange(WidenedRaw(a.fmt.rawType).value, n)
    ensures MulAssignable(a.fmt) && MulIntAssignDefined(a, n)
    ensures MulIntAssigned(a, n) == FromRaw(a.fmt, a.raw * n)
    ensures InRange(a.fmt.rawType, a.raw * n) ==> Value(MulIntAssigned(a, n)) == Value(a) * n as real
  {
    MulIntNarrowsBack(a, n);
    if InRange(a.fmt.rawType, a.raw * n) {
      WrapInRange(a.fmt.rawType, a.raw * n);
      IntMultipleValue(a, n, MulIntAssigned(a, n));
    }
  }

  /** A raw cell n times another, at one scale, stands for n times the number. */
  lemma IntMultipleValue(a: Fixed, n: int, r: Fixed)
    requires r.fmt.fracBits == a.fmt.fracBits && r.raw == a.raw * n
    ensures Value(r) == Value(a) * n as real
  {
  }

  /** `a /= b` is defined: the divisor is nonzero, and for a widened type the narrowed divisor's quotient fits. */
  predicate DivAssignDefined(a: Fixed, b: Fixed)
    requires a.Valid() && b.Valid() && a.fmt == b.fmt && MulAssignable(a.fmt)
  {
    if a.fmt.isWidened then
      ArithDefined(Op.Div, a.fmt.rawType, a.raw, Narrowed(a.fmt).value.rawType, ToNarrowed(b).raw)
    else
      b.raw != 0
  }

  /**
   * What `a /= b` stores: `a / b`. For a widened type that quotient is of the
   * narrowed type, and assigning it converts it back to the widened type.
   */
  function DivAssigned(a: Fixed, b: Fixed): (r: Fixed)
    requires a.Valid() && b.Valid() && a.fmt == b.fmt && MulAssignable(a.fmt) && DivAssignDefined(a, b)
    ensures r.Valid() && r.fmt == a.fmt
  {
    if a.fmt.isWidened then
      CompanionHalves(a.fmt);
      ToWidened(DivWidenedWidened(a, b))
    else
      FixedArith.Div(a, b)
  }

  /**
   * `/=` on the widened forms of two values stores the widened form of their
   * quotient: the widened division loses nothing the unwidened one keeps.
   */
  lemma DivAssignWidenedAgrees(x: Fixed, y: Fixed)
    requires x.Valid() && y.Valid() && x.fmt == y.fmt
    requires !x.fmt.isWidened && x.fmt.rawType.width < 64 && y.raw != 0
    ensures MulAssignable(ToWidened(x).fmt) && DivAssignDefined(ToWidened(x), ToWidened(y))
    ensures DivAssigned(ToWidened(x), ToWidened(y)) == ToWidened(FixedArith.Div(x, y))
  {
    WidenedIsCompanion(x.fmt);
    NarrowWidenRoundTrip(y);
    PrescaledQuotient(x.fmt, x.raw, y.raw);
    WidenedCommon(x.fmt.rawType, WidenedRaw(x.fmt.rawType).value);
  }

  // ---------------------------------------------------------------------------
  // The object

  /** A fixed_point object: its format and its raw cell `value`. */
  class FixedVar {
    const fmt: Format
    var raw: int

    ghost predicate Valid()
      reads this
    {
      fmt.Valid() && InRange(fmt.rawType, raw)
    }

    /** The value the object holds. */
    function Get(): Fixed
      reads this
    {
      Fixed(fmt, raw)
    }

    constructor (v: Fixed)
      requires v.Valid()
      ensures Valid() && Get() == v
    {
      fmt := v.fmt;
      raw := v.raw;
    }

    /** `+=`: `*this = *this + rhs`. */
    method AddAssign(rhs: Fixed)
      requires Valid() && rhs.Valid() && rhs.fmt == fmt
      requires ArithDefined(Op.Add, fmt.rawType, raw, fmt.rawType, rhs.raw)
      modifies this
      ensures Valid() && Get() == FixedArith.Add(old(Get()), rhs)
    {
      raw := FixedArith.Add(Get(), rhs).raw;
    }

    /** `-=`: `value -= rhs.value`, the raw cells subtracted in the promoted type and stored back. */
    method SubAssign(rhs: Fixed)
      requires Valid() && rhs.Valid() && rhs.fmt == fmt
      requires ArithDefined(Op.Sub, fmt.rawType, raw, fmt.rawType, rhs.raw)
      modifies this
      ensures Valid() && Get() == FixedArith.Sub(old(Get()), rhs)
    {
      raw := Wrap(fmt.rawType, Compute(Op.Sub, fmt.rawType, raw, fmt.rawType, rhs.raw));
    }

    /** `*=` with a fixed_point operand. */
    method MulAssign(rhs: Fixed)
      requires Valid() && rhs.Valid() && rhs.fmt == fmt && MulAssignable(fmt)
      modifies this
      ensures Valid() && Get() == MulAssigned(old(Get()), rhs)
    {
      raw := MulAssigned(Get(), rhs).raw;
    }

    /** `*=` with an integer operand. */
    method MulAssignInt(n: int)
      requires Valid() && MulAssignable(fmt) && MulIntAssignDefined(Get(), n)
      modifies this
      ensures Valid() && Get() == MulIntAssigned(old(Get()), n)
    {
      raw := MulIntAssigned(Get(), n).raw;
    }

    /** `/=` with a fixed_point operand. */
    method DivAssign(rhs: Fixed)
      requires Valid() && rhs.Valid() && rhs.fmt == fmt && MulAssignable(fmt) && DivAssignDefined(Get(), rhs)
      modifies this
      ensures Valid() && Get() == DivAssigned(old(Get()), rhs)
    {
      raw := DivAssigned(Get(), rhs).raw;
    }

    /** `/=` with an integer operand n of type nt: `*this = *this / n`. */
    method DivAssignInt(nt: Native, n: int)
      requires Valid() && InRange(nt, n) && ArithDefined(Op.Div, fmt.rawType, raw, nt, n)
      modifies this
      ensures Valid() && Get() == DivInt(old(Get()), nt, n)
    {
      raw := DivInt(Get(), nt, n).raw;
    }

    /** Prefix `++`: `*this += fixed_point (1)`. */
    method PreIncrement()
      requires Valid() && ArithDefined(Op.Add, fmt.rawType, raw, fmt.rawType, One(fmt).raw)
      modifies this
      ensures Valid() && Get() == FixedArith.Add(old(Get()), One(fmt))
    {
      AddAssign(One(fmt));
    }

    /** Postfix `++`: the old value is returned, then `*this += fixed_point (1)`. */
    method PostIncrement() returns (prev: Fixed)
      requires Valid() && ArithDefined(Op.Add, fmt.rawType, raw, fmt.rawType, One(fmt).raw)
      modifies this
      ensures prev == old(Get()) && Valid() && Get() == FixedArith.Add(prev, One(fmt))
    {
      prev := Get();
      AddAssign(One(fmt));
    }

    /** Prefix `--`: `*this -= fixed_point (1)`. */
    method PreDecrement()
      requires Valid() && ArithDefined(Op.Sub, fmt.rawType, raw, fmt.rawType, One(fmt).raw)
      modifies this
      ensures Valid() && Get() == FixedArith.Sub(old(Get()), One(fmt))
    {
      SubAssign(One(fmt));
    }

    /** Postfix `--`: the old value is returned, then `*this -= fixed_point (1)`. */
    method PostDecrement() returns (prev: Fixed)
      requires Valid() && ArithDefined(Op.Sub, fmt.rawType, raw, fmt.rawType, One(fmt).raw)
      modifies this
      ensures prev == old(Get()) && Valid() && Get() == FixedArith.Sub(prev, One(fmt))
    {
      prev := Get();
      SubAssign(One(fmt));
    }
  }

  // ---------------------------------------------------------------------------
  // Increment and decrement

  /**
   * When 1 is representable and the sum fits, `++` adds one to the number
   * and `--` takes one away.
   */
  lemma IncrementAddsOne(a: Fixed)
    requires a.Valid() && !(a.fmt.rawType.signed && a.fmt.fracBits == a.fmt.rawType.width - 1)
    requires InRange(a.fmt.rawType, a.raw + Pow2(a.fmt.fracBits))
    ensures ArithDefined(Op.Add, a.fmt.rawType, a.raw, a.fmt.rawType, One(a.fmt).raw)
    ensures FixedArith.Add(a, One(a.fmt)).raw == a.raw + Pow2(a.fmt.fracBits)
    ensures Value(FixedArith.Add(a, One(a.fmt))) == Value(a) + 1.0
  {
    AddExact(a, One(a.fmt));
  }

  lemma DecrementSubtractsOne(a: Fixed)
    requires a.Valid() && !(a.fmt.rawType.signed && a.fmt.fracBits == a.fmt.rawType.width - 1)
    requires InRange(a.fmt.rawType, a.raw - Pow2(a.fmt.fracBits))
    ensures ArithDefined(Op.Sub, a.fmt.rawType, a.raw, a.fmt.rawType, One(a.fmt).raw)
    ensures FixedArith.Sub(a, One(a.fmt)).raw == a.raw - Pow2(a.fmt.fracBits)
    ensures Value(FixedArith.Sub(a, One(a.fmt))) == Value(a) - 1.0
  {
    SubExact(a, One(a.fmt));
  }

  /** `--` undoes `++` whenever both are defined, wrap-around included. */
  lemma DecrementUndoesIncrement(a: Fixed)
    requires a.Valid()
    requires ArithDefined(Op.Add, a.fmt.rawType, a.raw, a.fmt.rawType, One(a.fmt).raw)
    requires ArithDefined(Op.Sub, a.fmt.rawType, FixedArith.Add(a, One(a.fmt)).raw, a.fmt.rawType, One(a.fmt).raw)
    ensures FixedArith.Sub(FixedArith.Add(a, One(a.fmt)), One(a.fmt)) == a
  {
    AddThenSub(a, One(a.fmt));
  }

  /**
   * In fixed_point<int8_t, 1, 7> the number 1 does not exist: `fixed_point
   * (1)` is -1, so incrementing zero gives -1.
   */
  lemma IncrementWithoutOne()
    ensures var fmt := Format(Int8, 1, 7, false);
      fmt.Valid() && ArithDefined(Op.Add, Int8, 0, Int8, One(fmt).raw) &&
      FixedArith.Add(FromInt(fmt, 0), One(fmt)).raw == -0x80 &&
      Value(FixedArith.Add(FromInt(fmt, 0), One(fmt))) == -1.0
  {
    var fmt := Format(Int8, 1, 7, false);
    Pow2Of8();
    ZeroIsRawZero(fmt);
    AddExact(FromInt(fmt, 0), One(fmt));
  }
}
