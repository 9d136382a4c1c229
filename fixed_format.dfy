/** An optional value: a companion type that may be `void`, a result that may be undefined. */
module Optional {
  datatype Option<T> = None | Some(value: T)
}

/**
 * The compile-time parameters of a `fixed_point<T, I, F, W>` instantiation:
 * the raw integer type T, I integral bits, F fractional bits and the widened
 * flag W; the static_asserts that decide whether an instantiation compiles;
 * the widened and narrowed companion types; and the two bit masks.
 */
module FixedFormat {
  import opened Arith
  import opened CppInt
  import opened Optional

  datatype Format = Format(rawType: Native, intBits: nat, fracBits: nat, isWidened: bool)
  {
    /**
     * The static_asserts of the class: the sign bit plus the digits of the raw
     * type are exactly I + F, and there is at least one integral bit.
     */
    predicate Valid()
    {
      SignBit(rawType) + Digits(rawType) == intBits + fracBits && intBits > 0
    }
  }

  /** For signed and unsigned raw types alike, a valid format splits the raw width into I and F. */
  lemma ValidSplitsWidth(fmt: Format)
    ensures fmt.Valid() <==> fmt.intBits > 0 && fmt.intBits + fmt.fracBits == fmt.rawType.width
    ensures fmt.Valid() && fmt.rawType.signed ==> fmt.fracBits <= fmt.rawType.width - 1
  {
  }

  /** The default template argument F = is_signed + digits - I. */
  function DefaultFormat(t: Native, i: nat): (fmt: Format)
    requires i <= t.width
    ensures fmt.rawType == t && fmt.intBits == i && !fmt.isWidened
    ensures fmt.Valid() <==> i > 0
  {
    Format(t, i, SignBit(t) + Digits(t) - i, false)
  }

  /**
   * fixed_point_widened_raw_type: the next wider type of the same signedness,
   * or `void` after 64 bits. Its modulus is the square of T's, so it holds the
   * product of any two values of T.
   */
  function WidenedRaw(t: Native): (r: Option<Native>)
    ensures r.Some? <==> t.width < 64
    ensures r.Some? ==> r.value.signed == t.signed && Modulus(r.value) == Modulus(t) * Modulus(t)
  {
    if t.width == 64 then None else var w: Native := IntType(t.signed, 2 * t.width); Some(w)
  }

  /**
   * fixed_point_narrowed_raw_type: the next narrower type of the same
   * signedness, or `void` below 16 bits. It is the type whose widened type is
   * T.
   */
  function NarrowedRaw(t: Native): (r: Option<Native>)
    ensures r.Some? <==> t.width > 8
    ensures r.Some? ==> r.value.signed == t.signed && WidenedRaw(r.value) == Some(t)
  {
    if t.width == 8 then None else var n: Native := IntType(t.signed, t.width / 2); Some(n)
  }

  /**
   * widened_fixed_type: doubled raw width, 2I, 2F, widened flag set. It is
   * valid when the original is; WidenedCompanion shows that it narrows back
   * to the unwidened original.
   */
  function Widened(fmt: Format): (r: Option<Format>)
    ensures r.Some? <==> fmt.rawType.width < 64
    ensures r.Some? ==>
      r.value.isWidened && r.value.fracBits == 2 * fmt.fracBits &&
      (fmt.Valid() ==> r.value.Valid())
  {
    match WidenedRaw(fmt.rawType)
    case None => None
    case Some(w) => Some(Format(w, 2 * fmt.intBits, 2 * fmt.fracBits, true))
  }

  /**
   * narrowed_fixed_type: halved raw width, I/2, F/2, widened flag clear. When
   * I and F are even it widens back to the original as a widened type.
   */
  function Narrowed(fmt: Format): (r: Option<Format>)
    ensures r.Some? <==> fmt.rawType.width > 8
    ensures r.Some? ==> !r.value.isWidened && r.value.rawType.signed == fmt.rawType.signed
    ensures r.Some? && fmt.intBits % 2 == 0 && fmt.fracBits % 2 == 0 ==>
      WidenedRaw(r.value.rawType) == Some(fmt.rawType) &&
      r.value.intBits * 2 == fmt.intBits && r.value.fracBits * 2 == fmt.fracBits
  {
    match NarrowedRaw(fmt.rawType)
    case None => None
    case Some(n) => Some(Format(n, fmt.intBits / 2, fmt.fracBits / 2, false))
  }

  /**
   * The widened companion exists exactly when the raw type is narrower than
   * 64 bits; when it exists it is a valid widened type of the same signedness
   * with twice the width, and narrowing it gives back the original type.
   */
  lemma WidenedCompanion(fmt: Format)
    requires fmt.Valid()
    ensures Widened(fmt).Some? <==> fmt.rawType.width < 64
    ensures Widened(fmt).Some? ==>
      var g := Widened(fmt).value;
      g.Valid() && g.isWidened && g.rawType.signed == fmt.rawType.signed &&
      g.rawType.width == 2 * fmt.rawType.width &&
      g.intBits >= fmt.intBits && g.fracBits >= fmt.fracBits &&
      (!fmt.isWidened ==> Narrowed(g) == Some(fmt))
  {
  }

  /**
   * The narrowed companion of a valid type is itself a valid type exactly when
   * a narrower raw type exists, I and F are both even and I is at least 2.
   */
  lemma NarrowedCompanion(fmt: Format)
    requires fmt.Valid()
    ensures Narrowed(fmt).Some? <==> fmt.rawType.width > 8
    ensures Narrowed(fmt).Some? ==>
      (Narrowed(fmt).value.Valid() <==>
         fmt.intBits % 2 == 0 && fmt.fracBits % 2 == 0 && fmt.intBits >= 2)
  {
  }

  /**
   * A widened type that arises as the widened companion of a valid type: its
   * narrowed companion is valid and widens back to it. Only for these do the
   * widened-type operators, which narrow their operands first, give a result of
   * the widened type itself.
   */
  predicate IsWidenedCompanion(fmt: Format)
  {
    fmt.Valid() && fmt.isWidened && Narrowed(fmt).Some? && Narrowed(fmt).value.Valid() &&
    Widened(Narrowed(fmt).value) == Some(fmt)
  }

  /** A widened companion splits into its narrowed type: half the width and half the fractional bits. */
  lemma CompanionHalves(fmt: Format)
    requires IsWidenedCompanion(fmt)
    ensures var nf := Narrowed(fmt).value;
      fmt.fracBits == 2 * nf.fracBits && fmt.rawType.width == 2 * nf.rawType.width &&
      nf.rawType.width < 64 && !nf.isWidened && nf.rawType.signed == fmt.rawType.signed
  {
  }

  lemma WidenedIsCompanion(fmt: Format)
    requires fmt.Valid() && !fmt.isWidened && fmt.rawType.width < 64
    ensures IsWidenedCompanion(Widened(fmt).value)
    ensures Narrowed(Widened(fmt).value) == Some(fmt)
  {
    WidenedCompanion(fmt);
  }

  // ---------------------------------------------------------------------------
  // Masks

  /**
   * fractional_mask exactly as the class computes it: `(raw_type (1) <<
   * fractional_bits) - 1`, the shift in the promoted raw type and the
   * subtraction in the common type of that and `int`. None when the
   * subtraction overflows a signed type, which in a constant expression is a
   * compile error.
   */
  function FractionalMaskAsWritten(fmt: Format): (r: Option<int>)
    requires fmt.Valid()
    ensures r.Some? ==> InRange(fmt.rawType, r.value)
  {
    var t := fmt.rawType;
    assert ArithDefined(Shl, t, 1, UInt32, fmt.fracBits);
    var shifted := Compute(Shl, t, 1, UInt32, fmt.fracBits);
    var pt := Promote(t);
    if ArithDefined(Sub, pt, shifted, Int32, 1) then
      Some(Wrap(t, Compute(Sub, pt, shifted, Int32, 1)))
    else
      None
  }

  /** fractional_mask as intended: the low F bits set. */
  function FractionalMask(fmt: Format): (m: int)
    requires fmt.Valid()
    ensures InRange(fmt.rawType, m) && 0 <= m
  {
    PowerBelowSign(fmt);
    Pow2(fmt.fracBits) - 1
  }

  /** 2^F is at most the weight of the raw type's top bit, and equal to it exactly when F = width - 1. */
  lemma PowerBelowSign(fmt: Format)
    requires fmt.Valid()
    ensures 1 <= Pow2(fmt.fracBits) <= HalfModulus(fmt.rawType)
    ensures Pow2(fmt.fracBits) == HalfModulus(fmt.rawType) <==> fmt.fracBits == fmt.rawType.width - 1
  {
    ModulusIsPow2(fmt.rawType);
    Pow2Mono(fmt.fracBits, fmt.rawType.width - 1);
  }

  /** integral_mask: `~fractional_mask`, stored back in the raw type. */
  function IntegralMask(fmt: Format): (m: int)
    requires fmt.Valid()
    ensures InRange(fmt.rawType, m)
  {
    Wrap(fmt.rawType, Complement(Promote(fmt.rawType), FractionalMask(fmt)))
  }

  /** The format puts a fractional bit in the sign position of a type that is not promoted. */
  predicate SignBitShift(fmt: Format)
  {
    fmt.rawType.signed && fmt.rawType.width >= 32 && fmt.fracBits == fmt.rawType.width - 1
  }

  /** `raw_type (1) << F` in the promoted raw type: 2^F, which wraps to the minimum when F is the sign bit of a 32- or 64-bit signed type. */
  lemma ShiftedOne(fmt: Format)
    requires fmt.Valid()
    ensures ArithDefined(Shl, fmt.rawType, 1, UInt32, fmt.fracBits)
    ensures Compute(Shl, fmt.rawType, 1, UInt32, fmt.fracBits) ==
            if SignBitShift(fmt) then -HalfModulus(fmt.rawType) else Pow2(fmt.fracBits)
  {
    var t, f := fmt.rawType, fmt.fracBits;
    ShiftOneExact(t, f);
    PowerBelowSign(fmt);
    if SignBitShift(fmt) {
      assert Wrap(t, HalfModulus(t)) == -HalfModulus(t);
    } else {
      assert Pow2(f) < HalfModulus(t) || !t.signed || t.width < 32;
      WrapInRange(Promote(t), Pow2(f));
    }
  }

  lemma ShiftOneExact(t: Native, f: nat)
    requires f < t.width
    ensures ArithDefined(Shl, t, 1, UInt32, f)
    ensures Compute(Shl, t, 1, UInt32, f) == Wrap(Promote(t), Pow2(f))
  {
    var pt := Promote(t);
    WrapInRange(pt, 1);
    assert Exact(pt, Shl, 1, f) == Pow2(f);
  }

  /**
   * The mask as written is the intended one for every format except a signed
   * 32- or 64-bit raw type with F = width - 1, where it does not compile.
   */
  lemma FractionalMaskAsWrittenAgrees(fmt: Format)
    requires fmt.Valid()
    ensures FractionalMaskAsWritten(fmt).None? <==> SignBitShift(fmt)
    ensures FractionalMaskAsWritten(fmt).Some? ==> FractionalMaskAsWritten(fmt).value == FractionalMask(fmt)
  {
    var t, f := fmt.rawType, fmt.fracBits;
    ShiftedOne(fmt);
    if SignBitShift(fmt) {
      SubOneOverflows(t);
    } else {
      PowerBelowSign(fmt);
      SubOneFits(t, Pow2(f));
      WrapInRange(t, FractionalMask(fmt));
    }
  }

  /** The minimum of a signed 32- or 64-bit type minus one overflows. */
  lemma SubOneOverflows(t: Native)
    requires t.signed && t.width >= 32
    ensures !ArithDefined(Sub, t, -HalfModulus(t), Int32, 1)
  {
    CommonWithInt(t);
    OperandsKept(Sub, t, -HalfModulus(t), Int32, 1);
  }

  /** Subtracting one from a positive value of the promoted type is exact. */
  lemma SubOneFits(t: Native, x: int)
    requires InRange(Promote(t), x) && x >= 1
    ensures ArithDefined(Sub, Promote(t), x, Int32, 1)
    ensures Compute(Sub, Promote(t), x, Int32, 1) == x - 1
  {
    var pt := Promote(t);
    CommonWithInt(pt);
    OperandsKept(Sub, pt, x, Int32, 1);
    WrapInRange(pt, x - 1);
  }

  /** The finding in one instance: fixed_point<int32_t, 1, 31> has no fractional_mask as written. */
  lemma FractionalMaskOverflowExample()
    ensures Format(Int32, 1, 31, false).Valid()
    ensures FractionalMaskAsWritten(Format(Int32, 1, 31, false)).None?
    ensures FractionalMask(Format(Int32, 1, 31, false)) == 0x7FFF_FFFF
  {
    FractionalMaskAsWrittenAgrees(Format(Int32, 1, 31, false));
    Pow2Of32();
  }

  /** The bit pattern of fractional_mask in a raw cell: the low F bits. */
  lemma FractionalMaskPattern(fmt: Format)
    requires fmt.Valid()
    ensures Pattern(fmt.rawType, FractionalMask(fmt)) == Pow2(fmt.fracBits) - 1
  {
    PowerBelowSign(fmt);
    ModOfSmall(Pow2(fmt.fracBits) - 1, Modulus(fmt.rawType));
  }

  /** The bit pattern of integral_mask in a raw cell: every bit above the low F. */
  lemma IntegralMaskPattern(fmt: Format)
    requires fmt.Valid()
    ensures IntegralMask(fmt) == Wrap(fmt.rawType, -Pow2(fmt.fracBits))
    ensures Pattern(fmt.rawType, IntegralMask(fmt)) == Modulus(fmt.rawType) - Pow2(fmt.fracBits)
  {
    var t := fmt.rawType;
    var f := Pow2(fmt.fracBits);
    assert Complement(Promote(t), FractionalMask(fmt)) == Wrap(Promote(t), -f);
    WrapThroughWider(t, Promote(t), -f);
    WrapMod(t, -f);
    PowerBelowSign(fmt);
    DivModUnique(-f, Modulus(t), -1, Modulus(t) - f);
  }

  /** The two masks together cover every bit of the cell. */
  lemma MasksCover(fmt: Format)
    requires fmt.Valid()
    ensures Pattern(fmt.rawType, FractionalMask(fmt)) + Pattern(fmt.rawType, IntegralMask(fmt)) ==
            Modulus(fmt.rawType) - 1
  {
    FractionalMaskPattern(fmt);
    IntegralMaskPattern(fmt);
  }

  /** The two masks share no bit. */
  lemma MasksDisjoint(fmt: Format)
    requires fmt.Valid()
    ensures AndBits(fmt.rawType.width, Pattern(fmt.rawType, FractionalMask(fmt)),
                    Pattern(fmt.rawType, IntegralMask(fmt))) == 0
  {
    var t := fmt.rawType;
    MaskPatterns(fmt);
    LowAndHighDisjoint(t.width, fmt.fracBits, Pattern(t, FractionalMask(fmt)), Pattern(t, IntegralMask(fmt)));
  }

  /** Both masks' bit patterns in a w-bit cell, as naturals. */
  lemma MaskPatterns(fmt: Format)
    requires fmt.Valid()
    ensures Pattern(fmt.rawType, FractionalMask(fmt)) == Pow2(fmt.fracBits) - 1
    ensures Pattern(fmt.rawType, IntegralMask(fmt)) == Pow2(fmt.rawType.width) - Pow2(fmt.fracBits)
  {
    FractionalMaskPattern(fmt);
    IntegralMaskPattern(fmt);
    ModulusIsPow2(fmt.rawType);
  }

  lemma LowAndHighDisjoint(w: nat, f: nat, low: int, high: int)
    requires f <= w && low == Pow2(f) - 1 && high == Pow2(w) - Pow2(f)
    ensures AndBits(w, low, high) == 0
  {
    Pow2Mono(f, w);
    AndHighMask(w, f, Pow2(f) - 1);
    ModOfSmall(Pow2(f) - 1, Pow2(f));
    AndCommutes(w, Pow2(f) - 1, Pow2(w) - Pow2(f));
  }

  /**
   * Any raw value splits along the masks: its fractional-mask part is its
   * value modulo 2^F, and the two parts add up to its bit pattern.
   */
  lemma MasksSplitValue(fmt: Format, x: int)
    requires fmt.Valid()
    ensures var t, w := fmt.rawType, fmt.rawType.width;
      var fm, im := Pattern(t, FractionalMask(fmt)), Pattern(t, IntegralMask(fmt));
      AndBits(w, Pattern(t, x), fm) == x % Pow2(fmt.fracBits) &&
      AndBits(w, Pattern(t, x), fm) + AndBits(w, Pattern(t, x), im) == Pattern(t, x)
  {
    var t := fmt.rawType;
    MaskPatterns(fmt);
    ModulusIsPow2(t);
    SplitByMasks(t.width, fmt.fracBits, x, Pattern(t, x), Pattern(t, FractionalMask(fmt)), Pattern(t, IntegralMask(fmt)));
  }

  /** The w-bit pattern u of x, anded with the low-f-bit and the high-bit masks. */
  lemma SplitByMasks(w: nat, f: nat, x: int, u: int, low: int, high: int)
    requires f <= w && u == x % Pow2(w) && low == Pow2(f) - 1 && high == Pow2(w) - Pow2(f)
    ensures AndBits(w, u, low) == x % Pow2(f) && AndBits(w, u, low) + AndBits(w, u, high) == u
  {
    Pow2Mono(f, w);
    AndLowMask(w, f, u);
    AndHighMask(w, f, u);
    ModPow2Narrower(x, f, w);
  }

  lemma {:induction false} AndCommutes(w: nat, x: int, y: int)
    ensures AndBits(w, x, y) == AndBits(w, y, x)
  {
    if w > 0 {
      AndCommutes(w - 1, x / 2, y / 2);
    }
  }
}
