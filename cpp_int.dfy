/**
 * The C++ fixed-width integer types int8_t … uint64_t and the parts of C++
 * integer arithmetic that both headers rely on:
 *  - the value range of each type;
 *  - conversion to a type (`static_cast`, or the implicit conversion when a
 *    value is stored), which keeps the value modulo 2^width;
 *  - integral promotion (8- and 16-bit operands are computed as `int`) and the
 *    usual arithmetic conversions that pick the type an operator computes in;
 *  - which results are defined: signed overflow is undefined behaviour, as are
 *    a zero divisor and a shift count outside the width.
 * Left shifts follow the C++20 rule (the result is reduced modulo 2^width),
 * which is also what every C++11 compiler does for a negative left operand.
 */
module CppInt {
  import opened Arith

  datatype IntType = IntType(signed: bool, width: nat)

  /** The eight integer types a fixed-point raw cell or a register can have. */
  type Native = t: IntType | t.width == 8 || t.width == 16 || t.width == 32 || t.width == 64
    witness IntType(true, 32)

  const Int8: Native := IntType(true, 8)
  const UInt8: Native := IntType(false, 8)
  const Int16: Native := IntType(true, 16)
  const UInt16: Native := IntType(false, 16)
  const Int32: Native := IntType(true, 32)
  const UInt32: Native := IntType(false, 32)
  const Int64: Native := IntType(true, 64)
  const UInt64: Native := IntType(false, 64)

  /** std::is_signed<T>::value, as the integer 0 or 1. */
  function SignBit(t: Native): nat
  {
    if t.signed then 1 else 0
  }

  /** std::numeric_limits<T>::digits: the bits that are not the sign bit. */
  function Digits(t: Native): nat
  {
    if t.signed then t.width - 1 else t.width
  }

  /** 2^width: the number of values of the type. */
  function Modulus(t: Native): int
  {
    if t.width == 8 then 0x100
    else if t.width == 16 then 0x1_0000
    else if t.width == 32 then 0x1_0000_0000
    else 0x1_0000_0000_0000_0000
  }

  /** 2^(width-1): the weight of the top bit, the magnitude of a signed type's minimum. */
  function HalfModulus(t: Native): int
  {
    if t.width == 8 then 0x80
    else if t.width == 16 then 0x8000
    else if t.width == 32 then 0x8000_0000
    else 0x8000_0000_0000_0000
  }

  /** The literal moduli are the powers of two of the width. */
  lemma ModulusIsPow2(t: Native)
    ensures Modulus(t) == Pow2(t.width) && HalfModulus(t) == Pow2(t.width - 1)
    ensures Modulus(t) == 2 * HalfModulus(t)
  {
    if t.width == 8 {
      Pow2Of8();
    } else if t.width == 16 {
      Pow2Of16();
    } else if t.width == 32 {
      Pow2Of32();
    } else {
      Pow2Of64();
    }
  }

  lemma Pow2Of8()
    ensures Pow2(7) == 0x80 && Pow2(8) == 0x100
  {
  }

  lemma Pow2Of16()
    ensures Pow2(15) == 0x8000 && Pow2(16) == 0x1_0000
  {
    Pow2Of8();
    Pow2Add(8, 7);
    Pow2Add(8, 8);
  }

  lemma Pow2Of32()
    ensures Pow2(31) == 0x8000_0000 && Pow2(32) == 0x1_0000_0000
  {
    Pow2Of16();
    Pow2Add(16, 15);
    Pow2Add(16, 16);
  }

  lemma Pow2Of64()
    ensures Pow2(63) == 0x8000_0000_0000_0000 && Pow2(64) == 0x1_0000_0000_0000_0000
  {
    Pow2Of32();
    Pow2Add(32, 31);
    Pow2Add(32, 32);
  }

  /** std::numeric_limits<T>::min(). */
  function MinValue(t: Native): int
  {
    if t.signed then -HalfModulus(t) else 0
  }

  /** std::numeric_limits<T>::max(). */
  function MaxValue(t: Native): int
  {
    if t.signed then HalfModulus(t) - 1 else Modulus(t) - 1
  }

  predicate InRange(t: Native, x: int)
  {
    MinValue(t) <= x <= MaxValue(t)
  }

  /** Every type holds exactly 2^width values. */
  lemma RangeSize(t: Native)
    ensures MaxValue(t) - MinValue(t) + 1 == Modulus(t)
  {
  }

  /**
   * Conversion of any integer value to type t: the value of t that is
   * congruent to x modulo 2^width.
   */
  function Wrap(t: Native, x: int): (r: int)
    ensures InRange(t, r)
  {
    var m := x % Modulus(t);
    if t.signed && m >= HalfModulus(t) then m - Modulus(t) else m
  }

  /** The conversion keeps the value modulo 2^width. */
  lemma WrapMod(t: Native, x: int)
    ensures Wrap(t, x) % Modulus(t) == x % Modulus(t)
  {
    var p := Modulus(t);
    var m := x % p;
    if t.signed && m >= HalfModulus(t) {
      DivModUnique(m - p, p, -1, m);
    } else {
      DivModUnique(m, p, 0, m);
    }
  }

  /** A value the type can hold is converted unchanged. */
  lemma WrapInRange(t: Native, x: int)
    requires InRange(t, x)
    ensures Wrap(t, x) == x
  {
    var p := Modulus(t);
    if t.signed && x < 0 {
      DivModUnique(x, p, -1, x + p);
    } else {
      DivModUnique(x, p, 0, x);
    }
  }

  /** The conversion depends only on the value modulo 2^width. */
  lemma WrapCongruent(t: Native, x: int, y: int)
    requires x % Modulus(t) == y % Modulus(t)
    ensures Wrap(t, x) == Wrap(t, y)
  {
  }

  /** Adding a multiple of 2^width does not change the conversion. */
  lemma WrapShift(t: Native, x: int, k: int)
    ensures Wrap(t, x + k * Modulus(t)) == Wrap(t, x)
  {
    var p := Modulus(t);
    DivModUnique(x + k * p, p, x / p + k, x % p);
  }

  /** Converting through a type at least as wide as t first makes no difference. */
  lemma WrapThroughWider(t: Native, u: Native, x: int)
    requires t.width <= u.width
    ensures Wrap(t, Wrap(u, x)) == Wrap(t, x)
  {
    WrapMod(u, x);
    var p, q := Modulus(t), Modulus(u) / Modulus(t);
    assert p * q == Modulus(u);
    ModOfMod(Wrap(u, x), p, q);
    ModOfMod(x, p, q);
  }

  /** Multiplying a converted value gives the same conversion as multiplying the original. */
  lemma WrapMulCongruent(t: Native, x: int, k: int)
    ensures Wrap(t, Wrap(t, x) * k) == Wrap(t, x * k)
  {
    WrapMod(t, x);
    var p := Modulus(t);
    var j := Wrap(t, x) / p - x / p;
    assert Wrap(t, x) == x + j * p;
    assert Wrap(t, x) * k == x * k + (j * k) * p;
    WrapShift(t, x * k, j * k);
  }

  /** Adding to a converted value gives the same conversion as adding to the original. */
  lemma WrapAddCongruent(t: Native, x: int, k: int)
    ensures Wrap(t, Wrap(t, x) + k) == Wrap(t, x + k)
  {
    WrapMod(t, x);
    var p := Modulus(t);
    var j := Wrap(t, x) / p - x / p;
    assert Wrap(t, x) == x + j * p;
    WrapShift(t, x + k, j);
  }

  /** Converting a sum and then taking the same addend away again gives back a value the type holds. */
  lemma WrapAddThenSub(t: Native, x: int, v: int, s: int)
    requires InRange(t, x) && s == Wrap(t, x + v)
    ensures Wrap(t, s - v) == x
  {
    WrapAddCongruent(t, x + v, -v);
    WrapInRange(t, x);
  }

  /** Integral promotion: an 8- or 16-bit operand is computed as `int`. */
  function Promote(t: Native): (p: Native)
    ensures p.width >= 32
  {
    if t.width < 32 then Int32 else t
  }

  /** Promotion never changes a value. */
  lemma PromoteKeepsRange(t: Native, x: int)
    requires InRange(t, x)
    ensures InRange(Promote(t), x)
  {
  }

  /**
   * The usual arithmetic conversions: the type in which `a op b` is computed
   * for operands of types ta and tb (after promotion, the wider type wins; on
   * a tie in width the unsigned type wins; a wider signed type holds every
   * value of a narrower unsigned one).
   */
  function Common(ta: Native, tb: Native): (c: Native)
    ensures c.width >= 32
  {
    var pa, pb := Promote(ta), Promote(tb);
    if pa.signed == pb.signed then
      (if pa.width >= pb.width then pa else pb)
    else
      var s, u := (if pa.signed then pa else pb), (if pa.signed then pb else pa);
      if u.width >= s.width then u else s
  }

  lemma CommonOfSame(t: Native)
    ensures Common(t, t) == Promote(t)
  {
  }

  /** The binary operators of C++ on integers that the headers use. */
  datatype Op = Add | Sub | Mul | Div | Rem | BitXor | BitAnd | BitOr | Shr | Shl
  {
    predicate IsShift() { this == Shr || this == Shl }
  }

  /** The type `a op b` is computed in: shifts keep the promoted left operand's type. */
  function OpType(op: Op, ta: Native, tb: Native): Native
  {
    if op.IsShift() then Promote(ta) else Common(ta, tb)
  }

  /** The bit-wise and, or and exclusive or of two naturals, on their low w bits. */
  function AndBits(w: nat, x: int, y: int): int
  {
    if w == 0 then 0 else 2 * AndBits(w - 1, x / 2, y / 2) + (if x % 2 == 1 && y % 2 == 1 then 1 else 0)
  }

  function OrBits(w: nat, x: int, y: int): int
  {
    if w == 0 then 0 else 2 * OrBits(w - 1, x / 2, y / 2) + (if x % 2 == 1 || y % 2 == 1 then 1 else 0)
  }

  function XorBits(w: nat, x: int, y: int): int
  {
    if w == 0 then 0 else 2 * XorBits(w - 1, x / 2, y / 2) + (if x % 2 != y % 2 then 1 else 0)
  }

  /** The two's-complement bit pattern of x in a cell of type t, as a natural. */
  function Pattern(t: Native, x: int): int
  {
    x % Modulus(t)
  }

  /** C++'s `~x` on a value of type ct. */
  function Complement(ct: Native, x: int): int
  {
    Wrap(ct, -x - 1)
  }

  /**
   * The operand conditions of `a op b` in the operation type ct: a divisor is
   * nonzero and a shift count is within the width.
   */
  predicate OperandsOk(ct: Native, op: Op, a: int, b: int)
  {
    (op == Div || op == Rem ==> b != 0) &&
    (op.IsShift() ==> 0 <= b < ct.width)
  }

  /** The mathematical value of `a op b`, before it is reduced to the type ct. */
  function Exact(ct: Native, op: Op, a: int, b: int): int
    requires OperandsOk(ct, op, a, b)
  {
    match op
    case Add => a + b
    case Sub => a - b
    case Mul => a * b
    case Div => TruncDiv(a, b)
    case Rem => TruncRem(a, b)
    case BitXor => XorBits(ct.width, Pattern(ct, a), Pattern(ct, b))
    case BitAnd => AndBits(ct.width, Pattern(ct, a), Pattern(ct, b))
    case BitOr => OrBits(ct.width, Pattern(ct, a), Pattern(ct, b))
    case Shr => a / Pow2(b)
    case Shl => a * Pow2(b)
  }

  /**
   * Whether `a op b` is defined in C++ for operands already converted to the
   * operation type ct: the operand conditions hold, and a signed result other
   * than a shift does not overflow. A signed `%` is undefined whenever the
   * quotient `a / b` is not representable (`INT_MIN % -1`), even though the
   * remainder itself would fit.
   */
  predicate Defined(ct: Native, op: Op, a: int, b: int)
  {
    OperandsOk(ct, op, a, b) &&
    (ct.signed && (op == Add || op == Sub || op == Mul || op == Div) ==>
       InRange(ct, Exact(ct, op, a, b))) &&
    (ct.signed && op == Rem ==> InRange(ct, TruncDiv(a, b)))
  }

  /** The result of `a op b` computed in type ct. */
  function Apply(ct: Native, op: Op, a: int, b: int): int
    requires Defined(ct, op, a, b)
  {
    Wrap(ct, Exact(ct, op, a, b))
  }

  /** `a op b` for a value a of type ta and b of type tb: convert both operands, then apply. */
  predicate ArithDefined(op: Op, ta: Native, a: int, tb: Native, b: int)
  {
    var ct := OpType(op, ta, tb);
    Defined(ct, op, Wrap(ct, a), if op.IsShift() then b else Wrap(ct, b))
  }

  function Compute(op: Op, ta: Native, a: int, tb: Native, b: int): (r: int)
    requires ArithDefined(op, ta, a, tb, b)
    ensures InRange(OpType(op, ta, tb), r)
  {
    var ct := OpType(op, ta, tb);
    Apply(ct, op, Wrap(ct, a), if op.IsShift() then b else Wrap(ct, b))
  }

  /**
   * For operands that the operation type already holds, the conversions are
   * the identity: the operation is defined and computes as in that type.
   */
  lemma OperandsKept(op: Op, ta: Native, a: int, tb: Native, b: int)
    requires !op.IsShift()
    requires InRange(OpType(op, ta, tb), a) && InRange(OpType(op, ta, tb), b)
    ensures ArithDefined(op, ta, a, tb, b) <==> Defined(OpType(op, ta, tb), op, a, b)
    ensures ArithDefined(op, ta, a, tb, b) ==> Compute(op, ta, a, tb, b) == Apply(OpType(op, ta, tb), op, a, b)
  {
    var ct := OpType(op, ta, tb);
    WrapInRange(ct, a);
    WrapInRange(ct, b);
  }

  /** A type of at least 32 bits absorbs `int` in the usual arithmetic conversions. */
  lemma CommonWithInt(t: Native)
    requires t.width >= 32
    ensures Common(t, Int32) == t && InRange(t, 1) && InRange(t, 0)
  {
  }

  /**
   * `x << s` for a value x of type t and a count within the promoted width:
   * defined, and once stored back in t it is x * 2^s reduced modulo 2^width.
   */
  lemma ShiftLeftValue(t: Native, x: int, s: nat)
    requires InRange(t, x) && s < Promote(t).width
    ensures ArithDefined(Shl, t, x, UInt32, s)
    ensures Compute(Shl, t, x, UInt32, s) == Wrap(Promote(t), x * Pow2(s))
    ensures Wrap(t, Compute(Shl, t, x, UInt32, s)) == Wrap(t, x * Pow2(s))
  {
    var pt := Promote(t);
    PromoteKeepsRange(t, x);
    WrapInRange(pt, x);
    assert Compute(Shl, t, x, UInt32, s) == Wrap(pt, x * Pow2(s));
    WrapThroughWider(t, pt, x * Pow2(s));
  }

  /** `x >> s` for a value x of type t: the floor of x / 2^s, exactly. */
  lemma ShiftRightValue(t: Native, x: int, s: nat)
    requires InRange(t, x) && s < Promote(t).width
    ensures ArithDefined(Shr, t, x, UInt32, s)
    ensures Compute(Shr, t, x, UInt32, s) == x / Pow2(s)
  {
    var pt := Promote(t);
    PromoteKeepsRange(t, x);
    WrapInRange(pt, x);
    DivShrinks(x, Pow2(s));
    WrapInRange(pt, x / Pow2(s));
  }

  /** C++'s unary minus on a value of type t (computed in the promoted type). */
  predicate NegDefined(t: Native, a: int)
  {
    !Promote(t).signed || InRange(Promote(t), -Wrap(Promote(t), a))
  }

  function Negate(t: Native, a: int): int
    requires NegDefined(t, a)
  {
    Wrap(Promote(t), -Wrap(Promote(t), a))
  }

  /**
   * For two operands of the same type, defined addition, subtraction and
   * multiplication compute the exact result; storing it in any type not wider
   * than the operation type reduces it modulo 2^width of that type.
   */
  lemma SameTypeArith(op: Op, t: Native, a: int, b: int, dest: Native)
    requires op == Add || op == Sub || op == Mul
    requires InRange(t, a) && InRange(t, b)
    requires ArithDefined(op, t, a, t, b)
    requires dest.width <= Promote(t).width
    ensures Wrap(dest, Compute(op, t, a, t, b)) ==
            Wrap(dest, if op == Add then a + b else if op == Sub then a - b else a * b)
  {
    var ct := Promote(t);
    assert OpType(op, t, t) == ct;
    PromoteKeepsRange(t, a);
    PromoteKeepsRange(t, b);
    WrapInRange(ct, a);
    WrapInRange(ct, b);
    var e := if op == Add then a + b else if op == Sub then a - b else a * b;
    assert Exact(ct, op, a, b) == e;
    WrapThroughWider(dest, ct, e);
  }

  /**
   * Addition, subtraction or multiplication of two values of type t whose
   * exact result t can hold: defined, and computed exactly.
   */
  lemma SameTypeExact(op: Op, t: Native, a: int, b: int)
    requires op == Add || op == Sub || op == Mul
    requires InRange(t, a) && InRange(t, b)
    requires InRange(t, if op == Add then a + b else if op == Sub then a - b else a * b)
    ensures ArithDefined(op, t, a, t, b)
    ensures Compute(op, t, a, t, b) == (if op == Add then a + b else if op == Sub then a - b else a * b)
  {
    var ct := Promote(t);
    var e := if op == Add then a + b else if op == Sub then a - b else a * b;
    assert OpType(op, t, t) == ct;
    PromoteKeepsRange(t, a);
    PromoteKeepsRange(t, b);
    PromoteKeepsRange(t, e);
    OperandsKept(op, t, a, t, b);
    assert Exact(ct, op, a, b) == e;
    WrapInRange(ct, e);
  }

  /**
   * When addition or subtraction of two values of type t is defined: always,
   * except for a signed 32- or 64-bit result out of range.
   */
  lemma SameTypeDefined(op: Op, t: Native, a: int, b: int)
    requires op == Add || op == Sub
    requires InRange(t, a) && InRange(t, b)
    ensures ArithDefined(op, t, a, t, b) <==>
            (t.width < 32 || !t.signed || InRange(t, if op == Add then a + b else a - b))
  {
    var ct := Promote(t);
    assert OpType(op, t, t) == ct;
    PromoteKeepsRange(t, a);
    PromoteKeepsRange(t, b);
    OperandsKept(op, t, a, t, b);
  }

  /** `x & y` for two values of one type: the and of their patterns in the promoted type. */
  lemma BitAndSameType(t: Native, x: int, y: int)
    requires InRange(t, x) && InRange(t, y)
    ensures ArithDefined(Op.BitAnd, t, x, t, y)
    ensures var ct := Promote(t);
      Compute(Op.BitAnd, t, x, t, y) == Wrap(ct, AndBits(ct.width, x % Modulus(ct), y % Modulus(ct)))
  {
    var ct := Promote(t);
    CommonOfSame(t);
    PromoteKeepsRange(t, x);
    PromoteKeepsRange(t, y);
    WrapInRange(ct, x);
    WrapInRange(ct, y);
  }

  /**
   * Integer division of operands that the common type holds: defined exactly
   * when the divisor is nonzero and a signed quotient does not overflow, and
   * then it is the quotient truncated toward zero.
   */
  lemma QuotientExact(ta: Native, x: int, tb: Native, y: int)
    requires InRange(Common(ta, tb), x) && InRange(Common(ta, tb), y)
    ensures ArithDefined(Div, ta, x, tb, y) <==>
            y != 0 && (Common(ta, tb).signed ==> InRange(Common(ta, tb), TruncDiv(x, y)))
    ensures ArithDefined(Div, ta, x, tb, y) ==> y != 0 && Compute(Div, ta, x, tb, y) == TruncDiv(x, y)
  {
    var ct := Common(ta, tb);
    assert OpType(Div, ta, tb) == ct;
    OperandsKept(Div, ta, x, tb, y);
    if y != 0 {
      if !ct.signed {
        DivShrinks(x, y);
        assert TruncDiv(x, y) == x / y;
      }
      if !ct.signed || InRange(ct, TruncDiv(x, y)) {
        WrapInRange(ct, TruncDiv(x, y));
      }
    }
  }

  /** A truncated quotient is no larger in magnitude than its dividend. */
  lemma QuotientInRange(c: Native, x: int, y: int)
    requires InRange(c, x) && InRange(c, -x) && y != 0
    ensures InRange(c, TruncDiv(x, y))
  {
    TruncDivSpec(x, y);
    ScaleUp(Abs(y), Abs(TruncDiv(x, y)));
  }

  /** The usual arithmetic conversions do not depend on the order of the operands. */
  lemma CommonSymmetric(ta: Native, tb: Native)
    ensures Common(ta, tb) == Common(tb, ta)
  {
  }

  /** Operands of the same signedness keep their value in the operation type. */
  lemma CommonKeeps(ta: Native, tb: Native, a: int)
    requires InRange(ta, a) && ta.signed == tb.signed
    ensures InRange(Common(ta, tb), a)
  {
    PromoteKeepsRange(ta, a);
    var pa, c := Promote(ta), Common(ta, tb);
    assert pa.width <= c.width;
    if pa.signed == c.signed {
      WiderKeeps(pa, c, a);
    } else {
      // only an unsigned operand promoted to int can meet an unsigned common type
      assert !ta.signed && !c.signed && 0 <= a;
    }
  }

  /** A value of a narrower type of the same signedness fits a wider one. */
  lemma WiderKeeps(t: Native, u: Native, x: int)
    requires InRange(t, x) && t.signed == u.signed && t.width <= u.width
    ensures InRange(u, x)
  {
    RangeMono(t, u);
  }

  /** A wider type of the same signedness has a range that contains the narrower one's. */
  lemma RangeMono(t: Native, u: Native)
    requires t.signed == u.signed && t.width <= u.width
    ensures MinValue(u) <= MinValue(t) && MaxValue(t) <= MaxValue(u)
  {
  }

  // ---------------------------------------------------------------------------
  // Bit-wise operations on patterns

  lemma {:induction false} XorBitsSelfInverse(w: nat, x: int, y: int)
    requires 0 <= x < Pow2(w)
    ensures XorBits(w, XorBits(w, x, y), y) == x
  {
    if w > 0 {
      var z := XorBits(w, x, y);
      XorBitsSelfInverse(w - 1, x / 2, y / 2);
      assert z / 2 == XorBits(w - 1, x / 2, y / 2) && z % 2 == (if x % 2 != y % 2 then 1 else 0);
    }
  }

  /** The exclusive or of w bits is a w-bit natural. */
  lemma {:induction false} XorBitsBound(w: nat, x: int, y: int)
    ensures 0 <= XorBits(w, x, y) < Pow2(w)
  {
    if w > 0 {
      XorBitsBound(w - 1, x / 2, y / 2);
    }
  }

  /** The low v bits of an exclusive or depend only on the low v bits of its operands. */
  lemma {:induction false} XorLowBits(w: nat, v: nat, x: int, y: int)
    requires v <= w
    ensures XorBits(w, x, y) % Pow2(v) == XorBits(v, x % Pow2(v), y % Pow2(v))
  {
    if v == 0 {
    } else {
      var z := XorBits(w, x, y);
      var hz := XorBits(w - 1, x / 2, y / 2);
      XorLowBits(w - 1, v - 1, x / 2, y / 2);
      LowBitsSplit(z, v, hz, if x % 2 != y % 2 then 1 else 0);
      var xv, yv := x % Pow2(v), y % Pow2(v);
      HalfMod(x, v);
      HalfMod(y, v);
      Pow2Mono(v - 1, v);
      DivModUnique(xv, 2, (x / 2) % Pow2(v - 1), x % 2);
      DivModUnique(yv, 2, (y / 2) % Pow2(v - 1), y % 2);
    }
  }

  /** The inclusive or of w bits is a w-bit natural. */
  lemma {:induction false} OrBitsBound(w: nat, x: int, y: int)
    ensures 0 <= OrBits(w, x, y) < Pow2(w)
  {
    if w > 0 {
      OrBitsBound(w - 1, x / 2, y / 2);
    }
  }

  /** Or-ing the same bits in a second time changes nothing. */
  lemma {:induction false} OrBitsIdempotent(w: nat, x: int, y: int)
    ensures OrBits(w, OrBits(w, x, y), y) == OrBits(w, x, y)
  {
    if w > 0 {
      var z := OrBits(w, x, y);
      OrBitsIdempotent(w - 1, x / 2, y / 2);
      assert z / 2 == OrBits(w - 1, x / 2, y / 2) && z % 2 == (if x % 2 == 1 || y % 2 == 1 then 1 else 0);
    }
  }

  /** The low v bits of an inclusive or depend only on the low v bits of its operands. */
  lemma {:induction false} OrLowBits(w: nat, v: nat, x: int, y: int)
    requires v <= w
    ensures OrBits(w, x, y) % Pow2(v) == OrBits(v, x % Pow2(v), y % Pow2(v))
  {
    if v == 0 {
    } else {
      var z := OrBits(w, x, y);
      var hz := OrBits(w - 1, x / 2, y / 2);
      OrLowBits(w - 1, v - 1, x / 2, y / 2);
      LowBitsSplit(z, v, hz, if x % 2 == 1 || y % 2 == 1 then 1 else 0);
      var xv, yv := x % Pow2(v), y % Pow2(v);
      HalfMod(x, v);
      HalfMod(y, v);
      Pow2Mono(v - 1, v);
      DivModUnique(xv, 2, (x / 2) % Pow2(v - 1), x % 2);
      DivModUnique(yv, 2, (y / 2) % Pow2(v - 1), y % 2);
    }
  }

  /** A natural made of a half h and a low bit b, taken modulo 2^v. */
  lemma LowBitsSplit(z: int, v: nat, h: int, b: int)
    requires v > 0 && z == 2 * h + b && (b == 0 || b == 1)
    ensures z % Pow2(v) == 2 * (h % Pow2(v - 1)) + b
  {
    HalfMod(z, v);
    DivModUnique(z, 2, h, b);
  }

  /** Anding with the low-f-bit mask keeps the value modulo 2^f. */
  lemma {:induction false} AndLowMask(w: nat, f: nat, x: int)
    requires f <= w && 0 <= x < Pow2(w)
    ensures AndBits(w, x, Pow2(f) - 1) == x % Pow2(f)
  {
    if w > 0 {
      if f == 0 {
        AndZero(w, x);
      } else {
        var m, h := Pow2(f) - 1, x / 2;
        HalfBounds(x, w);
        LowBitsMaskHalf(f);
        AndLowMask(w - 1, f - 1, h);
        var low := AndBits(w - 1, h, m / 2);
        assert low == h % Pow2(f - 1);
        assert AndBits(w, x, m) == 2 * low + x % 2;
        HalfMod(x, f);
      }
    }
  }

  /** Anding with the mask that clears the low f bits of a w-bit cell rounds down to a multiple of 2^f. */
  lemma {:induction false} AndHighMask(w: nat, f: nat, x: int)
    requires f <= w && 0 <= x < Pow2(w)
    ensures AndBits(w, x, Pow2(w) - Pow2(f)) == x - x % Pow2(f)
  {
    if w > 0 {
      if f == 0 {
        AndOnes(w, x);
      } else {
        var m, h := Pow2(w) - Pow2(f), x / 2;
        HalfBounds(x, w);
        HighBitsMaskHalf(w, f);
        AndHighMask(w - 1, f - 1, h);
        var high := AndBits(w - 1, h, m / 2);
        assert high == h - h % Pow2(f - 1);
        assert AndBits(w, x, m) == 2 * high;
        HalfMod(x, f);
      }
    }
  }

  /** Anding two naturals below 2^v looks at no bit above the v-th. */
  lemma {:induction false} AndBitsNarrower(w: nat, v: nat, x: int, y: int)
    requires v <= w && 0 <= x < Pow2(v) && 0 <= y < Pow2(v)
    ensures AndBits(w, x, y) == AndBits(v, x, y)
  {
    if v == 0 {
      AndZero(w, 0);
    } else {
      HalfBounds(x, v);
      HalfBounds(y, v);
      AndBitsNarrower(w - 1, v - 1, x / 2, y / 2);
    }
  }

  /**
   * `x & m` in a type ct whose pattern of m has every bit but the low f set:
   * x rounded down to a multiple of 2^f.
   */
  lemma AndClearsLowBits(ct: Native, x: int, m: int, f: nat)
    requires f < ct.width && Pattern(ct, m) == Modulus(ct) - Pow2(f)
    ensures Wrap(ct, AndBits(ct.width, Pattern(ct, x), Pattern(ct, m))) == Wrap(ct, x - x % Pow2(f))
  {
    var p, q := Pow2(f), Modulus(ct);
    PatternLowBitsCleared(ct, x, m, f);
    RemainderShift(x, q, x % p);
    WrapShift(ct, x - x % p, -(x / q));
  }

  /** The and of the patterns, as a natural: the pattern of x with its low f bits cleared. */
  lemma PatternLowBitsCleared(ct: Native, x: int, m: int, f: nat)
    requires f < ct.width && Pattern(ct, m) == Modulus(ct) - Pow2(f)
    ensures AndBits(ct.width, Pattern(ct, x), Pattern(ct, m)) == x % Modulus(ct) - x % Pow2(f)
  {
    var w := ct.width;
    ModulusIsPow2(ct);
    Pow2Mono(f, w);
    AndHighMask(w, f, x % Pow2(w));
    ModPow2Narrower(x, f, w);
  }

  lemma RemainderShift(x: int, q: int, c: int)
    requires q > 0
    ensures x % q - c == (x - c) + (-(x / q)) * q
  {
  }

  /** Halving a w-bit natural gives a (w-1)-bit natural and its low bit. */
  lemma HalfBounds(x: int, w: nat)
    requires w > 0 && 0 <= x < Pow2(w)
    ensures 0 <= x / 2 < Pow2(w - 1) && x == 2 * (x / 2) + x % 2
  {
  }

  lemma LowBitsMaskHalf(f: nat)
    requires f > 0
    ensures (Pow2(f) - 1) / 2 == Pow2(f - 1) - 1 && (Pow2(f) - 1) % 2 == 1
  {
    DivModUnique(Pow2(f) - 1, 2, Pow2(f - 1) - 1, 1);
  }

  lemma HighBitsMaskHalf(w: nat, f: nat)
    requires 0 < f <= w
    ensures (Pow2(w) - Pow2(f)) / 2 == Pow2(w - 1) - Pow2(f - 1) && (Pow2(w) - Pow2(f)) % 2 == 0
  {
    DivModUnique(Pow2(w) - Pow2(f), 2, Pow2(w - 1) - Pow2(f - 1), 0);
  }

  lemma {:induction false} AndZero(w: nat, x: int)
    ensures AndBits(w, x, 0) == 0
  {
    if w > 0 {
      AndZero(w - 1, x / 2);
    }
  }

  lemma {:induction false} AndOnes(w: nat, x: int)
    requires 0 <= x < Pow2(w)
    ensures AndBits(w, x, Pow2(w) - 1) == x
  {
    if w > 0 {
      HalfBounds(x, w);
      LowBitsMaskHalf(w);
      AndOnes(w - 1, x / 2);
    }
  }

  /** x modulo 2^f, read off one bit at a time. */
  lemma HalfMod(x: int, f: nat)
    requires f > 0
    ensures x % Pow2(f) == 2 * ((x / 2) % Pow2(f - 1)) + x % 2
  {
    var p := Pow2(f - 1);
    var h, b := x / 2, x % 2;
    var q, r := h / p, h % p;
    assert x == 2 * (p * q + r) + b;
    assert x == Pow2(f) * q + (2 * r + b);
    DivModUnique(x, Pow2(f), q, 2 * r + b);
  }
}
