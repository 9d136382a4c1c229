/**
 * The hardware register wrapper: one stored cell of an integer type T with
 * two access flags, R (the register may be read) and W (it may be written).
 * Reading is allowed only with R, writing only with W, and every compound
 * operator reads, combines and writes back, so it needs both. Only the
 * embedded storage strategy (a register that is a member of a register
 * block struct) is modelled.
 */
module HwRegs {
  import opened Arith
  import opened CppInt

  /** The address strategy A of a register. */
  datatype Address =
    | Embedded           // `void`: the cell is a member of a register block
    | ConstAddr(addr: nat) // `const_addr<ADDR>`: the cell lives at a fixed address
    | Other              // any other type

  /** `hw_reg_var<T, A>::is_valid`: only `void` and `const_addr` are address strategies. */
  function IsValid(a: Address): (r: bool)
    ensures r <==> a == Embedded || a.ConstAddr?
  {
    !a.Other?
  }

  /** The value `x op val` stores back in a register of type T: computed in the promoted type, then converted to T. */
  function Updated(op: Op, t: Native, x: int, val: int): (r: int)
    requires ArithDefined(op, t, x, t, val)
    ensures InRange(t, r)
  {
    Wrap(t, Compute(op, t, x, t, val))
  }

  /** A register of type T with flags R and W, embedded storage. */
  class HwReg {
    const t: Native
    const canRead: bool
    const canWrite: bool
    const address: Address
    var cell: int

    ghost predicate Valid()
      reads this
    {
      InRange(t, cell) && address == Embedded && IsValid(address)
    }

    /**
     * The defaulted constructor of a register in a register block: the cell
     * holds whatever the hardware holds, given here as `initial`. The
     * static_assert on `is_valid` admits the strategy; only the embedded one
     * is modelled.
     */
    constructor (t: Native, canRead: bool, canWrite: bool, address: Address, initial: int)
      requires address == Embedded && InRange(t, initial)
      ensures Valid()
      ensures this.t == t && this.canRead == canRead && this.canWrite == canWrite && cell == initial
    {
      this.t := t;
      this.canRead := canRead;
      this.canWrite := canWrite;
      this.address := address;
      cell := initial;
    }

    /** `read ()`: returns the cell; only a readable register has it. */
    method Read() returns (v: int)
      requires Valid() && canRead
      ensures v == cell && InRange(t, v)
    {
      v := cell;
    }

    /** `write (val)`: stores val in the cell; only a writable register has it. */
    method Write(val: int)
      requires Valid() && canWrite && InRange(t, val)
      modifies this
      ensures Valid() && cell == val
    {
      cell := val;
    }

    /** `operator T`: the same as `read ()`. */
    method Get() returns (v: int)
      requires Valid() && canRead
      ensures v == cell && InRange(t, v)
    {
      v := Read();
    }

    /** `operator = (val)`: the same as `write (val)`. */
    method Assign(val: int)
      requires Valid() && canWrite && InRange(t, val)
      modifies this
      ensures Valid() && cell == val
    {
      Write(val);
    }

    /**
     * The compound operators `+=`, `-=`, `*=`, `/=`, `%=`, `^=`, `&=`, `|=`,
     * `>>=` and `<<=` (op is Add, Sub, Mul, Div, Rem, BitXor, BitAnd, BitOr,
     * Shr, Shl): the cell is read, combined with val and written back.
     */
    method Update(op: Op, val: int)
      requires Valid() && canRead && canWrite && InRange(t, val)
      requires ArithDefined(op, t, cell, t, val)
      modifies this
      ensures Valid() && cell == Updated(op, t, old(cell), val)
    {
      var x := Read();
      var r := Compute(op, t, x, t, val);
      Write(Wrap(t, r));
    }
  }

  /** `hw_reg_r<T>`: a read-only register. */
  method NewReadOnly(t: Native, initial: int) returns (r: HwReg)
    requires InRange(t, initial)
    ensures fresh(r) && r.Valid() && r.canRead && !r.canWrite && r.t == t && r.cell == initial
  {
    r := new HwReg(t, true, false, Embedded, initial);
  }

  /** `hw_reg_w<T>`: a write-only register. */
  method NewWriteOnly(t: Native, initial: int) returns (r: HwReg)
    requires InRange(t, initial)
    ensures fresh(r) && r.Valid() && !r.canRead && r.canWrite && r.t == t && r.cell == initial
  {
    r := new HwReg(t, false, true, Embedded, initial);
  }

  /** `hw_reg_rw<T>`: a read-write register. */
  method NewReadWrite(t: Native, initial: int) returns (r: HwReg)
    requires InRange(t, initial)
    ensures fresh(r) && r.Valid() && r.canRead && r.canWrite && r.t == t && r.cell == initial
  {
    r := new HwReg(t, true, true, Embedded, initial);
  }

  /** What a read after a write of a read-write register returns: the value written. */
  method WriteThenRead(r: HwReg, val: int) returns (v: int)
    requires r.Valid() && r.canRead && r.canWrite && InRange(r.t, val)
    modifies r
    ensures v == val && r.cell == val && r.Valid()
  {
    r.Write(val);
    v := r.Read();
  }

  /**
   * `reg op= val` evaluated as an expression: the register is returned, and
   * reading it gives the value just stored.
   */
  method UpdateThenRead(r: HwReg, op: Op, val: int) returns (v: int)
    requires r.Valid() && r.canRead && r.canWrite && InRange(r.t, val)
    requires ArithDefined(op, r.t, r.cell, r.t, val)
    modifies r
    ensures v == Updated(op, r.t, old(r.cell), val) && v == r.cell
  {
    r.Update(op, val);
    v := r.Read();
  }

  // ---------------------------------------------------------------------------
  // What the compound operators store

  /** `+=` of a value that fits adds exactly; otherwise the sum wraps around modulo 2^width (or is undefined for a 32- or 64-bit signed type). */
  lemma AddStoresSum(t: Native, x: int, v: int)
    requires InRange(t, x) && InRange(t, v)
    ensures ArithDefined(Op.Add, t, x, t, v) <==> (t.width < 32 || !t.signed || InRange(t, x + v))
    ensures ArithDefined(Op.Add, t, x, t, v) ==> Updated(Op.Add, t, x, v) == Wrap(t, x + v)
    ensures InRange(t, x + v) ==> ArithDefined(Op.Add, t, x, t, v) && Updated(Op.Add, t, x, v) == x + v
  {
    SameTypeDefined(Op.Add, t, x, v);
    if ArithDefined(Op.Add, t, x, t, v) {
      SameTypeArith(Op.Add, t, x, v, t);
    }
    if InRange(t, x + v) {
      WrapInRange(t, x + v);
    }
  }

  /** `-=` after `+=` of the same value restores the register, wrap-around included. */
  lemma SubUndoesAdd(t: Native, x: int, v: int)
    requires InRange(t, x) && InRange(t, v)
    requires ArithDefined(Op.Add, t, x, t, v)
    requires ArithDefined(Op.Sub, t, Updated(Op.Add, t, x, v), t, v)
    ensures Updated(Op.Sub, t, Updated(Op.Add, t, x, v), v) == x
  {
    var s := Updated(Op.Add, t, x, v);
    SameTypeArith(Op.Add, t, x, v, t);
    SameTypeArith(Op.Sub, t, s, v, t);
    WrapAddThenSub(t, x, v, s);
  }

  /**
   * `*=` is computed in the promoted type: it is undefined only when that type
   * is signed and the exact product overflows it (two `uint16_t` values whose
   * product exceeds INT_MAX included); otherwise the product wraps around
   * modulo 2^width, and a product that fits is stored exactly.
   */
  lemma MulStoresProduct(t: Native, x: int, v: int)
    requires InRange(t, x) && InRange(t, v)
    ensures ArithDefined(Op.Mul, t, x, t, v) <==> (!Promote(t).signed || InRange(Promote(t), x * v))
    ensures ArithDefined(Op.Mul, t, x, t, v) ==> Updated(Op.Mul, t, x, v) == Wrap(t, x * v)
    ensures InRange(t, x * v) ==> ArithDefined(Op.Mul, t, x, t, v) && Updated(Op.Mul, t, x, v) == x * v
  {
    CommonOfSame(t);
    PromoteKeepsRange(t, x);
    PromoteKeepsRange(t, v);
    OperandsKept(Op.Mul, t, x, t, v);
    if ArithDefined(Op.Mul, t, x, t, v) {
      SameTypeArith(Op.Mul, t, x, v, t);
    }
    if InRange(t, x * v) {
      PromoteKeepsRange(t, x * v);
      WrapInRange(t, x * v);
    }
  }

  /**
   * `/=` divides the held value, truncating toward zero: defined exactly when
   * the divisor is nonzero and a signed quotient fits the promoted type, and
   * the quotient is then stored modulo 2^width.
   */
  lemma DivStoresQuotient(t: Native, x: int, v: int)
    requires InRange(t, x) && InRange(t, v)
    ensures ArithDefined(Op.Div, t, x, t, v) <==>
      v != 0 && (Promote(t).signed ==> InRange(Promote(t), TruncDiv(x, v)))
    ensures ArithDefined(Op.Div, t, x, t, v) ==> v != 0 && Updated(Op.Div, t, x, v) == Wrap(t, TruncDiv(x, v))
  {
    CommonOfSame(t);
    PromoteKeepsRange(t, x);
    PromoteKeepsRange(t, v);
    QuotientExact(t, x, t, v);
  }

  /**
   * `%=` stores the remainder of the truncated division. It is defined
   * exactly when `/=` would be: the divisor is nonzero and a signed quotient
   * fits the promoted type, so `INT_MIN % -1` of a 32- or 64-bit register is
   * undefined. The remainder then completes the division equation, is
   * smaller in magnitude than the divisor and has the sign of the held value.
   */
  lemma RemStoresRemainder(t: Native, x: int, v: int)
    requires InRange(t, x) && InRange(t, v)
    ensures ArithDefined(Op.Rem, t, x, t, v) <==>
      v != 0 && (Promote(t).signed ==> InRange(Promote(t), TruncDiv(x, v)))
    ensures ArithDefined(Op.Rem, t, x, t, v) ==>
      (v != 0 &&
       var r := Updated(Op.Rem, t, x, v);
       r == TruncRem(x, v) && x == v * TruncDiv(x, v) + r &&
       Abs(r) < Abs(v) && (r == 0 || (r < 0 <==> x < 0)))
  {
    CommonOfSame(t);
    PromoteKeepsRange(t, x);
    PromoteKeepsRange(t, v);
    OperandsKept(Op.Rem, t, x, t, v);
    if v != 0 {
      var r := TruncRem(x, v);
      TruncDivSpec(x, v);
      assert InRange(t, r);
      PromoteKeepsRange(t, r);
      WrapInRange(Promote(t), r);
      WrapInRange(t, r);
    }
  }

  /** `%= -1` on the minimum of a 32-bit signed register is undefined: the quotient 2^31 does not fit. */
  lemma RemOfMinimumByMinusOne()
    ensures !ArithDefined(Op.Rem, Int32, -0x8000_0000, Int32, -1)
    ensures !ArithDefined(Op.Rem, Int64, -0x8000_0000_0000_0000, Int64, -1)
    ensures ArithDefined(Op.Rem, Int16, -0x8000, Int16, -1) && Updated(Op.Rem, Int16, -0x8000, -1) == 0
  {
    RemStoresRemainder(Int32, -0x8000_0000, -1);
    RemStoresRemainder(Int64, -0x8000_0000_0000_0000, -1);
    RemStoresRemainder(Int16, -0x8000, -1);
  }

  /** `|=` with the value the register holds in bit pattern form: the inclusive or of the low width bits. */
  lemma OrStoresPattern(t: Native, x: int, v: int)
    requires InRange(t, x) && InRange(t, v)
    ensures ArithDefined(Op.BitOr, t, x, t, v)
    ensures Updated(Op.BitOr, t, x, v) == Wrap(t, OrBits(t.width, x % Modulus(t), v % Modulus(t)))
  {
    var ct := Promote(t);
    var m, cm := Modulus(t), Modulus(ct);
    CommonOfSame(t);
    PromoteKeepsRange(t, x);
    PromoteKeepsRange(t, v);
    WrapInRange(ct, x);
    WrapInRange(ct, v);
    var y := OrBits(ct.width, x % cm, v % cm);
    var z := OrBits(t.width, x % m, v % m);
    WrapThroughWider(t, ct, y);
    ModulusIsPow2(t);
    ModulusIsPow2(ct);
    OrLowBits(ct.width, t.width, x % cm, v % cm);
    ModPow2Narrower(x, t.width, ct.width);
    ModPow2Narrower(v, t.width, ct.width);
    OrBitsBound(t.width, x % m, v % m);
    ModOfSmall(z, m);
    WrapCongruent(t, y, z);
  }

  /** `|=` twice with the same value is `|=` once: setting bits that are set changes nothing. */
  lemma OrTwiceIsOnce(t: Native, x: int, v: int)
    requires InRange(t, x) && InRange(t, v)
    ensures ArithDefined(Op.BitOr, t, x, t, v)
    ensures ArithDefined(Op.BitOr, t, Updated(Op.BitOr, t, x, v), t, v)
    ensures Updated(Op.BitOr, t, Updated(Op.BitOr, t, x, v), v) == Updated(Op.BitOr, t, x, v)
  {
    var m := Modulus(t);
    var z := OrBits(t.width, x % m, v % m);
    OrStoresPattern(t, x, v);
    OrStoresPattern(t, Updated(Op.BitOr, t, x, v), v);
    ModulusIsPow2(t);
    OrBitsBound(t.width, x % m, v % m);
    PatternOfStored(t, z);
    OrBitsIdempotent(t.width, x % m, v % m);
  }

  /** `>>= s` stores the floor of the value divided by 2^s: an arithmetic shift for a signed type. */
  lemma ShiftRightStoresFloor(t: Native, x: int, s: nat)
    requires InRange(t, x) && InRange(t, s) && s < Promote(t).width
    ensures ArithDefined(Op.Shr, t, x, t, s)
    ensures Updated(Op.Shr, t, x, s) == x / Pow2(s)
  {
    ShiftRightValue(t, x, s);
    assert OpType(Op.Shr, t, t) == OpType(Op.Shr, t, UInt32);
    DivShrinks(x, Pow2(s));
    WrapInRange(t, x / Pow2(s));
  }

  /** `<<= s` stores the value times 2^s, reduced modulo 2^width. */
  lemma ShiftLeftStoresProduct(t: Native, x: int, s: nat)
    requires InRange(t, x) && InRange(t, s) && s < Promote(t).width
    ensures ArithDefined(Op.Shl, t, x, t, s)
    ensures Updated(Op.Shl, t, x, s) == Wrap(t, x * Pow2(s))
  {
    ShiftLeftValue(t, x, s);
    assert OpType(Op.Shl, t, t) == OpType(Op.Shl, t, UInt32);
  }

  /**
   * The `<<= 8` of a 32-bit read-write register: 0x12 becomes 0x1200, and
   * the top byte of 0x1234_5678 is shifted out.
   */
  lemma ShiftLeftByEight()
    ensures ArithDefined(Op.Shl, Int32, 0x12, Int32, 8) && Updated(Op.Shl, Int32, 0x12, 8) == 0x1200
    ensures ArithDefined(Op.Shl, Int32, 0x1234_5678, Int32, 8) && Updated(Op.Shl, Int32, 0x1234_5678, 8) == 0x3456_7800
  {
    Pow2Of8();
    ShiftLeftStoresProduct(Int32, 0x12, 8);
    ShiftLeftStoresProduct(Int32, 0x1234_5678, 8);
    WrapInRange(Int32, 0x1200);
    WrapShift(Int32, 0x3456_7800, 0x12);
  }

  /** `&=` with the mask of the low f bits keeps the value modulo 2^f, the low f bits of its pattern. */
  lemma AndKeepsLowBits(t: Native, x: int, f: nat)
    requires InRange(t, x) && f < t.width
    ensures InRange(t, Pow2(f) - 1) && ArithDefined(Op.BitAnd, t, x, t, Pow2(f) - 1)
    ensures Updated(Op.BitAnd, t, x, Pow2(f) - 1) == x % Pow2(f)
  {
    var ct := Promote(t);
    var p := Pow2(f);
    MaskFits(t, f);
    BitAndSameType(t, x, p - 1);
    ModulusIsPow2(ct);
    Pow2Mono(f, ct.width);
    LowMaskOfPattern(ct.width, f, x);
    PromoteKeepsRange(t, x % p);
    WrapInRange(ct, x % p);
    WrapInRange(t, x % p);
  }

  /** Anding a w-bit pattern with the low-f-bit mask leaves the value modulo 2^f. */
  lemma LowMaskOfPattern(w: nat, f: nat, x: int)
    requires f <= w
    ensures AndBits(w, x % Pow2(w), (Pow2(f) - 1) % Pow2(w)) == x % Pow2(f)
  {
    Pow2Mono(f, w);
    ModOfSmall(Pow2(f) - 1, Pow2(w));
    AndLowMask(w, f, x % Pow2(w));
    ModPow2Narrower(x, f, w);
  }

  /** The low-f-bit mask, and every remainder modulo 2^f, fit a type wider than f bits. */
  lemma MaskFits(t: Native, f: nat)
    requires f < t.width
    ensures InRange(t, Pow2(f) - 1)
    ensures forall r :: 0 <= r < Pow2(f) ==> InRange(t, r)
  {
    ModulusIsPow2(t);
    Pow2Mono(f, t.width - 1);
  }

  /** `^=` with the value the register holds in bit pattern form: the exclusive or of the low width bits. */
  lemma XorStoresPattern(t: Native, x: int, v: int)
    requires InRange(t, x) && InRange(t, v)
    ensures ArithDefined(Op.BitXor, t, x, t, v)
    ensures Updated(Op.BitXor, t, x, v) == Wrap(t, XorBits(t.width, x % Modulus(t), v % Modulus(t)))
  {
    var ct := Promote(t);
    var m, cm := Modulus(t), Modulus(ct);
    CommonOfSame(t);
    PromoteKeepsRange(t, x);
    PromoteKeepsRange(t, v);
    WrapInRange(ct, x);
    WrapInRange(ct, v);
    var y := XorBits(ct.width, x % cm, v % cm);
    var z := XorBits(t.width, x % m, v % m);
    WrapThroughWider(t, ct, y);
    ModulusIsPow2(t);
    ModulusIsPow2(ct);
    XorLowBits(ct.width, t.width, x % cm, v % cm);
    ModPow2Narrower(x, t.width, ct.width);
    ModPow2Narrower(v, t.width, ct.width);
    XorBitsBound(t.width, x % m, v % m);
    ModOfSmall(z, m);
    WrapCongruent(t, y, z);
  }

  /** `^=` twice with the same value restores the register: toggling bits is its own inverse. */
  lemma XorTwiceRestores(t: Native, x: int, v: int)
    requires InRange(t, x) && InRange(t, v)
    ensures ArithDefined(Op.BitXor, t, x, t, v)
    ensures ArithDefined(Op.BitXor, t, Updated(Op.BitXor, t, x, v), t, v)
    ensures Updated(Op.BitXor, t, Updated(Op.BitXor, t, x, v), v) == x
  {
    XorStoresPattern(t, x, v);
    XorStoresPattern(t, Updated(Op.BitXor, t, x, v), v);
    XorUndoes(t, x, v);
  }

  /** The bit-pattern step of XorTwiceRestores, on plain values. */
  lemma XorUndoes(t: Native, x: int, v: int)
    requires InRange(t, x)
    ensures var m := Modulus(t);
      var r := Wrap(t, XorBits(t.width, x % m, v % m));
      Wrap(t, XorBits(t.width, r % m, v % m)) == x
  {
    var m := Modulus(t);
    var z := XorBits(t.width, x % m, v % m);
    ModulusIsPow2(t);
    XorBitsBound(t.width, x % m, v % m);
    PatternOfStored(t, z);
    XorBitsSelfInverse(t.width, x % m, v % m);
    WrapOfPattern(t, x);
  }

  /** Storing a bit pattern of the type's width and reading its pattern back gives it again. */
  lemma PatternOfStored(t: Native, z: int)
    requires 0 <= z < Modulus(t)
    ensures Wrap(t, z) % Modulus(t) == z
  {
    WrapMod(t, z);
    ModOfSmall(z, Modulus(t));
  }

  /** Converting the bit pattern of a value of the type gives the value back. */
  lemma WrapOfPattern(t: Native, x: int)
    requires InRange(t, x)
    ensures Wrap(t, x % Modulus(t)) == x
  {
    WrapCongruent(t, x % Modulus(t), x);
    WrapInRange(t, x);
  }
}
