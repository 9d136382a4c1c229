/**
 * Exact integer arithmetic used by the fixed-point and register models:
 * powers of two, the floor division that an arithmetic right shift performs,
 * and the truncating division and remainder of C++'s `/` and `%`.
 *
 * Dafny's `/` and `%` on `int` are Euclidean; for a positive divisor they are
 * floor division and a non-negative remainder, which is exactly what a
 * two's-complement arithmetic right shift by k computes with divisor 2^k.
 */
module Arith {

  /** 2^k. */
  function Pow2(k: nat): (r: int)
    ensures r >= 1
  {
    if k == 0 then 1 else 2 * Pow2(k - 1)
  }

  lemma {:induction false} Pow2Add(a: nat, b: nat)
    ensures Pow2(a + b) == Pow2(a) * Pow2(b)
  {
    if a > 0 {
      Pow2Add(a - 1, b);
      assert Pow2(a + b) == 2 * Pow2(a - 1 + b);
    }
  }

  lemma {:induction false} Pow2Mono(a: nat, b: nat)
    requires a <= b
    ensures Pow2(a) <= Pow2(b)
    ensures a < b ==> 2 * Pow2(a) <= Pow2(b)
  {
    if a < b {
      Pow2Mono(a, b - 1);
    }
  }

  /** A multiple of a positive d strictly between -d and d is zero. */
  lemma SmallMultipleIsZero(d: int, k: int)
    requires d > 0 && -d < d * k < d
    ensures k == 0
  {
  }

  /** A multiple of a positive d above -d is a non-negative multiple. */
  lemma MultipleAboveMinus(d: int, k: int)
    requires d > 0 && d * k > -d
    ensures k >= 0
  {
  }

  /** A quotient and remainder that satisfy the division equation are the ones `/` and `%` give. */
  lemma DivModUnique(x: int, d: int, q: int, r: int)
    requires d > 0 && x == d * q + r && 0 <= r < d
    ensures x / d == q && x % d == r
  {
    var q0, r0 := x / d, x % d;
    assert x == d * q0 + r0 && 0 <= r0 < d;
    assert d * (q - q0) == r0 - r by {
      assert d * (q - q0) == d * q - d * q0;
    }
    SmallMultipleIsZero(d, q - q0);
  }

  lemma MulDivCancel(n: int, p: int)
    requires p > 0
    ensures (n * p) / p == n && (n * p) % p == 0
  {
    DivModUnique(n * p, p, n, 0);
  }

  /** Dividing x * p * n by p leaves x * n. */
  lemma MulDivMiddle(x: int, p: int, n: int)
    requires p > 0
    ensures (x * p * n) / p == x * n
  {
    assert x * p * n == (x * n) * p;
    MulDivCancel(x * n, p);
  }

  /** Two successive floor divisions are one floor division by the product. */
  lemma DivDiv(x: int, p: int, q: int)
    requires p > 0 && q > 0
    ensures (x / p) / q == x / (p * q)
  {
    var a, r1 := x / p, x % p;
    var b, r2 := a / q, a % q;
    NestedDivision(x, p, q, a, b, r1, r2);
    DivModUnique(x, p * q, b, p * r2 + r1);
  }

  /** x = p*a + r1 and a = q*b + r2 combine into one division of x by p*q. */
  lemma NestedDivision(x: int, p: int, q: int, a: int, b: int, r1: int, r2: int)
    requires p > 0 && q > 0
    requires x == p * a + r1 && 0 <= r1 < p
    requires a == q * b + r2 && 0 <= r2 < q
    ensures x == (p * q) * b + (p * r2 + r1)
    ensures 0 <= p * r2 + r1 < p * q
  {
    assert p * a == (p * q) * b + p * r2;
    assert p * r2 <= p * (q - 1);
  }

  /** Adding a multiple of the divisor adds to the floor quotient. */
  lemma DivAddMultiple(x: int, c: int, p: int)
    requires p > 0
    ensures (x + c * p) / p == x / p + c
  {
    DivModUnique(x + c * p, p, x / p + c, x % p);
  }

  /** The remainder modulo p is unchanged by first reducing modulo a multiple of p. */
  lemma ModOfMod(x: int, p: int, q: int)
    requires p > 0 && q > 0
    ensures (x % (p * q)) % p == x % p
  {
    var m := x % (p * q);
    var k := x / (p * q);
    assert x == (p * q) * k + m;
    var s, t := m / p, m % p;
    assert x == p * (q * k + s) + t by {
      calc {
        p * (q * k + s) + t;
        (p * q) * k + p * s + t;
        (p * q) * k + m;
      }
    }
    DivModUnique(x, p, q * k + s, t);
  }

  /** A natural below the modulus is its own remainder. */
  lemma ModOfSmall(x: int, p: int)
    requires 0 <= x < p
    ensures x % p == x && x / p == 0
  {
    DivModUnique(x, p, 0, x);
  }

  /** Reducing modulo 2^n first does not change the remainder modulo a lower power 2^k. */
  lemma ModPow2Narrower(x: int, k: nat, n: nat)
    requires k <= n
    ensures (x % Pow2(n)) % Pow2(k) == x % Pow2(k)
  {
    Pow2Add(k, n - k);
    ModOfMod(x, Pow2(k), Pow2(n - k));
  }

  /** Floor division by a positive divisor moves a value toward minus infinity but never past zero or past itself. */
  lemma DivShrinks(x: int, p: int)
    requires p >= 1
    ensures x >= 0 ==> 0 <= x / p <= x
    ensures x < 0 ==> x <= x / p < 0
  {
    var q, r := x / p, x % p;
    assert x == p * q + r && 0 <= r < p;
    if x >= 0 {
      NaturalDivision(x, p);
      ScaleUp(p, q);
    } else {
      assert p * q < p * 0;
      ScaleCancel(p, q, 0);
      assert p * (q + 1) == p * q + p;
      ScaleUp(p, -x);
      assert p * (-x) == -(p * x);
      ScaleCancel(p, x, q + 1);
    }
  }

  /** Floor division brackets x between two consecutive multiples of p. */
  lemma FloorBracket(x: int, p: int)
    requires p > 0
    ensures (x / p) * p <= x < (x / p + 1) * p
  {
    var q := x / p;
    assert x == p * q + x % p;
    assert (q + 1) * p == q * p + p;
  }

  /** Scaling by p >= 1 does not shrink a natural. */
  lemma ScaleUp(p: int, q: int)
    requires p >= 1 && q >= 0
    ensures q <= p * q
  {
  }

  /** Scaling by a positive p is monotone. */
  lemma ScaleMono(p: int, a: int, b: int)
    requires p > 0 && a <= b
    ensures p * a <= p * b
  {
  }

  /** A strict inequality between multiples of a positive p holds between the factors. */
  lemma ScaleCancel(p: int, a: int, b: int)
    requires p > 0 && p * a < p * b
    ensures a < b
  {
  }

  /** Floor division by a positive divisor is monotone. */
  lemma DivMono(a: int, b: int, p: int)
    requires p > 0 && a <= b
    ensures a / p <= b / p
  {
    var qa, qb := a / p, b / p;
    assert a == p * qa + a % p && b == p * qb + b % p;
    assert p * (qb - qa) == p * qb - p * qa;
    assert p * (qb - qa) > -p;
    MultipleAboveMinus(p, qb - qa);
  }

  /** The greatest multiple of p not above x, bounded like x. */
  lemma FloorMultipleBounds(x: int, p: int, lo: int, hi: int)
    requires p > 0 && lo <= x <= hi && lo % p == 0
    ensures lo <= p * (x / p) <= x
    ensures x - p * (x / p) == x % p
  {
    DivMono(lo, x, p);
    MulDivCancel(lo / p, p);
    assert lo == p * (lo / p);
    assert p * (lo / p) <= p * (x / p);
  }

  /** C++ `/` on integers: the quotient truncated toward zero. */
  function TruncDiv(a: int, b: int): int
    requires b != 0
  {
    if a >= 0 then
      (if b > 0 then a / b else -(a / -b))
    else
      (if b > 0 then -((-a) / b) else (-a) / (-b))
  }

  /** C++ `%` on integers: the remainder that goes with TruncDiv. */
  function TruncRem(a: int, b: int): int
    requires b != 0
  {
    a - b * TruncDiv(a, b)
  }

  function Abs(x: int): nat
  {
    if x < 0 then -x else x
  }

  /**
   * The defining properties of C++ integer division: the division equation
   * holds, the remainder is smaller than the divisor in magnitude, and it takes
   * the sign of the dividend (so the quotient is rounded toward zero).
   */
  lemma TruncDivSpec(a: int, b: int)
    requires b != 0
    ensures a == b * TruncDiv(a, b) + TruncRem(a, b)
    ensures Abs(TruncRem(a, b)) < Abs(b)
    ensures TruncRem(a, b) == 0 || (TruncRem(a, b) < 0 <==> a < 0)
    ensures Abs(b) * Abs(TruncDiv(a, b)) <= Abs(a)
  {
    var n, d := Abs(a), Abs(b);
    var q0: int, r0: int := n / d, n % d;
    NaturalDivision(n, d);
    var q := TruncDiv(a, b);
    assert q == (if (a >= 0) == (b > 0) then q0 else -q0);
    assert Abs(q) == q0;
    assert b * q == (if a >= 0 then d * q0 else -(d * q0)) by {
      if b < 0 {
        assert b * q == (-d) * q;
      }
    }
    assert TruncRem(a, b) == (if a >= 0 then r0 else -r0);
  }

  /** Floor division of naturals: quotient and remainder bounds. */
  lemma NaturalDivision(n: nat, d: int)
    requires d > 0
    ensures n == d * (n / d) + n % d && 0 <= n % d < d
    ensures n / d >= 0 && 0 <= d * (n / d) <= n
  {
  }

  /** An exact quotient is found exactly. */
  lemma TruncDivExact(n: int, b: int)
    requires b != 0
    ensures TruncDiv(n * b, b) == n
  {
    if b > 0 {
      if n >= 0 {
        MulDivCancel(n, b);
      } else {
        assert -(n * b) == (-n) * b;
        MulDivCancel(-n, b);
      }
    } else {
      if n * b >= 0 {
        assert n * b == (-n) * (-b);
        MulDivCancel(-n, -b);
      } else {
        assert -(n * b) == n * (-b);
        MulDivCancel(n, -b);
      }
    }
  }
}
