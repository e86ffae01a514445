/** Integer and real powers, with the facts about them that the series
    and the decimal rendering rely on. */
module Arith {

  /** b^e over the integers (BigUint::pow in the source). */
  function Pow(b: int, e: nat): int
  {
    if e == 0 then 1 else b * Pow(b, e - 1)
  }

  /** x^e over the reals. */
  function RealPow(x: real, e: nat): real
  {
    if e == 0 then 1.0 else x * RealPow(x, e - 1)
  }

  lemma {:induction false} PowPositive(b: int, e: nat)
    requires b > 0
    ensures Pow(b, e) > 0
  {
    if e > 0 {
      PowPositive(b, e - 1);
    }
  }

  lemma {:induction false} PowAtLeast(b: int, e: nat)
    requires b >= 2
    ensures Pow(b, e) >= Pow(2, e) >= e + 1
  {
    if e > 0 {
      PowAtLeast(b, e - 1);
      PowPositive(2, e - 1);
    }
  }

  lemma {:induction false} PowMonotone(b: int, e1: nat, e2: nat)
    requires b >= 1 && e1 <= e2
    ensures 0 < Pow(b, e1) <= Pow(b, e2)
  {
    if e1 < e2 {
      PowMonotone(b, e1, e2 - 1);
      assert Pow(b, e2) == b * Pow(b, e2 - 1);
    } else {
      PowPositive(b, e1);
    }
  }

  lemma {:induction false} PowAdd(b: int, e1: nat, e2: nat)
    ensures Pow(b, e1 + e2) == Pow(b, e1) * Pow(b, e2)
  {
    if e2 > 0 {
      PowAdd(b, e1, e2 - 1);
      assert Pow(b, e1 + e2) == b * Pow(b, e1 + e2 - 1);
    }
  }

  /** (1/k)^e is the reciprocal of k^e. */
  lemma {:induction false} RealPowOfRecip(k: int, e: nat)
    requires k > 0
    ensures Pow(k, e) > 0 && RealPow(1.0 / k as real, e) == 1.0 / Pow(k, e) as real
  {
    PowPositive(k, e);
    if e > 0 {
      RealPowOfRecip(k, e - 1);
      PowPositive(k, e - 1);
      var q := Pow(k, e - 1) as real;
      assert RealPow(1.0 / k as real, e) == (1.0 / k as real) * (1.0 / q);
      RecipMul(k as real, q);
      assert (k * Pow(k, e - 1)) as real == k as real * q;
    }
  }

  /** The product of two reciprocals is the reciprocal of the product. */
  lemma RecipMul(a: real, b: real)
    requires a > 0.0 && b > 0.0
    ensures (1.0 / a) * (1.0 / b) == 1.0 / (a * b)
  {
    var u, w := 1.0 / a, 1.0 / b;
    assert u * a == 1.0 && w * b == 1.0;
    assert (u * w) * (a * b) == (u * a) * (w * b);
  }

  /** On [0, 1] powers are non-negative and shrink as the exponent grows. */
  lemma {:induction false} RealPowUnitInterval(x: real, e: nat)
    requires 0.0 <= x <= 1.0
    ensures 0.0 <= RealPow(x, e + 1) <= RealPow(x, e)
  {
    if e > 0 {
      RealPowUnitInterval(x, e - 1);
    }
    var y := RealPow(x, e);
    assert 0.0 <= y;
    assert RealPow(x, e + 1) == x * y;
    MulNonneg(x, y);
    MulNonneg(1.0 - x, y);
    assert (1.0 - x) * y == y - x * y;
  }

  lemma MulNonneg(a: real, b: real)
    requires a >= 0.0 && b >= 0.0
    ensures a * b >= 0.0
  {
  }

  /** Integer division and remainder are fixed by a bracketing quotient. */
  lemma DivBracket(n: int, d: int, q: int)
    requires d > 0 && q * d <= n < q * d + d
    ensures n / d == q && n % d == n - q * d
  {
    var quot, rem := n / d, n % d;
    assert n == quot * d + rem && 0 <= rem < d;
    var k := quot - q;
    assert k * d == quot * d - q * d;
    MulSign(k, d);
  }

  /** The sign of k * d for d > 0, in steps of d. */
  lemma MulSign(k: int, d: int)
    requires d > 0
    ensures k >= 0 ==> k * d >= 0
    ensures k >= 1 ==> k * d >= d
    ensures k <= -1 ==> k * d <= -d
  {
    if k >= 1 {
      assert k * d == (k - 1) * d + d;
      MulNonnegInt(k - 1, d);
    } else if k <= -1 {
      assert k * d == -((-k - 1) * d) - d;
      MulNonnegInt(-k - 1, d);
    }
  }

  lemma MulNonnegInt(a: int, b: int)
    requires a >= 0 && b >= 0
    ensures a * b >= 0
  {
  }

  /** Dividing by a and then by b is dividing by a * b. */
  lemma DivDiv(n: nat, a: int, b: int)
    requires a > 0 && b > 0
    ensures n / a / b == n / (a * b)
  {
    var q, r := n / a, n % a;
    var q2, r2 := q / b, q % b;
    assert n == q * a + r && 0 <= r < a;
    assert q == q2 * b + r2 && 0 <= r2 < b;
    DivStep(n, a, b, q2, r2, r);
  }

  /** n = (q2 * b + r2) * a + r with both remainders in range is divided by
      a * b with quotient q2. */
  lemma DivStep(n: int, a: int, b: int, q2: int, r2: int, r: int)
    requires a > 0 && b > 0 && 0 <= r < a && 0 <= r2 < b
    requires n == (q2 * b + r2) * a + r
    ensures n / (a * b) == q2
  {
    assert (q2 * b + r2) * a == q2 * (a * b) + r2 * a;
    assert (b - 1 - r2) * a == a * b - a - r2 * a;
    MulSign(b - 1 - r2, a);
    MulNonnegInt(r2, a);
    DivBracket(n, a * b, q2);
  }


  lemma MulLeReal(a: real, b: real, c: real)
    requires a <= b && c > 0.0
    ensures a * c <= b * c
  {
    MulNonneg(b - a, c);
    assert (b - a) * c == b * c - a * c;
  }

  lemma MulLtReal(a: real, b: real, c: real)
    requires a < b && c > 0.0
    ensures a * c < b * c
  {
    assert (b - a) * c > 0.0;
    assert (b - a) * c == b * c - a * c;
  }
}
