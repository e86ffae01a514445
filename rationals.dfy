/** Exact rationals as the source uses them through `fraction::Fraction`:
    a numerator over a positive denominator, not necessarily reduced. Each
    operation is stated by its effect on the exact value. */
module Rationals {
  import opened Arith
  import opened Decimals

  datatype Fraction = Fraction(num: int, den: int)

  /** A well-formed fraction: the denominator is positive. */
  type Rat = f: Fraction | f.den > 0 witness Fraction(0, 1)

  /** The exact value a fraction denotes. */
  function Value(a: Rat): real
  {
    a.num as real / a.den as real
  }

  /** `Fraction::from(i)`. */
  function FromInt(i: int): (r: Rat)
    ensures Value(r) == i as real
  {
    Fraction(i, 1)
  }

  lemma CrossValue(n: int, d: int, v: real)
    requires d > 0 && n as real == v * d as real
    ensures n as real / d as real == v
  {
  }

  /** Fraction addition over the common denominator a.den * b.den. */
  function Add(a: Rat, b: Rat): (r: Rat)
    ensures Value(r) == Value(a) + Value(b)
  {
    var r := Fraction(a.num * b.den + b.num * a.den, a.den * b.den);
    var va, vb := Value(a), Value(b);
    assert a.num as real == va * a.den as real;
    assert b.num as real == vb * b.den as real;
    assert r.num as real == (va + vb) * r.den as real by {
      assert (a.num * b.den) as real == a.num as real * b.den as real;
      assert (b.num * a.den) as real == b.num as real * a.den as real;
      assert r.den as real == a.den as real * b.den as real;
    }
    CrossValue(r.num, r.den, va + vb);
    r
  }

  function Neg(a: Rat): (r: Rat)
    ensures Value(r) == -Value(a)
  {
    Fraction(-a.num, a.den)
  }

  /** `Fraction::sub`. */
  function Sub(a: Rat, b: Rat): (r: Rat)
    ensures Value(r) == Value(a) - Value(b)
  {
    Add(a, Neg(b))
  }

  /** Fraction multiplication: numerators and denominators multiply. */
  function Mul(a: Rat, b: Rat): (r: Rat)
    ensures Value(r) == Value(a) * Value(b)
  {
    var r := Fraction(a.num * b.num, a.den * b.den);
    var va, vb := Value(a), Value(b);
    assert a.num as real == va * a.den as real;
    assert b.num as real == vb * b.den as real;
    assert r.num as real == (va * vb) * r.den as real by {
      assert r.num as real == a.num as real * b.num as real;
      assert r.den as real == a.den as real * b.den as real;
    }
    CrossValue(r.num, r.den, va * vb);
    r
  }

  /** Addition and multiplication commute and associate on the fractions
      themselves, not only on their values, as exact rational arithmetic
      promises. */
  lemma AddCommutes(a: Rat, b: Rat)
    ensures Add(a, b) == Add(b, a)
  {
    assert a.den * b.den == b.den * a.den;
  }

  lemma {:induction false} AddAssociates(a: Rat, b: Rat, c: Rat)
    ensures Add(Add(a, b), c) == Add(a, Add(b, c))
  {
    var ab, bc := Add(a, b), Add(b, c);
    assert ab == Fraction(a.num * b.den + b.num * a.den, a.den * b.den);
    assert bc == Fraction(b.num * c.den + c.num * b.den, b.den * c.den);
    CrossSumAssociates(a.num, a.den, b.num, b.den, c.num, c.den);
  }

  lemma CrossSumAssociates(an: int, ad: int, bn: int, bd: int, cn: int, cd: int)
    ensures (an * bd + bn * ad) * cd + cn * (ad * bd) == an * (bd * cd) + (bn * cd + cn * bd) * ad
    ensures (ad * bd) * cd == ad * (bd * cd)
  {
    assert (an * bd + bn * ad) * cd == an * bd * cd + bn * ad * cd;
    assert (bn * cd + cn * bd) * ad == bn * cd * ad + cn * bd * ad;
  }

  lemma MulCommutes(a: Rat, b: Rat)
    ensures Mul(a, b) == Mul(b, a)
  {
    assert a.num * b.num == b.num * a.num && a.den * b.den == b.den * a.den;
  }

  lemma {:induction false} MulAssociates(a: Rat, b: Rat, c: Rat)
    ensures Mul(Mul(a, b), c) == Mul(a, Mul(b, c))
  {
    assert Mul(a, b) == Fraction(a.num * b.num, a.den * b.den);
    assert Mul(b, c) == Fraction(b.num * c.num, b.den * c.den);
    assert (a.num * b.num) * c.num == a.num * (b.num * c.num);
    assert (a.den * b.den) * c.den == a.den * (b.den * c.den);
  }

  /** `Fraction::abs`. */
  function Abs(a: Rat): (r: Rat)
    ensures Value(r) == if Value(a) < 0.0 then -Value(a) else Value(a)
  {
    if a.num < 0 then Neg(a) else a
  }

  /** Comparison `a > b`, by cross-multiplying, never through floating point. */
  function Greater(a: Rat, b: Rat): (r: bool)
    ensures r <==> Value(a) > Value(b)
  {
    var d := Sub(a, b);
    d.num > 0
  }

  /** `a.decimal(p)`: |num| * 10^p divided by den in integer division, read as
      a fixed-point number with p fractional digits, '-' in front when the
      value is negative. The result is the truncation (not the rounding) of
      the exact value. */
  function Decimal(a: Rat, p: nat): (s: string)
    ensures s == Render(Value(a), p)
  {
    PowPositive(10, p);
    var magnitude := if a.num < 0 then -a.num else a.num;
    var q := magnitude * Pow(10, p) / a.den;
    RenderOfFraction(a, p, q);
    (if a.num < 0 then "-" else "") + FixedPoint(q, p)
  }

  lemma RenderOfFraction(a: Rat, p: nat, q: nat)
    requires Pow(10, p) > 0 && q == (if a.num < 0 then -a.num else a.num) * Pow(10, p) / a.den
    ensures Render(Value(a), p) == (if a.num < 0 then "-" else "") + FixedPoint(q, p)
  {
    TruncationByDivision(a, p);
    SignOfValue(a);
  }

  /** A fraction's value is negative exactly when its numerator is. */
  lemma SignOfValue(a: Rat)
    ensures Value(a) < 0.0 <==> a.num < 0
  {
    var v := Value(a);
    assert v * a.den as real == a.num as real;
    if a.num < 0 {
      assert v < 0.0;
    }
  }

  /** Integer division of |num| * 10^p by den is the floor of |value| * 10^p. */
  lemma TruncationByDivision(a: Rat, p: nat)
    ensures Pow(10, p) > 0
    ensures (if a.num < 0 then -a.num else a.num) * Pow(10, p) / a.den == TruncatedDigits(Value(a), p)
  {
    PowPositive(10, p);
    MagnitudeOfValue(a);
    TruncatedQuotient(Value(a), if a.num < 0 then -a.num else a.num, a.den, p);
  }

  /** The magnitude of a fraction's value is |num| / den. */
  lemma MagnitudeOfValue(a: Rat)
    ensures (if Value(a) < 0.0 then -Value(a) else Value(a))
         == (if a.num < 0 then -a.num else a.num) as real / a.den as real
  {
    if a.num < 0 {
      assert Value(a) < 0.0;
      assert -Value(a) == (-a.num) as real / a.den as real;
    } else {
      assert Value(a) >= 0.0;
    }
  }

  lemma TruncatedQuotient(v: real, m: nat, d: int, p: nat)
    requires d > 0 && (if v < 0.0 then -v else v) == m as real / d as real
    ensures Pow(10, p) > 0
    ensures m * Pow(10, p) / d == TruncatedDigits(v, p)
  {
    PowPositive(10, p);
    var unit := Pow(10, p);
    var mag := if v < 0.0 then -v else v;
    assert TruncatedDigits(v, p) == (mag * unit as real).Floor;
    ScaledQuotient(m, unit, d);
    FloorOfQuotient(m * unit, d);
  }

  lemma ScaledQuotient(m: nat, unit: nat, d: int)
    requires d > 0
    ensures (m as real / d as real) * unit as real == (m * unit) as real / d as real
  {
    assert (m * unit) as real == m as real * unit as real;
  }

  /** For n >= 0 and d > 0, the floor of n / d over the reals is integer division. */
  lemma FloorOfQuotient(n: nat, d: int)
    requires d > 0
    ensures (n as real / d as real).Floor == n / d
  {
    var q, rem := n / d, n % d;
    assert n == q * d + rem && 0 <= rem < d;
    assert n as real == q as real * d as real + rem as real;
    assert n as real / d as real == q as real + rem as real / d as real;
    assert 0.0 <= rem as real / d as real < 1.0;
  }
}
