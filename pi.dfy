/** The π calculator: `atan` sums the arctangent series in exact rational
    arithmetic until the current term is at or below 10^-precision, and `pi`
    combines two such sums by Machin's identity
    π = 16·atan(1/5) − 4·atan(1/239), with guard digits, and renders the result
    truncated to `precision` fractional digits. */
module PiCalc {
  import opened Arith
  import opened Decimals
  import opened Rationals
  import opened Series

  /** 2^32: `precision as u32` keeps the exponent of 10^precision exact only
      below this bound. */
  const U32Limit: nat := 0x1_0000_0000

  /** The benchmark's configuration: the number of fractional digits to compute. */
  datatype PiCalcTest = PiCalcTest(precision: nat)
  {
    /** `PiCalcTest::new`: the fixed precision of 100 digits, which `pi` accepts. */
    static function New(): (t: PiCalcTest)
      ensures t.precision == 100
      ensures t.precision + 2 < U32Limit
    {
      PiCalcTest(100)
    }

    function Name(): string
    {
      "PiCalculator"
    }
  }

  /** `atan(x, precision)` for x = 1/k with k >= 2: adds the terms
      sign·x^n/n for n = 1, 3, 5, ... while the current term's magnitude
      exceeds 10^-precision, and returns the sum of the terms added. */
  method Atan(x: Rat, precision: nat) returns (ret: Rat)
    requires x.num == 1 && x.den >= 2
    requires precision < U32Limit
    ensures Value(ret) == AtanSeries(x.den, precision)
  {
    PowPositive(10, precision);
    var end := Pow(10, precision);
    var target := Fraction(1, end);
    var currentTerm := x;
    ret := FromInt(0);
    var sign := 1;
    var n := 1;
    var xPowN := x;
    var two := 2;
    var xSquare := Mul(x, x);
    ghost var k := x.den;
    ghost var xv := Value(x);
    ghost var m := 0;
    assert xv == Recip(k);
    assert Value(xSquare) == xv * xv;
    assert RealPow(xv, 1) == xv;
    while Greater(Abs(currentTerm), target)
      invariant n == 2 * m + 1
      invariant sign == Sign(m)
      invariant Value(xPowN) == RealPow(xv, n)
      invariant Value(currentTerm) == Term(xv, m)
      invariant Value(ret) == AtanPartial(xv, m)
      invariant forall i | 0 <= i < m :: InverseSize(k, i) < end
      decreases end - InverseSize(k, m)
    {
      TermIsAbove(k, precision, m, currentTerm);
      InverseSizeGrows(k, m);
      PartialStep(xv, m);
      ghost var retBefore, powBefore, termBefore, signBefore, nBefore := ret, xPowN, currentTerm, sign, n;
      ret := Add(ret, currentTerm);
      n := n + two;
      sign := -sign;
      xPowN := Mul(xPowN, xSquare);
      currentTerm := Mul(xPowN, Fraction(sign, n));
      NextState(xv, m, nBefore, signBefore, retBefore, termBefore, powBefore, xSquare, ret, xPowN, currentTerm);
      m := m + 1;
    }
    TermIsAbove(k, precision, m, currentTerm);
    TermCountIsFirstSmall(k, precision, m);
  }

  /** The loop guard |currentTerm| > 10^-precision, read on the series. */
  lemma TermIsAbove(k: nat, p: nat, m: nat, currentTerm: Rat)
    requires k >= 2 && Value(currentTerm) == Term(Recip(k), m)
    ensures Pow(10, p) > 0
    ensures Greater(Abs(currentTerm), Fraction(1, Pow(10, p))) <==> InverseSize(k, m) < Pow(10, p)
  {
    PowPositive(10, p);
    var target := Fraction(1, Pow(10, p));
    assert Value(target) == Target(p);
    var size := Abs(currentTerm);
    AbsOfTerm(Recip(k), m, currentTerm);
    AboveTarget(k, p, m);
    assert Greater(size, target) <==> Value(size) > Value(target);
  }

  /** The magnitude of the fraction holding the m-th term is the term's size. */
  lemma AbsOfTerm(x: real, m: nat, currentTerm: Rat)
    requires 0.0 <= x <= 1.0 && Value(currentTerm) == Term(x, m)
    ensures Value(Abs(currentTerm)) == TermSize(x, m)
  {
    TermSizeNonneg(x, m);
    assert Term(x, m) == Sign(m) as real * TermSize(x, m);
  }

  /** One pass of the loop body keeps the state invariant: after the m-th
      term is added, `ret` is the (m+1)-th partial sum, `x_pow_n` is x^(n+2)
      and `current_term` is the (m+1)-th term sign·x^n/n. */
  lemma NextState(xv: real, m: nat, n: nat, sign: int, ret: Rat, term: Rat, pow: Rat, xSquare: Rat,
                  ret': Rat, pow': Rat, term': Rat)
    requires n == 2 * m + 1 && sign == Sign(m)
    requires Value(xSquare) == xv * xv
    requires Value(ret) == AtanPartial(xv, m) && Value(term) == Term(xv, m)
    requires Value(pow) == RealPow(xv, n)
    requires ret' == Add(ret, term)
    requires pow' == Mul(pow, xSquare)
    requires term' == Mul(pow', Fraction(-sign, n + 2))
    ensures Value(ret') == AtanPartial(xv, m + 1)
    ensures Value(pow') == RealPow(xv, n + 2)
    ensures Value(term') == Term(xv, m + 1)
  {
    PartialStep(xv, m);
    NextTerm(xv, m, Value(pow), Value(pow'), Value(term'), -sign, n + 2);
  }

  lemma NextTerm(xv: real, m: nat, pow: real, pow': real, term': real, sign': int, n': nat)
    requires n' == 2 * m + 3 && sign' == -Sign(m)
    requires pow == RealPow(xv, n' - 2)
    requires pow' == pow * (xv * xv)
    requires term' == pow' * (sign' as real / n' as real)
    ensures pow' == RealPow(xv, n')
    ensures term' == Term(xv, m + 1)
  {
    assert RealPow(xv, n') == xv * (xv * RealPow(xv, n' - 2)) by {
      assert RealPow(xv, n') == xv * RealPow(xv, n' - 1);
    }
    assert Sign(m + 1) == sign';
  }

  /** The value `pi(p)` renders: 16·atan(1/5) at p + 2 digits minus
      4·atan(1/239) at p + 1 digits, each as the stopping rule sums it. */
  function PiSeries(p: nat): real
  {
    16.0 * AtanSeries(5, p + 2) - 4.0 * AtanSeries(239, p + 1)
  }

  lemma MachinValue(a: Rat, b: Rat, approx: Rat)
    requires approx == Sub(Mul(FromInt(16), a), Mul(FromInt(4), b))
    ensures Value(approx) == 16.0 * Value(a) - 4.0 * Value(b)
  {
  }

  /** `pi(precision)`: the Machin combination of the two series, rendered
      with exactly `precision` fractional digits, truncated. */
  method Pi(precision: nat) returns (s: string)
    requires precision + 2 < U32Limit
    ensures s == Render(PiSeries(precision), precision)
    ensures |s| == (if precision == 0 then 1 else precision + 2)
    ensures s[0] == '3' && (precision > 0 ==> s[1] == '.')
    ensures ParseFixed(s, precision) == Some(TruncatedDigits(PiSeries(precision), precision))
  {
    var a := Atan(Fraction(1, 5), precision + 2);
    var b := Atan(Fraction(1, 239), precision + 1);
    var piApprox := Sub(Mul(FromInt(16), a), Mul(FromInt(4), b));
    MachinValue(a, b, piApprox);
    ghost var v := Value(piApprox);
    assert v == PiSeries(precision);
    s := Decimal(piApprox, precision);
    assert s == Render(v, precision);
    PiRendering(precision);
  }

  /** The first term of each series at x = 1/k is 1/k. */
  lemma FirstPartialSum(k: nat)
    requires k >= 2
    ensures AtanPartial(Recip(k), 1) == Recip(k)
  {
    assert RealPow(Recip(k), 1) == Recip(k);
  }

  /** For every precision, 3.14 < PiSeries(p) <= 3.2: the 1/5 series keeps at
      least its first term and lies between its first two partial sums, and
      the 1/239 series lies between 0 and 1/239. */
  lemma PiSeriesBounds(p: nat)
    ensures 3.14 < PiSeries(p) <= 3.2
  {
    var c5, c239 := TermCount(5, p + 2), TermCount(239, p + 1);
    assert InverseSize(5, 0) == 5;
    PowMonotone(10, 2, p + 2);
    assert Pow(10, 2) == 100;
    assert c5 >= 1;
    FirstPartialSum(5);
    Bracket(Recip(5), 1, c5);
    TermSizeOfRecip(5, 1);
    assert InverseSize(5, 1) == 375;
    assert AtanSeries(5, p + 2) >= 0.2 - 1.0 / 375.0;
    Bracket(Recip(239), 0, c239);
    TermSizeOfRecip(239, 0);
    assert InverseSize(239, 0) == 239;
    assert 0.0 <= AtanSeries(239, p + 1) <= 1.0 / 239.0;
  }

  /** The guard digits suffice: however many more terms either series were
      given, the combination would move by at most 16·10^-(p+2) + 4·10^-(p+1)
      = 0.56·10^-p, less than one unit of the last digit kept. */
  lemma GuardDigits(p: nat, m5: nat, m239: nat)
    requires TermCount(5, p + 2) <= m5 && TermCount(239, p + 1) <= m239
    ensures var later := 16.0 * AtanPartial(Recip(5), m5) - 4.0 * AtanPartial(Recip(239), m239);
      -0.56 * Target(p) <= later - PiSeries(p) <= 0.56 * Target(p)
  {
    TailBound(5, p + 2, m5);
    TailBound(239, p + 1, m239);
    TargetStep(p);
    TargetStep(p + 1);
    var d5 := AtanPartial(Recip(5), m5) - AtanSeries(5, p + 2);
    var d239 := AtanPartial(Recip(239), m239) - AtanSeries(239, p + 1);
    assert 16.0 * AtanPartial(Recip(5), m5) - 4.0 * AtanPartial(Recip(239), m239) - PiSeries(p)
        == 16.0 * d5 - 4.0 * d239;
    GuardBudget(Target(p), Target(p + 1), Target(p + 2), d5, d239);
  }

  /** 16·10^-(p+2) + 4·10^-(p+1) == 0.56·10^-p bounds the combined error. */
  lemma GuardBudget(t: real, t1: real, t2: real, d5: real, d239: real)
    requires t1 * 10.0 == t && t2 * 10.0 == t1
    requires -t2 <= d5 <= t2 && -t1 <= d239 <= t1
    ensures -0.56 * t <= 16.0 * d5 - 4.0 * d239 <= 0.56 * t
  {
  }

  /** One more digit of precision divides the threshold by ten. */
  lemma TargetStep(p: nat)
    ensures Target(p + 1) * 10.0 == Target(p)
  {
    PowPositive(10, p);
    var a := Pow(10, p);
    assert Pow(10, p + 1) == 10 * a;
    assert (10 * a) as real == a as real * 10.0;
    RecipScale(a as real, 10.0);
  }

  lemma RecipScale(a: real, b: real)
    requires a > 0.0 && b > 0.0
    ensures (1.0 / (a * b)) * b == 1.0 / a
  {
    var t := 1.0 / (a * b);
    assert t * (a * b) == 1.0;
    assert (t * b) * a == 1.0;
  }

  lemma DivIsThree(q: nat, unit: nat)
    requires unit > 0 && 3 * unit <= q < 4 * unit
    ensures q / unit == 3 && q % unit == q - 3 * unit
  {
    var r := q - 3 * unit;
    assert q == 3 * unit + r && 0 <= r < unit;
  }

  /** A value in [3, 3.2] scaled by 10^p and truncated lies in [3·10^p, 4·10^p). */
  lemma LeadingThree(v: real, p: nat)
    requires 3.0 <= v <= 3.2
    ensures Pow(10, p) > 0
    ensures 3 * Pow(10, p) <= TruncatedDigits(v, p) < 4 * Pow(10, p)
  {
    PowPositive(10, p);
    var unit := Pow(10, p);
    var u := unit as real;
    var scaled := v * u;
    assert TruncatedDigits(v, p) == scaled.Floor;
    MulNonneg(v - 3.0, u);
    MulNonneg(3.2 - v, u);
    assert (v - 3.0) * u == scaled - 3.0 * u;
    assert (3.2 - v) * u == 3.2 * u - scaled;
    assert (3 * unit) as real == 3.0 * u && (4 * unit) as real == 4.0 * u;
  }

  lemma ThreeAsString()
    ensures NatToString(3) == "3"
  {
    assert DigitCount(3) == 1;
    assert Padded(3, 1) == Padded(0, 0) + [DigitChar(3)];
  }

  /** A fixed-point rendering of a number in [3, 4) is "3", then for p > 0 a
      point and p digits. */
  lemma FixedPointOfThree(q: nat, p: nat)
    requires Pow(10, p) > 0 && 3 * Pow(10, p) <= q < 4 * Pow(10, p)
    ensures var s := FixedPoint(q, p);
      |s| == (if p == 0 then 1 else p + 2) && s[0] == '3' && (p > 0 ==> s[1] == '.')
  {
    ThreeAsString();
    if p == 0 {
      assert Pow(10, 0) == 1;
      assert q == 3;
      assert FixedPoint(q, 0) == NatToString(3);
    } else {
      FractionalRendering(q, p);
    }
  }

  lemma FractionalRendering(q: nat, p: nat)
    requires p > 0 && Pow(10, p) > 0 && 3 * Pow(10, p) <= q < 4 * Pow(10, p)
    requires NatToString(3) == "3"
    ensures var s := FixedPoint(q, p);
      |s| == p + 2 && s[0] == '3' && s[1] == '.'
  {
    var unit := Pow(10, p);
    DivIsThree(q, unit);
    var frac := Padded(q % unit, p);
    assert FixedPoint(q, p) == "3" + "." + frac;
  }

  /** The rendering of PiSeries(p): "3", then for p > 0 a point and p digits;
      its digits read back as the value truncated to p fractional digits. */
  lemma PiRendering(p: nat)
    ensures var s := Render(PiSeries(p), p);
      |s| == (if p == 0 then 1 else p + 2) && s[0] == '3' && (p > 0 ==> s[1] == '.')
      && ParseFixed(s, p) == Some(TruncatedDigits(PiSeries(p), p))
  {
    var v := PiSeries(p);
    PiSeriesBounds(p);
    var q := TruncatedDigits(v, p);
    LeadingThree(v, p);
    FixedPointOfThree(q, p);
    FixedPointRoundTrip(q, p);
    assert Render(v, p) == FixedPoint(q, p) by {
      assert "" + FixedPoint(q, p) == FixedPoint(q, p);
    }
  }

  /** At two digits: atan(1/5) at four digits keeps the terms 1/5 and
      -1/375, atan(1/239) at three digits keeps 1/239 alone, and the
      combination 3.1405... renders as "3.14". */
  lemma PiToTwoDigits()
    ensures Render(PiSeries(2), 2) == "3.14"
  {
    TwoDigitTermCounts();
    TwoDigitSums();
    var v := PiSeries(2);
    assert v == 16.0 * (0.2 - 0.008 / 3.0) - 4.0 * (1.0 / 239.0);
    TwoDigitTruncation(v);
    assert Render(v, 2) == FixedPoint(314, 2) by {
      assert "" + FixedPoint(314, 2) == FixedPoint(314, 2);
    }
    FixedPoint314();
  }

  lemma TwoDigitTermCounts()
    ensures TermCount(5, 4) == 2 && TermCount(239, 3) == 1
  {
    assert Pow(5, 5) == 3125 && Pow(5, 3) == 125 && Pow(5, 1) == 5;
    assert Pow(239, 3) == 13651919 && Pow(239, 1) == 239;
    assert Pow(10, 4) == 10000 && Pow(10, 3) == 1000;
    assert InverseSize(5, 0) == 5 && InverseSize(5, 1) == 375 && InverseSize(5, 2) == 15625;
    assert InverseSize(239, 0) == 239 && InverseSize(239, 1) == 40955757;
    TermCountIsFirstSmall(5, 4, 2);
    TermCountIsFirstSmall(239, 3, 1);
  }

  lemma TwoDigitSums()
    ensures AtanPartial(Recip(5), 2) == 0.2 - 0.008 / 3.0
    ensures AtanPartial(Recip(239), 1) == 1.0 / 239.0
  {
    var x := Recip(5);
    assert RealPow(x, 3) == 0.008 by {
      assert RealPow(x, 1) == 0.2;
      assert RealPow(x, 2) == 0.04;
    }
    assert Term(x, 1) == -(0.008 / 3.0);
    assert Term(x, 0) == 0.2;
    assert RealPow(Recip(239), 1) == Recip(239);
  }

  lemma TwoDigitTruncation(v: real)
    requires v == 16.0 * (0.2 - 0.008 / 3.0) - 4.0 * (1.0 / 239.0)
    ensures TruncatedDigits(v, 2) == 314
  {
    assert Pow(10, 2) == 100;
    assert 314.0 <= v * 100.0 < 315.0;
  }

  lemma FixedPoint314()
    ensures FixedPoint(314, 2) == "3.14"
  {
    ThreeAsString();
    assert Pow(10, 2) == 100;
    assert Padded(14, 2) == "14" by {
      assert Padded(0, 0) == "";
      assert Padded(1, 1) == "" + [DigitChar(1)];
      assert Padded(14, 2) == Padded(1, 1) + [DigitChar(4)];
    }
    assert FixedPoint(314, 2) == NatToString(3) + "." + Padded(14, 2);
  }

  /** At five digits: atan(1/5) at seven digits keeps four terms, atan(1/239)
      at six digits keeps 1/239 alone, and the combination 3.1415916...
      renders as "3.14159". */
  lemma PiToFiveDigits()
    ensures Render(PiSeries(5), 5) == "3.14159"
  {
    FiveDigitTermCounts();
    FiveDigitSums();
    var v := PiSeries(5);
    assert v == 16.0 * (0.2 - 0.008 / 3.0 + 0.00032 / 5.0 - 0.0000128 / 7.0) - 4.0 * (1.0 / 239.0);
    FiveDigitTruncation(v);
    assert Render(v, 5) == FixedPoint(314159, 5) by {
      assert "" + FixedPoint(314159, 5) == FixedPoint(314159, 5);
    }
    FixedPoint314159();
  }

  lemma FiveDigitTermCounts()
    ensures TermCount(5, 7) == 4 && TermCount(239, 6) == 1
  {
    assert Pow(5, 9) == 1953125 && Pow(5, 7) == 78125 && Pow(5, 5) == 3125;
    assert Pow(5, 3) == 125 && Pow(5, 1) == 5;
    assert Pow(239, 3) == 13651919 && Pow(239, 1) == 239;
    assert Pow(10, 7) == 10000000 && Pow(10, 6) == 1000000;
    assert InverseSize(5, 0) == 5 && InverseSize(5, 1) == 375 && InverseSize(5, 2) == 15625;
    assert InverseSize(5, 3) == 546875 && InverseSize(5, 4) == 17578125;
    assert InverseSize(239, 0) == 239 && InverseSize(239, 1) == 40955757;
    TermCountIsFirstSmall(5, 7, 4);
    TermCountIsFirstSmall(239, 6, 1);
  }

  lemma FiveDigitSums()
    ensures AtanPartial(Recip(5), 4) == 0.2 - 0.008 / 3.0 + 0.00032 / 5.0 - 0.0000128 / 7.0
    ensures AtanPartial(Recip(239), 1) == 1.0 / 239.0
  {
    var x := Recip(5);
    assert RealPow(x, 7) == 0.0000128 && RealPow(x, 5) == 0.00032 && RealPow(x, 3) == 0.008 by {
      assert RealPow(x, 1) == 0.2;
      assert RealPow(x, 2) == 0.04;
      assert RealPow(x, 3) == 0.008;
      assert RealPow(x, 4) == 0.0016;
      assert RealPow(x, 5) == 0.00032;
      assert RealPow(x, 6) == 0.000064;
    }
    assert Term(x, 0) == 0.2;
    assert Term(x, 1) == -(0.008 / 3.0);
    assert Term(x, 2) == 0.00032 / 5.0;
    assert Term(x, 3) == -(0.0000128 / 7.0);
    assert AtanPartial(x, 4) == Term(x, 0) + Term(x, 1) + Term(x, 2) + Term(x, 3);
    assert RealPow(Recip(239), 1) == Recip(239);
  }

  lemma FiveDigitTruncation(v: real)
    requires v == 16.0 * (0.2 - 0.008 / 3.0 + 0.00032 / 5.0 - 0.0000128 / 7.0) - 4.0 * (1.0 / 239.0)
    ensures TruncatedDigits(v, 5) == 314159
  {
    assert Pow(10, 5) == 100000;
    assert 314159.0 <= v * 100000.0 < 314160.0;
  }

  lemma FixedPoint314159()
    ensures FixedPoint(314159, 5) == "3.14159"
  {
    ThreeAsString();
    assert Pow(10, 5) == 100000;
    assert Padded(14159, 5) == "14159" by {
      assert Padded(0, 0) == "";
      assert Padded(1, 1) == "1";
      assert Padded(14, 2) == "14";
      assert Padded(141, 3) == "141";
      assert Padded(1415, 4) == "1415";
    }
    assert FixedPoint(314159, 5) == NatToString(3) + "." + Padded(14159, 5);
  }
}
