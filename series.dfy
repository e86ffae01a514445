/** The arctangent Taylor series x - x^3/3 + x^5/5 - ... over the reals: its
    terms and partial sums, the alternating-series bracketing of the partial
    sums, and, for x = 1/k, the number of terms the stopping rule
    "add terms while |term| > 10^-p" keeps. */
module Series {
  import opened Arith

  /** (-1)^i. */
  function Sign(i: nat): int
  {
    if i % 2 == 0 then 1 else -1
  }

  /** x^(2i+1) / (2i+1): the size of the i-th term when x >= 0. */
  function TermSize(x: real, i: nat): real
  {
    RealPow(x, 2 * i + 1) / (2 * i + 1) as real
  }

  /** The i-th term (-1)^i * x^(2i+1) / (2i+1). */
  function Term(x: real, i: nat): real
  {
    Sign(i) as real * TermSize(x, i)
  }

  /** The sum of the first m terms. */
  function AtanPartial(x: real, m: nat): real
  {
    if m == 0 then 0.0 else AtanPartial(x, m - 1) + Term(x, m - 1)
  }

  /** 1/k as a real. */
  function Recip(k: nat): real
    requires k >= 1
  {
    1.0 / k as real
  }

  /** The stopping threshold 10^-p. */
  function Target(p: nat): real
  {
    PowPositive(10, p);
    1.0 / Pow(10, p) as real
  }

  /** k^(2i+1) * (2i+1): the reciprocal of the i-th term's size at x = 1/k. */
  function InverseSize(k: nat, i: nat): int
  {
    Pow(k, 2 * i + 1) * (2 * i + 1)
  }

  lemma MulStrict(a: int, b: int, c: int, d: int)
    requires 0 < a <= b && 0 < c < d
    ensures a * c < b * d
  {
    assert a * c <= b * c;
    assert b * c < b * d;
  }

  /** For k >= 2 the reciprocal sizes strictly grow, so the term sizes strictly shrink. */
  lemma InverseSizeGrows(k: nat, i: nat)
    requires k >= 2
    ensures 0 < InverseSize(k, i) < InverseSize(k, i + 1)
  {
    var n := 2 * i + 1;
    PowPositive(k, n);
    var a := Pow(k, n);
    assert Pow(k, n + 2) == k * (k * a) by {
      assert Pow(k, n + 2) == k * Pow(k, n + 1);
    }
    assert a <= k * a;
    assert k * a <= k * (k * a);
    MulStrict(a, Pow(k, n + 2), n, n + 2);
    assert InverseSize(k, i + 1) == Pow(k, n + 2) * (n + 2);
  }

  lemma RealRecipProduct(a: int, b: int)
    requires a > 0 && b > 0
    ensures (1.0 / a as real) / b as real == 1.0 / (a * b) as real
  {
    assert (a * b) as real == a as real * b as real;
  }

  /** At x = 1/k the i-th term has size 1 / InverseSize(k, i). */
  lemma TermSizeOfRecip(k: nat, i: nat)
    requires k >= 1
    ensures InverseSize(k, i) > 0
    ensures TermSize(Recip(k), i) == 1.0 / InverseSize(k, i) as real
  {
    var n := 2 * i + 1;
    RealPowOfRecip(k, n);
    RealRecipProduct(Pow(k, n), n);
  }

  lemma RecipLess(a: int, b: int)
    requires a > 0 && b > 0
    ensures 1.0 / a as real > 1.0 / b as real <==> a < b
  {
    if a < b {
      RecipAntitone(a as real, b as real);
    } else if b < a {
      RecipAntitone(b as real, a as real);
    }
  }

  lemma RecipAntitone(x: real, y: real)
    requires 0.0 < x < y
    ensures 1.0 / y < 1.0 / x
  {
    var u, w := 1.0 / x, 1.0 / y;
    assert u * x == 1.0 && w * y == 1.0;
    assert w > 0.0;
    assert w * x < w * y;
  }

  /** At x = 1/k the i-th term is above the threshold 10^-p exactly when
      k^(2i+1) * (2i+1) < 10^p. */
  lemma AboveTarget(k: nat, p: nat, i: nat)
    requires k >= 1
    ensures TermSize(Recip(k), i) > Target(p) <==> InverseSize(k, i) < Pow(10, p)
  {
    TermSizeOfRecip(k, i);
    PowPositive(10, p);
    RecipLess(InverseSize(k, i), Pow(10, p));
  }

  lemma DivideMonotone(a: real, b: real, c: int, d: int)
    requires 0.0 <= a <= b && 0 < c <= d
    ensures 0.0 <= a / d as real <= b / c as real
  {
    assert a / d as real <= b / d as real;
    assert b / d as real <= b / c as real by {
      assert b / d as real * d as real == b;
      assert b / c as real * c as real == b;
    }
  }

  /** On [0, 1] the term sizes are non-negative and do not grow. */
  lemma TermSizeShrinks(x: real, i: nat)
    requires 0.0 <= x <= 1.0
    ensures 0.0 <= TermSize(x, i + 1) <= TermSize(x, i)
  {
    var n := 2 * i + 1;
    RealPowUnitInterval(x, n);
    RealPowUnitInterval(x, n + 1);
    RealPowUnitInterval(x, 2 * i);
    DivideMonotone(RealPow(x, n + 2), RealPow(x, n), n, n + 2);
  }

  lemma TermSizeNonneg(x: real, i: nat)
    requires 0.0 <= x <= 1.0
    ensures 0.0 <= TermSize(x, i)
  {
    RealPowUnitInterval(x, 2 * i);
  }

  /** Alternating-series bracketing: every later partial sum differs from the
      m-th one in the direction of the m-th term, by at most that term's size. */
  lemma {:induction false} Bracket(x: real, m: nat, m2: nat)
    requires 0.0 <= x <= 1.0 && m <= m2
    ensures 0.0 <= Sign(m) as real * (AtanPartial(x, m2) - AtanPartial(x, m)) <= TermSize(x, m)
    decreases m2 - m
  {
    TermSizeNonneg(x, m);
    if m < m2 {
      Bracket(x, m + 1, m2);
      TermSizeShrinks(x, m);
      PartialStep(x, m);
      var sm := Sign(m) as real;
      var rest := AtanPartial(x, m2) - AtanPartial(x, m + 1);
      BracketStep(sm, TermSize(x, m), TermSize(x, m + 1), rest);
    }
  }

  /** Each partial sum adds the next signed term; the sign alternates. */
  lemma PartialStep(x: real, m: nat)
    ensures AtanPartial(x, m + 1) == AtanPartial(x, m) + Sign(m) as real * TermSize(x, m)
    ensures Sign(m) == 1 || Sign(m) == -1
    ensures Sign(m + 1) == -Sign(m)
  {
  }

  /** One step of the bracketing: a term of size t followed by a remainder
      of the opposite sign and at most the next size t' <= t. */
  lemma BracketStep(s: real, t: real, tNext: real, rest: real)
    requires s == 1.0 || s == -1.0
    requires 0.0 <= tNext <= t && 0.0 <= -s * rest <= tNext
    ensures 0.0 <= s * (s * t + rest) <= t
  {
    if s == 1.0 {
      assert s * (s * t + rest) == t + rest;
    } else {
      assert s * (s * t + rest) == t - rest;
    }
  }

  /** Partial sums after an even number of terms are below, and after an odd
      number of terms above, every later partial sum. */
  lemma PartialSumsBracket(x: real, j: nat, m: nat)
    requires 0.0 <= x <= 1.0
    ensures 2 * j <= m ==> AtanPartial(x, 2 * j) <= AtanPartial(x, m)
    ensures 2 * j + 1 <= m ==> AtanPartial(x, m) <= AtanPartial(x, 2 * j + 1)
  {
    if 2 * j <= m {
      Bracket(x, 2 * j, m);
    }
    if 2 * j + 1 <= m {
      Bracket(x, 2 * j + 1, m);
    }
  }

  /** The first m' >= m whose term has InverseSize(k, m') >= 10^p, given that
      all terms before m were above the threshold. */
  function CountFrom(k: nat, p: nat, m: nat): (r: nat)
    requires k >= 2
    requires forall i | 0 <= i < m :: InverseSize(k, i) < Pow(10, p)
    ensures m <= r
    ensures forall i | 0 <= i < r :: InverseSize(k, i) < Pow(10, p)
    ensures InverseSize(k, r) >= Pow(10, p)
    decreases Pow(10, p) - InverseSize(k, m)
  {
    if InverseSize(k, m) < Pow(10, p) then
      InverseSizeGrows(k, m);
      CountFrom(k, p, m + 1)
    else
      m
  }

  /** The number of terms of the series at 1/k that lie above 10^-p before the
      first one that does not. */
  function TermCount(k: nat, p: nat): (r: nat)
    requires k >= 2
    ensures forall i | 0 <= i < r :: InverseSize(k, i) < Pow(10, p)
    ensures InverseSize(k, r) >= Pow(10, p)
  {
    CountFrom(k, p, 0)
  }

  /** The value the stopping rule produces: the partial sum at 1/k of the
      terms above 10^-p. */
  function AtanSeries(k: nat, p: nat): real
    requires k >= 2
  {
    AtanPartial(Recip(k), TermCount(k, p))
  }

  /** The term count is the index of the first term at or below the threshold. */
  lemma TermCountIsFirstSmall(k: nat, p: nat, m: nat)
    requires k >= 2
    requires forall i | 0 <= i < m :: InverseSize(k, i) < Pow(10, p)
    requires InverseSize(k, m) >= Pow(10, p)
    ensures TermCount(k, p) == m
  {
  }

  /** Stopping rule in terms of the series: every term kept is above 10^-p and
      the first term left out is not. */
  lemma StoppingRule(k: nat, p: nat)
    requires k >= 2
    ensures forall i | 0 <= i < TermCount(k, p) :: TermSize(Recip(k), i) > Target(p)
    ensures TermSize(Recip(k), TermCount(k, p)) <= Target(p)
  {
    var m := TermCount(k, p);
    forall i | 0 <= i < m
      ensures TermSize(Recip(k), i) > Target(p)
    {
      AboveTarget(k, p, i);
    }
    AboveTarget(k, p, m);
  }

  /** Every later partial sum is within 10^-p of the value the stopping rule
      produces: the terms left out cannot move the sum by more than the
      threshold. */
  lemma TailBound(k: nat, p: nat, m: nat)
    requires k >= 2 && TermCount(k, p) <= m
    ensures -Target(p) <= AtanPartial(Recip(k), m) - AtanSeries(k, p) <= Target(p)
  {
    var x := Recip(k);
    var c := TermCount(k, p);
    Bracket(x, c, m);
    StoppingRule(k, p);
    var d := AtanPartial(x, m) - AtanPartial(x, c);
    if Sign(c) == 1 {
      assert 0.0 <= d <= TermSize(x, c);
    } else {
      assert 0.0 <= -d <= TermSize(x, c);
    }
  }

  lemma SixteenBeatsTen(p: nat)
    ensures Pow(10, p) <= Pow(2, 4 * p)
  {
    if p > 0 {
      SixteenBeatsTen(p - 1);
      PowPositive(10, p - 1);
      var e := 4 * (p - 1);
      assert Pow(2, e + 4) == 16 * Pow(2, e) by {
        assert Pow(2, e + 4) == 2 * Pow(2, e + 3);
        assert Pow(2, e + 3) == 2 * Pow(2, e + 2);
        assert Pow(2, e + 2) == 2 * Pow(2, e + 1);
      }
    }
  }

  /** Bounds on the number of terms: the last term kept satisfies
      k^(2m-1) * (2m-1) < 10^p, and there are at most 2p terms. */
  lemma TermCountBound(k: nat, p: nat)
    requires k >= 2
    ensures var m := TermCount(k, p);
      (m >= 1 ==> Pow(k, 2 * m - 1) * (2 * m - 1) < Pow(10, p)) && m <= 2 * p
  {
    var m := TermCount(k, p);
    if m >= 1 {
      assert InverseSize(k, m - 1) < Pow(10, p);
    }
    InverseSizeBeyond(k, p);
  }

  /** The term with index 2p is already at or below 10^-p. */
  lemma InverseSizeBeyond(k: nat, p: nat)
    requires k >= 2
    ensures InverseSize(k, 2 * p) >= Pow(10, p)
  {
    var e := 4 * p + 1;
    PowAtLeast(k, e);
    PowMonotone(2, 4 * p, e);
    SixteenBeatsTen(p);
    var big := Pow(k, e);
    assert InverseSize(k, 2 * p) == big * e;
    ScaleUp(big, e);
  }

  lemma ScaleUp(a: int, b: int)
    requires a >= 0 && b >= 1
    ensures a * b >= a
  {
    assert a * b == a + a * (b - 1);
  }

  /** The series at 1/k keeps no term, and so sums to exactly 0, exactly when
      1/k is already at or below 10^-p. */
  lemma TinyArgument(k: nat, p: nat)
    requires k >= 2
    ensures TermCount(k, p) == 0 <==> k >= Pow(10, p)
    ensures k >= Pow(10, p) ==> AtanSeries(k, p) == 0.0
  {
    assert Pow(k, 1) == k * Pow(k, 0);
    assert InverseSize(k, 0) == k;
    if k >= Pow(10, p) {
      TermCountIsFirstSmall(k, p, 0);
    }
  }
}
