/** Decimal strings: digits, zero-padded fields, fixed-point rendering with a
    given number of fractional digits, and the parser that reads such a
    rendering back. */
module Decimals {
  import opened Arith

  datatype Option<T> = None | Some(value: T)

  predicate IsDigit(c: char)
  {
    '0' <= c <= '9'
  }

  predicate AllDigits(s: string)
  {
    forall i | 0 <= i < |s| :: IsDigit(s[i])
  }

  function DigitChar(d: nat): (c: char)
    requires d < 10
    ensures IsDigit(c) && c as int - '0' as int == d
  {
    ('0' as int + d) as char
  }

  /** The number a string of digits denotes, most significant digit first. */
  function ReadDigits(s: string): nat
    requires AllDigits(s)
  {
    if s == [] then 0 else 10 * ReadDigits(s[..|s| - 1]) + (s[|s| - 1] as int - '0' as int)
  }

  /** n written with exactly w digits, zero-padded on the left. */
  function Padded(n: nat, w: nat): (s: string)
    requires n < Pow(10, w)
    ensures |s| == w && AllDigits(s)
    ensures ReadDigits(s) == n
  {
    if w == 0 then "" else
      var s := Padded(n / 10, w - 1) + [DigitChar(n % 10)];
      assert s[..|s| - 1] == Padded(n / 10, w - 1);
      s
  }

  /** The number of decimal digits of n (one for zero). */
  function DigitCount(n: nat): (w: nat)
    ensures w >= 1 && n < Pow(10, w)
    ensures n == 0 || Pow(10, w - 1) <= n
  {
    if n < 10 then 1 else 1 + DigitCount(n / 10)
  }

  /** n in decimal without leading zeros. */
  function NatToString(n: nat): (s: string)
    ensures |s| >= 1 && AllDigits(s) && ReadDigits(s) == n
  {
    Padded(n, DigitCount(n))
  }

  /** The fixed-point rendering of q / 10^p: the integer part, and when p > 0 a
      point followed by exactly p fractional digits. */
  function FixedPoint(q: nat, p: nat): (s: string)
    ensures |s| >= 1 && IsDigit(s[0])
  {
    PowPositive(10, p);
    var unit := Pow(10, p);
    if p == 0 then NatToString(q / unit) else NatToString(q / unit) + "." + Padded(q % unit, p)
  }

  /** Reads a fixed-point string with exactly p fractional digits back into
      the scaled integer it denotes (the digits read with the point ignored). */
  function ParseFixed(s: string, p: nat): Option<nat>
  {
    if p == 0 then
      if |s| >= 1 && AllDigits(s) then Some(ReadDigits(s)) else None
    else if |s| >= p + 2 && s[|s| - p - 1] == '.'
         && AllDigits(s[..|s| - p - 1]) && AllDigits(s[|s| - p..]) then
      PowPositive(10, p);
      Some(ReadDigits(s[..|s| - p - 1]) * Pow(10, p) + ReadDigits(s[|s| - p..]))
    else
      None
  }

  /** A whole part, a point and p fractional digits parse as one scaled integer. */
  lemma SplitAtPoint(whole: string, frac: string, s: string)
    requires s == whole + "." + frac
    ensures |s| == |whole| + |frac| + 1
    ensures s[..|whole|] == whole && s[|whole|] == '.' && s[|whole| + 1..] == frac
  {
  }

  lemma ParseFixedPoint(whole: string, frac: string, p: nat)
    requires p > 0 && |frac| == p && |whole| >= 1
    requires AllDigits(whole) && AllDigits(frac)
    ensures Pow(10, p) > 0
    ensures ParseFixed(whole + "." + frac, p) == Some(ReadDigits(whole) * Pow(10, p) + ReadDigits(frac))
  {
    PowPositive(10, p);
    var s := whole + "." + frac;
    SplitAtPoint(whole, frac, s);
    ParseAtCut(s, p, whole, frac);
  }

  /** A string whose last p + 1 characters are a point and p digits, after
      a non-empty run of digits, parses as the two runs read together. */
  lemma ParseAtCut(s: string, p: nat, whole: string, frac: string)
    requires p > 0 && |frac| == p && |whole| >= 1 && |s| == |whole| + p + 1
    requires s[..|whole|] == whole && s[|whole|] == '.' && s[|whole| + 1..] == frac
    requires AllDigits(whole) && AllDigits(frac)
    ensures Pow(10, p) > 0
    ensures ParseFixed(s, p) == Some(ReadDigits(whole) * Pow(10, p) + ReadDigits(frac))
  {
    PowPositive(10, p);
    assert |s| - p - 1 == |whole|;
  }

  /** Reading back a fixed-point rendering gives the scaled integer it was made from. */
  lemma FixedPointRoundTrip(q: nat, p: nat)
    ensures ParseFixed(FixedPoint(q, p), p) == Some(q)
  {
    if p == 0 {
      assert Pow(10, 0) == 1;
      assert FixedPoint(q, 0) == NatToString(q);
    } else {
      PowPositive(10, p);
      var unit := Pow(10, p);
      var whole := NatToString(q / unit);
      var frac := Padded(q % unit, p);
      assert FixedPoint(q, p) == whole + "." + frac;
      ParseFixedPoint(whole, frac, p);
      assert ReadDigits(whole) * unit + ReadDigits(frac) == q by {
        DivMod(q, unit);
      }
    }
  }

  lemma DivMod(q: nat, d: nat)
    requires d > 0
    ensures (q / d) * d + q % d == q
  {
  }

  /** |v| * 10^p truncated to an integer: the digits of |v| kept by a
      rendering with p fractional digits. */
  function TruncatedDigits(v: real, p: nat): nat
  {
    var a := if v < 0.0 then -v else v;
    PowPositive(10, p);
    MulNonneg(a, Pow(10, p) as real);
    (a * Pow(10, p) as real).Floor
  }

  /** v truncated toward zero to p fractional digits, scaled by 10^p. */
  function Truncated(v: real, p: nat): int
  {
    var d: int := TruncatedDigits(v, p);
    if v < 0.0 then -d else d
  }

  /** The decimal rendering of v truncated (not rounded) to p fractional
      digits, with a leading '-' when v is negative. */
  function Render(v: real, p: nat): string
  {
    (if v < 0.0 then "-" else "") + FixedPoint(TruncatedDigits(v, p), p)
  }

  /** Reads a rendering with p fractional digits and an optional leading '-'. */
  function ParseDecimal(s: string, p: nat): Option<int>
  {
    if |s| >= 1 && s[0] == '-' then
      match ParseFixed(s[1..], p)
      case Some(q) => Some(-(q as int))
      case None => None
    else
      match ParseFixed(s, p)
      case Some(q) => Some(q)
      case None => None
  }

  /** A sign in front of a parsable fixed-point string negates what it reads as. */
  lemma SignedParse(negative: bool, body: string, p: nat, q: nat)
    requires |body| >= 1 && IsDigit(body[0]) && ParseFixed(body, p) == Some(q)
    ensures ParseDecimal((if negative then "-" else "") + body, p)
         == Some(if negative then -(q as int) else q)
  {
    if negative {
      var t := "-" + body;
      assert t[0] == '-' && t[1..] == body;
      NegativeParse(t, body, p, q);
    } else {
      assert "" + body == body;
      assert body[0] != '-';
    }
  }

  lemma NegativeParse(t: string, body: string, p: nat, q: nat)
    requires |t| >= 1 && t[0] == '-' && t[1..] == body && ParseFixed(body, p) == Some(q)
    ensures ParseDecimal(t, p) == Some(-(q as int))
  {
  }

  /** A rendering has exactly p fractional digits and reads back as the
      truncated value. */
  lemma RenderRoundTrip(v: real, p: nat)
    ensures ParseDecimal(Render(v, p), p) == Some(Truncated(v, p))
  {
    var q := TruncatedDigits(v, p);
    var body := FixedPoint(q, p);
    FixedPointRoundTrip(q, p);
    SignedParse(v < 0.0, body, p, q);
    assert Render(v, p) == (if v < 0.0 then "-" else "") + body;
    assert Truncated(v, p) == if v < 0.0 then -(q as int) else q;
  }

  /** Scaling y >= 0 by w > 0, taking the floor, and dividing by w is the
      floor of y. */
  lemma FloorScaled(y: real, w: int)
    requires y >= 0.0 && w > 0
    ensures (y * w as real).Floor / w == y.Floor
  {
    var f := y.Floor;
    var wr := w as real;
    var z := y * wr;
    MulLeReal(f as real, y, wr);
    MulLtReal(y, f as real + 1.0, wr);
    assert (f * w) as real == f as real * wr;
    assert (f * w + w) as real == (f as real + 1.0) * wr;
    assert (f * w) as real <= z < (f * w + w) as real;
    FloorBetween(z, f * w, f * w + w);
    DivBracket(z.Floor, w, f);
    assert z.Floor / w == f;
    assert z == y * w as real;
  }

  /** The floor of a real between two integers lies between them. */
  lemma FloorBetween(z: real, lo: int, hi: int)
    requires lo as real <= z < hi as real
    ensures lo <= z.Floor < hi
  {
  }

  /** Truncating to p digits and then dropping the last p - p2 of them is
      truncating to p2 digits. */
  lemma Retruncate(v: real, p: nat, p2: nat)
    requires p2 <= p
    ensures Pow(10, p - p2) > 0
    ensures TruncatedDigits(v, p) / Pow(10, p - p2) == TruncatedDigits(v, p2)
  {
    var a := if v < 0.0 then -v else v;
    PowPositive(10, p2);
    PowPositive(10, p - p2);
    var u2, w := Pow(10, p2), Pow(10, p - p2);
    PowAdd(10, p2, p - p2);
    assert p2 + (p - p2) == p;
    TruncatedScale(v, p, a, u2 * w);
    TruncatedScale(v, p2, a, u2);
    FloorOfProduct(a, u2, w);
    assert TruncatedDigits(v, p) == (a * (u2 * w) as real).Floor;
    assert TruncatedDigits(v, p2) == (a * u2 as real).Floor;
    assert (a * (u2 * w) as real).Floor / w == (a * u2 as real).Floor;
  }

  /** TruncatedDigits with the magnitude and the power of ten given by name. */
  lemma TruncatedScale(v: real, p: nat, a: real, u: int)
    requires a == (if v < 0.0 then -v else v) && u == Pow(10, p)
    ensures TruncatedDigits(v, p) == (a * u as real).Floor
  {
  }

  /** Scaling by u2 * w, taking the floor and dividing by w is scaling by u2
      and taking the floor. */
  lemma FloorOfProduct(a: real, u2: int, w: int)
    requires a >= 0.0 && u2 > 0 && w > 0
    ensures (a * (u2 * w) as real).Floor / w == (a * u2 as real).Floor
  {
    var y := a * u2 as real;
    MulNonneg(a, u2 as real);
    assert (u2 * w) as real == u2 as real * w as real;
    assert a * (u2 * w) as real == y * w as real;
    FloorScaled(y, w);
  }

  /** The fractional digits kept at p2 < p digits are the leading digits of
      those kept at p digits, as numbers. */
  lemma FractionDigits(q: nat, u2: int, w: int)
    requires u2 > 0 && w > 0
    ensures (q / w) % u2 == (q % (u2 * w)) / w
  {
    var u := u2 * w;
    var whole, rest := q / u, q % u;
    var lead, low := rest / w, rest % w;
    assert q == whole * u + rest && 0 <= rest < u;
    assert rest == lead * w + low && 0 <= low < w;
    LeadBelow(rest, u2, w);
    Reassemble(q, u2, w, whole, lead, low);
  }

  /** The leading digits of a number below u2 * w, taken by dividing by w,
      are below u2. */
  lemma LeadBelow(rest: nat, u2: int, w: int)
    requires u2 > 0 && w > 0 && rest < u2 * w
    ensures rest / w < u2
  {
    var lead := rest / w;
    assert lead * w <= rest;
    assert (lead - u2) * w == lead * w - u2 * w;
    MulSign(lead - u2, w);
  }

  /** q = (whole * u2 + lead) * w + low, with digits in range, gives back its
      parts by division. */
  lemma Reassemble(q: nat, u2: int, w: int, whole: nat, lead: nat, low: nat)
    requires u2 > 0 && w > 0 && lead < u2 && low < w
    requires q == whole * (u2 * w) + lead * w + low
    ensures (q / w) % u2 == lead
  {
    Recompose(whole, u2, w, lead);
    var n := whole * u2 + lead;
    DivBracket(q, w, n);
    DivBracket(n, u2, whole);
  }

  lemma Recompose(whole: int, u2: int, w: int, lead: int)
    ensures (whole * u2 + lead) * w == whole * (u2 * w) + lead * w
  {
  }

  /** Dropping the last j digits of a w-digit field gives a prefix of it. */
  lemma {:induction false} PaddedPrefix(n: nat, width: nat, j: nat)
    requires n < Pow(10, width) && j <= width
    ensures Pow(10, j) > 0 && n / Pow(10, j) < Pow(10, width - j)
    ensures Padded(n / Pow(10, j), width - j) <= Padded(n, width)
  {
    PowPositive(10, j);
    if j == 0 {
      assert n / Pow(10, 0) == n;
    } else {
      assert Pow(10, width) == 10 * Pow(10, width - 1);
      assert n / 10 < Pow(10, width - 1);
      PaddedPrefix(n / 10, width - 1, j - 1);
      PowPositive(10, j - 1);
      assert Pow(10, j) == 10 * Pow(10, j - 1);
      DivDiv(n, 10, Pow(10, j - 1));
      var shorter := Padded(n / Pow(10, j), width - j);
      var mid := Padded(n / 10, width - 1);
      assert shorter <= mid;
      assert Padded(n, width) == mid + [DigitChar(n % 10)];
      PrefixExtend(shorter, mid, [DigitChar(n % 10)]);
    }
  }

  lemma PrefixExtend(a: string, b: string, c: string)
    requires a <= b
    ensures a <= b + c
  {
    assert (b + c)[..|a|] == b[..|a|];
  }

  lemma ConcatPrefix(a: string, b: string, c: string)
    requires b <= c
    ensures a + b <= a + c
  {
    assert (a + c)[..|a + b|] == a + c[..|b|];
  }

  /** Rendering q / 10^(p - p2) with p2 fractional digits gives a prefix of
      the rendering of q with p fractional digits. */
  lemma FixedPointPrefix(q: nat, p: nat, p2: nat)
    requires p2 <= p
    ensures Pow(10, p - p2) > 0
    ensures FixedPoint(q / Pow(10, p - p2), p2) <= FixedPoint(q, p)
  {
    PowPositive(10, p2);
    PowPositive(10, p - p2);
    var u2, w := Pow(10, p2), Pow(10, p - p2);
    PowAdd(10, p2, p - p2);
    assert u2 * w == Pow(10, p);
    if p2 == p {
      assert w == 1;
      assert q / w == q;
    } else if p2 == 0 {
      assert u2 == 1;
      WholePrefix(q, p, w);
    } else {
      FractionPrefix(q, p, p2, u2, w);
    }
  }

  /** FixedPoint with p > 0 and the power of ten given by name. */
  lemma FixedPointParts(q: nat, p: nat, u: int)
    requires p > 0 && u == Pow(10, p)
    ensures u > 0 && q % u < Pow(10, p)
    ensures FixedPoint(q, p) == NatToString(q / u) + "." + Padded(q % u, p)
  {
    PowPositive(10, p);
  }

  /** Dropping every fractional digit leaves the whole part, a prefix. */
  lemma WholePrefix(q: nat, p: nat, u: int)
    requires p > 0 && u == Pow(10, p)
    ensures u > 0 && FixedPoint(q / u, 0) <= FixedPoint(q, p)
  {
    FixedPointParts(q, p, u);
    FixedPointWhole(q / u);
    LeadingPart(NatToString(q / u), ".", Padded(q % u, p));
  }

  /** With no fractional digits FixedPoint is the integer's digits. */
  lemma FixedPointWhole(n: nat)
    ensures FixedPoint(n, 0) == NatToString(n)
  {
    assert Pow(10, 0) == 1;
    assert n / 1 == n;
  }

  lemma LeadingPart(a: string, b: string, c: string)
    ensures a <= a + b + c
  {
    assert (a + b + c)[..|a|] == a;
  }

  /** Keeping 0 < p2 < p fractional digits keeps the whole part and a prefix
      of the fractional digits. */
  lemma FractionPrefix(q: nat, p: nat, p2: nat, u2: int, w: int)
    requires 0 < p2 < p && u2 == Pow(10, p2) && w == Pow(10, p - p2)
    requires u2 * w == Pow(10, p)
    ensures w > 0 && FixedPoint(q / w, p2) <= FixedPoint(q, p)
  {
    PowPositive(10, p - p2);
    PowPositive(10, p2);
    DigitsSplit(q, u2, w);
    PowPositive(10, p);
    FixedPointParts(q / w, p2, u2);
    var whole := NatToString(q / (u2 * w));
    FixedPointParts(q, p, u2 * w);
    FractionDropsDigits(q % (u2 * w), p, p2, w);
    ConcatPrefix(whole + ".", Padded((q / w) % u2, p2), Padded(q % (u2 * w), p));
  }

  /** Dividing by w and then by u2 is dividing by u2 * w, and the remainder
      taken after dividing by w holds the leading digits of the remainder by
      u2 * w. */
  lemma DigitsSplit(q: nat, u2: int, w: int)
    requires u2 > 0 && w > 0
    ensures (q / w) / u2 == q / (u2 * w)
    ensures (q / w) % u2 == (q % (u2 * w)) / w
  {
    DivDiv(q, w, u2);
    assert w * u2 == u2 * w;
    FractionDigits(q, u2, w);
  }

  /** PaddedPrefix with j = p - p2 and the power of ten given by name. */
  lemma FractionDropsDigits(n: nat, p: nat, p2: nat, w: int)
    requires p2 <= p && w == Pow(10, p - p2) && n < Pow(10, p)
    ensures w > 0 && n / w < Pow(10, p2)
    ensures Padded(n / w, p2) <= Padded(n, p)
  {
    PaddedPrefix(n, p, p - p2);
    assert p - (p - p2) == p2;
  }

  /** A rendering with fewer fractional digits is a prefix of one with more:
      truncation keeps the leading digits. */
  lemma RenderPrefix(v: real, p: nat, p2: nat)
    requires p2 <= p
    ensures Render(v, p2) <= Render(v, p)
  {
    var sign := if v < 0.0 then "-" else "";
    Retruncate(v, p, p2);
    FixedPointPrefix(TruncatedDigits(v, p), p, p2);
    assert Render(v, p2) == sign + FixedPoint(TruncatedDigits(v, p2), p2);
    assert Render(v, p) == sign + FixedPoint(TruncatedDigits(v, p), p);
    ConcatPrefix(sign, FixedPoint(TruncatedDigits(v, p2), p2), FixedPoint(TruncatedDigits(v, p), p));
  }
}
