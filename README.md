# π calculator of wasi_benchmarks, in Dafny

This project models the π benchmark of the `wasi_benchmarks` repository
(`src/components/pi.rs`) and proves properties of the model.

- `atan(x, precision)` sums the arctangent series x − x³/3 + x⁵/5 − … in
  exact rational arithmetic. It keeps adding terms while the current term's
  magnitude is above 10^-precision.
- `pi(precision)` combines two such sums by Machin's identity,
  π = 16·atan(1/5) − 4·atan(1/239). The 1/5 series gets two guard digits and
  the 1/239 series gets one. The combination is rendered with exactly
  `precision` fractional digits.
- `PiCalcTest::new` fixes the benchmark's precision at 100 digits.

Modules:

- `Arith` (arith.dfy): integer and real powers and their basic facts.
- `Decimals` (decimals.dfy): digit strings and fixed-point rendering with a
  given number of fractional digits. It also has the parser that reads a
  rendering back, the round-trip lemmas, and the lemmas that rendering with
  fewer digits keeps the leading digits.
- `Rationals` (rationals.dfy): the `Fraction` values the source computes
  with. A fraction is a numerator over a positive denominator. Each
  operation is specified by its effect on the exact value. This includes
  the comparison and the `decimal` rendering.
- `Series` (series.dfy): the mathematics of the loop on the reals.
  - `AtanPartial`: the partial sums.
  - `TermCount`: the number of terms the stopping rule keeps at x = 1/k.
  - `AtanSeries`: the sum the loop returns.
  - Proved facts: the alternating-series bracketing, the tail bound, the
    bound on the number of terms, and the tiny-argument case.
- `PiCalc` (pi.dfy): the `atan` loop as a method with loop invariants,
  `pi` as a method, and the benchmark configuration. It also holds the
  facts about the result:
  - the value lies in (3.14, 3.2];
  - the guard digits bound;
  - the shape of the rendered string;
  - worked examples at two and five digits.

`atan` is an imperative loop over mutable locals, so it is modelled as a
method. It is proved against the real-valued series specification: on exit,
`ret` is exactly the sum the stopping rule describes. `pi` is a single
expression. Its method states the rendered string in terms of that
specification, and the lemmas about the specification say what the string
looks like.

## Model

| member | source | states |
|---|---|---|
| `PiCalc.Atan` | src/components/pi.rs:26-57 | For x = 1/k with k ≥ 2, the returned fraction's value is exactly `AtanSeries(k, precision)`. That is the sum of the terms (−1)^i·x^(2i+1)/(2i+1) for every i up to the first term whose magnitude is at or below 10^-precision. The loop invariants are: n = 2m+1, sign = (−1)^m, x_pow_n = x^n, current_term = sign·x^n/n, and ret is the m-th partial sum. |
| `PiCalc.NextState` | src/components/pi.rs:42-54 | One pass of the loop body takes the state for m terms to the state for m+1 terms. `ret` gains the m-th term, `x_pow_n` becomes x^(n+2), and `current_term` becomes the next signed term. |
| `PiCalc.TermIsAbove` | src/components/pi.rs:27-41 | The loop guard `current_term.abs() > target` holds exactly when the reciprocal of the current term's magnitude, k^(2m+1)·(2m+1), is below 10^precision. |
| `Series.InverseSizeGrows` | src/components/pi.rs:48-54 | At x = 1/k with k ≥ 2 the reciprocal term size k^(2i+1)·(2i+1) strictly grows from one term to the next. So the terms strictly shrink and the loop's decreasing measure goes down. |
| `Series.CountFrom` | src/components/pi.rs:41 | The number of terms the loop keeps is the first index at or after m whose reciprocal term size k^(2i+1)·(2i+1) reaches 10^p. All earlier indices stay below it. |
| `Series.TermCount` | src/components/pi.rs:41 | The number of terms kept from the start is the first index whose term is at or below the threshold. |
| `Series.StoppingRule` | src/components/pi.rs:41-42 | Every term added to `ret` has size above 10^-p, and the first omitted term has size at or below 10^-p. |
| `Series.TermCountBound` | src/components/pi.rs:41-54 | When m ≥ 1 terms are kept, the last kept term satisfies k^(2m−1)·(2m−1) < 10^p. Also m ≤ 2p. |
| `Series.TinyArgument` | src/components/pi.rs:33-41 | The loop body never runs exactly when 1/k ≤ 10^-p. In that case `atan` returns exactly 0. |
| `Series.Bracket` | src/components/pi.rs:41-54 | For 0 ≤ x ≤ 1, every later partial sum differs from the m-th one in the direction of the m-th term, by at most that term's size. This is the alternating-series estimate the stopping rule relies on. |
| `Series.PartialSumsBracket` | src/components/pi.rs:41-54 | Each partial sum with an even number of terms is at most every later partial sum. Each partial sum with an odd number of terms is at least every later one. |
| `Series.TailBound` | src/components/pi.rs:41-56 | Summing any number of terms beyond the stopping point changes the result by at most 10^-p. |
| `PiCalc.Pi` | src/components/pi.rs:60-78 | The returned string is the truncated rendering of 16·AtanSeries(5, p+2) − 4·AtanSeries(239, p+1) with p fractional digits. It is "3" when p = 0, and otherwise "3." followed by p digits. Its digits read back as that value truncated to p digits. |
| `PiCalc.MachinValue` | src/components/pi.rs:65-76 | The combined fraction's value is 16 times the first `atan` value minus 4 times the second. |
| `PiCalc.PiSeriesBounds` | src/components/pi.rs:59-76 | For every precision the combination lies in (3.14, 3.2]. In particular it is positive. |
| `PiCalc.GuardDigits` | src/components/pi.rs:66-74 | Adding any number of further terms to either series moves the combination by at most 16·10^-(p+2) + 4·10^-(p+1) = 0.56·10^-p. So the extra digits passed to `atan` keep the error below one unit of the last digit rendered. |
| `PiCalc.TargetStep` | src/components/pi.rs:68-74 | One more digit of precision divides the threshold 10^-p by ten. This is what makes 16·10^-(p+2) and 4·10^-(p+1) multiples of 10^-p. |
| `PiCalc.PiRendering` | src/components/pi.rs:77 | Rendering the combination gives a string of length 1 (for p = 0) or p + 2. It begins with '3', then a '.' if p > 0, and it reads back as the truncated scaled value. |
| `PiCalc.PiToTwoDigits` | src/components/pi.rs:59-77 | At p = 2, two terms of the 1/5 series and one term of the 1/239 series are kept. The rendering is "3.14". |
| `PiCalc.PiToFiveDigits` | src/components/pi.rs:59-77 | At p = 5, four terms of the 1/5 series and one term of the 1/239 series are kept. The rendering is "3.14159". |
| `PiCalc.PiCalcTest.New` | src/components/pi.rs:16-20 | The benchmark's configuration has precision 100, which lies within the range `pi` accepts. |
| `Rationals.FromInt` | src/components/pi.rs:34 | `Fraction::from(i)` has value i. |
| `Rationals.Add` | src/components/pi.rs:42 | Fraction addition yields the exact sum of the values. |
| `Rationals.Mul` | src/components/pi.rs:50-54 | Fraction multiplication yields the exact product of the values. |
| `Rationals.AddCommutes` | src/components/pi.rs:42 | Fraction addition is commutative on the fractions themselves, not only on their values. |
| `Rationals.AddAssociates` | src/components/pi.rs:42 | Fraction addition is associative on the fractions themselves. |
| `Rationals.MulCommutes` | src/components/pi.rs:50-54 | Fraction multiplication is commutative on the fractions themselves. |
| `Rationals.MulAssociates` | src/components/pi.rs:50-54 | Fraction multiplication is associative on the fractions themselves. |
| `Rationals.Sub` | src/components/pi.rs:65 | `Fraction::sub` yields the exact difference of the values. |
| `Rationals.Abs` | src/components/pi.rs:41 | `abs` yields the absolute value. |
| `Rationals.Greater` | src/components/pi.rs:41 | The comparison `>` holds exactly when the first value exceeds the second. It is decided exactly, by cross-multiplication. |
| `Rationals.Decimal` | src/components/pi.rs:77 | `decimal(p)` is the rendering of the exact value truncated toward zero to p fractional digits, with '-' in front for a negative value. |
| `Decimals.FixedPointRoundTrip` | src/components/pi.rs:77 | Reading back a fixed-point rendering with p fractional digits gives the scaled integer it was made from. |
| `Decimals.RenderRoundTrip` | src/components/pi.rs:77 | Reading back a signed rendering gives the value truncated toward zero to p digits, scaled by 10^p. |
| `Decimals.Retruncate` | src/components/pi.rs:77 | Truncating a value to p fractional digits and then dropping the last p − p2 digits gives the value truncated to p2 digits. |
| `Decimals.RenderPrefix` | src/components/pi.rs:77 | For p2 ≤ p, the rendering of a value with p2 fractional digits is a prefix of its rendering with p digits. This holds for negative values too. |
| `Decimals.Padded` | src/components/pi.rs:77 | A zero-padded field of width w has exactly w digits and reads back as its number. |

## Left out

- `PiCalc.Atan`: the precondition `precision < 2^32` replaces modelling
  `precision as u32` (src/components/pi.rs:29). That cast silently wraps a
  larger exponent; the model requires the exact range instead of modelling
  the wrap-around.
- `PiCalc.Atan`: the precondition `x.num == 1 && x.den >= 2` restricts x to
  1/k with k ≥ 2. The source's `atan` accepts any fraction, but its only
  call sites pass 1/5 and 1/239 (src/components/pi.rs:67 and
  src/components/pi.rs:73). For |x| > 1 the source loop
  (src/components/pi.rs:41) never ends, because the terms x^n/n grow.
- `PiCalc.Pi`: the precondition `precision + 2 < 2^32` stands in for three
  things. It keeps both `atan` exponents exact. It rules out the panicking
  paths of `usize::try_from(..).expect` and `checked_add(2).expect`
  (src/components/pi.rs:61-70). It also rules out the unchecked
  `precision + 1` (src/components/pi.rs:74). These precision overflows are
  caller errors and are not modelled as error values.
- `PiCalc.PiCalcTest.Name` returns "PiCalculator"
  (src/components/pi.rs:81-83). It is a constant with nothing to prove and
  has no row.
- `PiCalcTest::run` (src/components/pi.rs:85-96): the wall-clock timing and
  the floating-point result record are left out. No clock is modelled.
  `run` returns `accuracy: 0.0` (src/components/pi.rs:94), not a negative
  "not applicable" value. Since `run` is not modelled, neither is that
  accuracy value.
- The `fraction` crate is not part of this model.
  - Its `decimal()` rendering is assumed to truncate toward zero: |num|·10^p
    divided by den, with '-' in front of a negative value.
  - Fractions are not reduced. Reduction does not change the value. Every
    property here is stated on values except `Rationals.AddCommutes`,
    `Rationals.AddAssociates`, `Rationals.MulCommutes` and
    `Rationals.MulAssociates`. Those four are stated on the unreduced pairs.
    They carry over to the crate's reduced fractions, because two reduced
    fractions of equal value are equal.
  - Numerators and denominators are unbounded integers, as the source's
    BigInt and BigUint arguments suggest. The crate's storage width is not
    modelled.
- Loop order: the code tests the current term before adding it, so the
  first term at or below the threshold is never added. The model follows
  this. It does not follow the alternative reading in which a term is added
  before the test.
- The true value of π is not in the model. Consequences:
  - There is no proof that the digits are correct digits of π.
  - `Series.PartialSumsBracket` brackets every later partial sum, not
    strictly. It does not bracket the true arctangent strictly, because the
    limit of the series is not modelled.
  - There is no proof that `pi(p)` is a prefix of `pi(p + 1)`.
    `Decimals.RenderPrefix` shows this for one value rendered at two
    precisions. But `pi` sums each series to a precision that depends on p,
    so the two calls render different values.
  - `PiCalc.GuardDigits` bounds the remaining series error, not the
    distance to π.
- `src/components/ml.rs`, `ML/train.py` and `src/components/mod.rs` are not
  part of this model. They cover inference through a foreign API, float
  decoding, Python training, and display formatting.
