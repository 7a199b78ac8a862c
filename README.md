# Rational numbers of the `ratcalc` calculator

This project models `Rational`, the value class of the `ratcalc` rational
calculator (`src/main/java/edu/ucsb/cs56/ratcalc/model/Rational.java`), and
proves what its arithmetic computes. A `Rational` is a numerator over a
denominator. The two-argument constructor refuses a zero denominator. It
divides both parts by `gcd(num, denom)` unless the numerator is zero, and then
moves the sign onto the numerator. On top of the constructor sit:

- `gcd` and `lcm`;
- `product` with its instance form `times`;
- `sum` (over the `lcm` of the denominators) with `plus`;
- `difference` (a sum with the constructed negation) with `minus`;
- `reciprocalOf`;
- `quotient` (a product with the reciprocal) with `dividedBy`;
- `toString`.

Modules:

- `Arithmetic` (`arithmetic.dfy`): absolute value and small facts about multiplication.
- `JavaInt` (`java_int.dfy`): Java's `/` and `%` on `int`, which round toward
  zero (section 15.17 of the Java Language Specification). `Div` and `Rem`
  are used wherever the source writes `/` or `%`, so `gcd` and the
  constructor behave as they do in Java for negative arguments too.
- `Divisibility` (`divisibility.dfy`): divisibility and coprimality for integers of either sign.
- `Rationals` (`rationals.dfy`): the value type, `gcd`, `lcm`, the constructors
  and every operation. The errors are a `Result`:
  - `IllegalArgument` stands for the `IllegalArgumentException` of a zero denominator.
  - `DivideByZero` stands for the `ArithmeticException` that Java raises. That
    includes its integer division by a zero `gcd` inside `lcm(0, 0)`.
- `RationalLaws` (`laws.dfy`): laws relating the operations:
  - for non-zero values, the constructor's result depends only on the value;
  - a reciprocal times the original is one, and taking the reciprocal twice gives the original back;
  - subtracting a value from itself gives zero;
  - worked examples.
- `RationalText` (`text.dfy`): `toString`, and a reader of its output used
  to state what the display keeps and what it hides.

`Rational` is immutable in the source: every field is written only inside a
constructor. So it is a `datatype`, and each operation is a function. The
getters `getNumerator` and `getDenominator` are the datatype's fields `num`
and `denom`. The two-argument constructor is modelled twice:

- `Make` is the pure function.
- `New` follows the source step by step, updating local copies of the
  fields, and is proved equal to `Make`.

"Has the value n/d" is stated by cross-multiplication:
`Represents(r, n, d)` is `r.num * d == n * r.denom`. `Valid(r)` is what the
constructor guarantees:

- the denominator is positive;
- a non-zero numerator is coprime to it.

Zero is not brought to a common form.

- The constructor reduces only when the numerator is not zero (line 47).
  So `new Rational(0, d)` skips the reduction and keeps the denominator `|d|`
  (`ZeroKeepsDenominator`). Zero thus has many stored forms: `0/5` and `0/1`
  have different fields.
- `difference(a, a)` is therefore `0/a.denom`, not `0/1` (`DifferenceSelf`).
- Equality of the fields is value equality only for non-zero values
  (`Canonical`). `toString` prints every zero as `0`.

`gcd` can return a negative number: its result takes the sign of one of its
arguments (`GcdMinusOne`, `NegativeDenominatorExample`). Only its magnitude is
the greatest common divisor.

## Model

| member | source | states |
|---|---|---|
| Rationals.Gcd | src/main/java/edu/ucsb/cs56/ratcalc/model/Rational.java:20-27 | terminates (on the magnitude of the first argument); the result is 0 exactly when both arguments are 0, and otherwise divides both |
| Rationals.GcdGreatest | src/main/java/edu/ucsb/cs56/ratcalc/model/Rational.java:20-27 | every common divisor of `a` and `b` divides `gcd(a, b)` |
| Rationals.GcdIsGreatestCommonDivisor | src/main/java/edu/ucsb/cs56/ratcalc/model/Rational.java:14-27 | when `a` and `b` are not both zero, `gcd(a, b)` is a non-zero common divisor that every common divisor divides and that is at least as large in magnitude as any of them |
| Rationals.GcdNonnegative | src/main/java/edu/ucsb/cs56/ratcalc/model/Rational.java:20-27 | for non-negative arguments `gcd` is non-negative |
| Rationals.GcdSymmetricMagnitude | src/main/java/edu/ucsb/cs56/ratcalc/model/Rational.java:20-27 | swapping the arguments keeps the magnitude of `gcd` |
| Rationals.CoprimeIffUnitGcd | src/main/java/edu/ucsb/cs56/ratcalc/model/Rational.java:20-27 | two integers, not both zero, are coprime exactly when their `gcd` is 1 or -1 |
| Rationals.Bezout | src/main/java/edu/ucsb/cs56/ratcalc/model/Rational.java:20-27 | `gcd(a, b)` is an integer combination `x*a + y*b` |
| Rationals.Lcm | src/main/java/edu/ucsb/cs56/ratcalc/model/Rational.java:94-96 | fails with the division-by-zero error exactly when both arguments are 0; if one is 0 the result is 0; for non-zero arguments it is a positive common multiple |
| Rationals.LcmLeast | src/main/java/edu/ucsb/cs56/ratcalc/model/Rational.java:88-96 | for non-zero arguments `lcm` divides every common multiple and is no larger than any positive one: it is the least common multiple |
| Rationals.LcmCommutative | src/main/java/edu/ucsb/cs56/ratcalc/model/Rational.java:94-96 | `lcm(a, b) == lcm(b, a)`, errors included |
| Rationals.LowestTerms | src/main/java/edu/ucsb/cs56/ratcalc/model/Rational.java:47-51 | for non-zero `n` and `d`, the truncating divisions by `gcd(n, d)` are exact, keep the value `n/d` and leave a coprime pair |
| Rationals.CoprimeNegate | src/main/java/edu/ucsb/cs56/ratcalc/model/Rational.java:52-55 | negating one or both parts of a coprime pair keeps it coprime |
| Rationals.Reduce | src/main/java/edu/ucsb/cs56/ratcalc/model/Rational.java:45-55 | for a non-zero denominator the result has a positive denominator, is in lowest terms when non-zero, has the value `n/d`, and is `0/|d|` for a zero numerator |
| Rationals.Make | src/main/java/edu/ucsb/cs56/ratcalc/model/Rational.java:41-56 | fails with the invalid-argument error exactly when the denominator is 0; otherwise the value is valid, equals `n/d`, and is `0/|d|` for a zero numerator |
| Rationals.New | src/main/java/edu/ucsb/cs56/ratcalc/model/Rational.java:41-56 | performing the constructor's field updates step by step gives exactly `Make(n, d)` |
| Rationals.Default | src/main/java/edu/ucsb/cs56/ratcalc/model/Rational.java:31-34 | the no-argument constructor gives a valid `1/1`, the same value as `new Rational(1, 1)` |
| Rationals.Product | src/main/java/edu/ucsb/cs56/ratcalc/model/Rational.java:83-86 | the product is valid and has the value `(a.num*b.num)/(a.denom*b.denom)`, i.e. `a·b` |
| Rationals.Times | src/main/java/edu/ucsb/cs56/ratcalc/model/Rational.java:72-75 | `a.times(r)` equals `product(a, r)` |
| Rationals.Sum | src/main/java/edu/ucsb/cs56/ratcalc/model/Rational.java:113-118 | the sum over the `lcm` of the denominators is valid and has the value `a + b` |
| Rationals.Plus | src/main/java/edu/ucsb/cs56/ratcalc/model/Rational.java:103-105 | `a.plus(r)` equals `sum(a, r)` and has the value `a + r` |
| Rationals.Difference | src/main/java/edu/ucsb/cs56/ratcalc/model/Rational.java:126-128 | the difference is a valid value |
| Rationals.DifferenceIsSubtraction | src/main/java/edu/ucsb/cs56/ratcalc/model/Rational.java:126-128 | `difference(a, b)` has the value `a - b` |
| Rationals.Minus | src/main/java/edu/ucsb/cs56/ratcalc/model/Rational.java:135-137 | `a.minus(r)` equals `difference(a, r)` and has the value `a - r` |
| Rationals.ReciprocalOf | src/main/java/edu/ucsb/cs56/ratcalc/model/Rational.java:143-148 | fails with the divide-by-zero error exactly when the numerator is 0; otherwise the result is valid and has the value `denom/num` |
| Rationals.Quotient | src/main/java/edu/ucsb/cs56/ratcalc/model/Rational.java:156-158 | fails with the divide-by-zero error exactly when `b.num` is 0; otherwise the result is valid and has the value `a / b` |
| Rationals.DividedBy | src/main/java/edu/ucsb/cs56/ratcalc/model/Rational.java:165-167 | `a.dividedBy(r)` equals `quotient(a, r)`, fails exactly when `r.num` is 0, and otherwise has the value `a / r` |
| RationalLaws.ReduceCoprime | src/main/java/edu/ucsb/cs56/ratcalc/model/Rational.java:45-55 | on a non-zero coprime pair the constructor only moves the sign onto the numerator |
| RationalLaws.MakeIdempotent | src/main/java/edu/ucsb/cs56/ratcalc/model/Rational.java:41-56 | constructing again from a constructed value's fields gives that value back |
| RationalLaws.Canonical | src/main/java/edu/ucsb/cs56/ratcalc/model/Rational.java:41-56 | two constructed values with the same non-zero value have the same fields |
| RationalLaws.ReduceDependsOnlyOnValue | src/main/java/edu/ucsb/cs56/ratcalc/model/Rational.java:41-56 | equal fractions with a non-zero numerator construct the same fields |
| RationalLaws.ZeroKeepsDenominator | src/main/java/edu/ucsb/cs56/ratcalc/model/Rational.java:45-55 | `new Rational(0, 5)` and `new Rational(0, -5)` are `0/5`, which differs from `new Rational(0, 1)` |
| RationalLaws.NegativeDenominatorExample | src/main/java/edu/ucsb/cs56/ratcalc/model/Rational.java:47-55 | `gcd(3, -4)` is -1, and `new Rational(3, -4)` is `-3/4` |
| RationalLaws.ZeroDenominatorExample | src/main/java/edu/ucsb/cs56/ratcalc/model/Rational.java:42-44 | `new Rational(5, 0)` fails with the invalid-argument error |
| RationalLaws.ReduceSelf | src/main/java/edu/ucsb/cs56/ratcalc/model/Rational.java:45-55 | `new Rational(x, x)` is `1/1` for every non-zero `x` |
| RationalLaws.LcmWithDivisor | src/main/java/edu/ucsb/cs56/ratcalc/model/Rational.java:94-96 | the `lcm` of a positive `d` and a positive divisor of it is `d` |
| RationalLaws.SumCommutative | src/main/java/edu/ucsb/cs56/ratcalc/model/Rational.java:113-118 | `sum(a, b) == sum(b, a)` |
| RationalLaws.SumZero | src/main/java/edu/ucsb/cs56/ratcalc/model/Rational.java:113-118 | adding `0/1` on either side gives back a constructed value unchanged |
| RationalLaws.NegateConstructed | src/main/java/edu/ucsb/cs56/ratcalc/model/Rational.java:127 | the constructed negation of a constructed value only negates the numerator |
| RationalLaws.SumWithNegation | src/main/java/edu/ucsb/cs56/ratcalc/model/Rational.java:113-118 | `n/d + (-n)/d` is `0/d` for a positive `d` |
| RationalLaws.DifferenceWithExactNegation | src/main/java/edu/ucsb/cs56/ratcalc/model/Rational.java:126-128 | when negating `n/d` through the constructor is exact, `difference(n/d, n/d)` is `0/d` |
| RationalLaws.DifferenceSelf | src/main/java/edu/ucsb/cs56/ratcalc/model/Rational.java:126-128 | `difference(a, a)` is `0/a.denom` for every constructed `a` |
| RationalLaws.ProductCommutative | src/main/java/edu/ucsb/cs56/ratcalc/model/Rational.java:83-86 | `product(a, b) == product(b, a)` |
| RationalLaws.ProductWithReciprocal | src/main/java/edu/ucsb/cs56/ratcalc/model/Rational.java:143-148 | a non-zero value times its reciprocal is exactly `1/1` |
| RationalLaws.QuotientSelf | src/main/java/edu/ucsb/cs56/ratcalc/model/Rational.java:156-158 | `quotient(a, a)` is `1/1` for non-zero `a` |
| RationalLaws.QuotientByZero | src/main/java/edu/ucsb/cs56/ratcalc/model/Rational.java:143-158 | dividing by any zero, and taking its reciprocal, fail with the divide-by-zero error |
| RationalLaws.ReciprocalInvolution | src/main/java/edu/ucsb/cs56/ratcalc/model/Rational.java:143-148 | the reciprocal of the reciprocal of a constructed non-zero value is that value |
| RationalLaws.GcdWithOne | src/main/java/edu/ucsb/cs56/ratcalc/model/Rational.java:20-27 | `gcd(1, n)` and `gcd(n, 1)` are 1 for positive `n` |
| RationalLaws.GcdConsecutive | src/main/java/edu/ucsb/cs56/ratcalc/model/Rational.java:20-27 | `gcd(n, n + 1)` is 1 for positive `n` |
| RationalLaws.GcdSwapSmaller | src/main/java/edu/ucsb/cs56/ratcalc/model/Rational.java:25-26 | for `0 < b < a` the first recursive step only swaps the arguments |
| RationalLaws.GcdOfMultiple | src/main/java/edu/ucsb/cs56/ratcalc/model/Rational.java:20-27 | `gcd(n, k*n)` is `n` for positive `n` |
| RationalLaws.GcdMinusOne | src/main/java/edu/ucsb/cs56/ratcalc/model/Rational.java:20-27 | `gcd(-1, n)` is -1: the result can be negative |
| RationalLaws.ReduceUnitGcd | src/main/java/edu/ucsb/cs56/ratcalc/model/Rational.java:45-55 | with `gcd` 1 and a positive denominator the constructor keeps the fraction unchanged |
| RationalLaws.SumExample | src/main/java/edu/ucsb/cs56/ratcalc/model/Rational.java:113-118 | `1/2 + 1/3` is `5/6` |
| RationalLaws.ProductExample | src/main/java/edu/ucsb/cs56/ratcalc/model/Rational.java:83-86 | `2/3 · 3/4` is `1/2` |
| RationalLaws.DifferenceExample | src/main/java/edu/ucsb/cs56/ratcalc/model/Rational.java:126-128 | `1/2 - 1/3` is `1/6` |
| RationalLaws.QuotientExample | src/main/java/edu/ucsb/cs56/ratcalc/model/Rational.java:156-158 | `(1/2) / (1/3)` is `3/2` |
| RationalLaws.CoprimeConstruction | src/main/java/edu/ucsb/cs56/ratcalc/model/Rational.java:41-56 | `new Rational(5, 7)` is `5/7` |
| RationalLaws.ReducingConstruction | src/main/java/edu/ucsb/cs56/ratcalc/model/Rational.java:41-56 | `new Rational(6, 3)` is reduced to `2/1` |
| RationalLaws.NegativeNumeratorConstruction | src/main/java/edu/ucsb/cs56/ratcalc/model/Rational.java:41-56 | `new Rational(-3, 4)` is `-3/4`: Java's `4 % -3` is 1, so `gcd(-3, 4)` is 1 |
| RationalLaws.ConstructionExamples | src/main/java/edu/ucsb/cs56/ratcalc/model/Rational.java:41-56 | `new Rational` on `5/7`, `6/3`, `0/5` and `-3/4` gives `5/7`, `2/1`, `0/5` and `-3/4` |
| JavaInt.Div | src/main/java/edu/ucsb/cs56/ratcalc/model/Rational.java:49-50 | Java's `/`: the magnitude is the quotient of the magnitudes, what remains is smaller than the divisor, and the quotient is non-negative when the signs agree and non-positive when they differ (rounding toward zero) |
| JavaInt.Rem | src/main/java/edu/ucsb/cs56/ratcalc/model/Rational.java:26 | Java's `%`: `a == (a / b) * b + a % b`, the remainder is smaller than `b` in magnitude and takes the sign of `a` |
| JavaInt.DivSmall | src/main/java/edu/ucsb/cs56/ratcalc/model/Rational.java:26 | a dividend smaller in magnitude than the divisor has quotient 0 and remainder itself |
| JavaInt.DivExact | src/main/java/edu/ucsb/cs56/ratcalc/model/Rational.java:49-50 | when `b` divides `a`, Java's division undoes the multiplication and leaves no remainder |
| RationalText.NaturalString | src/main/java/edu/ucsb/cs56/ratcalc/model/Rational.java:60-61 | the decimal text of a natural number is canonical: non-empty, all digits, and no leading zero (so 0 is exactly `0`) |
| RationalText.IntString | src/main/java/edu/ucsb/cs56/ratcalc/model/Rational.java:60-61 | Java's decimal text of an `int` is canonical: a `-` exactly for negative numbers (never `-0`), then canonical digits |
| RationalText.ToString | src/main/java/edu/ucsb/cs56/ratcalc/model/Rational.java:58-62 | the display begins with the numerator's decimal text; the rest is fixed by `ToStringRoundTrip`, `ToStringSlash`, `ToStringCanonical` and `ToStringExact` |
| RationalText.NaturalStringUnique | src/main/java/edu/ucsb/cs56/ratcalc/model/Rational.java:60-61 | canonical digits are the decimal text of their own value: each natural number has exactly one canonical text |
| RationalText.CanonicalIntUnique | src/main/java/edu/ucsb/cs56/ratcalc/model/Rational.java:60-61 | canonical integer text reads back to an integer whose decimal text it is: each `int` has exactly one canonical text |
| RationalText.ToStringCanonical | src/main/java/edu/ucsb/cs56/ratcalc/model/Rational.java:58-62 | the numerator and the denominator in the display are each written in canonical decimal form |
| RationalText.ToStringExact | src/main/java/edu/ucsb/cs56/ratcalc/model/Rational.java:58-62 | any text of canonical integers, with a slash exactly where `toString` puts one and reading back to the same fields, is the text `toString` prints: the display is fixed character by character |
| RationalText.NaturalStringRoundTrip | src/main/java/edu/ucsb/cs56/ratcalc/model/Rational.java:60 | the decimal digits of a natural number read back to that number |
| RationalText.IntStringRoundTrip | src/main/java/edu/ucsb/cs56/ratcalc/model/Rational.java:60 | Java's decimal text of an `int` reads back to it and contains no slash |
| RationalText.ToStringRoundTrip | src/main/java/edu/ucsb/cs56/ratcalc/model/Rational.java:58-62 | reading `toString` back gives the numerator and denominator, except that every zero reads as `0/1` |
| RationalText.ToStringSlash | src/main/java/edu/ucsb/cs56/ratcalc/model/Rational.java:58-62 | the text has a slash exactly when the denominator is not 1 and the numerator is not 0 |
| RationalText.ToStringInjective | src/main/java/edu/ucsb/cs56/ratcalc/model/Rational.java:58-62 | non-zero values with the same text have the same fields |
| RationalText.ToStringExamples | src/main/java/edu/ucsb/cs56/ratcalc/model/Rational.java:58-62 | the constructed `5/7`, `6/3`, `0/5` and `-3/4` display as `5/7`, `2`, `0` and `-3/4` |

## Left out

- `main` (lines 175-179) is not modelled. It only prints the two getters of one value.
- 32-bit arithmetic is not modelled: every `int` is a mathematical integer.
  - The products in `times`, `product`, `lcm` and `sum` can overflow in Java
    and give wrong results there. In the model they cannot.
  - `Integer.MIN_VALUE` is not modelled either: Java cannot negate it, and `Math.abs` of it is negative.
- The exception messages are left out. Only the two kinds of error are kept.
- Rationals.Product, Rationals.Sum, Rationals.Difference and Rationals.Quotient require only a non-zero denominator of their arguments, not `Valid`. In Java every `Rational` comes from a constructor, so the model accepts more inputs than Java can produce.
- Rationals.Difference: its own contract says only that the result is valid. Its value `a - b` is stated by the separate lemma `DifferenceIsSubtraction`.
- RationalText.ToString: its own contract says only that the display begins with the numerator. The lemmas `ToStringRoundTrip`, `ToStringSlash`, `ToStringCanonical` and `ToStringExact` fix the rest of the text. The reader `ParseRational` exists only to state those lemmas; the source has no parser.
- Java's decimal rendering of an `int` in string concatenation is modelled as `IntString`. The Java library code behind it is not part of this model.
