/** Laws of the rational operations: the constructor's result depends only on
    the value (except for zero), it is idempotent on the values it produces,
    and the identities and scenarios the class is meant to satisfy. */
module RationalLaws {
  import opened Arithmetic
  import opened JavaInt
  import opened Divisibility
  import opened Rationals

  // ---------------------------------------------------------------------
  // The constructor
  // ---------------------------------------------------------------------

  /** For a non-zero, coprime pair, `gcd` is 1 or -1, so construction only fixes the sign. */
  lemma ReduceCoprime(x: int, y: int)
    requires x != 0 && y != 0 && Coprime(x, y)
    ensures Reduce(x, y) == if y > 0 then Rational(x, y) else Rational(-x, -y)
  {
    CoprimeIffUnitGcd(x, y);
  }

  /** Constructing from the fields of an already constructed value gives it back. */
  lemma MakeIdempotent(r: Rational)
    requires Valid(r)
    ensures Make(r.num, r.denom) == Ok(r)
  {
    if r.num != 0 {
      ReduceCoprime(r.num, r.denom);
    }
  }

  /** Two constructed values with the same non-zero value are identical. */
  lemma Canonical(p: Rational, q: Rational)
    requires Valid(p) && Valid(q) && p.num != 0
    requires p.num * q.denom == q.num * p.denom
    ensures p == q
  {
    MulNonzero(p.num, q.denom);
    assert q.num != 0;
    MultipleDivides(p.denom, q.num);
    EuclidLemma(p.num, p.denom, q.denom);
    MultipleDivides(q.denom, p.num);
    EuclidLemma(q.num, q.denom, p.denom);
    DividesAntisymmetric(p.denom, q.denom);
    CancelFactor(p.num, q.num, p.denom);
  }

  /** The constructor gives the same value for any two fractions that are equal
      as numbers, provided they are not zero. */
  lemma ReduceDependsOnlyOnValue(n1: int, d1: int, n2: int, d2: int)
    requires d1 != 0 && d2 != 0 && n1 != 0
    requires n1 * d2 == n2 * d1
    ensures Reduce(n1, d1) == Reduce(n2, d2)
  {
    var r1, r2 := Reduce(n1, d1), Reduce(n2, d2);
    MulNonzero(n1, r1.denom);
    RepresentsEqualFraction(r1, n1, d1, n2, d2);
    RepresentsEqualFraction(r1, n2, d2, r2.num, r2.denom);
    Canonical(r1, r2);
  }

  /** Zero is not brought to a common form: its denominator is `|d|`. */
  lemma ZeroKeepsDenominator()
    ensures Make(0, 5) == Ok(Rational(0, 5))
    ensures Make(0, -5) == Ok(Rational(0, 5))
    ensures Make(0, 5) != Make(0, 1)
  {
  }

  /** `Rational(3, -4)`: `gcd(3, -4)` is -1, and the sign ends up on the numerator. */
  lemma NegativeDenominatorExample()
    ensures Gcd(3, -4) == -1
    ensures Make(3, -4) == Ok(Rational(-3, 4))
  {
    assert Rem(-4, 3) == -1;
    assert Rem(3, -1) == 0;
    assert Gcd(-1, 3) == -1;
  }

  /** A zero denominator is refused. */
  lemma ZeroDenominatorExample()
    ensures Make(5, 0) == Err(IllegalArgument)
  {
  }

  /** `Reduce(x, x)` is one for every non-zero `x`. */
  lemma ReduceSelf(x: int)
    requires x != 0
    ensures Reduce(x, x) == Rational(1, 1)
  {
    DivSelf(x);
    assert Gcd(x, x) == x;
  }

  // ---------------------------------------------------------------------
  // Sum and difference
  // ---------------------------------------------------------------------

  /** The `lcm` of a positive `d` and any positive divisor of `d` is `d`. */
  lemma LcmWithDivisor(d: int, e: int)
    requires d > 0 && Divides(e, d) && e > 0
    ensures Lcm(d, e) == Ok(d)
  {
    DividesZeroAndSelf(d);
    LcmLeast(d, e, d);
    DividesBound(d, Lcm(d, e).value);
  }

  lemma SumCommutative(a: Rational, b: Rational)
    requires a.denom != 0 && b.denom != 0
    ensures Sum(a, b) == Sum(b, a)
  {
    LcmCommutative(a.denom, b.denom);
  }

  /** Adding the constructed zero `0/1` gives back a constructed value, on either side. */
  lemma SumZero(a: Rational)
    requires Valid(a)
    ensures Sum(a, Rational(0, 1)) == a
    ensures Sum(Rational(0, 1), a) == a
  {
    MultipleDivides(1, a.denom);
    LcmWithDivisor(a.denom, 1);
    DivSelf(a.denom);
    MakeIdempotent(a);
    SumCommutative(a, Rational(0, 1));
  }

  /** Negating a constructed value through the constructor just negates its numerator. */
  lemma NegateConstructed(a: Rational)
    requires Valid(a)
    ensures Reduce(-a.num, a.denom) == Rational(-a.num, a.denom)
  {
    if a.num != 0 {
      CoprimeNegate(a.num, a.denom);
      ReduceCoprime(-a.num, a.denom);
    }
  }

  /** A value plus its negation over the same positive denominator is zero over that denominator. */
  lemma SumWithNegation(n: int, d: int)
    requires d > 0
    ensures Sum(Rational(n, d), Rational(-n, d)) == Rational(0, d)
  {
    DividesZeroAndSelf(d);
    LcmWithDivisor(d, d);
    DivSelf(d);
    assert n * Div(d, d) + (-n) * Div(d, d) == 0;
  }

  /** `difference(a, a)` is zero over `a`'s denominator when negating `a` is exact. */
  lemma DifferenceWithExactNegation(n: int, d: int)
    requires d > 0 && Reduce(-n, d) == Rational(-n, d)
    ensures Difference(Rational(n, d), Rational(n, d)) == Rational(0, d)
  {
    assert Difference(Rational(n, d), Rational(n, d)) == Sum(Rational(n, d), Rational(-n, d));
    SumWithNegation(n, d);
  }

  /** `difference(a, a)` is zero over `a`'s denominator, not `0/1`. */
  lemma DifferenceSelf(a: Rational)
    requires Valid(a)
    ensures Difference(a, a) == Rational(0, a.denom)
  {
    NegateConstructed(a);
    DifferenceWithExactNegation(a.num, a.denom);
  }

  // ---------------------------------------------------------------------
  // Product, reciprocal and quotient
  // ---------------------------------------------------------------------

  lemma ProductCommutative(a: Rational, b: Rational)
    requires a.denom != 0 && b.denom != 0
    ensures Product(a, b) == Product(b, a)
  {
    MulCommutative(a.num, b.num);
    MulCommutative(a.denom, b.denom);
  }

  /** A non-zero value times its reciprocal is exactly `1/1`. */
  lemma ProductWithReciprocal(a: Rational)
    requires a.denom != 0 && a.num != 0
    ensures Product(a, ReciprocalOf(a).value) == Rational(1, 1)
  {
    var rb := ReciprocalOf(a).value;
    MulNonzero(a.denom, rb.denom);
    assert a.num * rb.num == a.denom * rb.denom;
    ReduceSelf(a.denom * rb.denom);
  }

  /** Dividing a non-zero value by itself gives exactly `1/1`. */
  lemma QuotientSelf(a: Rational)
    requires a.denom != 0 && a.num != 0
    ensures Quotient(a, a) == Ok(Rational(1, 1))
  {
    ProductWithReciprocal(a);
  }

  /** Dividing by zero, in whatever form, fails with the arithmetic error. */
  lemma QuotientByZero(a: Rational, d: int)
    requires a.denom != 0
    ensures Quotient(a, Rational(0, d)) == Err(DivideByZero)
    ensures ReciprocalOf(Rational(0, d)) == Err(DivideByZero)
  {
  }

  /** The reciprocal of the reciprocal of a constructed non-zero value is that value. */
  lemma ReciprocalInvolution(a: Rational)
    requires Valid(a) && a.num != 0
    ensures ReciprocalOf(a).Ok?
    ensures ReciprocalOf(ReciprocalOf(a).value) == Ok(a)
  {
    var r1 := ReciprocalOf(a).value;
    MulNonzero(a.denom, r1.denom);
    assert r1.num != 0;
    var r2 := ReciprocalOf(r1).value;
    assert r1.denom * a.denom == a.num * r1.num;
    RepresentsEqualFraction(r2, r1.denom, r1.num, a.num, a.denom);
    Canonical(a, r2);
  }

  // ---------------------------------------------------------------------
  // Scenarios
  // ---------------------------------------------------------------------

  /** `gcd(1, n)` and `gcd(n, 1)` are 1 for positive `n`. */
  lemma GcdWithOne(n: int)
    requires n > 0
    ensures Gcd(1, n) == 1 && Gcd(n, 1) == 1
  {
    MultipleMod(n, 1);
    DivExact(n, 1);
    assert Gcd(1, n) == Gcd(0, 1);
    if n > 1 {
      assert Rem(1, n) == 1;
    } else {
      DivSelf(1);
    }
  }

  /** Consecutive positive integers have `gcd` 1. */
  lemma GcdConsecutive(n: int)
    requires n > 0
    ensures Gcd(n, n + 1) == 1
  {
    var g := Gcd(n, n + 1);
    DividesShift(g, n, n + 1, 1);
    assert n + 1 - 1 * n == 1;
    DividesBound(g, 1);
    GcdNonnegative(n, n + 1);
  }

  /** When `0 < b < a`, the first step of `gcd(a, b)` only swaps the arguments. */
  lemma GcdSwapSmaller(a: int, b: int)
    requires 0 < b < a
    ensures Gcd(a, b) == Gcd(b, a)
  {
    DivSmall(b, a);
  }

  /** `gcd(n, k * n)` is `n` itself for positive `n`. */
  lemma GcdOfMultiple(n: int, k: int)
    requires n > 0
    ensures Gcd(n, k * n) == n
  {
    MultipleMod(k, n);
    DivExact(k * n, n);
  }

  /** `gcd(-1, n)` is -1: the source's `gcd` can be negative. */
  lemma GcdMinusOne(n: int)
    requires n != 0
    ensures Gcd(-1, n) == -1
  {
    MultipleMod(-n, -1);
    DivExact(n, -1);
  }

  /** With a `gcd` of 1 and a positive denominator, the constructor keeps the fraction. */
  lemma ReduceUnitGcd(n: int, d: int)
    requires d > 0 && Gcd(n, d) == 1
    ensures Reduce(n, d) == Rational(n, d)
  {
  }

  lemma SumExample()
    ensures Sum(Rational(1, 2), Rational(1, 3)) == Rational(5, 6)
  {
    GcdConsecutive(2);
    assert Lcm(2, 3) == Ok(6);
    GcdConsecutive(5);
    ReduceUnitGcd(5, 6);
  }

  lemma ProductExample()
    ensures Product(Rational(2, 3), Rational(3, 4)) == Rational(1, 2)
  {
    GcdOfMultiple(6, 2);
  }

  lemma DifferenceExample()
    ensures Difference(Rational(1, 2), Rational(1, 3)) == Rational(1, 6)
  {
    GcdMinusOne(3);
    assert Reduce(-1, 3) == Rational(-1, 3);
    GcdConsecutive(2);
    assert Lcm(2, 3) == Ok(6);
    GcdWithOne(6);
    ReduceUnitGcd(1, 6);
  }

  lemma QuotientExample()
    ensures Quotient(Rational(1, 2), Rational(1, 3)) == Ok(Rational(3, 2))
  {
    GcdWithOne(3);
    ReduceUnitGcd(3, 1);
    assert ReciprocalOf(Rational(1, 3)) == Ok(Rational(3, 1));
    GcdSwapSmaller(3, 2);
    GcdConsecutive(2);
    ReduceUnitGcd(3, 2);
  }

  /** `Rational(5, 7)`: a coprime pair with a positive denominator is kept. */
  lemma CoprimeConstruction()
    ensures Make(5, 7) == Ok(Rational(5, 7))
  {
    assert Gcd(5, 7) == 1 by {
      assert Rem(7, 5) == 2;
      assert Rem(5, 2) == 1;
      GcdWithOne(2);
    }
    ReduceUnitGcd(5, 7);
  }

  /** `Rational(6, 3)`: reduced by `gcd(6, 3) == 3` to `2/1`. */
  lemma ReducingConstruction()
    ensures Make(6, 3) == Ok(Rational(2, 1))
  {
    GcdSwapSmaller(6, 3);
    GcdOfMultiple(3, 2);
    assert Div(6, 3) == 2;
    DivSelf(3);
  }

  /** `Rational(-3, 4)`: Java's `4 % -3` is 1, so `gcd(-3, 4)` is 1 and the fraction is kept. */
  lemma NegativeNumeratorConstruction()
    ensures Make(-3, 4) == Ok(Rational(-3, 4))
  {
    assert Gcd(-3, 4) == 1 by {
      assert Rem(4, -3) == 1;
      GcdWithOne(3);
      assert Gcd(1, -3) == Gcd(0, 1);
    }
    ReduceUnitGcd(-3, 4);
  }

  /** The constructor on the fractions `5/7`, `6/3`, `0/5` and `-3/4`. */
  lemma ConstructionExamples()
    ensures Make(5, 7) == Ok(Rational(5, 7))
    ensures Make(6, 3) == Ok(Rational(2, 1))
    ensures Make(0, 5) == Ok(Rational(0, 5))
    ensures Make(-3, 4) == Ok(Rational(-3, 4))
  {
    CoprimeConstruction();
    ReducingConstruction();
    NegativeNumeratorConstruction();
  }
}
