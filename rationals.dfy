/** The rational-number value type of `Rational.java`: a numerator over a
    denominator, normalised once by the two-argument constructor and never
    changed afterwards.  Every operation builds a new value through that
    constructor.  Integers are unbounded (Java's 32-bit overflow is not
    modelled) and the two Java exceptions are the two `Error` tags. */
module Rationals {
  import opened Arithmetic
  import opened JavaInt
  import opened Divisibility

  /** `IllegalArgument` stands for `IllegalArgumentException` (a zero
      denominator), `DivideByZero` for `ArithmeticException`. */
  datatype Error = IllegalArgument | DivideByZero

  datatype Result<T> = Ok(value: T) | Err(error: Error)

  /** The two private fields; `num` and `denom` are also the getters. */
  datatype Rational = Rational(num: int, denom: int)

  /** What every value built by the constructor satisfies: a positive
      denominator, and lowest terms unless the numerator is zero. */
  ghost predicate Valid(r: Rational)
  {
    r.denom > 0 && (r.num != 0 ==> Coprime(r.num, r.denom))
  }

  /** `r` stands for the same number as the fraction `n / d` (for non-zero `d`). */
  predicate Represents(r: Rational, n: int, d: int)
  {
    r.num * d == n * r.denom
  }

  // ---------------------------------------------------------------------
  // gcd and lcm
  // ---------------------------------------------------------------------

  /** `gcd`: Euclid's algorithm with Java's sign-of-the-dividend remainder.
      With a negative argument the result may be negative (`Gcd(3, -4) == -1`). */
  function Gcd(a: int, b: int): (g: int)
    decreases Abs(a)
    ensures g == 0 <==> a == 0 && b == 0
    ensures g != 0 ==> Divides(g, a) && Divides(g, b)
  {
    if a == 0 then
      assert b != 0 ==> Divides(b, a) && Divides(b, b) by {
        if b != 0 { DividesZeroAndSelf(b); }
      }
      b
    else if b == 0 then
      DividesZeroAndSelf(a);
      a
    else
      var q, r := Div(b, a), Rem(b, a);
      var g := Gcd(r, a);
      assert b == q * a + r;
      DividesShift(g, a, r, q);
      g
  }

  /** Every common divisor of `a` and `b` divides `Gcd(a, b)`. */
  lemma {:induction false} GcdGreatest(a: int, b: int, c: int)
    requires Divides(c, a) && Divides(c, b)
    ensures Divides(c, Gcd(a, b))
    decreases Abs(a)
  {
    if a != 0 && b != 0 {
      var q, r := Div(b, a), Rem(b, a);
      assert r == b - q * a;
      DividesShift(c, a, b, q);
      GcdGreatest(r, a, c);
    }
  }

  /** `Gcd(a, b)` is, up to sign, the greatest common divisor of `a` and `b`:
      a non-zero common divisor that every common divisor divides and none exceeds. */
  lemma GcdIsGreatestCommonDivisor(a: int, b: int, c: int)
    requires a != 0 || b != 0
    ensures Gcd(a, b) != 0 && Divides(Gcd(a, b), a) && Divides(Gcd(a, b), b)
    ensures Divides(c, a) && Divides(c, b) ==> Divides(c, Gcd(a, b)) && Abs(c) <= Abs(Gcd(a, b))
  {
    if Divides(c, a) && Divides(c, b) {
      GcdGreatest(a, b, c);
      DividesBound(c, Gcd(a, b));
    }
  }

  /** For non-negative arguments the result is non-negative. */
  lemma {:induction false} GcdNonnegative(a: int, b: int)
    requires a >= 0 && b >= 0
    ensures Gcd(a, b) >= 0
    decreases a
  {
    if a != 0 && b != 0 {
      GcdNonnegative(Rem(b, a), a);
    }
  }

  /** Swapping the arguments can change the sign of `Gcd`, never its magnitude. */
  lemma GcdSymmetricMagnitude(a: int, b: int)
    ensures Abs(Gcd(a, b)) == Abs(Gcd(b, a))
  {
    if a != 0 || b != 0 {
      GcdGreatest(a, b, Gcd(b, a));
      GcdGreatest(b, a, Gcd(a, b));
      DividesAntisymmetric(Gcd(a, b), Gcd(b, a));
    }
  }

  /** Being coprime is having a `Gcd` of magnitude one. */
  lemma CoprimeIffUnitGcd(x: int, y: int)
    requires x != 0 || y != 0
    ensures Coprime(x, y) <==> Abs(Gcd(x, y)) == 1
  {
    var g := Gcd(x, y);
    assert CommonDivisor(g, x, y);
    if Abs(g) == 1 {
      forall c | CommonDivisor(c, x, y)
        ensures c == 1 || c == -1
      {
        GcdGreatest(x, y, c);
        DividesBound(c, g);
      }
    }
  }

  /** Bezout's identity for this `Gcd`: it is an integer combination of its arguments. */
  lemma {:induction false} Bezout(a: int, b: int) returns (x: int, y: int)
    ensures x * a + y * b == Gcd(a, b)
    decreases Abs(a)
  {
    if a == 0 {
      x, y := 0, 1;
    } else if b == 0 {
      x, y := 1, 0;
    } else {
      var r, q := Rem(b, a), Div(b, a);
      var x', y' := Bezout(r, a);
      BezoutStep(a, b, q, r, x', y', Gcd(r, a));
      x, y := y' - x' * q, x';
    }
  }

  /** One step of the extended Euclidean algorithm. */
  lemma BezoutStep(a: int, b: int, q: int, r: int, x: int, y: int, g: int)
    requires b == q * a + r
    requires x * r + y * a == g
    ensures (y - x * q) * a + x * b == g
  {
    assert x * b == (x * q) * a + x * r;
  }

  /** Euclid's lemma: a divisor of `a * k` that is coprime to `a` divides `k`. */
  lemma EuclidLemma(a: int, b: int, k: int)
    requires Coprime(a, b) && Divides(b, a * k)
    ensures Divides(b, k)
  {
    var x, y := Bezout(a, b);
    var g := Gcd(a, b);
    CoprimeIffUnitGcd(a, b);
    MultipleDivides(b, k);
    MulCommutative(k, b);
    DividesCombination(b, a * k, b * k, x, y);
    ScaleCombination(x, a, y, b, g, k);
    if g == -1 {
      NegMul(k, 1);
      DividesSign(b, k);
    }
  }

  /** `lcm`: `Math.abs(a * b / gcd(a, b))`; Java's division by a zero `gcd`
      (both arguments zero) raises `ArithmeticException`. */
  function Lcm(a: int, b: int): (r: Result<int>)
    ensures r.Err? <==> a == 0 && b == 0
    ensures r.Err? ==> r.error == DivideByZero
    ensures r.Ok? && a != 0 && b != 0 ==> r.value > 0 && Divides(a, r.value) && Divides(b, r.value)
    ensures r.Ok? && (a == 0 || b == 0) ==> r.value == 0
  {
    var g := Gcd(a, b);
    if g == 0 then
      Err(DivideByZero)
    else
      LcmCommonMultiple(a, b);
      Ok(Abs(Div(a * b, g)))
  }

  /** The quotient `a * b / gcd(a, b)` is exact, equals `a * (b / g)`, and is a
      multiple of both arguments. */
  lemma LcmCommonMultiple(a: int, b: int)
    requires a != 0 || b != 0
    ensures Div(a * b, Gcd(a, b)) * Gcd(a, b) == a * b
    ensures a != 0 && b != 0 ==> Div(a * b, Gcd(a, b)) != 0
    ensures Divides(a, Abs(Div(a * b, Gcd(a, b)))) || a == 0
    ensures Divides(b, Abs(Div(a * b, Gcd(a, b)))) || b == 0
  {
    var g := Gcd(a, b);
    DividesWitness(g, a);
    DividesWitness(g, b);
    var i, j := a / g, b / g;
    LcmAlgebra(a, b, g, i, j);
    MultipleMod(i * b, g);
    DivExact(a * b, g);
    var l := Div(a * b, g);
    CancelFactor(l, i * b, g);
    if a != 0 {
      assert i != 0;
      MultipleDivides(a, j);
      DividesSign(a, l);
    }
    if b != 0 {
      MultipleDivides(b, i);
      DividesSign(b, l);
    }
    if a != 0 && b != 0 {
      MulNonzero(i, b);
    }
  }

  lemma LcmAlgebra(a: int, b: int, g: int, i: int, j: int)
    requires a == i * g && b == j * g
    ensures a * b == (i * b) * g
    ensures i * b == j * a
  {
    assert i * b == i * (j * g) == j * (i * g);
  }

  /** The `Lcm` of two non-zero integers divides every common multiple of them,
      so no positive common multiple is smaller. */
  lemma LcmLeast(a: int, b: int, m: int)
    requires a != 0 && b != 0
    requires Divides(a, m) && Divides(b, m)
    ensures Divides(Lcm(a, b).value, m)
    ensures m > 0 ==> Lcm(a, b).value <= m
  {
    var g := Gcd(a, b);
    LcmCommonMultiple(a, b);
    var l := Div(a * b, g);
    var x, y := Bezout(a, b);
    DividesWitness(a, m);
    DividesWitness(b, m);
    MulNonzero(a, b);
    LcmLeastAlgebra(a, b, m, m / a, m / b);
    MultipleDivides(a * b, m / b);
    MultipleDivides(a * b, m / a);
    DividesCombination(a * b, a * m, b * m, x, y);
    ScaleCombination(x, a, y, b, g, m);
    DividesCancel(l, m, g);
    DividesAbs(l, m);
    if m > 0 {
      DividesBound(Abs(l), m);
    }
  }

  lemma LcmLeastAlgebra(a: int, b: int, m: int, ka: int, kb: int)
    requires m == ka * a && m == kb * b
    ensures a * m == kb * (a * b)
    ensures b * m == ka * (a * b)
  {
    assert a * m == a * (kb * b);
    assert b * m == b * (ka * a);
  }

  lemma LcmCommutative(a: int, b: int)
    ensures Lcm(a, b) == Lcm(b, a)
  {
    GcdSymmetricMagnitude(a, b);
    if a != 0 || b != 0 {
      assert a * b == b * a;
      DivAbs(a * b, Gcd(a, b), Gcd(b, a));
    }
  }

  // ---------------------------------------------------------------------
  // Construction
  // ---------------------------------------------------------------------

  /** Dividing a non-zero `n` and a non-zero `d` by `Gcd(n, d)` is exact,
      keeps the value and leaves them coprime. */
  lemma LowestTerms(n: int, d: int)
    requires n != 0 && d != 0
    ensures Div(n, Gcd(n, d)) * Gcd(n, d) == n
    ensures Div(d, Gcd(n, d)) * Gcd(n, d) == d
    ensures Div(d, Gcd(n, d)) != 0
    ensures Div(n, Gcd(n, d)) * d == n * Div(d, Gcd(n, d))
    ensures Coprime(Div(n, Gcd(n, d)), Div(d, Gcd(n, d)))
  {
    var g := Gcd(n, d);
    DivExact(n, g);
    DivExact(d, g);
    var n1, d1 := Div(n, g), Div(d, g);
    CrossMultiply(n1, d1, g, n, d);
    forall c | CommonDivisor(c, n1, d1)
      ensures c == 1 || c == -1
    {
      DividesScale(c, n1, g);
      DividesScale(c, d1, g);
      GcdGreatest(n, d, c * g);
      DividesBound(c * g, g);
      UnitFromBound(c, g);
    }
  }

  lemma CrossMultiply(n1: int, d1: int, g: int, n: int, d: int)
    requires n1 * g == n && d1 * g == d
    ensures n1 * d == n * d1
  {
    assert n1 * d == n1 * (d1 * g) == (n1 * g) * d1;
  }

  /** Being coprime ignores signs. */
  lemma CoprimeNegate(x: int, y: int)
    requires Coprime(x, y)
    ensures Coprime(-x, -y) && Coprime(-x, y)
  {
    var nx, ny := -x, -y;
    forall c | CommonDivisor(c, nx, ny)
      ensures c == 1 || c == -1
    {
      DividesSign(c, x);
      DividesSign(c, y);
      assert CommonDivisor(c, x, y);
    }
    forall c | CommonDivisor(c, nx, y)
      ensures c == 1 || c == -1
    {
      DividesSign(c, x);
      assert CommonDivisor(c, x, y);
    }
  }

  /** Lines 45-55 of the two-argument constructor, reached once the denominator
      is known to be non-zero: reduce by `gcd` unless the numerator is zero,
      then move the sign onto the numerator. A zero numerator keeps `|d|`. */
  function Reduce(n: int, d: int): (r: Rational)
    requires d != 0
    ensures Valid(r)
    ensures Represents(r, n, d)
    ensures n == 0 ==> r.num == 0 && r.denom == Abs(d)
  {
    var n1 := if n != 0 then Div(n, Gcd(n, d)) else n;
    var d1 := if n != 0 then Div(d, Gcd(n, d)) else d;
    assert n != 0 ==> d1 != 0 && n1 * d == n * d1 && Coprime(n1, d1) by {
      if n != 0 {
        LowestTerms(n, d);
      }
    }
    if d1 < 0 then
      assert (n1 * -1) * d == n * (d1 * -1) && (n != 0 ==> Coprime(-n1, -d1)) by {
        NegMul(n1, d);
        NegMul(n, d1);
        if n != 0 {
          CoprimeNegate(n1, d1);
        }
      }
      Rational(n1 * -1, d1 * -1)
    else
      Rational(n1, d1)
  }

  /** The two-argument constructor `Rational(num, denom)`. */
  function Make(n: int, d: int): (r: Result<Rational>)
    ensures r.Err? <==> d == 0
    ensures r.Err? ==> r.error == IllegalArgument
    ensures r.Ok? ==> Valid(r.value) && Represents(r.value, n, d)
    ensures r.Ok? && n == 0 ==> r.value.num == 0 && r.value.denom == Abs(d)
  {
    if d == 0 then Err(IllegalArgument) else Ok(Reduce(n, d))
  }

  /** The two-argument constructor as the source runs it: the fields are set
      and then divided by `gcd` and negated in place. */
  method New(n: int, d: int) returns (r: Result<Rational>)
    ensures r == Make(n, d)
  {
    if d == 0 {
      return Err(IllegalArgument);
    }
    var num, denom := n, d;
    if num != 0 {
      var g := Gcd(num, denom);
      num := Div(num, g);
      denom := Div(denom, g);
    }
    if denom < 0 {
      denom := denom * -1;
      num := num * -1;
    }
    r := Ok(Rational(num, denom));
  }

  /** The no-argument constructor: the value one. */
  function Default(): (r: Rational)
    ensures Valid(r)
    ensures Make(1, 1) == Ok(r)
  {
    assert Gcd(1, 1) == 1 by {
      assert Rem(1, 1) == 0;
    }
    Rational(1, 1)
  }

  // ---------------------------------------------------------------------
  // Arithmetic
  // ---------------------------------------------------------------------

  /** `product(a, b)`: the numerators and denominators multiplied, then normalised. */
  function Product(a: Rational, b: Rational): (p: Rational)
    requires a.denom != 0 && b.denom != 0
    ensures Valid(p)
    ensures Represents(p, a.num * b.num, a.denom * b.denom)
  {
    AbsMul(a.denom, b.denom);
    Reduce(a.num * b.num, a.denom * b.denom)
  }

  /** `a.times(r)`: the same formula as `product`, written out again in the source. */
  function Times(self: Rational, r: Rational): (p: Rational)
    requires self.denom != 0 && r.denom != 0
    ensures p == Product(self, r)
  {
    AbsMul(self.denom, r.denom);
    Reduce(self.num * r.num, self.denom * r.denom)
  }

  /** If `r` has the value `n1 / d1`, it has the value of every equal fraction. */
  lemma RepresentsEqualFraction(r: Rational, n1: int, d1: int, n2: int, d2: int)
    requires Represents(r, n1, d1) && d1 != 0
    requires n1 * d2 == n2 * d1
    ensures Represents(r, n2, d2)
  {
    assert (r.num * d2) * d1 == (r.num * d1) * d2;
    assert (r.num * d1) * d2 == r.denom * (n1 * d2);
    assert r.denom * (n1 * d2) == (n2 * r.denom) * d1;
    assert (r.num * d2 - n2 * r.denom) * d1 == 0;
  }

  /** `sum(a, b)`: both numerators scaled to the `lcm` of the denominators. */
  function Sum(a: Rational, b: Rational): (s: Rational)
    requires a.denom != 0 && b.denom != 0
    ensures Valid(s)
    ensures Represents(s, a.num * b.denom + b.num * a.denom, a.denom * b.denom)
  {
    var l := Lcm(a.denom, b.denom).value;
    var num1 := a.num * Div(l, a.denom);
    var num2 := b.num * Div(l, b.denom);
    SumScaling(a, b, l);
    Reduce(num1 + num2, l)
  }

  /** The scaled numerators over the common denominator `l` are the sum's value. */
  lemma SumScaling(a: Rational, b: Rational, l: int)
    requires a.denom != 0 && b.denom != 0
    requires l != 0 && Divides(a.denom, l) && Divides(b.denom, l)
    ensures var r := Reduce(a.num * Div(l, a.denom) + b.num * Div(l, b.denom), l);
      Represents(r, a.num * b.denom + b.num * a.denom, a.denom * b.denom)
  {
    DivExact(l, a.denom);
    DivExact(l, b.denom);
    var ka, kb := Div(l, a.denom), Div(l, b.denom);
    var n := a.num * ka + b.num * kb;
    SumAlgebra(a.num, a.denom, b.num, b.denom, ka, kb, l);
    RepresentsEqualFraction(Reduce(n, l), n, l, a.num * b.denom + b.num * a.denom, a.denom * b.denom);
  }

  lemma SumAlgebra(na: int, da: int, nb: int, db: int, ka: int, kb: int, l: int)
    requires ka * da == l && kb * db == l
    ensures (na * ka + nb * kb) * (da * db) == (na * db + nb * da) * l
  {
    assert (na * ka) * (da * db) == (na * db) * (ka * da);
    assert (nb * kb) * (da * db) == (nb * da) * (kb * db);
  }

  /** `a.plus(r)`: forwards to `sum`. */
  function Plus(self: Rational, r: Rational): (s: Rational)
    requires self.denom != 0 && r.denom != 0
    ensures s == Sum(self, r)
    ensures Represents(s, self.num * r.denom + r.num * self.denom, self.denom * r.denom)
  {
    Sum(self, r)
  }

  /** `difference(a, b)`: `a` plus the constructed negation of `b`. */
  function Difference(a: Rational, b: Rational): (s: Rational)
    requires a.denom != 0 && b.denom != 0
    ensures Valid(s)
  {
    Sum(a, Reduce(-b.num, b.denom))
  }

  /** `difference(a, b)` has the value `a - b`. */
  lemma DifferenceIsSubtraction(a: Rational, b: Rational)
    requires a.denom != 0 && b.denom != 0
    ensures Represents(Difference(a, b), a.num * b.denom - b.num * a.denom, a.denom * b.denom)
  {
    var negB := Reduce(-b.num, b.denom);
    MulNonzero(a.denom, negB.denom);
    DifferenceAlgebra(a.num, a.denom, b.num, b.denom, negB.num, negB.denom);
    RepresentsEqualFraction(Sum(a, negB), a.num * negB.denom + negB.num * a.denom, a.denom * negB.denom,
                            a.num * b.denom - b.num * a.denom, a.denom * b.denom);
  }

  lemma DifferenceAlgebra(na: int, da: int, nb: int, db: int, mn: int, md: int)
    requires mn * db == -nb * md
    ensures (na * md + mn * da) * (da * db) == (na * db - nb * da) * (da * md)
  {
    assert (mn * da) * (da * db) == (mn * db) * (da * da);
    assert (-nb * md) * (da * da) == -((nb * da) * (da * md));
    assert (na * md) * (da * db) == (na * db) * (da * md);
  }

  /** `a.minus(r)`: forwards to `difference`. */
  function Minus(self: Rational, r: Rational): (s: Rational)
    requires self.denom != 0 && r.denom != 0
    ensures s == Difference(self, r)
    ensures Represents(s, self.num * r.denom - r.num * self.denom, self.denom * r.denom)
  {
    DifferenceIsSubtraction(self, r);
    Difference(self, r)
  }

  /** `reciprocalOf()`: numerator and denominator swapped through the constructor;
      zero has no reciprocal. */
  function ReciprocalOf(self: Rational): (r: Result<Rational>)
    ensures r.Err? <==> self.num == 0
    ensures r.Err? ==> r.error == DivideByZero
    ensures r.Ok? ==> Valid(r.value) && Represents(r.value, self.denom, self.num)
  {
    if self.num == 0 then Err(DivideByZero) else Ok(Reduce(self.denom, self.num))
  }

  /** `quotient(a, b)`: `a` times the reciprocal of `b`, failing when `b` is zero. */
  function Quotient(a: Rational, b: Rational): (q: Result<Rational>)
    requires a.denom != 0
    ensures q.Err? <==> b.num == 0
    ensures q.Err? ==> q.error == DivideByZero
    ensures q.Ok? ==> Valid(q.value) && Represents(q.value, a.num * b.denom, a.denom * b.num)
  {
    match ReciprocalOf(b)
    case Err(e) => Err(e)
    case Ok(rb) =>
      var p := Product(a, rb);
      QuotientValue(a, b, rb, p);
      Ok(p)
  }

  lemma QuotientValue(a: Rational, b: Rational, rb: Rational, p: Rational)
    requires a.denom != 0 && rb.denom != 0
    requires Represents(rb, b.denom, b.num)
    requires Represents(p, a.num * rb.num, a.denom * rb.denom)
    ensures Represents(p, a.num * b.denom, a.denom * b.num)
  {
    AbsMul(a.denom, rb.denom);
    var n1, d1 := a.num * rb.num, a.denom * rb.denom;
    var n2, d2 := a.num * b.denom, a.denom * b.num;
    assert n1 * d2 == (a.num * a.denom) * (rb.num * b.num);
    assert n2 * d1 == (a.num * a.denom) * (b.denom * rb.denom);
    RepresentsEqualFraction(p, n1, d1, n2, d2);
  }

  /** `a.dividedBy(r)`: forwards to `quotient`. */
  function DividedBy(self: Rational, r: Rational): (q: Result<Rational>)
    requires self.denom != 0
    ensures q == Quotient(self, r)
    ensures q.Err? <==> r.num == 0
    ensures q.Ok? ==> Represents(q.value, self.num * r.denom, self.denom * r.num)
  {
    Quotient(self, r)
  }
}
