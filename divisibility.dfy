/** Divisibility of integers of either sign, the vocabulary in which the
    greatest common divisor and lowest terms are stated. */
module Divisibility {
  import opened Arithmetic

  /** `d` divides `x`: `d` is non-zero and `x` is an integer multiple of it. */
  predicate Divides(d: int, x: int)
  {
    d != 0 && x % d == 0
  }

  /** `c` divides both `x` and `y`. */
  predicate CommonDivisor(c: int, x: int, y: int)
  {
    Divides(c, x) && Divides(c, y)
  }

  /** `x` and `y` share no divisor other than 1 and -1. */
  ghost predicate Coprime(x: int, y: int)
  {
    forall c :: CommonDivisor(c, x, y) ==> c == 1 || c == -1
  }

  lemma DividesWitness(d: int, x: int)
    requires Divides(d, x)
    ensures x == (x / d) * d
  {
  }

  lemma MultipleDivides(d: int, k: int)
    requires d != 0
    ensures Divides(d, k * d)
  {
    MultipleMod(k, d);
  }

  lemma DividesZeroAndSelf(d: int)
    requires d != 0
    ensures Divides(d, 0) && Divides(d, d)
  {
    MultipleDivides(d, 1);
  }

  /** A common divisor of `x` and `y` divides every integer combination of them. */
  lemma DividesCombination(d: int, x: int, y: int, p: int, q: int)
    requires Divides(d, x) && Divides(d, y)
    ensures Divides(d, p * x + q * y)
  {
    var i, j := x / d, y / d;
    assert p * x == (p * i) * d;
    assert q * y == (q * j) * d;
    assert p * x + q * y == (p * i + q * j) * d;
    MultipleDivides(d, p * i + q * j);
  }

  /** A common divisor of `x` and `y` divides `y` plus or minus a multiple of `x`. */
  lemma DividesShift(d: int, x: int, y: int, q: int)
    requires Divides(d, x) && Divides(d, y)
    ensures Divides(d, q * x + y) && Divides(d, y - q * x)
  {
    DividesCombination(d, x, y, q, 1);
    DividesCombination(d, x, y, -q, 1);
    assert (-q) * x == -(q * x);
  }

  lemma DividesMultiple(d: int, x: int, k: int)
    requires Divides(d, x)
    ensures Divides(d, k * x)
  {
    DividesCombination(d, x, x, k, 0);
  }

  /** Divisibility ignores the sign of either side. */
  lemma DividesSign(d: int, x: int)
    requires d != 0
    ensures Divides(d, x) <==> Divides(d, -x)
    ensures Divides(d, x) <==> Divides(-d, x)
  {
    if Divides(d, x) {
      DividesMultiple(d, x, -1);
      var k := x / d;
      assert x == (-k) * (-d);
      MultipleDivides(-d, -k);
    }
    if Divides(d, -x) {
      DividesMultiple(d, -x, -1);
    }
    if Divides(-d, x) {
      var k := x / (-d);
      assert x == (-k) * d;
      MultipleDivides(d, -k);
    }
  }

  lemma DividesAbs(d: int, x: int)
    requires d != 0
    ensures Divides(d, x) <==> Divides(Abs(d), x)
  {
    DividesSign(d, x);
  }

  /** A divisor of a non-zero integer is no larger than it in magnitude. */
  lemma DividesBound(d: int, x: int)
    requires Divides(d, x) && x != 0
    ensures Abs(d) <= Abs(x)
  {
    var k := x / d;
    assert x == k * d;
    MultipleBound(k, d);
  }

  /** Two integers that divide each other agree in magnitude. */
  lemma DividesAntisymmetric(c: int, d: int)
    requires Divides(c, d) && Divides(d, c)
    ensures Abs(c) == Abs(d)
  {
    DividesBound(c, d);
    DividesBound(d, c);
  }

  /** Multiplying both sides by the same non-zero factor keeps divisibility. */
  lemma DividesScale(c: int, x: int, k: int)
    requires Divides(c, x) && k != 0
    ensures Divides(c * k, x * k)
  {
    var i := x / c;
    assert x * k == (i * c) * k;
    assert x * k == i * (c * k);
    AbsMul(c, k);
    MultipleDivides(c * k, i);
  }

  /** A common non-zero factor can be cancelled from both sides. */
  lemma DividesCancel(c: int, x: int, k: int)
    requires Divides(c * k, x * k) && k != 0
    ensures Divides(c, x)
  {
    var t := (x * k) / (c * k);
    assert x * k == t * (c * k);
    assert (x - t * c) * k == 0;
    assert x == t * c;
    MultipleDivides(c, t);
  }
}
