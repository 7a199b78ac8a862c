/** Facts about integer multiplication, each stated over plain variables so
    that the solver meets one product at a time. */
module Arithmetic {

  /** Absolute value. */
  function Abs(x: int): (r: nat)
    ensures r == x || r == -x
  {
    if x < 0 then -x else x
  }

  lemma MulNonneg(x: int, y: int)
    requires x >= 0 && y >= 0
    ensures x * y >= 0
  {
  }

  lemma NegMul(x: int, y: int)
    ensures (-x) * y == -(x * y) == x * (-y)
  {
  }

  /** The magnitude of a product is the product of the magnitudes. */
  lemma AbsMul(x: int, y: int)
    ensures Abs(x * y) == Abs(x) * Abs(y)
  {
    MulNonneg(Abs(x), Abs(y));
    if x < 0 {
      NegMul(-x, y);
      if y < 0 {
        NegMul(-x, -y);
      }
    } else if y < 0 {
      NegMul(x, -y);
    }
  }

  /** A non-zero multiple of `b` is at least as large as `b` in magnitude. */
  lemma MultipleBound(m: int, b: int)
    requires m != 0
    ensures Abs(m * b) >= Abs(b)
  {
    AbsMul(m, b);
    var x, y := Abs(m), Abs(b);
    MulNonneg(x - 1, y);
    assert x * y == (x - 1) * y + y;
  }

  /** A multiple of a non-zero `d` leaves no Euclidean remainder. */
  lemma MultipleMod(k: int, d: int)
    requires d != 0
    ensures (k * d) % d == 0
  {
    var q, r := (k * d) / d, (k * d) % d;
    assert k * d == q * d + r;
    assert r == (k - q) * d;
    if k != q {
      MultipleBound(k - q, d);
    }
  }

  /** A non-zero factor can be cancelled from both sides of an equation. */
  lemma CancelFactor(x: int, y: int, k: int)
    requires k != 0 && x * k == y * k
    ensures x == y
  {
    assert (x - y) * k == 0;
    if x != y {
      MultipleBound(x - y, k);
    }
  }

  lemma MulNonzero(x: int, y: int)
    requires x != 0 && y != 0
    ensures x * y != 0
  {
    MultipleBound(x, y);
  }

  lemma MulCommutative(x: int, y: int)
    ensures x * y == y * x
  {
  }

  /** A non-zero `c` whose multiple `c * g` is no larger than `g` is a unit. */
  lemma UnitFromBound(c: int, g: int)
    requires c != 0 && g != 0 && Abs(c * g) <= Abs(g)
    ensures Abs(c) == 1
  {
    AbsMul(c, g);
    if Abs(c) >= 2 {
      MulNonneg(Abs(c) - 2, Abs(g));
    }
  }

  /** An integer combination equal to `g` stays one when every term is scaled by `k`. */
  lemma ScaleCombination(x: int, a: int, y: int, b: int, g: int, k: int)
    requires x * a + y * b == g
    ensures x * (a * k) + y * (b * k) == k * g
  {
    assert x * (a * k) == (x * a) * k;
    assert y * (b * k) == (y * b) * k;
  }
}
