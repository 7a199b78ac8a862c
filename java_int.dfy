/** Java's integer division and remainder operators on mathematical integers.

    Java's `/` rounds the quotient toward zero and its `%` is defined so that
    `(a / b) * b + a % b == a` (section 15.17 of the Java Language
    Specification); Dafny's own `/` and `%` are Euclidean, so the model of
    the source uses these two functions wherever the source writes `/` or `%`.
 */
module JavaInt {
  import opened Arithmetic

  /** Java's `a / b`: the quotient of the magnitudes, negated when the signs differ. */
  function Div(a: int, b: int): (q: int)
    requires b != 0
    ensures Abs(q) == Abs(a) / Abs(b)
    ensures Abs(q * b) <= Abs(a) < Abs(q * b) + Abs(b)
    ensures (a < 0) == (b < 0) ==> q >= 0
    ensures (a < 0) != (b < 0) ==> q <= 0
  {
    var m := Abs(a) / Abs(b);
    DivMagnitude(Abs(a), Abs(b));
    var q := if (a < 0) == (b < 0) then m else -m;
    SignedMagnitude(q, m, b);
    q
  }

  /** Giving a magnitude either sign keeps the magnitude of its product. */
  lemma SignedMagnitude(q: int, m: int, b: int)
    requires m >= 0 && (q == m || q == 0 - m)
    ensures Abs(q) == m && Abs(q * b) == m * Abs(b)
  {
    AbsMul(q, b);
  }

  /** The Euclidean quotient of two magnitudes brackets the dividend. */
  lemma DivMagnitude(x: nat, y: nat)
    requires y > 0
    ensures x / y >= 0
    ensures (x / y) * y <= x < (x / y) * y + y
  {
  }

  /** Java's `a % b`: what is left of `a` after taking away `Div(a, b)` times `b`. */
  function Rem(a: int, b: int): (r: int)
    requires b != 0
    ensures a == Div(a, b) * b + r
    ensures Abs(r) < Abs(b)
    ensures r == 0 || (r < 0 <==> a < 0)
  {
    var q := Div(a, b);
    var m := Abs(a) / Abs(b);
    DivMagnitude(Abs(a), Abs(b));
    AbsMul(q, b);
    assert a >= 0 ==> q * b == m * Abs(b) by {
      if a >= 0 {
        if b > 0 {
          MulNonneg(q, b);
        } else {
          NegMul(q, b);
          MulNonneg(-q, -b);
        }
      }
    }
    assert a < 0 ==> q * b == -(m * Abs(b)) by {
      if a < 0 {
        if b > 0 {
          NegMul(q, b);
          MulNonneg(-q, b);
        } else {
          NegMul(q, b);
          MulNonneg(q, -b);
        }
      }
    }
    a - q * b
  }

  /** When `b` divides `a` exactly, Java's division undoes the multiplication. */
  lemma DivExact(a: int, b: int)
    requires b != 0 && a % b == 0
    ensures Div(a, b) * b == a
    ensures Rem(a, b) == 0
  {
    var q := Div(a, b);
    var r := Rem(a, b);
    var k := a / b;
    assert a == k * b;
    if r != 0 {
      // a == q * b + r == k * b, so r is a non-zero multiple of b, too large in magnitude.
      SubtractMultiples(k, q, b, r);
      MultipleBound(k - q, b);
      assert false;
    }
  }

  lemma SubtractMultiples(k: int, q: int, b: int, r: int)
    requires k * b == q * b + r
    ensures r == (k - q) * b
  {
  }

  /** A dividend smaller in magnitude than the divisor has quotient 0 and is its own remainder. */
  lemma DivSmall(a: int, b: int)
    requires b != 0 && Abs(a) < Abs(b)
    ensures Div(a, b) == 0 && Rem(a, b) == a
  {
    var q := Div(a, b);
    if q != 0 {
      MultipleBound(q, b);
    }
  }

  lemma DivSelf(x: int)
    requires x != 0
    ensures Div(x, x) == 1 && Rem(x, x) == 0
  {
    MultipleMod(1, x);
    DivExact(x, x);
    CancelFactor(Div(x, x), 1, x);
  }

  /** The magnitude of a quotient depends only on the magnitude of the divisor. */
  lemma DivAbs(a: int, b: int, c: int)
    requires b != 0 && Abs(b) == Abs(c)
    ensures Abs(Div(a, b)) == Abs(Div(a, c))
  {
  }
}
