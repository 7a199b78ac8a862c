/** `toString`: a rational as decimal text, with a reader that parses the
    text back, used to state what the display keeps and what it hides. */
module RationalText {
  import opened Rationals
  import opened RationalLaws

  datatype Option<T> = None | Some(value: T)

  predicate IsDigit(c: char)
  {
    '0' <= c <= '9'
  }

  predicate AllDigits(s: string)
  {
    forall i :: 0 <= i < |s| ==> IsDigit(s[i])
  }

  /** Decimal digits as Java writes a natural number: at least one digit, and
      no leading zero unless the number is 0 itself. */
  predicate CanonicalNatural(s: string)
  {
    |s| > 0 && AllDigits(s) && (|s| > 1 ==> s[0] != '0')
  }

  /** Java's decimal text of an `int`: canonical digits, with a minus sign in
      front for a negative number (never `-0`). */
  predicate CanonicalInt(s: string)
  {
    CanonicalNatural(s) || (|s| > 1 && s[0] == '-' && CanonicalNatural(s[1..]) && s[1..] != "0")
  }

  function DigitChar(d: nat): (c: char)
    requires d < 10
    ensures IsDigit(c) && c as int - '0' as int == d
  {
    ('0' as int + d) as char
  }

  /** The decimal digits of a natural number, most significant first, without leading zeros. */
  function NaturalString(n: nat): (s: string)
    ensures CanonicalNatural(s)
    ensures n > 0 ==> s[0] != '0'
    decreases n
  {
    if n < 10 then [DigitChar(n)] else NaturalString(n / 10) + [DigitChar(n % 10)]
  }

  /** Java's decimal rendering of an `int`: a minus sign for negative values. */
  function IntString(i: int): (s: string)
    ensures |s| > 0 && (s[0] == '-' <==> i < 0)
    ensures CanonicalInt(s)
  {
    if i < 0 then "-" + NaturalString(-i) else NaturalString(i)
  }

  /** `toString()`: the numerator alone when the denominator is 1 or the
      numerator is 0, otherwise `num/denom`. */
  function ToString(r: Rational): (s: string)
    ensures IntString(r.num) <= s
  {
    if r.denom == 1 || r.num == 0 then IntString(r.num)
    else IntString(r.num) + "/" + IntString(r.denom)
  }

  // ---------------------------------------------------------------------
  // Reading the text back
  // ---------------------------------------------------------------------

  /** The value of a string of decimal digits. */
  function ParseNatural(s: string): (n: nat)
    requires AllDigits(s)
    decreases |s|
  {
    if s == [] then 0
    else ParseNatural(s[..|s| - 1]) * 10 + (s[|s| - 1] as int - '0' as int)
  }

  /** An optionally negative decimal integer; anything else is refused. */
  function ParseInt(s: string): (i: Option<int>)
  {
    if |s| > 1 && s[0] == '-' && AllDigits(s[1..]) then Some(-(ParseNatural(s[1..]) as int))
    else if |s| > 0 && AllDigits(s) then Some(ParseNatural(s))
    else None
  }

  /** The first position of `c` in `s`. */
  function IndexOf(s: string, c: char): (k: nat)
    requires c in s
    ensures k < |s| && s[k] == c && c !in s[..k]
  {
    if s[0] == c then 0 else 1 + IndexOf(s[1..], c)
  }

  /** Text of the form `n` or `n/d` read back as a fraction (`n` meaning `n/1`). */
  function ParseRational(s: string): (r: Option<Rational>)
  {
    if '/' in s then
      var k := IndexOf(s, '/');
      match (ParseInt(s[..k]), ParseInt(s[k + 1..]))
      case (Some(n), Some(d)) => Some(Rational(n, d))
      case _ => None
    else
      match ParseInt(s)
      case Some(n) => Some(Rational(n, 1))
      case None => None
  }

  /** Text whose integers, around the first slash if there is one, are each
      written in canonical decimal form. */
  predicate CanonicalDisplay(t: string)
  {
    if '/' in t then
      var k := IndexOf(t, '/');
      CanonicalInt(t[..k]) && CanonicalInt(t[k + 1..])
    else
      CanonicalInt(t)
  }

  // ---------------------------------------------------------------------
  // Properties
  // ---------------------------------------------------------------------

  lemma {:induction false} NaturalStringRoundTrip(n: nat)
    ensures ParseNatural(NaturalString(n)) == n
    decreases n
  {
    var s := NaturalString(n);
    if n >= 10 {
      NaturalStringRoundTrip(n / 10);
      assert s[..|s| - 1] == NaturalString(n / 10);
    }
  }

  /** Reading the decimal text of any integer gives the integer back. */
  lemma IntStringRoundTrip(i: int)
    ensures ParseInt(IntString(i)) == Some(i)
    ensures '/' !in IntString(i)
  {
    var s := IntString(i);
    if i < 0 {
      NaturalStringRoundTrip(-i);
      assert s[1..] == NaturalString(-i);
      assert forall k :: 0 <= k < |s| ==> s[k] == '-' || IsDigit(s[k]);
    } else {
      NaturalStringRoundTrip(i);
      assert !IsDigit('-');
    }
  }

  /** Text of digits whose first digit is not zero has a positive value. */
  lemma {:induction false} ParsePositive(s: string)
    requires |s| > 0 && AllDigits(s) && s[0] != '0'
    ensures ParseNatural(s) > 0
    decreases |s|
  {
    var p := s[..|s| - 1];
    if |s| > 1 {
      assert p[0] == s[0];
      ParsePositive(p);
    } else {
      assert p == [];
    }
  }

  /** Appending a digit `d` to the decimal text of `p` gives `p * 10 + d`. */
  lemma LastDigit(p: int, d: int)
    requires 0 <= d < 10
    ensures (p * 10 + d) / 10 == p && (p * 10 + d) % 10 == d
  {
    var n := p * 10 + d;
    var q, r := n / 10, n % 10;
    assert (p - q) * 10 == r - d;
  }

  /** Canonical decimal digits are the text of their own value: there is only
      one canonical way to write a natural number. */
  lemma {:induction false} NaturalStringUnique(s: string)
    requires CanonicalNatural(s)
    ensures NaturalString(ParseNatural(s)) == s
    decreases |s|
  {
    var p := s[..|s| - 1];
    var c := s[|s| - 1];
    var d := c as int - '0' as int;
    assert IsDigit(c);
    assert DigitChar(d) == c;
    if |s| == 1 {
      assert p == [];
      assert [c] == s;
    } else {
      assert p[0] == s[0];
      assert forall i :: 0 <= i < |p| ==> p[i] == s[i];
      NaturalStringUnique(p);
      ParsePositive(p);
      LastDigit(ParseNatural(p), d);
      assert p + [c] == s;
    }
  }

  /** The canonical text of an integer reads back to an integer whose decimal
      text it is: Java's rendering is the only canonical one. */
  lemma CanonicalIntUnique(t: string)
    requires CanonicalInt(t)
    ensures ParseInt(t).Some? && IntString(ParseInt(t).value) == t
  {
    if CanonicalNatural(t) {
      assert !IsDigit('-');
      assert t[0] != '-';
      NaturalStringUnique(t);
    } else {
      var u := t[1..];
      assert u[0] != '0' by {
        if |u| == 1 {
          assert u == [u[0]];
        }
      }
      ParsePositive(u);
      NaturalStringUnique(u);
      assert t == "-" + u;
    }
  }

  /** Reading `toString` back gives the value's fields, except that every
      zero reads as `0/1`: the display hides the unreduced denominator of zero. */
  lemma ToStringRoundTrip(r: Rational)
    ensures ParseRational(ToString(r)) == Some(if r.num == 0 then Rational(0, 1) else r)
  {
    var n, d := IntString(r.num), IntString(r.denom);
    IntStringRoundTrip(r.num);
    IntStringRoundTrip(r.denom);
    if !(r.denom == 1 || r.num == 0) {
      var s := n + "/" + d;
      assert s[|n|] == '/';
      assert s[..|n|] == n;
      assert s[|n| + 1..] == d;
      assert IndexOf(s, '/') == |n|;
    }
  }

  /** The display shows a slash exactly when the denominator is not 1 and the numerator is not 0. */
  lemma ToStringSlash(r: Rational)
    ensures '/' in ToString(r) <==> r.denom != 1 && r.num != 0
  {
    IntStringRoundTrip(r.num);
    IntStringRoundTrip(r.denom);
    if r.denom != 1 && r.num != 0 {
      assert ToString(r)[|IntString(r.num)|] == '/';
    }
  }

  /** Non-zero values with the same display are the same value. */
  lemma ToStringInjective(p: Rational, q: Rational)
    requires p.num != 0 && q.num != 0 && ToString(p) == ToString(q)
    ensures p == q
  {
    ToStringRoundTrip(p);
    ToStringRoundTrip(q);
  }

  /** One-digit integers are written as that digit, after a minus sign when negative. */
  lemma SingleDigit(k: int)
    requires 0 <= k < 10
    ensures IntString(k) == [DigitChar(k)]
    ensures k > 0 ==> IntString(-k) == ['-', DigitChar(k)]
  {
  }

  /** The display of constructed values: `5/7`, `6/3`, `0/5` and `-3/4`. */
  lemma ToStringExamples()
    ensures ToString(Make(5, 7).value) == "5/7"
    ensures ToString(Make(6, 3).value) == "2"
    ensures ToString(Make(0, 5).value) == "0"
    ensures ToString(Make(-3, 4).value) == "-3/4"
  {
    ConstructionExamples();
    SingleDigit(5);
    SingleDigit(7);
    SingleDigit(2);
    SingleDigit(0);
    SingleDigit(3);
    SingleDigit(4);
  }

  /** `toString` writes each of its integers in Java's canonical decimal form. */
  lemma ToStringCanonical(r: Rational)
    ensures CanonicalDisplay(ToString(r))
  {
    var n, d := IntString(r.num), IntString(r.denom);
    IntStringRoundTrip(r.num);
    IntStringRoundTrip(r.denom);
    if !(r.denom == 1 || r.num == 0) {
      var s := n + "/" + d;
      assert s[|n|] == '/';
      assert s[..|n|] == n;
      assert s[|n| + 1..] == d;
      assert IndexOf(s, '/') == |n|;
    }
  }

  /** Canonical text with a slash is determined by the fraction it reads as. */
  lemma FractionTextUnique(t: string, n: int, d: int)
    requires '/' in t && CanonicalDisplay(t)
    requires ParseRational(t) == Some(Rational(n, d))
    ensures t == IntString(n) + "/" + IntString(d)
  {
    var k := IndexOf(t, '/');
    CanonicalIntUnique(t[..k]);
    CanonicalIntUnique(t[k + 1..]);
    assert t == t[..k] + "/" + t[k + 1..];
  }

  /** Canonical text without a slash is determined by the integer it reads as. */
  lemma IntegerTextUnique(t: string, n: int)
    requires '/' !in t && CanonicalDisplay(t)
    requires ParseRational(t) == Some(Rational(n, 1))
    ensures t == IntString(n)
  {
    CanonicalIntUnique(t);
  }

  /** A display is exact: any text made of canonical integers, with a slash
      exactly where `toString` puts one and reading back to the same fields,
      is the text `toString` prints. */
  lemma ToStringExact(r: Rational, t: string)
    requires ParseRational(t) == ParseRational(ToString(r))
    requires '/' in t <==> '/' in ToString(r)
    requires CanonicalDisplay(t)
    ensures t == ToString(r)
  {
    ToStringRoundTrip(r);
    ToStringSlash(r);
    if r.denom == 1 || r.num == 0 {
      IntegerTextUnique(t, r.num);
    } else {
      FractionTextUnique(t, r.num, r.denom);
    }
  }
}
