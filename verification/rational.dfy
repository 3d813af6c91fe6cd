/**
 * Exact rational numbers (`RationalNumber` in Lab3/task3.4/rationalarithmetic.cc).
 *
 * Every number is kept in canonical form: a positive denominator coprime to
 * the numerator, with zero written 0/1.  A zero denominator handed to the
 * constructor is not an error: the source turns it into 0/1, and so does the
 * model, which is also what division by zero yields.
 */
module Rational {
  import opened CArith
  import opened NumberTheory

  datatype Rational = Rational(num: int, den: int)

  /** The number a pair denotes. */
  function Value(q: Rational): real
    requires q.den != 0
  {
    q.num as real / q.den as real
  }

  /** The class invariant the constructor establishes. */
  ghost predicate Canonical(q: Rational)
  {
    q.den > 0 && Coprime(q.num, q.den)
  }

  /** The default constructor: zero. */
  function Zero(): (r: Rational)
    ensures Canonical(r) && Value(r) == 0.0
  {
    OneIsCoprime(0);
    Rational(0, 1)
  }

  lemma OneIsCoprime(a: int)
    ensures Coprime(a, 1)
  {
    forall c | c > 0 && Divides(c, a) && Divides(c, 1)
      ensures c == 1
    {
      DivisorBound(c, 1);
    }
  }

  /**
   * Euclid's algorithm on non-negative operands, as the source's
   * `GreatestCommonDivisor`: the result divides both and every common divisor
   * divides it.
   */
  function Gcd(a: nat, b: nat): (g: nat)
    ensures Divides(g, a) && Divides(g, b)
    ensures forall c :: Divides(c, a) && Divides(c, b) ==> Divides(c, g)
    ensures g == 0 <==> a == 0 && b == 0
    decreases b
  {
    if b == 0 then
      DividesByMultiple(a, 1);
      a
    else
      var g := Gcd(b, a % b);
      DividesRemainder(g, a, b);
      forall c | Divides(c, a) && Divides(c, b)
        ensures Divides(c, a % b)
      {
        DividesRemainder(c, a, b);
      }
      g
  }

  /**
   * The constructor's normalisation: zero numerator or zero denominator gives
   * 0/1; otherwise the same value with a positive denominator, both parts
   * divided by their gcd and the sign carried by the numerator.
   */
  function Convert(num: int, den: int): (r: Rational)
    ensures Canonical(r)
    ensures num == 0 || den == 0 ==> r == Rational(0, 1)
    ensures num != 0 && den != 0 ==> Value(r) == num as real / den as real
  {
    if num == 0 || den == 0 then
      Zero()
    else
      var sameSign := (num > 0 && den > 0) || (num < 0 && den < 0);
      var n := Abs(num);
      var d := Abs(den);
      var g := Gcd(n, d);
      ReduceByGcd(n, d, g);
      var r := Rational(if sameSign then n / g else -(n / g), d / g);
      ConvertValue(num, den, g, r);
      CoprimeNegate(n / g, d / g);
      r
  }

  /** Dividing both parts by their gcd leaves a coprime pair with the same ratio. */
  lemma ReduceByGcd(n: nat, d: nat, g: nat)
    requires n > 0 && d > 0 && g == Gcd(n, d)
    ensures g > 0 && n == g * (n / g) && d == g * (d / g)
    ensures n / g > 0 && d / g > 0
    ensures Coprime(n / g, d / g)
  {
    DividesWitness(g, n);
    DividesWitness(g, d);
    PositiveFactor(g, n / g);
    PositiveFactor(g, d / g);
    forall c | c > 0 && Divides(c, n / g) && Divides(c, d / g)
      ensures c == 1
    {
      ScaledDivisor(n, g, c);
      ScaledDivisor(d, g, c);
      assert Divides(g * c, g);
      ScaledDivisorBound(g, c);
    }
  }

  /** If `c` divides `n / g` then `g * c` divides `n`. */
  lemma ScaledDivisor(n: int, g: int, c: int)
    requires g > 0 && c > 0 && n == g * (n / g) && Divides(c, n / g)
    ensures Divides(g * c, n)
  {
    var p := (n / g) / c;
    assert n / g == c * p;
    assert n == (g * c) * p by { assert g * (c * p) == (g * c) * p; }
    DividesByMultiple(g * c, p);
  }

  lemma ScaledDivisorBound(g: int, c: int)
    requires g > 0 && c > 0 && Divides(g * c, g)
    ensures c == 1
  {
    MulMonotone(g, 1, c);
    DivisorBound(g * c, g);
    if c > 1 {
      MulMonotone(g, 2, c);
    }
  }

  lemma CoprimeNegate(a: int, b: int)
    requires Coprime(a, b)
    ensures Coprime(-a, b)
  {
    forall c | c > 0 && Divides(c, -a) && Divides(c, b)
      ensures c == 1
    {
      DividesCombination(c, -a, b, -1, 0);
    }
  }

  lemma ConvertValue(num: int, den: int, g: nat, r: Rational)
    requires num != 0 && den != 0 && g > 0
    requires Abs(num) == g * (Abs(num) / g) && Abs(den) == g * (Abs(den) / g)
    requires r.den == Abs(den) / g && r.den > 0
    requires r.num == if (num > 0 && den > 0) || (num < 0 && den < 0) then Abs(num) / g else -(Abs(num) / g)
    ensures Value(r) == num as real / den as real
  {
    var n', d' := Abs(num) / g, Abs(den) / g;
    if num > 0 && den > 0 {
      CrossMultiply(r.num, r.den, num, den, g);
    } else if num < 0 && den < 0 {
      assert num == g * (-n') && den == g * (-d');
      CrossMultiply(-r.num, -r.den, num, den, g);
      NegateFraction(r.num, r.den);
    } else if num > 0 {
      assert den == g * (-d');
      CrossMultiply(-r.num, -r.den, num, den, g);
      NegateFraction(r.num, r.den);
    } else {
      assert num == g * (-n');
      CrossMultiply(r.num, r.den, num, den, g);
    }
  }

  lemma NegateFraction(a: int, b: int)
    requires b != 0
    ensures (-a) as real / (-b) as real == a as real / b as real
  {
  }

  /** Scaling numerator and denominator by the same non-zero factor keeps the value. */
  lemma CrossMultiply(a: int, b: int, c: int, d: int, g: int)
    requires b != 0 && g != 0 && c == g * a && d == g * b
    ensures a as real / b as real == c as real / d as real
  {
    assert c as real == g as real * a as real;
    assert d as real == g as real * b as real;
  }

  /** Two fractions with equal cross products are equal. */
  lemma FractionsEqual(a: int, b: int, c: int, d: int)
    requires b != 0 && d != 0 && a * d == c * b
    ensures a as real / b as real == c as real / d as real
  {
    assert (a * d) as real == a as real * d as real;
    assert (c * b) as real == c as real * b as real;
  }

  /** `x + y` */
  function Add(x: Rational, y: Rational): (r: Rational)
    requires x.den != 0 && y.den != 0
    ensures Canonical(r) && Value(r) == Value(x) + Value(y)
  {
    var num := x.num * y.den + x.den * y.num;
    var den := x.den * y.den;
    SumValue(x, y);
    ZeroValue(num, den);
    Convert(num, den)
  }

  /** `x - y` */
  function Subtract(x: Rational, y: Rational): (r: Rational)
    requires x.den != 0 && y.den != 0
    ensures Canonical(r) && Value(r) == Value(x) - Value(y)
  {
    var num := x.num * y.den - x.den * y.num;
    var den := x.den * y.den;
    DifferenceValue(x, y);
    ZeroValue(num, den);
    Convert(num, den)
  }

  /** `x * y` */
  function Multiply(x: Rational, y: Rational): (r: Rational)
    requires x.den != 0 && y.den != 0
    ensures Canonical(r) && Value(r) == Value(x) * Value(y)
  {
    var num := x.num * y.num;
    var den := x.den * y.den;
    ProductValue(x, y);
    ZeroValue(num, den);
    Convert(num, den)
  }

  /** `x / y`; dividing by zero yields 0/1, as the constructor does for a zero denominator. */
  function Divide(x: Rational, y: Rational): (r: Rational)
    requires x.den != 0 && y.den != 0
    ensures Canonical(r)
    ensures y.num == 0 ==> r == Rational(0, 1)
    ensures y.num != 0 ==> Value(r) == Value(x) / Value(y)
  {
    var num := x.num * y.den;
    var den := x.den * y.num;
    QuotientValue(x, y);
    ZeroValue(num, den);
    Convert(num, den)
  }

  lemma ZeroValue(num: int, den: int)
    ensures den != 0 && num == 0 ==> num as real / den as real == 0.0
  {
  }

  lemma SumValue(x: Rational, y: Rational)
    requires x.den != 0 && y.den != 0
    ensures x.den * y.den != 0
    ensures (x.num * y.den + x.den * y.num) as real / (x.den * y.den) as real == Value(x) + Value(y)
  {
    NonZeroProduct(x.den, y.den);
    var a, b, c, d := x.num as real, x.den as real, y.num as real, y.den as real;
    assert (x.num * y.den + x.den * y.num) as real == a * d + b * c;
    assert (x.den * y.den) as real == b * d;
    assert (a * d + b * c) / (b * d) == a / b + c / d;
  }

  lemma DifferenceValue(x: Rational, y: Rational)
    requires x.den != 0 && y.den != 0
    ensures x.den * y.den != 0
    ensures (x.num * y.den - x.den * y.num) as real / (x.den * y.den) as real == Value(x) - Value(y)
  {
    NonZeroProduct(x.den, y.den);
    var a, b, c, d := x.num as real, x.den as real, y.num as real, y.den as real;
    assert (x.num * y.den - x.den * y.num) as real == a * d - b * c;
    assert (x.den * y.den) as real == b * d;
    assert (a * d - b * c) / (b * d) == a / b - c / d;
  }

  lemma ProductValue(x: Rational, y: Rational)
    requires x.den != 0 && y.den != 0
    ensures x.den * y.den != 0
    ensures (x.num * y.num) as real / (x.den * y.den) as real == Value(x) * Value(y)
  {
    NonZeroProduct(x.den, y.den);
    var a, b, c, d := x.num as real, x.den as real, y.num as real, y.den as real;
    assert (x.num * y.num) as real == a * c;
    assert (x.den * y.den) as real == b * d;
    assert (a * c) / (b * d) == (a / b) * (c / d);
  }

  lemma QuotientValue(x: Rational, y: Rational)
    requires x.den != 0 && y.den != 0
    ensures y.num != 0 ==> x.den * y.num != 0
    ensures y.num != 0 ==> (x.num * y.den) as real / (x.den * y.num) as real == Value(x) / Value(y)
  {
    if y.num != 0 {
      NonZeroProduct(x.den, y.num);
      var a, b, c, d := x.num as real, x.den as real, y.num as real, y.den as real;
      assert (x.num * y.den) as real == a * d;
      assert (x.den * y.num) as real == b * c;
      assert (a * d) / (b * c) == (a / b) / (c / d);
    }
  }

  lemma NonZeroProduct(a: int, b: int)
    requires a != 0 && b != 0
    ensures a * b != 0
  {
    MulAbsGrows(a, b);
  }

  /** A canonical number's sign is its numerator's sign. */
  lemma SignOfValue(q: Rational)
    requires q.den > 0
    ensures q.num < 0 <==> Value(q) < 0.0
    ensures q.num > 0 <==> Value(q) > 0.0
  {
  }

  /** `x < y`, decided by the sign of `x - y`. */
  function Less(x: Rational, y: Rational): (b: bool)
    requires x.den != 0 && y.den != 0
    ensures b <==> Value(x) < Value(y)
  {
    SignOfValue(Subtract(x, y));
    Subtract(x, y).num < 0
  }

  /** `x > y`, decided by the sign of `x - y`. */
  function Greater(x: Rational, y: Rational): (b: bool)
    requires x.den != 0 && y.den != 0
    ensures b <==> Value(x) > Value(y)
  {
    SignOfValue(Subtract(x, y));
    Subtract(x, y).num > 0
  }

  /** `x <= y`, decided by the sign of `x - y`. */
  function LessOrEqual(x: Rational, y: Rational): (b: bool)
    requires x.den != 0 && y.den != 0
    ensures b <==> Value(x) <= Value(y)
  {
    SignOfValue(Subtract(x, y));
    Subtract(x, y).num <= 0
  }

  /** `x >= y`, decided by the sign of `x - y`. */
  function GreaterOrEqual(x: Rational, y: Rational): (b: bool)
    requires x.den != 0 && y.den != 0
    ensures b <==> Value(x) >= Value(y)
  {
    SignOfValue(Subtract(x, y));
    Subtract(x, y).num >= 0
  }

  /**
   * `x == y` compares the two parts; on canonical numbers that is exactly
   * equality of the values they denote.
   */
  function Equal(x: Rational, y: Rational): (b: bool)
    requires Canonical(x) && Canonical(y)
    ensures b <==> Value(x) == Value(y)
  {
    CanonicalUnique(x, y);
    x.num == y.num && x.den == y.den
  }

  /** `x != y` */
  function NotEqual(x: Rational, y: Rational): (b: bool)
    requires Canonical(x) && Canonical(y)
    ensures b <==> Value(x) != Value(y)
  {
    !Equal(x, y)
  }

  /** Two canonical pairs denoting the same number are the same pair. */
  lemma CanonicalUnique(x: Rational, y: Rational)
    requires Canonical(x) && Canonical(y)
    ensures Value(x) == Value(y) ==> x == y
  {
    if Value(x) == Value(y) {
      SameValueSamePair(x, y);
    }
  }

  lemma SameValueSamePair(x: Rational, y: Rational)
    requires Canonical(x) && Canonical(y) && Value(x) == Value(y)
    ensures x == y
  {
    CrossProductsEqual(x, y);
    if x.num == 0 || y.num == 0 {
      ZeroIsCanonicalOne(x);
      ZeroIsCanonicalOne(y);
      assert x.num == 0 && y.num == 0 by { NonZeroProduct(x.den, y.den); if x.num == 0 && y.num != 0 { NonZeroProduct(y.num, x.den); } if y.num == 0 && x.num != 0 { NonZeroProduct(x.num, y.den); } }
    } else {
      DenominatorDivides(x.num, x.den, y.num, y.den);
      DenominatorDivides(y.num, y.den, x.num, x.den);
      DivisorBound(x.den, y.den);
      DivisorBound(y.den, x.den);
      MulCancel(x.den, x.num, y.num);
    }
  }

  lemma CrossProductsEqual(x: Rational, y: Rational)
    requires x.den > 0 && y.den > 0 && Value(x) == Value(y)
    ensures x.num * y.den == y.num * x.den
  {
    var a, b, c, d := x.num as real, x.den as real, y.num as real, y.den as real;
    assert a / b == c / d;
    assert a * d == c * b;
    assert (x.num * y.den) as real == a * d;
    assert (y.num * x.den) as real == c * b;
  }

  lemma ZeroIsCanonicalOne(q: Rational)
    requires Canonical(q) && q.num == 0
    ensures q.den == 1
  {
    DividesByMultiple(q.den, 0);
    DividesByMultiple(q.den, 1);
  }

  /** For a coprime pair the `d` of `ExtendedGcd` is 1 or -1. */
  lemma UnitGcd(a: int, b: int)
    requires b > 0 && Coprime(a, b)
    ensures ExtendedGcd(a, b).d == 1 || ExtendedGcd(a, b).d == -1
  {
    var g := ExtendedGcd(a, b).d;
    DividesNegate(g, a);
    DividesNegate(g, b);
    assert Divides(Abs(g), a) && Divides(Abs(g), b);
    assert g != 0;
  }

  /** Multiplying Bezout's identity by `d` when `a * d == c * b`. */
  lemma ScaledBezout(a: int, b: int, c: int, d: int, x: int, y: int, g: int)
    requires a * x + b * y == g && a * d == c * b
    ensures d * g == b * (c * x + d * y)
  {
    assert d * g == d * (a * x) + d * (b * y);
    assert d * (a * x) == (a * d) * x;
    assert (a * d) * x == (c * b) * x;
  }

  /**
   * Euclid's lemma in the form needed here: if `b` is coprime to `a` and
   * `a * d == c * b`, then `b` divides `d`.
   */
  lemma DenominatorDivides(a: int, b: int, c: int, d: int)
    requires a != 0 && b > 0 && d > 0 && Coprime(a, b) && a * d == c * b
    ensures Divides(b, d)
  {
    var e := ExtendedGcd(a, b);
    UnitGcd(a, b);
    var k := c * e.x + d * e.y;
    if e.d == 1 {
      ScaledBezout(a, b, c, d, e.x, e.y, 1);
      DividesByMultiple(b, k);
    } else {
      ScaledBezout(a, b, c, d, e.x, e.y, -1);
      MulSigns(b, k);
      DividesByMultiple(b, -k);
    }
  }
}
