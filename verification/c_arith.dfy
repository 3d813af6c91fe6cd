/**
 * Integer arithmetic as the C++ sources perform it.
 *
 * C++ `/` truncates toward zero and `%` takes the sign of the dividend, while
 * Dafny's `/` and `%` are Euclidean.  The sources' `Mod(a, m)` helper
 * (`(a % m + m) % m`, or 0 when `m <= 0`) is written out with the truncating
 * operators so that its behaviour on negative operands is the source's.
 */
module CArith {

  function Abs(x: int): nat
  {
    if x < 0 then -x else x
  }

  /** C++ integer division: the quotient truncated toward zero. */
  function TruncDiv(a: int, b: int): int
    requires b != 0
  {
    var q := Abs(a) / Abs(b);
    if (a < 0) == (b < 0) then q else -q
  }

  /** C++ integer remainder: `a - b * (a / b)` with the truncating quotient. */
  function TruncRem(a: int, b: int): int
    requires b != 0
  {
    a - b * TruncDiv(a, b)
  }

  lemma TruncRemBounds(a: int, b: int)
    requires b != 0
    ensures Abs(TruncRem(a, b)) < Abs(b)
    ensures a >= 0 ==> TruncRem(a, b) >= 0
    ensures a <= 0 ==> TruncRem(a, b) <= 0
  {
    var q := Abs(a) / Abs(b);
    var r := Abs(a) % Abs(b);
    var m: int := Abs(b);
    var p := m * q;
    assert Abs(a) == p + r;
    assert b * TruncDiv(a, b) == (if a >= 0 then p else -p) by {
      MulSigns(m, q);
      MulSigns(-m, q);
    }
  }

  lemma MulSigns(x: int, y: int)
    ensures x * (-y) == -(x * y) && (-x) * y == -(x * y)
  {
  }

  lemma MulAssoc(a: int, b: int, c: int)
    ensures (a * b) * c == a * (b * c)
  {
  }

  lemma MulComm(a: int, b: int)
    ensures a * b == b * a
  {
  }

  /** The sign and size of a product. */
  lemma MulSign(d: int, t: int)
    ensures Abs(d * t) == Abs(d) * Abs(t)
    ensures d != 0 && t > 0 ==> ((d * t < 0) <==> (d < 0))
    ensures d != 0 && t < 0 ==> ((d * t < 0) <==> (d > 0))
  {
    var ad: int, at: int := Abs(d), Abs(t);
    MulSigns(ad, at);
    MulSigns(-ad, at);
    MulSigns(ad, -at);
    if t > 0 && d != 0 { MulMonotone(ad, 1, at); }
    if t < 0 && d != 0 { MulMonotone(ad, 1, at); }
  }

  /** On non-negative operands the C++ operators agree with Dafny's. */
  lemma TruncAgreesOnNatural(a: int, b: int)
    requires a >= 0 && b > 0
    ensures TruncDiv(a, b) == a / b && TruncRem(a, b) == a % b
  {
  }

  /** `d` divides `x` (every integer divides 0; 0 divides only 0). */
  predicate Divides(d: int, x: int)
  {
    if d == 0 then x == 0 else x % d == 0
  }

  lemma DividesWitness(d: int, x: int)
    requires d != 0 && Divides(d, x)
    ensures x == d * (x / d)
  {
  }

  lemma DividesByMultiple(d: int, k: int)
    ensures Divides(d, d * k)
  {
    if d != 0 {
      LemmaMulMod(d, k);
    }
  }

  lemma LemmaMulMod(d: int, k: int)
    requires d != 0
    ensures (d * k) % d == 0
  {
    var q := (d * k) / d;
    var r := (d * k) % d;
    assert d * k == d * q + r;
    assert r == d * (k - q);
    if r != 0 {
      if k - q > 0 {
        assert Abs(d * (k - q)) >= Abs(d) by { MulAbsGrows(d, k - q); }
      } else {
        assert Abs(d * (k - q)) >= Abs(d) by { MulAbsGrows(d, k - q); }
      }
    }
  }

  lemma MulAbsGrows(d: int, k: int)
    requires k != 0
    ensures Abs(d * k) >= Abs(d)
  {
    if k > 0 {
      if d >= 0 { assert d * k >= d * 1; } else { assert d * k <= d * 1; }
    } else {
      if d >= 0 { assert d * k <= d * -1; } else { assert d * k >= d * -1; }
    }
  }

  /** A common divisor of two numbers divides every integer combination of them. */
  lemma DividesCombination(d: int, a: int, b: int, x: int, y: int)
    requires Divides(d, a) && Divides(d, b)
    ensures Divides(d, a * x + b * y)
  {
    if d != 0 {
      var p, q := a / d, b / d;
      assert a == d * p && b == d * q;
      assert a * x + b * y == d * (p * x + q * y) by {
        assert a * x == d * p * x;
        assert b * y == d * q * y;
      }
      DividesByMultiple(d, p * x + q * y);
    }
  }

  lemma DividesTransitive(a: int, b: int, c: int)
    requires Divides(a, b) && Divides(b, c)
    ensures Divides(a, c)
  {
    if a != 0 && b != 0 {
      var p, q := b / a, c / b;
      assert b == a * p && c == b * q;
      assert c == a * (p * q);
      DividesByMultiple(a, p * q);
    }
  }

  /** A common divisor of `a` and `b > 0` divides `a % b`, and conversely divides `a`. */
  lemma DividesRemainder(c: int, a: int, b: int)
    requires b > 0 && Divides(c, b)
    ensures Divides(c, a) <==> Divides(c, a % b)
  {
    var q := a / b;
    assert a == b * q + a % b;
    if Divides(c, a) {
      DividesCombination(c, a, b, 1, -q);
      assert a * 1 + b * (-q) == a % b;
    }
    if Divides(c, a % b) {
      DividesCombination(c, b, a % b, q, 1);
    }
  }

  /** Divisibility is insensitive to the sign of the divisor. */
  lemma DividesNegate(d: int, x: int)
    ensures Divides(d, x) <==> Divides(-d, x)
  {
    if d != 0 && Divides(d, x) {
      assert x == (-d) * (-(x / d));
      DividesByMultiple(-d, -(x / d));
    }
    if d != 0 && Divides(-d, x) {
      assert x == d * (-(x / -d));
      DividesByMultiple(d, -(x / -d));
    }
  }

  /** A positive divisor of a positive number is at most that number. */
  lemma DivisorBound(d: int, x: int)
    requires d > 0 && x > 0 && Divides(d, x)
    ensures d <= x
  {
    var q := x / d;
    assert x == d * q;
    MulMonotone(d, 0, q);
    assert q >= 1;
    MulMonotone(d, 1, q);
  }

  lemma PositiveFactor(d: int, k: int)
    requires d > 0 && d * k > 0
    ensures k > 0
  {
    if k <= 0 {
      MulMonotone(d, k, 0);
    }
  }

  /** One more factor adds one more `a`. */
  lemma MulSucc(a: int, n: int)
    ensures a * (n + 1) == a * n + a
  {
  }

  lemma MulMonotone(a: int, b: int, c: int)
    requires a >= 0 && b <= c
    ensures a * b <= a * c
  {
    assert a * c - a * b == a * (c - b);
  }

  /**
   * The sources' `Mod(a, m)`: the least non-negative residue of `a` modulo `m`,
   * and 0 when `m <= 0`.
   */
  function Mod(a: int, m: int): (r: int)
    ensures m > 0 ==> 0 <= r < m && r == a % m
    ensures m <= 0 ==> r == 0
  {
    if m <= 0 then 0
    else
      TruncRemBounds(a, m);
      TruncRemBounds(TruncRem(a, m) + m, m);
      ModOfTruncRem(a, m);
      TruncRem(TruncRem(a, m) + m, m)
  }

  lemma ModOfTruncRem(a: int, m: int)
    requires m > 0
    ensures TruncRem(TruncRem(a, m) + m, m) == a % m
  {
    TruncRemBounds(a, m);
    var r := TruncRem(a, m);
    assert r + m >= 0;
    TruncAgreesOnNatural(r + m, m);
    assert a == m * TruncDiv(a, m) + r;
    var k := TruncDiv(a, m) - 1;
    assert r + m + m * k == a;
    ModShift(r + m, k, m);
  }

  /** Adding a multiple of `m` does not change the Euclidean residue. */
  lemma ModShift(x: int, k: int, m: int)
    requires m > 0
    ensures (x + m * k) % m == x % m
  {
    var q, r := x / m, x % m;
    assert x == m * q + r;
    assert x + m * k == m * (q + k) + r;
    DivModUnique(x + m * k, m, q + k, r);
  }

  /** The Euclidean quotient and remainder are the only ones with `0 <= r < m`. */
  lemma DivModUnique(x: int, m: int, q: int, r: int)
    requires m > 0 && 0 <= r < m && x == m * q + r
    ensures x / m == q && x % m == r
  {
    var q', r' := x / m, x % m;
    assert m * q + r == m * q' + r';
    if q < q' {
      assert m * (q' - q) == r - r';
      MulMonotone(m, 1, q' - q);
    } else if q > q' {
      assert m * (q - q') == r' - r;
      MulMonotone(m, 1, q - q');
    }
  }

  /** Reducing twice is reducing once. */
  lemma ModMod(u: int, m: int)
    requires m > 0
    ensures Mod(u, m) % m == u % m
  {
    DivModUnique(Mod(u, m), m, 0, Mod(u, m));
  }

  /** `Mod(x, m)` differs from `x` by a multiple of `m`. */
  lemma ModCongruent(x: int, m: int)
    ensures m > 0 ==> Divides(m, Mod(x, m) - x)
  {
    if m > 0 {
      var q := x / m;
      assert x == m * q + Mod(x, m);
      assert Mod(x, m) - x == m * (-q);
      DividesByMultiple(m, -q);
    }
  }

  /** Congruence modulo `m > 0` is divisibility of the difference. */
  lemma CongruentIffDivides(x: int, y: int, m: int)
    requires m > 0
    ensures x % m == y % m <==> Divides(m, x - y)
  {
    var qx, rx := x / m, x % m;
    var qy, ry := y / m, y % m;
    assert x - y == m * (qx - qy) + (rx - ry);
    if rx == ry {
      DividesByMultiple(m, qx - qy);
    }
    if Divides(m, x - y) {
      var k := (x - y) / m;
      assert x - y == m * k;
      assert x == y + m * k;
      ModShift(y, k, m);
    }
  }
}
