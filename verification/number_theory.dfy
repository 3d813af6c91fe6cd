/**
 * Modular arithmetic on signed integers (`ModularArithmetic` in
 * Lab3/task3.7/generalchineseremainder.cc): the extended Euclidean algorithm
 * with C++ truncating division, modular inverse and division, and the Chinese
 * remainder theorem for coprime and for arbitrary moduli.
 */
module NumberTheory {
  import opened CArith
  import opened Common

  /** `(a + b) mod m`, the least non-negative residue (0 when `m <= 0`). */
  function Add(a: int, b: int, m: int): (r: int)
    ensures m > 0 ==> 0 <= r < m && Divides(m, r - (a + b))
    ensures m <= 0 ==> r == 0
  {
    ModCongruent(a + b, m);
    Mod(a + b, m)
  }

  /** `(a - b) mod m`, the least non-negative residue (0 when `m <= 0`). */
  function Subtract(a: int, b: int, m: int): (r: int)
    ensures m > 0 ==> 0 <= r < m && Divides(m, r - (a - b))
    ensures m <= 0 ==> r == 0
  {
    ModCongruent(a - b, m);
    Mod(a - b, m)
  }

  /** `(a * b) mod m`, the least non-negative residue (0 when `m <= 0`). */
  function Multiply(a: int, b: int, m: int): (r: int)
    ensures m > 0 ==> 0 <= r < m && Divides(m, r - a * b)
    ensures m <= 0 ==> r == 0
  {
    ModCongruent(a * b, m);
    Mod(a * b, m)
  }

  /** The result of the extended Euclidean algorithm: `a * x + b * y == d`. */
  datatype Bezout = Bezout(d: int, x: int, y: int)

  /**
   * Extended Euclid exactly as the source recurses: on `(b, a % b)` with the
   * truncating remainder, so signs follow C++.  `d` divides both arguments and
   * is an integer combination of them, hence every common divisor divides `d`.
   */
  function ExtendedGcd(a: int, b: int): (r: Bezout)
    ensures a * r.x + b * r.y == r.d
    ensures Divides(r.d, a) && Divides(r.d, b)
    ensures a >= 0 && b >= 0 ==> r.d >= 0
    decreases Abs(b)
  {
    if b == 0 then
      assert Divides(a, a) by { DividesByMultiple(a, 1); }
      Bezout(a, 1, 0)
    else
      TruncRemBounds(a, b);
      var rest := ExtendedGcd(b, TruncRem(a, b));
      var q := TruncDiv(a, b);
      EuclidStep(a, b, q, TruncRem(a, b), rest.d, rest.x, rest.y);
      Bezout(rest.d, rest.y, rest.x - rest.y * q)
  }

  /** One step of Euclid: a Bezout pair for `(b, r)` yields one for `(a, b)`. */
  lemma EuclidStep(a: int, b: int, q: int, r: int, d: int, x1: int, y1: int)
    requires a == b * q + r
    requires b * x1 + r * y1 == d && Divides(d, b) && Divides(d, r)
    ensures a * y1 + b * (x1 - y1 * q) == d && Divides(d, a)
  {
    DividesCombination(d, b, r, q, 1);
    assert r * y1 == a * y1 - b * q * y1;
  }

  /** Every common divisor of `a` and `b` divides the `d` of `ExtendedGcd(a, b)`. */
  lemma GcdIsGreatest(a: int, b: int, c: int)
    requires Divides(c, a) && Divides(c, b)
    ensures Divides(c, ExtendedGcd(a, b).d)
  {
    var r := ExtendedGcd(a, b);
    DividesCombination(c, a, b, r.x, r.y);
  }

  /** `v` is an inverse of `a` modulo `m > 0`. */
  /** The algebra behind `InverseFromBezout`. */
  lemma BezoutShift(a: int, m: int, x: int, y: int, t: int, v: int)
    requires a * x + m * y == 1 && x == m * t + v
    ensures a * v - 1 == m * (-y - a * t)
  {
    calc {
      a * v - 1;
      a * (x - m * t) - 1;
      a * x - a * (m * t) - 1;
      { MulAssoc(a, m, t); MulComm(a, m); MulAssoc(m, a, t); }
      a * x - m * (a * t) - 1;
      -m * y - m * (a * t);
    }
  }

  predicate IsInverse(a: int, v: int, m: int)
    requires m > 0
  {
    (a * v) % m == 1 % m
  }

  /** `n` and `m` have no common positive divisor but 1. */
  ghost predicate Coprime(n: int, m: int)
  {
    forall c :: c > 0 && Divides(c, n) && Divides(c, m) ==> c == 1
  }

  /**
   * An inverse exists when the gcd is 1, and conversely for non-negative `a`;
   * the returned inverse is reduced into `[0, m)`.
   */
  function ModularInverse(a: int, m: int): (r: Option<int>)
    ensures r.Some? && m > 0 ==> 0 <= r.value < m && IsInverse(a, r.value, m)
    ensures r.Some? && m <= 0 ==> r.value == 0
    ensures r.None? && a >= 0 && m > 0 ==> forall v :: !IsInverse(a, v, m)
  {
    var e := ExtendedGcd(a, m);
    if e.d == 1 then
      InverseFromBezout(a, m, e.x, e.y);
      Some(Mod(e.x, m))
    else
      NoInverseUnlessGcdOne(a, m);
      None
  }

  lemma InverseFromBezout(a: int, m: int, x: int, y: int)
    requires a * x + m * y == 1
    ensures m > 0 ==> IsInverse(a, Mod(x, m), m)
  {
    if m > 0 {
      var v := Mod(x, m);
      var t := x / m;
      assert x == m * t + v;
      BezoutShift(a, m, x, y, t, v);
      DividesByMultiple(m, -y - a * t);
      CongruentIffDivides(a * v, 1, m);
    }
  }

  lemma NoInverseUnlessGcdOne(a: int, m: int)
    requires ExtendedGcd(a, m).d != 1
    ensures a >= 0 && m > 0 ==> forall v :: !IsInverse(a, v, m)
  {
    if a >= 0 && m > 0 {
      NoInverseWhenGcdNotOne(a, m);
    }
  }

  lemma NoInverseWhenGcdNotOne(a: int, m: int)
    requires a >= 0 && m > 0 && ExtendedGcd(a, m).d != 1
    ensures forall v :: !IsInverse(a, v, m)
  {
    var d := ExtendedGcd(a, m).d;
    assert d > 0;
    forall v | IsInverse(a, v, m)
      ensures false
    {
      CongruentIffDivides(a * v, 1, m);
      DividesWitness(m, a * v - 1);
      var k := (a * v - 1) / m;
      MulSigns(m, k);
      assert a * v + m * (-k) == 1;
      DividesCombination(d, a, m, v, -k);
      DivisorBound(d, 1);
    }
  }

  /**
   * `a / b (mod m)`: `a` times the inverse of `b`, or -1 when `b` has no inverse.
   * A result other than -1 is a residue `r` with `b * r == a (mod m)`.
   */
  function Divide(a: int, b: int, m: int): (r: int)
    ensures r != -1 && m > 0 ==> 0 <= r < m && (b * r) % m == a % m
    ensures r == -1 && b >= 0 && m > 0 ==> forall v :: !IsInverse(b, v, m)
    ensures m > 0 && (forall v :: !IsInverse(b, v, m)) ==> r == -1
  {
    var inv := ModularInverse(b, m);
    if inv.None? then -1
    else
      QuotientProperty(a, b, inv.value, m);
      Mod(a * inv.value, m)
  }

  /**
   * For a negative divisor the gcd comes out negative, so -1 is returned even
   * when an inverse exists: 2 is an inverse of -1 modulo 3.
   */
  lemma NegativeDivisorRejected()
    ensures IsInverse(-1, 2, 3) && Divide(1, -1, 3) == -1
  {
    MinusOneInvertible();
    MinusOneGcd();
    DivideWithoutInverse(1, -1, 3);
  }

  lemma MinusOneInvertible()
    ensures IsInverse(-1, 2, 3)
  {
    DivModUnique(-1 * 2, 3, -1, 1);
    DivModUnique(1, 3, 0, 1);
  }

  /** Euclid on `(-1, 3)` ends at `(-1, 0)`, so the gcd comes out as -1. */
  lemma MinusOneGcd()
    ensures ExtendedGcd(-1, 3).d == -1
  {
    MinusOneRems();
    GcdStep(-1, 3);
    GcdStep(3, -1);
    MinusOneBase();
  }

  lemma MinusOneRems()
    ensures TruncRem(-1, 3) == -1 && TruncRem(3, -1) == 0
  {
  }

  lemma MinusOneBase()
    ensures ExtendedGcd(-1, 0).d == -1
  {
  }

  /** A gcd other than 1 makes `Divide` answer -1. */
  lemma DivideWithoutInverse(a: int, b: int, m: int)
    requires ExtendedGcd(b, m).d != 1
    ensures Divide(a, b, m) == -1
  {
    assert ModularInverse(b, m).None?;
  }

  /** One unfolding of `ExtendedGcd`: the gcd of `(a, b)` is that of `(b, a % b)`. */
  lemma GcdStep(a: int, b: int)
    requires b != 0
    ensures ExtendedGcd(a, b).d == ExtendedGcd(b, TruncRem(a, b)).d
  {
  }

  lemma QuotientProperty(a: int, b: int, inv: int, m: int)
    requires m > 0 ==> IsInverse(b, inv, m)
    ensures m > 0 ==> (b * Mod(a * inv, m)) % m == a % m
  {
    if m > 0 {
      QuotientCongruence(a, b, inv, m);
    }
  }

  lemma QuotientCongruence(a: int, b: int, inv: int, m: int)
    requires m > 0 && IsInverse(b, inv, m)
    ensures (b * Mod(a * inv, m)) % m == a % m
  {
    var r := Mod(a * inv, m);
    var t := (a * inv) / m;
    assert a * inv == m * t + r;
    CongruentIffDivides(b * inv, 1, m);
    DividesWitness(m, b * inv - 1);
    var k := (b * inv - 1) / m;
    QuotientIdentity(a, b, inv, m, r, t, k);
    DividesByMultiple(m, a * k - b * t);
    CongruentIffDivides(b * r, a, m);
  }

  /** The algebra behind `QuotientCongruence`. */
  lemma QuotientIdentity(a: int, b: int, inv: int, m: int, r: int, t: int, k: int)
    requires a * inv == m * t + r && b * inv - 1 == m * k
    ensures b * r - a == m * (a * k - b * t)
  {
    calc {
      b * r;
      b * (a * inv - m * t);
      b * (a * inv) - b * (m * t);
      { MulAssoc(b, a, inv); MulComm(b, a); MulAssoc(a, b, inv); }
      a * (b * inv) - b * (m * t);
      a * (1 + m * k) - b * (m * t);
      { MulAssoc(a, m, k); MulComm(a, m); MulAssoc(m, a, k); MulAssoc(b, m, t); MulComm(b, m); MulAssoc(m, b, t); }
      a + m * (a * k) - m * (b * t);
    }
  }

  /** `x` solves the system `x == a (mod n)`, `x == b (mod m)`. */
  predicate Solves(x: int, a: int, n: int, b: int, m: int)
    requires n > 0 && m > 0
  {
    x % n == a % n && x % m == b % m
  }

  /** Congruence modulo a multiple of `n` implies congruence modulo `n`. */
  lemma CongruentModFactor(x: int, y: int, n: int, k: int)
    requires n > 0 && k > 0 && Divides(n, k) && x % k == y % k
    ensures x % n == y % n
  {
    CongruentIffDivides(x, y, k);
    DividesTransitive(n, k, x - y);
    CongruentIffDivides(x, y, n);
  }

  lemma TruncDivExact(d: int, t: int)
    requires d != 0
    ensures TruncDiv(d * t, d) == t
  {
    MulSign(d, t);
    var ad: int, at: int := Abs(d), Abs(t);
    DivModUnique(Abs(d * t), ad, at, 0);
  }

  /** For positive moduli the gcd returned by `ExtendedGcd` is positive. */
  lemma GcdPositive(n: int, m: int)
    requires n > 0 && m > 0
    ensures ExtendedGcd(n, m).d > 0
  {
  }

  lemma CoprimeGcdIsOne(n: int, m: int)
    requires n > 0 && m > 0 && Coprime(n, m)
    ensures ExtendedGcd(n, m).d == 1
  {
    GcdPositive(n, m);
  }

  /**
   * The coprime case: the unique solution in `[0, n * m)` of the system
   * `x == a (mod n)`, `x == b (mod m)`.
   */
  function ChineseRemainder(a: int, n: int, b: int, m: int): (r: int)
    requires n > 0 && m > 0 && Coprime(n, m)
    ensures 0 <= r < n * m
    ensures Solves(r, a, n, b, m)
  {
    var e := ExtendedGcd(n, m);
    var k0 := Mod((b - a) * e.x, m);
    var x := k0 * n + a;
    CoprimeGcdIsOne(n, m);
    ModMod((b - a) * e.x, m);
    CrtCandidate(a, n, b, m, e.x, e.y, 1, b - a, k0);
    ProductFacts(n, m);
    ReduceSolution(x, a, n, b, m, n * m);
    Mod(x, n * m)
  }

  lemma ProductFacts(n: int, m: int)
    requires n > 0 && m > 0
    ensures n * m > 0 && Divides(n, n * m) && Divides(m, n * m)
  {
    MulMonotone(n, 1, m);
    DividesByMultiple(n, m);
    DividesByMultiple(m, n);
  }

  /**
   * The candidate `k0 * n + a` of both Chinese remainder functions solves the
   * system whenever `k0 == e * x (mod m)` for the Bezout pair of `n, m` and
   * `b - a == d * e`.
   */
  lemma CrtCandidate(a: int, n: int, b: int, m: int, x: int, y: int, d: int, e: int, k0: int)
    requires n > 0 && m > 0
    requires n * x + m * y == d && b - a == d * e
    requires k0 % m == (e * x) % m
    ensures Solves(k0 * n + a, a, n, b, m)
  {
    var s := k0 * n + a;
    assert s == a + n * k0;
    ModShift(a, k0, n);
    CongruentIffDivides(k0, e * x, m);
    var t := (k0 - e * x) / m;
    assert k0 == e * x + m * t;
    CrtIdentity(a, n, b, m, x, y, d, e, k0, t);
    DividesByMultiple(m, n * t - e * y);
    CongruentIffDivides(s, b, m);
  }

  lemma CrtIdentity(a: int, n: int, b: int, m: int, x: int, y: int, d: int, e: int, k0: int, t: int)
    requires n * x + m * y == d && b - a == d * e && k0 == e * x + m * t
    ensures k0 * n + a - b == m * (n * t - e * y)
  {
    assert k0 * n == e * (n * x) + m * (n * t);
    assert e * (n * x) == e * d - m * (e * y);
  }

  /** Reducing a solution modulo a common multiple of the moduli keeps it a solution. */
  lemma ReduceSolution(x: int, a: int, n: int, b: int, m: int, k: int)
    requires n > 0 && m > 0 && k > 0 && Divides(n, k) && Divides(m, k)
    requires Solves(x, a, n, b, m)
    ensures Solves(Mod(x, k), a, n, b, m)
  {
    assert Mod(x, k) % k == x % k by { DivModUnique(Mod(x, k), k, 0, Mod(x, k)); }
    CongruentModFactor(Mod(x, k), x, n, k);
    CongruentModFactor(Mod(x, k), x, m, k);
  }

  /** The solution of a general system, together with the modulus `K` it is unique modulo. */
  datatype CrtSolution = CrtSolution(x: int, lcm: int)

  /** The source's `K = n * m / d`, computed with C++ division. */
  function Lcm(n: int, m: int): int
    requires n > 0 && m > 0
  {
    GcdPositive(n, m);
    TruncDiv(n * m, ExtendedGcd(n, m).d)
  }

  /**
   * Arbitrary moduli: the system is solvable iff the gcd divides `b - a`; then
   * `x` is the solution in `[0, K)` and `K` is the least common multiple of `n`
   * and `m`, so the solutions are exactly `x` plus multiples of `K`.
   */
  function GeneralChineseRemainder(a: int, n: int, b: int, m: int): (r: Option<CrtSolution>)
    requires n > 0 && m > 0
    ensures r.None? ==> forall y :: !Solves(y, a, n, b, m)
    ensures r.Some? ==> 0 <= r.value.x < r.value.lcm && Solves(r.value.x, a, n, b, m)
    ensures r.Some? ==> Divides(n, r.value.lcm) && Divides(m, r.value.lcm)
    ensures r.Some? ==> forall l :: Divides(n, l) && Divides(m, l) ==> Divides(r.value.lcm, l)
    ensures r.Some? ==> forall y :: Solves(y, a, n, b, m) ==> Divides(r.value.lcm, y - r.value.x)
  {
    var e := ExtendedGcd(n, m);
    var d := e.d;
    GcdPositive(n, m);
    if Mod(b - a, d) != 0 then
      UnsolvableSystem(a, n, b, m);
      None
    else
      var q := (b - a) / d;
      ExactQuotient(b - a, e.x, d);
      var k0 := Mod(TruncDiv((b - a) * e.x, d), m);
      ModMod(q * e.x, m);
      CrtCandidate(a, n, b, m, e.x, e.y, d, q, k0);
      var x := k0 * n + a;
      var K := Lcm(n, m);
      LcmIsCommonMultiple(n, m);
      ReduceSolution(x, a, n, b, m, K);
      var res := CrtSolution(Mod(x, K), K);
      forall l | Divides(n, l) && Divides(m, l)
        ensures Divides(K, l)
      {
        LcmDividesCommonMultiple(n, m, l);
      }
      forall y | Solves(y, a, n, b, m)
        ensures Divides(K, y - res.x)
      {
        CongruentIffDivides(y, res.x, n);
        CongruentIffDivides(y, res.x, m);
        LcmDividesCommonMultiple(n, m, y - res.x);
      }
      Some(res)
  }

  /** When `d` divides `u`, the C++ quotient `u * x / d` is exact. */
  lemma ExactQuotient(u: int, x: int, d: int)
    requires d > 0 && u % d == 0
    ensures u == d * (u / d)
    ensures TruncDiv(u * x, d) == (u / d) * x
  {
    var q := u / d;
    assert u * x == d * (q * x);
    TruncDivExact(d, q * x);
  }

  /** `Lcm(n, m)` is positive and a multiple of both moduli. */
  lemma LcmIsCommonMultiple(n: int, m: int)
    requires n > 0 && m > 0
    ensures Lcm(n, m) > 0 && Divides(n, Lcm(n, m)) && Divides(m, Lcm(n, m))
  {
    var d := ExtendedGcd(n, m).d;
    GcdPositive(n, m);
    var nd, md := n / d, m / d;
    DividesWitness(d, n);
    DividesWitness(d, m);
    var l := nd * m;
    MulAssoc(d, nd, m);
    assert n * m == d * l;
    TruncDivExact(d, l);
    assert Lcm(n, m) == l;
    PositiveFactor(d, nd);
    MulMonotone(nd, 1, m);
    DividesByMultiple(m, nd);
    MulComm(m, nd);
    MulAssoc(nd, d, md);
    MulComm(nd, d);
    assert l == n * md;
    DividesByMultiple(n, md);
  }

  lemma DividesDifference(d: int, u: int, v: int)
    requires Divides(d, u) && Divides(d, v)
    ensures Divides(d, u - v)
  {
    DividesCombination(d, u, v, 1, -1);
  }

  /** If the gcd does not divide `b - a`, no integer solves the system. */
  lemma UnsolvableSystem(a: int, n: int, b: int, m: int)
    requires n > 0 && m > 0 && ExtendedGcd(n, m).d > 0 && Mod(b - a, ExtendedGcd(n, m).d) != 0
    ensures forall y :: !Solves(y, a, n, b, m)
  {
    var d := ExtendedGcd(n, m).d;
    forall y | Solves(y, a, n, b, m)
      ensures false
    {
      CongruentIffDivides(y, a, n);
      CongruentIffDivides(y, b, m);
      DividesTransitive(d, n, y - a);
      DividesTransitive(d, m, y - b);
      DividesDifference(d, y - a, y - b);
    }
  }

  /** `Lcm(n, m)` divides every common multiple of `n` and `m`. */
  lemma LcmDividesCommonMultiple(n: int, m: int, l: int)
    requires n > 0 && m > 0 && Divides(n, l) && Divides(m, l)
    ensures Divides(Lcm(n, m), l)
  {
    var e := ExtendedGcd(n, m);
    var d := e.d;
    GcdPositive(n, m);
    DividesWitness(d, n);
    var nd := n / d;
    var K := nd * m;
    MulAssoc(d, nd, m);
    assert n * m == d * K;
    TruncDivExact(d, K);
    assert Lcm(n, m) == K;
    DividesWitness(n, l);
    DividesWitness(m, l);
    var p, q := l / n, l / m;
    var c := q * e.x + p * e.y;
    BezoutScale(n, m, e.x, e.y, d, l, p, q);
    MulAssoc(d, K, c);
    MulCancel(d, l, K * c);
    DividesByMultiple(K, c);
  }

  /** Bezout scaled by a common multiple: `d * l == n * m * (q * x + p * y)`. */
  lemma BezoutScale(n: int, m: int, x: int, y: int, d: int, l: int, p: int, q: int)
    requires n * x + m * y == d && l == n * p && l == m * q
    ensures d * l == (n * m) * (q * x + p * y)
  {
    assert d * l == (n * x) * l + (m * y) * l;
    assert (n * x) * l == (n * m) * (q * x) by {
      assert (n * x) * l == (n * x) * (m * q);
    }
    assert (m * y) * l == (n * m) * (p * y) by {
      assert (m * y) * l == (m * y) * (n * p);
    }
  }

  lemma MulCancel(d: int, x: int, y: int)
    requires d != 0 && d * x == d * y
    ensures x == y
  {
    if x != y {
      assert d * (x - y) == 0;
      MulAbsGrows(d, x - y);
    }
  }
}
