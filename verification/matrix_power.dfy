/**
 * Modular vector and matrix products and fast matrix exponentiation
 * (Lab4/task4.10/linearrecurrence.cc).  Every product accumulates its terms
 * one at a time, reducing with `Mod` after each addition; the exact integer
 * sums and matrix powers below are the reference the reductions are compared
 * against.
 */
module MatrixPower {
  import opened CArith

  type Matrix = seq<seq<int>>

  /** `x` has `r` rows of `c` entries each. */
  predicate IsMatrix(x: Matrix, r: int, c: int)
  {
    |x| == r && forall i :: 0 <= i < |x| ==> |x[i]| == c
  }

  /** The entry at row `i`, column `j`, and 0 outside the matrix. */
  function At(x: Matrix, i: int, j: int): int
  {
    if 0 <= i < |x| && 0 <= j < |x[i]| then x[i][j] else 0
  }

  /** The exact sum `f(0) + ... + f(n - 1)`. */
  function Sum(n: int, f: int -> int): int
    decreases n
  {
    if n <= 0 then 0 else Sum(n - 1, f) + f(n - 1)
  }

  /** The terms of the dot product of `a` and `b`. */
  function DotTerm(a: seq<int>, b: seq<int>): int -> int
  {
    k => (if 0 <= k < |a| then a[k] else 0) * (if 0 <= k < |b| then b[k] else 0)
  }

  /** The terms of entry `(i, j)` of the product `x * y`. */
  function ProductTerm(x: Matrix, y: Matrix, i: int, j: int): int -> int
  {
    k => At(x, i, k) * At(y, k, j)
  }

  /**
   * The sources' accumulation loop: start at 0 and replace the running value
   * by `Mod(value + f(k), m)` for `k = 0 .. n - 1`.  It ends at the reduced
   * exact sum.
   */
  function ModSum(f: int -> int, n: int, m: int): (r: int)
    ensures r == Mod(Sum(n, f), m)
    decreases n
  {
    if n <= 0 then 0
    else
      ModAddStep(ModSum(f, n - 1, m), Sum(n - 1, f), f(n - 1), m);
      Mod(ModSum(f, n - 1, m) + f(n - 1), m)
  }

  /** Reducing the running value before adding the next term changes nothing. */
  lemma ModAddStep(acc: int, s: int, x: int, m: int)
    ensures acc == Mod(s, m) ==> Mod(acc + x, m) == Mod(s + x, m)
  {
    if m > 0 && acc == Mod(s, m) {
      assert s == m * (s / m) + acc;
      ModShift(acc + x, s / m, m);
    }
  }

  /** The dot product of two vectors, reduced modulo `m` (0 when `m <= 0`). */
  function VectorProduct(a: seq<int>, b: seq<int>, m: int): (r: int)
    requires |a| <= |b|
    ensures m > 0 ==> 0 <= r < m && r == Sum(|a|, DotTerm(a, b)) % m
    ensures m <= 0 ==> r == 0
  {
    ModSum(DotTerm(a, b), |a|, m)
  }

  /** A matrix with `|b|` columns times the vector `b`: one reduced dot product per row. */
  function MatrixVectorProduct(x: Matrix, b: seq<int>, m: int): (r: seq<int>)
    requires IsMatrix(x, |x|, |b|)
    ensures |r| == |x|
    ensures forall i :: 0 <= i < |x| ==> r[i] == Mod(Sum(|b|, DotTerm(x[i], b)), m)
  {
    seq(|x|, i requires 0 <= i < |x| => VectorProduct(x[i], b, m))
  }

  /**
   * The product of an `r x p` matrix and a `p x q` matrix, each entry reduced
   * modulo `m`.  The source reads the first row of both, so neither may be
   * empty.
   */
  function MatrixProduct(x: Matrix, y: Matrix, m: int): (r: Matrix)
    requires |x| > 0 && |y| > 0 && IsMatrix(x, |x|, |y|) && IsMatrix(y, |y|, |y[0]|)
    ensures IsMatrix(r, |x|, |y[0]|)
    ensures forall i, j :: 0 <= i < |x| && 0 <= j < |y[0]| ==>
              r[i][j] == Mod(Sum(|y|, ProductTerm(x, y, i, j)), m)
  {
    seq(|x|, i requires 0 <= i < |x| =>
      seq(|y[0]|, j => ModSum(ProductTerm(x, y, i, j), |x[0]|, m)))
  }

  function Identity(n: nat): (r: Matrix)
    ensures IsMatrix(r, n, n)
    ensures forall i, j :: 0 <= i < n && 0 <= j < n ==> r[i][j] == if i == j then 1 else 0
  {
    seq(n, i => seq(n, j => if i == j then 1 else 0))
  }

  /** Every entry reduced with `Mod`. */
  function ModMatrix(x: Matrix, m: int): (r: Matrix)
    ensures |r| == |x| && forall i :: 0 <= i < |x| ==> |r[i]| == |x[i]|
    ensures forall i, j :: 0 <= i < |x| && 0 <= j < |x[i]| ==> r[i][j] == Mod(x[i][j], m)
  {
    seq(|x|, i requires 0 <= i < |x| => seq(|x[i]|, j requires 0 <= j < |x[i]| => Mod(x[i][j], m)))
  }

  /**
   * `a` to the power `e`, modulo `m`, by repeated squaring with C++'s
   * truncating `/` and `%` on the exponent.  Exponent 0 gives the identity
   * unreduced; the products need a non-empty matrix.
   */
  function Pow(a: Matrix, e: int, m: int): (r: Matrix)
    requires IsMatrix(a, |a|, |a|) && (|a| > 0 || e == 0 || e == 1)
    ensures IsMatrix(r, |a|, |a|)
    decreases Abs(e)
  {
    if e == 0 then Identity(|a|)
    else if e == 1 then ModMatrix(a, m)
    else
      var half := Pow(a, TruncDiv(e, 2), m);
      var square := MatrixProduct(half, half, m);
      if TruncRem(e, 2) == 1 then MatrixProduct(square, a, m) else square
  }

  // ---------------------------------------------------------------------
  // Exact matrix algebra: the reference `Pow` is compared against.
  // ---------------------------------------------------------------------

  /** The exact product of two `n x n` matrices. */
  ghost function Product(x: Matrix, y: Matrix, n: nat): (r: Matrix)
    ensures IsMatrix(r, n, n)
  {
    seq(n, i => seq(n, j => Sum(n, ProductTerm(x, y, i, j))))
  }

  /** The exact power `a^e`: the identity, then one more factor `a` on the right per step. */
  ghost function Power(a: Matrix, e: nat): (r: Matrix)
    ensures IsMatrix(r, |a|, |a|)
  {
    if e == 0 then Identity(|a|) else Product(Power(a, e - 1), a, |a|)
  }

  lemma {:induction false} SumExt(n: int, f: int -> int, g: int -> int)
    requires forall k :: 0 <= k < n ==> f(k) == g(k)
    ensures Sum(n, f) == Sum(n, g)
    decreases n
  {
    if n > 0 {
      SumExt(n - 1, f, g);
    }
  }

  lemma {:induction false} SumAdd(n: int, f: int -> int, g: int -> int, h: int -> int)
    requires forall k :: 0 <= k < n ==> h(k) == f(k) + g(k)
    ensures Sum(n, h) == Sum(n, f) + Sum(n, g)
    decreases n
  {
    if n > 0 {
      SumAdd(n - 1, f, g, h);
    }
  }

  lemma {:induction false} SumScale(n: int, f: int -> int, c: int, g: int -> int)
    requires forall k :: 0 <= k < n ==> g(k) == c * f(k)
    ensures Sum(n, g) == c * Sum(n, f)
    decreases n
  {
    if n > 0 {
      SumScale(n - 1, f, c, g);
      assert c * Sum(n, f) == c * Sum(n - 1, f) + c * f(n - 1);
    }
  }

  /** A sum whose terms vanish except at `j` is its `j`-th term. */
  lemma {:induction false} SumSingle(n: int, f: int -> int, j: int)
    requires 0 <= j < n && forall k :: 0 <= k < n && k != j ==> f(k) == 0
    ensures Sum(n, f) == f(j)
    decreases n
  {
    if n - 1 > j {
      SumSingle(n - 1, f, j);
    } else {
      SumZero(n - 1, f);
    }
  }

  lemma {:induction false} SumZero(n: int, f: int -> int)
    requires forall k :: 0 <= k < n ==> f(k) == 0
    ensures Sum(n, f) == 0
    decreases n
  {
    if n > 0 {
      SumZero(n - 1, f);
    }
  }

  function Fix1(h: (int, int) -> int, k: int): int -> int
  {
    l => h(k, l)
  }

  function Fix2(h: (int, int) -> int, l: int): int -> int
  {
    k => h(k, l)
  }

  function RowSums(h: (int, int) -> int, q: int): int -> int
  {
    k => Sum(q, Fix1(h, k))
  }

  function ColumnSums(h: (int, int) -> int, p: int): int -> int
  {
    l => Sum(p, Fix2(h, l))
  }

  /** A double sum may be taken in either order. */
  lemma {:induction false} SumSwap(p: int, q: int, h: (int, int) -> int)
    ensures Sum(p, RowSums(h, q)) == Sum(q, ColumnSums(h, p))
    decreases p
  {
    if p <= 0 {
      SumZero(q, ColumnSums(h, p));
    } else {
      SumSwap(p - 1, q, h);
      SumAdd(q, ColumnSums(h, p - 1), Fix1(h, p - 1), ColumnSums(h, p));
    }
  }

  /** Exact matrix multiplication is associative. */
  lemma ProductAssociative(x: Matrix, y: Matrix, z: Matrix, n: nat)
    requires IsMatrix(x, n, n) && IsMatrix(y, n, n) && IsMatrix(z, n, n)
    ensures Product(Product(x, y, n), z, n) == Product(x, Product(y, z, n), n)
  {
    var p, q := Product(x, y, n), Product(y, z, n);
    var left, right := Product(p, z, n), Product(x, q, n);
    forall i, j | 0 <= i < n && 0 <= j < n
      ensures left[i][j] == right[i][j]
    {
      AssociativeEntry(x, y, z, n, i, j);
    }
    MatrixExt(left, right, n, n);
  }

  lemma AssociativeEntry(x: Matrix, y: Matrix, z: Matrix, n: nat, i: int, j: int)
    requires IsMatrix(x, n, n) && IsMatrix(y, n, n) && IsMatrix(z, n, n) && 0 <= i < n && 0 <= j < n
    ensures Product(Product(x, y, n), z, n)[i][j] == Product(x, Product(y, z, n), n)[i][j]
  {
    var p, q := Product(x, y, n), Product(y, z, n);
    var h := (k: int, l: int) => At(x, i, k) * At(y, k, l) * At(z, l, j);
    forall l | 0 <= l < n
      ensures ProductTerm(p, z, i, j)(l) == ColumnSums(h, n)(l)
    {
      SumScale(n, ProductTerm(x, y, i, l), At(z, l, j), Fix2(h, l));
    }
    SumExt(n, ProductTerm(p, z, i, j), ColumnSums(h, n));
    forall k | 0 <= k < n
      ensures ProductTerm(x, q, i, j)(k) == RowSums(h, n)(k)
    {
      SumScale(n, ProductTerm(y, z, k, j), At(x, i, k), Fix1(h, k));
    }
    SumExt(n, ProductTerm(x, q, i, j), RowSums(h, n));
    SumSwap(n, n, h);
  }

  /** Two matrices of the same shape with the same entries are equal. */
  lemma MatrixExt(x: Matrix, y: Matrix, r: int, c: int)
    requires IsMatrix(x, r, c) && IsMatrix(y, r, c)
    requires forall i, j :: 0 <= i < r && 0 <= j < c ==> x[i][j] == y[i][j]
    ensures x == y
  {
    forall i | 0 <= i < r
      ensures x[i] == y[i]
    {
    }
  }

  /** The identity is a right unit. */
  lemma ProductIdentity(x: Matrix, n: nat)
    requires IsMatrix(x, n, n)
    ensures Product(x, Identity(n), n) == x
  {
    var r := Product(x, Identity(n), n);
    forall i, j | 0 <= i < n && 0 <= j < n
      ensures r[i][j] == x[i][j]
    {
      SumSingle(n, ProductTerm(x, Identity(n), i, j), j);
    }
    MatrixExt(r, x, n, n);
  }

  /** Powers add: `a^(s + t) == a^s * a^t`. */
  lemma {:induction false} PowerAdd(a: Matrix, s: nat, t: nat)
    requires IsMatrix(a, |a|, |a|)
    ensures Power(a, s + t) == Product(Power(a, s), Power(a, t), |a|)
    decreases t
  {
    if t == 0 {
      ProductIdentity(Power(a, s), |a|);
    } else {
      PowerAdd(a, s, t - 1);
      ProductAssociative(Power(a, s), Power(a, t - 1), a, |a|);
    }
  }

  /** Products of congruent factors are congruent. */
  lemma MulCongruent(a: int, a': int, b: int, b': int, m: int)
    requires m > 0 && a % m == a' % m && b % m == b' % m
    ensures (a * b) % m == (a' * b') % m
  {
    CongruentIffDivides(a, a', m);
    CongruentIffDivides(b, b', m);
    DividesCombination(m, a - a', b - b', b, a');
    assert (a - a') * b + (b - b') * a' == a * b - a' * b';
    CongruentIffDivides(a * b, a' * b', m);
  }

  /** Sums of termwise congruent terms are congruent. */
  lemma {:induction false} SumCongruent(n: int, f: int -> int, g: int -> int, m: int)
    requires m > 0 && forall k :: 0 <= k < n ==> f(k) % m == g(k) % m
    ensures Sum(n, f) % m == Sum(n, g) % m
    decreases n
  {
    if n > 0 {
      SumCongruent(n - 1, f, g, m);
      CongruentIffDivides(Sum(n - 1, f), Sum(n - 1, g), m);
      CongruentIffDivides(f(n - 1), g(n - 1), m);
      DividesCombination(m, Sum(n - 1, f) - Sum(n - 1, g), f(n - 1) - g(n - 1), 1, 1);
      CongruentIffDivides(Sum(n, f), Sum(n, g), m);
    }
  }

  /**
   * The reduced product of matrices congruent to `x` and `y` is the exact
   * product `x * y`, reduced.
   */
  lemma ReducedProduct(x: Matrix, x': Matrix, y: Matrix, y': Matrix, n: nat, m: int)
    requires n > 0 && IsMatrix(x, n, n) && IsMatrix(x', n, n) && IsMatrix(y, n, n) && IsMatrix(y', n, n)
    requires m > 0
    requires forall i, j :: 0 <= i < n && 0 <= j < n ==> x'[i][j] % m == x[i][j] % m
    requires forall i, j :: 0 <= i < n && 0 <= j < n ==> y'[i][j] % m == y[i][j] % m
    ensures MatrixProduct(x', y', m) == ModMatrix(Product(x, y, n), m)
  {
    var r, s := MatrixProduct(x', y', m), ModMatrix(Product(x, y, n), m);
    forall i, j | 0 <= i < n && 0 <= j < n
      ensures r[i][j] == s[i][j]
    {
      forall k | 0 <= k < n
        ensures ProductTerm(x', y', i, j)(k) % m == ProductTerm(x, y, i, j)(k) % m
      {
        MulCongruent(x'[i][k], x[i][k], y'[k][j], y[k][j], m);
      }
      SumCongruent(n, ProductTerm(x', y', i, j), ProductTerm(x, y, i, j), m);
    }
    MatrixExt(r, s, n, n);
  }

  /** With `m <= 0` every reduced product is the zero matrix. */
  lemma ZeroProduct(x: Matrix, y: Matrix, z: Matrix, n: nat, m: int)
    requires n > 0 && IsMatrix(x, n, n) && IsMatrix(y, n, n) && IsMatrix(z, n, n) && m <= 0
    ensures MatrixProduct(x, y, m) == ModMatrix(z, m)
  {
    MatrixExt(MatrixProduct(x, y, m), ModMatrix(z, m), n, n);
  }

  /** A reduced matrix is congruent to the original. */
  lemma ModMatrixCongruent(x: Matrix, n: nat, m: int)
    requires IsMatrix(x, n, n) && m > 0
    ensures forall i, j :: 0 <= i < n && 0 <= j < n ==> ModMatrix(x, m)[i][j] % m == x[i][j] % m
  {
    forall i, j | 0 <= i < n && 0 <= j < n
      ensures ModMatrix(x, m)[i][j] % m == x[i][j] % m
    {
      ModMod(x[i][j], m);
    }
  }

  /**
   * Repeated squaring computes the power: exponent 0 gives the identity, a
   * positive exponent `e` gives `a^e` reduced modulo `m` (the zero matrix when
   * `m <= 0`), and a negative exponent, whose halving truncates to 0, gives
   * the reduced identity.
   */
  lemma {:induction false} PowIsPower(a: Matrix, e: int, m: int)
    requires IsMatrix(a, |a|, |a|) && (|a| > 0 || e == 0 || e == 1)
    ensures e == 0 ==> Pow(a, e, m) == Identity(|a|)
    ensures e >= 1 ==> Pow(a, e, m) == ModMatrix(Power(a, e), m)
    ensures e < 0 ==> Pow(a, e, m) == ModMatrix(Identity(|a|), m)
    decreases Abs(e)
  {
    var n := |a|;
    if e == 1 {
      ProductIdentity(a, n);
      ProductIdentityLeft(a, n);
    } else if e != 0 {
      var h := TruncDiv(e, 2);
      var half := Pow(a, h, m);
      PowIsPower(a, h, m);
      var square := MatrixProduct(half, half, m);
      if e > 0 {
        TruncAgreesOnNatural(e, 2);
        var ph := Power(a, h);
        PowerAdd(a, h, h);
        if m > 0 {
          ModMatrixCongruent(ph, n, m);
          ReducedProduct(ph, half, ph, half, n, m);
          if TruncRem(e, 2) == 1 {
            ModMatrixCongruent(Power(a, h + h), n, m);
            ModMatrixCongruent(a, n, m);
            ReducedProduct(Power(a, h + h), square, a, a, n, m);
          }
        } else {
          ZeroProduct(half, half, Product(ph, ph, n), n, m);
          if TruncRem(e, 2) == 1 {
            ZeroProduct(square, a, Power(a, e), n, m);
          }
        }
      } else {
        TruncRemBounds(e, 2);
        if m > 0 {
          var id := Identity(n);
          ModMatrixCongruent(id, n, m);
          ReducedProduct(id, half, id, half, n, m);
          ProductIdentity(id, n);
        } else {
          ZeroProduct(half, half, Identity(n), n, m);
        }
      }
    }
  }

  /** The identity is a left unit as well. */
  lemma ProductIdentityLeft(x: Matrix, n: nat)
    requires IsMatrix(x, n, n)
    ensures Product(Identity(n), x, n) == x
  {
    var r := Product(Identity(n), x, n);
    forall i, j | 0 <= i < n && 0 <= j < n
      ensures r[i][j] == x[i][j]
    {
      SumSingle(n, ProductTerm(Identity(n), x, i, j), i);
    }
    MatrixExt(r, x, n, n);
  }
}
