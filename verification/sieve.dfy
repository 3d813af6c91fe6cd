/**
 * The sieve of Eratosthenes (Lab3/task3.8/primesieve.cc): a table answering
 * "is `v` prime?" for every `0 <= v <= n`, and the number of primes up to `n`.
 */
module Sieve {
  import opened CArith

  /** `v` is a prime number. */
  ghost predicate IsPrimeNumber(v: int)
  {
    v >= 2 && forall d :: 2 <= d < v ==> !Divides(d, v)
  }

  /** No `d` with `2 <= d < b` and `d * d <= v` divides `v`. */
  ghost predicate NoFactorBelow(v: int, b: int)
  {
    forall d :: 2 <= d < b && d * d <= v ==> !Divides(d, v)
  }

  /** Reference count: the primes in `0..x`. */
  ghost function PrimeCount(x: int): nat
    decreases x
  {
    if x < 2 then 0 else PrimeCount(x - 1) + (if IsPrimeNumber(x) then 1 else 0)
  }

  /** The sieve's state: the number of primes found and the primality table. */
  datatype PrimeSieve = PrimeSieve(count: int, isPrime: seq<bool>)

  /** A table for `0..|isPrime| - 1` that is right everywhere, with the matching count. */
  ghost predicate Valid(s: PrimeSieve)
  {
    |s.isPrime| >= 2 &&
    (forall v :: 0 <= v < |s.isPrime| ==> (s.isPrime[v] <==> IsPrimeNumber(v))) &&
    s.count == PrimeCount(|s.isPrime| - 1)
  }

  /** A composite number has a factor no larger than its square root. */
  lemma SmallFactor(v: int, d: int)
    requires 2 <= d < v && Divides(d, v)
    ensures exists e :: 2 <= e && e * e <= v && Divides(e, v)
  {
    if d * d > v {
      var q := v / d;
      assert v == d * q;
      PositiveFactor(d, v);
      assert q < d by {
        if q >= d { MulMonotone(d, d, q); }
      }
      assert q >= 2;
      MulMonotone(q, q, d);
      assert q * d == v;
      DividesByMultiple(q, d);
      assert Divides(q, v);
    }
  }

  /** Trial division up to the square root decides primality. */
  lemma TrialDivision(v: int, b: int)
    requires v >= 2 && b * b > v && b >= 0
    ensures NoFactorBelow(v, b) <==> IsPrimeNumber(v)
  {
    if NoFactorBelow(v, b) && !IsPrimeNumber(v) {
      var d :| 2 <= d < v && Divides(d, v);
      SmallFactor(v, d);
      var e :| 2 <= e && e * e <= v && Divides(e, v);
      if e >= b {
        MulMonotone(e, b, e);
        MulMonotone(b, b, e);
      }
    }
    if IsPrimeNumber(v) {
      forall d | 2 <= d < b && d * d <= v
        ensures !Divides(d, v)
      {
        MulMonotone(d, 1, d);
      }
    }
  }

  /** Two multiples of `i` less than `i` apart are equal. */
  lemma MultipleGap(i: int, j: int, v: int)
    requires i > 0 && Divides(i, j) && Divides(i, v) && j <= v < j + i
    ensures v == j
  {
    var a, b := j / i, v / i;
    assert j == i * a && v == i * b;
    if b > a {
      MulMonotone(i, a + 1, b);
    } else if b < a {
      MulMonotone(i, b, a - 1);
    }
  }

  /**
   * Skipping a composite `i` loses nothing: its multiples from `i * i` on are
   * already crossed out by one of its own small factors.
   */
  lemma CompositeStep(i: int, v: int)
    requires i >= 2 && !NoFactorBelow(i, i) && NoFactorBelow(v, i)
    ensures NoFactorBelow(v, i + 1)
  {
    if Divides(i, v) && i * i <= v {
      var d :| 2 <= d < i && d * d <= i && Divides(d, i);
      DividesTransitive(d, i, v);
      MulMonotone(i, 1, i);
    }
  }

  /** Crossing out the multiples of a prime `i` from `i * i` extends the sieve to `i + 1`. */
  lemma PrimeStep(i: int, v: int)
    requires i >= 2
    ensures NoFactorBelow(v, i + 1) <==> NoFactorBelow(v, i) && !(Divides(i, v) && i * i <= v)
  {
  }

  /**
   * Crossing out the multiples of a prime `i` from `i * i` on: a table that
   * marks the numbers with no factor below `i` then marks those with no
   * factor up to `i`.
   */
  method CrossOut(isPrime: seq<bool>, i: int, n: int) returns (r: seq<bool>)
    requires 2 <= i && i * i <= n && |isPrime| == n + 1
    requires forall v :: 0 <= v <= n ==> (isPrime[v] <==> v >= 2 && NoFactorBelow(v, i))
    ensures |r| == n + 1
    ensures forall v :: 0 <= v <= n ==> (r[v] <==> v >= 2 && NoFactorBelow(v, i + 1))
  {
    r := isPrime;
    var j := i * i;
    DividesByMultiple(i, i);
    while j <= n
      invariant i * i <= j && Divides(i, j) && |r| == n + 1
      invariant forall v :: 0 <= v <= n ==>
                  (r[v] <==> v >= 2 && NoFactorBelow(v, i) && !(Divides(i, v) && i * i <= v < j))
    {
      forall v | 0 <= v <= n && Divides(i, v) && j <= v < j + i
        ensures v == j
      {
        MultipleGap(i, j, v);
      }
      r := r[j := false];
      DividesCombination(i, j, i, 1, 1);
      j := j + i;
    }
    forall v | 0 <= v <= n
      ensures r[v] <==> v >= 2 && NoFactorBelow(v, i + 1)
    {
      PrimeStep(i, v);
    }
  }

  /**
   * Builds the sieve for `0..n`.  The source writes `is_prime_[1]`, so it
   * needs `n >= 1`.
   */
  method NewPrimeSieve(n: int) returns (s: PrimeSieve)
    requires n >= 1
    ensures Valid(s) && |s.isPrime| == n + 1
  {
    var isPrime := seq(n + 1, _ => true);
    isPrime := isPrime[0 := false][1 := false];
    var count := 0;
    var i := 2;
    while i * i <= n
      invariant 2 <= i <= n + 1 && |isPrime| == n + 1
      invariant forall v :: 0 <= v <= n ==> (isPrime[v] <==> v >= 2 && NoFactorBelow(v, i))
      invariant count == PrimeCount(i - 1)
      decreases n + 1 - i
    {
      isPrime, count := Sift(isPrime, i, n, count);
      i := i + 1;
    }
    forall v | 0 <= v <= n
      ensures isPrime[v] <==> IsPrimeNumber(v)
    {
      if v >= 2 {
        TrialDivision(v, i);
      }
    }
    count := CountRest(isPrime, i, count);
    s := PrimeSieve(count, isPrime);
  }

  /**
   * One round of the outer loop: a prime `i` is counted and its multiples
   * crossed out; a composite `i` changes nothing.
   */
  method Sift(isPrime: seq<bool>, i: int, n: int, count: int) returns (r: seq<bool>, count': int)
    requires 2 <= i && i * i <= n && |isPrime| == n + 1
    requires forall v :: 0 <= v <= n ==> (isPrime[v] <==> v >= 2 && NoFactorBelow(v, i))
    requires count == PrimeCount(i - 1)
    ensures |r| == n + 1 && count' == PrimeCount(i)
    ensures forall v :: 0 <= v <= n ==> (r[v] <==> v >= 2 && NoFactorBelow(v, i + 1))
  {
    TrialDivision(i, i);
    MulMonotone(i, 1, i);
    if isPrime[i] {
      count' := count + 1;
      r := CrossOut(isPrime, i, n);
    } else {
      count' := count;
      r := isPrime;
      forall v | 0 <= v <= n && v >= 2 && NoFactorBelow(v, i)
        ensures NoFactorBelow(v, i + 1)
      {
        CompositeStep(i, v);
      }
    }
  }

  /** The counting loop over the rest of a finished table. */
  method CountRest(isPrime: seq<bool>, i0: int, count0: int) returns (count: int)
    requires 2 <= i0 <= |isPrime| && count0 == PrimeCount(i0 - 1)
    requires forall v :: 0 <= v < |isPrime| ==> (isPrime[v] <==> IsPrimeNumber(v))
    ensures count == PrimeCount(|isPrime| - 1)
  {
    count := count0;
    var i := i0;
    while i < |isPrime|
      invariant 2 <= i <= |isPrime|
      invariant count == PrimeCount(i - 1)
    {
      if isPrime[i] {
        count := count + 1;
      }
      i := i + 1;
    }
  }

  /** Whether `value` is prime; values outside the table are reported as not prime. */
  function IsPrime(s: PrimeSieve, value: int): (b: bool)
    requires Valid(s)
    ensures b <==> 0 <= value < |s.isPrime| && IsPrimeNumber(value)
  {
    if value < 0 || value >= |s.isPrime| then false else s.isPrime[value]
  }

  /** The reference count is the size of the set of primes up to `x`. */
  lemma {:induction false} PrimeCountIsCardinality(x: int)
    ensures PrimeCount(x) == |set v | 0 <= v <= x && IsPrimeNumber(v)|
    decreases x
  {
    var s := set v | 0 <= v <= x && IsPrimeNumber(v);
    if x < 2 {
      assert s == {};
    } else {
      PrimeCountIsCardinality(x - 1);
      var r := set v | 0 <= v <= x - 1 && IsPrimeNumber(v);
      if IsPrimeNumber(x) {
        assert s == r + {x};
      } else {
        assert s == r;
      }
    }
  }
}
