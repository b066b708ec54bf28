/** Divisibility and primality on unbounded naturals: the number theory that the prime search rests on. */
module Primes {
  import opened Arith

  predicate Divides(d: nat, n: nat) {
    d != 0 && n % d == 0
  }

  ghost predicate IsPrime(p: nat) {
    p >= 2 && forall d :: 2 <= d < p ==> !Divides(d, p)
  }

  // No number from 2 up to (not including) bound divides n.
  ghost predicate Untouched(n: nat, bound: nat) {
    forall d :: 2 <= d < bound ==> !Divides(d, n)
  }

  lemma DividesProduct(d: nat, e: nat)
    requires d > 0
    ensures Divides(d, d * e)
  {
    DivModUnique(d * e, d, e, 0);
  }

  lemma DividesTransitive(a: nat, b: nat, c: nat)
    requires Divides(a, b) && Divides(b, c)
    ensures Divides(a, c)
  {
    var x, y := b / a, c / b;
    assert c == a * (x * y) by { assert b == a * x && c == b * y; }
    DividesProduct(a, x * y);
  }

  // Every number from 2 upwards has a prime divisor, found as its least divisor.
  lemma {:induction false} PrimeDivisor(n: nat, from: nat) returns (p: nat)
    requires 2 <= from <= n && Untouched(n, from)
    ensures IsPrime(p) && Divides(p, n) && p <= n
    decreases n - from
  {
    if Divides(from, n) {
      p := from;
      forall d | 2 <= d < p
        ensures !Divides(d, p)
      {
        if Divides(d, p) { DividesTransitive(d, p, n); }
      }
    } else {
      p := PrimeDivisor(n, from + 1);
    }
  }

  function Factorial(n: nat): (f: nat)
    ensures f >= 1
  {
    if n == 0 then 1 else n * Factorial(n - 1)
  }

  lemma {:induction false} DividesFactorial(d: nat, n: nat)
    requires 1 <= d <= n
    ensures Divides(d, Factorial(n))
  {
    if d == n {
      DividesProduct(n, Factorial(n - 1));
    } else {
      DividesFactorial(d, n - 1);
      DividesProduct(Factorial(n - 1), n);
      assert Factorial(n) == Factorial(n - 1) * n;
      DividesTransitive(d, Factorial(n - 1), Factorial(n));
    }
  }

  /** There are primes beyond every bound. */
  lemma PrimesUnbounded(n: nat) returns (p: nat)
    ensures p > n && IsPrime(p)
  {
    p := PrimeDivisor(Factorial(n) + 1, 2);
    if p <= n {
      DividesFactorial(p, n);
      ConsecutiveMultiples(p, Factorial(n));
    }
  }

  lemma ConsecutiveMultiples(p: nat, f: nat)
    requires Divides(p, f) && Divides(p, f + 1)
    ensures p == 1
  {
    var k := (f + 1) / p - f / p;
    assert p * k == 1 by { assert f == p * (f / p) && f + 1 == p * ((f + 1) / p); }
    ScaleBounds(p, k);
  }

  // The other factor of a proper divisor.
  lemma CoDivisor(n: nat, d: nat) returns (e: nat)
    requires 2 <= d < n && Divides(d, n)
    ensures n == d * e && 2 <= e < n && Divides(e, n)
  {
    e := n / d;
    assert n == d * e;
    assert e != 0 && e != 1;
    MulMonotone(2, d, e);
    Commute(d, e);
    DividesProduct(e, d);
  }

  lemma Commute(a: nat, b: nat)
    ensures a * b == b * a
  {
  }

  /** Once every divisor below i is excluded and n / i < i, n is prime. */
  lemma PrimeByTrialDivision(n: nat, i: nat)
    requires n >= 2 && i >= 2 && Untouched(n, i) && n / i < i
    ensures IsPrime(n)
  {
    hide Divides;
    forall d | 2 <= d < n
      ensures !Divides(d, n)
    {
      if Divides(d, n) {
        var e := CoDivisor(n, d);
        assert d >= i && e >= i;
        QuotientBound(n, i, d, e);
      }
    }
  }

  lemma QuotientBound(n: nat, i: nat, d: nat, e: nat)
    requires i > 0 && n == d * e && d >= i && e >= i
    ensures n / i >= i
  {
    MulMonotone(i, d, e);
    MulMonotone(i, e, i);
    Commute(i, e);
    QuotientAtLeast(n, i, i);
  }

  lemma QuotientAtLeast(n: nat, i: nat, k: nat)
    requires i > 0 && k * i <= n
    ensures n / i >= k
  {
    var q := n / i;
    if q < k {
      DivModEquation(n, i);
      MulMonotone(q + 1, k, i);
      NextMultiple(q, i);
    }
  }

  /** Skipping from a tested trial divisor to the next one is sound when nothing prime lies between. */
  lemma SkipComposites(n: nat, i: nat, j: nat)
    requires n >= 1 && 2 <= i <= j && Untouched(n, i) && !Divides(i, n)
    requires forall d :: i < d < j ==> !IsPrime(d) || !Divides(d, n)
    ensures Untouched(n, j)
  {
    forall d | 2 <= d < j
      ensures !Divides(d, n)
    {
      if Divides(d, n) {
        var p := PrimeDivisor(d, 2);
        DividesTransitive(p, d, n);
      }
    }
  }
}
