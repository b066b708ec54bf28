/**
  * __next_prime: the least prime that is at least n, read off a table for small n and otherwise found by trial
  * division of the numbers coprime to 210. size_t is modelled without a bound.
  */
module NextPrime {
  import opened Arith
  import opened Primes

  const L: nat := 210

  // ----- the tables, entry by entry

  function SmallPrime(k: nat): nat
    requires k < 48
  {
    match k
    case 0 => 0 case 1 => 2 case 2 => 3 case 3 => 5 case 4 => 7 case 5 => 11 case 6 => 13 case 7 => 17
    case 8 => 19 case 9 => 23 case 10 => 29 case 11 => 31 case 12 => 37 case 13 => 41 case 14 => 43 case 15 => 47
    case 16 => 53 case 17 => 59 case 18 => 61 case 19 => 67 case 20 => 71 case 21 => 73 case 22 => 79 case 23 => 83
    case 24 => 89 case 25 => 97 case 26 => 101 case 27 => 103
    case 28 => 107 case 29 => 109 case 30 => 113 case 31 => 127
    case 32 => 131 case 33 => 137 case 34 => 139 case 35 => 149
    case 36 => 151 case 37 => 157 case 38 => 163 case 39 => 167
    case 40 => 173 case 41 => 179 case 42 => 181 case 43 => 191
    case 44 => 193 case 45 => 197 case 46 => 199 case _ => 211
  }

  // The residues modulo 210 that are coprime to 210.
  function Index(k: nat): nat
    requires k < 48
  {
    match k
    case 0 => 1 case 1 => 11 case 2 => 13 case 3 => 17 case 4 => 19 case 5 => 23 case 6 => 29 case 7 => 31
    case 8 => 37 case 9 => 41 case 10 => 43 case 11 => 47 case 12 => 53 case 13 => 59 case 14 => 61 case 15 => 67
    case 16 => 71 case 17 => 73 case 18 => 79 case 19 => 83 case 20 => 89 case 21 => 97 case 22 => 101 case 23 => 103
    case 24 => 107 case 25 => 109 case 26 => 113 case 27 => 121
    case 28 => 127 case 29 => 131 case 30 => 137 case 31 => 139
    case 32 => 143 case 33 => 149 case 34 => 151 case 35 => 157
    case 36 => 163 case 37 => 167 case 38 => 169 case 39 => 173
    case 40 => 179 case 41 => 181 case 42 => 187 case 43 => 191
    case 44 => 193 case 45 => 197 case 46 => 199 case _ => 209
  }

  // The increments of the trial divisor between the 48 unrolled tests; the last one closes the plane of 210.
  function Increment(k: nat): nat
    requires k < 48
  {
    match k
    case 0 => 10 case 1 => 2 case 2 => 4 case 3 => 2 case 4 => 4 case 5 => 6 case 6 => 2 case 7 => 6
    case 8 => 4 case 9 => 2 case 10 => 4 case 11 => 6 case 12 => 6 case 13 => 2 case 14 => 6 case 15 => 4
    case 16 => 2 case 17 => 6 case 18 => 4 case 19 => 6 case 20 => 8 case 21 => 4 case 22 => 2 case 23 => 4
    case 24 => 2 case 25 => 4 case 26 => 8 case 27 => 6 case 28 => 4 case 29 => 6 case 30 => 2 case 31 => 4
    case 32 => 6 case 33 => 2 case 34 => 6 case 35 => 6 case 36 => 4 case 37 => 2 case 38 => 4 case 39 => 6
    case 40 => 2 case 41 => 6 case 42 => 4 case 43 => 2 case 44 => 4 case 45 => 2 case 46 => 10 case _ => 2
  }

  predicate OnWheel(n: nat) {
    n % 2 != 0 && n % 3 != 0 && n % 5 != 0 && n % 7 != 0
  }

  // What a prime below 289 passes, and a composite below 289 does not.
  predicate PassesTrial(m: nat) {
    m >= 2 && (m == 2 || m % 2 != 0) && (m == 3 || m % 3 != 0) && (m == 5 || m % 5 != 0) && (m == 7 || m % 7 != 0)
    && (m == 11 || m % 11 != 0) && (m == 13 || m % 13 != 0)
  }

  lemma PrimesBelow17(p: nat)
    requires p < 17
    ensures IsPrime(p) <==> p == 2 || p == 3 || p == 5 || p == 7 || p == 11 || p == 13
  {
    if IsPrime(p) {
      assert Divides(2, p) ==> p == 2;
      assert Divides(3, p) ==> p == 3;
    }
  }

  lemma PassesTrialIsPrime(m: nat)
    requires m < 289
    ensures PassesTrial(m) ==> IsPrime(m)
  {
    if PassesTrial(m) {
      forall d | 2 <= d < 17 && d < m
        ensures !Divides(d, m)
      {
        if Divides(d, m) {
          var p := PrimeDivisor(d, 2);
          PrimesBelow17(p);
          DividesTransitive(p, d, m);
        }
      }
      if m >= 17 {
        PrimeByTrialDivision(m, 17);
      }
    }
  }

  lemma PrimePassesTrial(m: nat)
    requires IsPrime(m)
    ensures PassesTrial(m)
  {
    assert forall p :: 2 <= p < m ==> !Divides(p, m);
    assert m > 2 ==> !Divides(2, m);
    assert m > 3 ==> !Divides(3, m);
    assert m > 5 ==> !Divides(5, m);
    assert m > 7 ==> !Divides(7, m);
    assert m > 11 ==> !Divides(11, m);
    assert m > 13 ==> !Divides(13, m);
  }

  lemma SmallPrimePasses(k: nat)
    requires 1 <= k < 48
    ensures PassesTrial(SmallPrime(k)) && 2 <= SmallPrime(k) <= 211
  {
  }

  lemma IndexOnWheel(k: nat)
    requires k < 48
    ensures OnWheel(Index(k)) && Index(k) < 210
  {
  }

  lemma IndexStep(k: nat)
    requires k < 48
    ensures Index(k) + Increment(k) == if k < 47 then Index(k + 1) else 210 + Index(0)
  {
  }

  lemma SmallPrimesIncrease(k: nat)
    requires k < 47
    ensures SmallPrime(k) < SmallPrime(k + 1)
  {
  }

  lemma IndexGapLow(k: nat, j: nat)
    requires k < 24 && 0 < j && Index(k) + j < Index(k + 1)
    ensures !OnWheel(Index(k) + j)
  {
    assert Index(k) % 2 != 0;
    if j % 2 == 0 { assert j == 2 || j == 4 || j == 6 || j == 8; }
  }

  lemma IndexGapHigh(k: nat, j: nat)
    requires 24 <= k < 47 && 0 < j && Index(k) + j < Index(k + 1)
    ensures !OnWheel(Index(k) + j)
  {
    assert Index(k) % 2 != 0;
    if j % 2 == 0 { assert j == 2 || j == 4 || j == 6 || j == 8; }
  }

  lemma SmallPrimeGapLow(k: nat, j: nat)
    requires 2 <= k < 24 && 0 < j && SmallPrime(k) + j < SmallPrime(k + 1)
    ensures !PassesTrial(SmallPrime(k) + j)
  {
    assert SmallPrime(k) % 2 != 0;
    if j % 2 == 0 { assert j == 2 || j == 4 || j == 6 || j == 8 || j == 10 || j == 12; }
  }

  lemma SmallPrimeGapHigh(k: nat, j: nat)
    requires 24 <= k < 47 && 0 < j && SmallPrime(k) + j < SmallPrime(k + 1)
    ensures !PassesTrial(SmallPrime(k) + j)
  {
    assert SmallPrime(k) % 2 != 0;
    if j % 2 == 0 { assert j == 2 || j == 4 || j == 6 || j == 8 || j == 10 || j == 12; }
  }

  // ----- what the tables mean

  lemma TableEnds()
    ensures SmallPrime(0) == 0 && SmallPrime(1) == 2 && SmallPrime(2) == 3 && SmallPrime(5) == 11
    ensures SmallPrime(47) == 211
    ensures Index(0) == 1 && Index(47) == 209
    ensures forall k :: 0 <= k < 48 ==> 2 <= Increment(k) <= 10
  {
  }

  lemma SmallGap(k: nat, m: nat)
    requires 1 <= k < 48 && SmallPrime(k - 1) < m < SmallPrime(k)
    ensures !IsPrime(m)
  {
    hide SmallPrime, Divides, IsPrime;
    TableEnds();
    if k >= 3 {
      if k <= 24 {
        SmallPrimeGapLow(k - 1, m - SmallPrime(k - 1));
      } else {
        SmallPrimeGapHigh(k - 1, m - SmallPrime(k - 1));
      }
    }
    if IsPrime(m) { PrimePassesTrial(m); }
  }

  // Between one wheel number and the next there is no number coprime to 210.
  lemma WheelGap(q: nat, k: nat, m: nat)
    requires k < 48 && 210 * q + Index(k) < m < 210 * q + Index(k) + Increment(k)
    ensures !OnWheel(m)
  {
    hide Index, Increment, OnWheel;
    var j := m - (210 * q + Index(k));
    if k < 47 {
      IndexStep(k);
      if k < 24 { IndexGapLow(k, j); } else { IndexGapHigh(k, j); }
      WheelPeriod(q, Index(k) + j);
    } else {
      WheelEnds();
      WheelPeriod(q, 210);
    }
  }

  lemma WheelEnds()
    ensures Index(47) == 209 && Increment(47) == 2 && !OnWheel(210)
  {
  }

  lemma WheelPeriod(q: nat, x: nat)
    ensures OnWheel(210 * q + x) <==> OnWheel(x)
  {
    DivModUnique(210 * q + x, 2, 105 * q + x / 2, x % 2);
    DivModUnique(210 * q + x, 3, 70 * q + x / 3, x % 3);
    DivModUnique(210 * q + x, 5, 42 * q + x / 5, x % 5);
    DivModUnique(210 * q + x, 7, 30 * q + x / 7, x % 7);
  }

  lemma OffWheelNotPrime(m: nat)
    requires !OnWheel(m) && m > 7
    ensures !IsPrime(m)
  {
    assert Divides(2, m) || Divides(3, m) || Divides(5, m) || Divides(7, m);
  }

  lemma OffWheelNotDivisor(n: nat, d: nat)
    requires OnWheel(n) && !OnWheel(d) && d > 0
    ensures !Divides(d, n)
  {
    if Divides(d, n) {
      var p := if d % 2 == 0 then 2 else if d % 3 == 0 then 3 else if d % 5 == 0 then 5 else 7;
      DividesTransitive(p, d, n);
    }
  }

  // ----- one trial division, and the step to the next divisor

  lemma Verdict(n: nat, p: nat)
    requires n >= 2 && p >= 2 && Untouched(n, p)
    ensures n / p < p ==> IsPrime(n)
    ensures n / p >= p && n == n / p * p ==> !IsPrime(n)
    ensures n != n / p * p ==> !Divides(p, n)
    ensures n / p >= p ==> p < n
  {
    if n / p < p {
      PrimeByTrialDivision(n, p);
    } else {
      ScaleBounds(p, n / p - 1);
      assert p < n by { assert n == p * (n / p) + n % p; }
    }
    assert n != n / p * p ==> n % p != 0;
    assert n == n / p * p ==> n % p == 0;
    assert Divides(p, n) <==> n == n / p * p;
  }

  lemma UntouchedBelow11(n: nat)
    requires OnWheel(n)
    ensures Untouched(n, 11)
  {
    forall d | 2 <= d < 11
      ensures !Divides(d, n)
    {
      assert !OnWheel(d) by { assert d % 2 == 0 || d % 3 == 0 || d % 5 == 0 || d % 7 == 0; }
      OffWheelNotDivisor(n, d);
    }
  }

  lemma NextSmallDivisor(n: nat, j: nat)
    requires n >= 1 && 5 <= j < 47 && Untouched(n, SmallPrime(j)) && !Divides(SmallPrime(j), n)
    ensures Untouched(n, SmallPrime(j + 1))
  {
    hide SmallPrime, Index, Increment, IsPrime, Divides;
    TableEnds();
    SmallPrimesIncrease(j);
    SmallPrimePasses(j);
    forall d | SmallPrime(j) < d < SmallPrime(j + 1)
      ensures !IsPrime(d)
    {
      SmallGap(j + 1, d);
    }
    SkipComposites(n, SmallPrime(j), SmallPrime(j + 1));
  }

  lemma NextWheelDivisor(n: nat, plane: nat, s: nat)
    requires OnWheel(n) && plane >= 1 && s < 48
    requires Untouched(n, 210 * plane + Index(s)) && !Divides(210 * plane + Index(s), n)
    ensures Untouched(n, 210 * plane + Index(s) + Increment(s))
  {
    hide SmallPrime, Index, Increment, IsPrime, Divides;
    TableEnds();
    var i := 210 * plane + Index(s);
    forall d | i < d < i + Increment(s)
      ensures !Divides(d, n)
    {
      WheelGap(plane, s, d);
      OffWheelNotDivisor(n, d);
    }
    SkipComposites(n, i, i + Increment(s));
  }

  // ----- the search

  datatype SortedTable = Small | Wheel

  function Entry(t: SortedTable, k: nat): nat
    requires k < 48
  {
    if t == Small then SmallPrime(k) else Index(k)
  }

  // std::lower_bound on one of the tables, from position from on.
  function LowerBound(t: SortedTable, v: nat, from: nat := 0): (k: nat)
    requires from <= 48
    ensures from <= k <= 48
    ensures k < 48 ==> Entry(t, k) >= v
    ensures forall j :: from <= j < k ==> Entry(t, j) < v
    decreases 48 - from
  {
    if from == 48 || Entry(t, from) >= v then from else LowerBound(t, v, from + 1)
  }

  ghost predicate NoPrimeIn(lo: nat, hi: nat) {
    forall m :: lo <= m < hi ==> !IsPrime(m)
  }

  ghost predicate LeastPrimeFrom(n: nat, p: nat) {
    IsPrime(p) && p >= n && NoPrimeIn(n, p)
  }

  /** Divides n by the small primes from 11 and then by the wheel numbers from 211, until one of them divides n or
      the quotient falls below the divisor. */
  method TrialDivide(n: nat) returns (prime: bool)
    requires OnWheel(n) && n > 211
    ensures prime <==> IsPrime(n)
  {
    hide SmallPrime, Index, Increment, IsPrime, Divides, OnWheel;
    TableEnds();
    UntouchedBelow11(n);
    for j := 5 to 47
      invariant Untouched(n, SmallPrime(j))
    {
      var p := SmallPrime(j);
      SmallPrimePasses(j);
      Verdict(n, p);
      var q := n / p;
      if q < p { return true; }
      if n == q * p { return false; }
      NextSmallDivisor(n, j);
    }
    var i, s := 211, 0;  // s is the position in the unrolled body
    ghost var plane := 1;
    while true
      invariant s < 48 && i == 210 * plane + Index(s) && plane >= 1
      invariant Untouched(n, i)
      invariant i <= n + 10
      decreases n + 10 - i
    {
      Verdict(n, i);
      var q := n / i;
      if q < i { return true; }
      if n == q * i { return false; }
      NextWheelDivisor(n, plane, s);
      IndexStep(s);
      i := i + Increment(s);
      if s == 47 { plane := plane + 1; }
      s := if s == 47 then 0 else s + 1;
    }
  }

  lemma SmallAnswer(n: nat)
    requires 1 <= n <= 211
    ensures LowerBound(Small, n) < 48 && LeastPrimeFrom(n, SmallPrime(LowerBound(Small, n)))
  {
    hide SmallPrime, Index, Increment, Divides, IsPrime;
    TableEnds();
    var k := LowerBound(Small, n);
    assert Entry(Small, 47) >= n;
    SmallPrimePasses(k);
    PassesTrialIsPrime(SmallPrime(k));
    forall m | n <= m < SmallPrime(k)
      ensures !IsPrime(m)
    {
      assert Entry(Small, k - 1) < n;
      SmallGap(k, m);
    }
  }

  // Entry k of plane q follows entry k - 1 without a prime between them.
  lemma CandidateGap(q: nat, k: nat, lo: nat)
    requires k < 48 && q >= 1 && lo > 210 * q + Index(k)
    ensures NoPrimeIn(lo, 210 * q + Index(k) + Increment(k))
  {
    hide SmallPrime, Index, Increment, Divides, IsPrime;
    TableEnds();
    forall m | lo <= m < 210 * q + Index(k) + Increment(k)
      ensures !IsPrime(m)
    {
      WheelGap(q, k, m);
      OffWheelNotPrime(m);
    }
  }

  lemma FirstCandidate(n0: nat, k0: nat)
    requires n0 > 211 && k0 == n0 / L
    ensures LowerBound(Wheel, n0 - k0 * L) < 48
    ensures k0 >= 1 && L * k0 + Index(LowerBound(Wheel, n0 - k0 * L)) >= n0
    ensures NoPrimeIn(n0, L * k0 + Index(LowerBound(Wheel, n0 - k0 * L)))
  {
    hide SmallPrime, Index, Increment, Divides, IsPrime;
    TableEnds();
    var ind := LowerBound(Wheel, n0 - k0 * L);
    assert Entry(Wheel, 47) >= n0 - k0 * L;
    if ind > 0 {
      assert Entry(Wheel, ind - 1) < n0 - k0 * L;
      IndexStep(ind - 1);
      CandidateGap(k0, ind - 1, n0);
    } else {
      WheelPeriod(k0, 0);
      OffWheelNotPrime(210 * k0);
    }
  }

  // A rejected candidate and the gap behind it extend the range that is known to hold no prime.
  lemma Advance(n0: nat, q: nat, k: nat, bound: nat)
    requires k < 48 && q >= 1 && n0 <= 210 * q + Index(k) && bound > n0 && IsPrime(bound)
    requires NoPrimeIn(n0, 210 * q + Index(k)) && !IsPrime(210 * q + Index(k))
    ensures NoPrimeIn(n0, 210 * q + Index(k) + Increment(k))
    ensures 210 * q + Index(k) + Increment(k) <= bound
  {
    hide SmallPrime, Index, Increment, Divides;
    TableEnds();
    CandidateGap(q, k, 210 * q + Index(k) + 1);
  }

  lemma CandidateOnWheel(q: nat, k: nat)
    requires k < 48
    ensures OnWheel(210 * q + Index(k))
  {
    IndexOnWheel(k);
    WheelPeriod(q, Index(k));
  }

  /** Returns 0 for 0 and otherwise the least prime that is at least n0. */
  method NextPrime(n0: nat) returns (r: nat)
    ensures n0 == 0 ==> r == 0
    ensures n0 >= 1 ==> LeastPrimeFrom(n0, r)
  {
    hide SmallPrime, Index, Increment, IsPrime, Divides, OnWheel, NoPrimeIn, Entry;
    TableEnds();
    if n0 <= SmallPrime(47) {
      var k := LowerBound(Small, n0);
      if n0 > 0 { SmallAnswer(n0); }
      return SmallPrime(k);
    }
    ghost var bound := PrimesUnbounded(n0);
    var k0 := n0 / L;
    var ind := LowerBound(Wheel, n0 - k0 * L);
    FirstCandidate(n0, k0);
    var n := L * k0 + Index(ind);
    while true
      invariant ind < 48 && k0 >= 1 && n == L * k0 + Index(ind) && n >= n0
      invariant NoPrimeIn(n0, n)
      decreases bound - n
    {
      CandidateOnWheel(k0, ind);
      var prime := TrialDivide(n);
      if prime { return n; }
      IndexStep(ind);
      Advance(n0, k0, ind, bound);
      ind := ind + 1;
      if ind == 48 {
        k0 := k0 + 1;
        ind := 0;
      }
      n := L * k0 + Index(ind);
    }
  }
}
