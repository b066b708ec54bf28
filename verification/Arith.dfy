/** Nonlinear facts about naturals that the solver does not find by itself. */
module Arith {

  lemma ScaleBounds(d: int, k: int)
    requires d >= 0
    ensures k >= 1 ==> d * k >= d
    ensures k <= -1 ==> d * k <= -d
  {
  }

  lemma MulMonotone(a: nat, b: nat, c: nat)
    requires a <= b
    ensures a * c <= b * c
  {
  }

  // Quotient and remainder are determined by the division equation.
  lemma DivModUnique(n: int, d: nat, q: int, r: nat)
    requires d > 0 && n == d * q + r && r < d
    ensures n / d == q && n % d == r
  {
    var k := q - n / d;
    assert d * k == n % d - r by { assert n == d * (n / d) + n % d; }
    ScaleBounds(d, k);
  }

  lemma DivBelow(k: nat, n: nat, p: nat)
    requires n > 0 && k < p * n
    ensures k / n < p
  {
    assert k == n * (k / n) + k % n;
    ScaleBounds(n, k / n - p);
  }

  lemma DivModEquation(k: nat, n: nat)
    requires n > 0
    ensures k / n * n + k % n == k
  {
  }

  lemma NextMultiple(r: int, n: int)
    ensures (r + 1) * n == r * n + n
  {
  }

  lemma Associate(a: int, b: int, c: int)
    ensures a * b * c == a * (b * c)
  {
  }

  lemma Distribute(a: int, b: int, n: int)
    ensures (a + b) * n == a * n + b * n
  {
  }

  // Dividing twice is dividing by the product.
  lemma DivDiv(n: nat, a: nat, b: nat)
    requires a > 0 && b > 0
    ensures a * b > 0 && n / a / b == n / (a * b)
  {
    var q, r, x, y := n / a, n % a, n / a / b, n / a % b;
    DivModEquation(n, a);
    DivModEquation(q, b);
    Distribute(x * b, y, a);
    Associate(x, b, a);
    MulMonotone(y + 1, b, a);
    NextMultiple(y, a);
    assert n == b * a * x + (y * a + r);
    ScaleBounds(a, b);
    DivModUnique(n, b * a, x, y * a + r);
  }

  // Cutting off what lies above a field and what lies below it can be done in either order.
  lemma Field(c: nat, a: nat, b: nat)
    requires a > 0 && b > 0
    ensures a * b > 0 && c % (a * b) / b == c / b % a && c % (a * b) % b == c % b
  {
    var q, r, k, m := c / b, c % b, c / b / a, c / b % a;
    DivModEquation(c, b);
    DivModEquation(q, a);
    Distribute(k * a, m, b);
    Associate(k, a, b);
    MulMonotone(m + 1, a, b);
    NextMultiple(m, b);
    assert c == a * b * k + (m * b + r);
    ScaleBounds(b, a);
    DivModUnique(c, a * b, k, m * b + r);
    DivModUnique(m * b + r, b, m, r);
  }

  function Pow2(n: nat): (p: nat)
    ensures p > 0
  {
    if n == 0 then 1 else 2 * Pow2(n - 1)
  }
}
