/** Products, quotients and remainders. */
module Arithmetic {
  lemma Distribute(n: int, a: int, b: int)
    ensures n * (a - b) == n * a - n * b
  {
  }

  lemma Multiple(n: nat, d: int)
    ensures d >= 1 ==> n * d >= n
    ensures d <= -1 ==> n * d + n <= 0
  {
  }

  lemma MulMonotone(p: nat, q: nat, b: nat)
    requires p <= q
    ensures p * b <= q * b
  {
  }

  lemma Divided(x: nat, n: nat)
    requires n > 0
    ensures x == n * (x / n) + x % n
  {
  }

  /** Quotient and remainder are determined. */
  lemma QuotientIs(x: nat, n: nat, q: nat, rest: nat)
    requires rest < n && x == n * q + rest
    ensures x / n == q && x % n == rest
  {
    Divided(x, n);
    Distribute(n, q, x / n);
    Multiple(n, q - x / n);
  }

  lemma MultipleOf(n: nat, k: nat)
    requires n > 0
    ensures n * k % n == 0
  {
    QuotientIs(n * k, n, k, 0);
  }

  lemma DivideTwice(x: nat, a: nat, b: nat)
    requires a > 0 && b > 0
    ensures a * b > 0 && x / a / b == x / (a * b)
  {
    Multiple(a, b);
    var y, low := x / a, x % a;
    var q, r := y / b, y % b;
    Divided(x, a);
    Divided(y, b);
    Associate(a, b, q, r);
    Distribute(a, b, r);
    Multiple(a, b - r);
    QuotientIs(x, a * b, q, a * r + low);
  }

  lemma Associate(a: nat, b: nat, q: nat, r: nat)
    ensures a * (b * q + r) == (a * b) * q + a * r
  {
  }
}
