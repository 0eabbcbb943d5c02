/** Division, where products of variables meet it. */
module Arithmetic {

  lemma Multiples(a: int, b: int, d: nat)
    requires a <= b
    ensures a * d <= b * d
  {
  }

  /** Quotient and remainder are the only ones. */
  lemma Quotient(n: nat, d: nat, q: nat, r: nat)
    requires n == q * d + r && r < d
    ensures n / d == q && n % d == r
  {
    var x := n / d;
    assert n == x * d + n % d;
    if x < q { Multiples(x + 1, q, d); } else if q < x { Multiples(q + 1, x, d); }
  }

  /** Dividing in two steps. */
  lemma Halve(n: nat, k: nat)
    requires k > 0
    ensures n / 2 / k == n / (2 * k)
  {
    var q, r := n / 2 / k, n / 2 % k;
    assert n / 2 == q * k + r;
    Quotient(n, 2 * k, q, 2 * r + n % 2);
  }

  /** The remainder of ten times a modulus keeps the last digit. */
  lemma LastDigit(n: nat, p: nat)
    requires p > 0
    ensures n % (10 * p) == n / 10 % p * 10 + n % 10
  {
    var q, r := n / 10 / p, n / 10 % p;
    assert n / 10 == q * p + r;
    Quotient(n, 10 * p, q, r * 10 + n % 10);
  }

  /** A quotient grows by one exactly at the multiples. */
  lemma Ticks(n: nat, d: nat)
    requires n > 0 && d > 1
    ensures n / d - (n - 1) / d == if n % d == 0 then 1 else 0
  {
    var q, r := n / d, n % d;
    assert n == q * d + r;
    if r > 0 {
      Quotient(n - 1, d, q, r - 1);
    } else {
      assert n - 1 == (q - 1) * d + (d - 1);
      Quotient(n - 1, d, q - 1, d - 1);
    }
  }
}
