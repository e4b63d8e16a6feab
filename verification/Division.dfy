/** Facts about quotients by numbers that are not constants. */
module Division {

  lemma MulUpTo(r: nat, s: nat, a: nat)
    requires r <= s
    ensures r * a <= s * a
  {
  }

  lemma Quotient(n: nat, d: nat, q: nat, r: nat)
    requires n == q * d + r && r < d
    ensures n / d == q && n % d == r
  {
    if n / d < q {
      MulUpTo(n / d + 1, q, d);
    } else if n / d > q {
      MulUpTo(q + 1, n / d, d);
    }
  }

  lemma QuotientOf(n: nat, d: nat)
    requires d > 0
    ensures n / d >= 0 && 0 <= n % d < d && n == n / d * d + n % d
  {
  }

  lemma SameQuotient(a: nat, b: nat, d: nat)
    requires d > 0 && a / d == b / d
    ensures b % d - a % d == b - a
  {
    QuotientOf(a, d);
    QuotientOf(b, d);
  }

  lemma Multiple(q: nat, d: nat)
    requires d > 0
    ensures q * d >= 0 && q * d % d == 0
  {
    Quotient(q * d, d, q, 0);
  }

  lemma DivTwice(n: nat, a: nat, b: nat)
    requires a > 0 && b > 0
    ensures a * b > 0 && n / (a * b) == n / a / b
  {
    var q, r := n / a / b, n / a % b;
    assert n == (q * b + r) * a + n % a;
    assert (q * b + r) * a == q * (a * b) + r * a;
    MulUpTo(r, b - 1, a);
    assert (b - 1) * a == a * b - a;
    Quotient(n, a * b, q, r * a + n % a);
  }
}
