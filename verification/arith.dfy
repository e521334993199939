/** Facts about products, quotients and remainders of natural numbers. */
module Arith {

  /** Multiplying by the same factor keeps the order. */
  lemma MulMonotone(a: nat, b: nat, c: nat)
    ensures a <= b ==> a * c <= b * c
    ensures a < b ==> a * c + c <= b * c
  {
    var d := b - a;
    assert b * c == a * c + d * c;
  }

  /** Quotient and remainder are determined by any decomposition p == q*n + r with 0 <= r < n. */
  lemma DivModUnique(p: nat, q: nat, r: nat, n: nat)
    requires 0 <= r < n && p == q * n + r
    ensures p / n == q && p % n == r
  {
    var q', r' := p / n, p % n;
    assert p == q' * n + r';
    MulMonotone(q', q, n);
    MulMonotone(q, q', n);
  }

  /** Adding the divisor leaves the remainder unchanged. */
  lemma ModAddDivisor(x: nat, c: nat)
    requires c > 0
    ensures (x + c) % c == x % c
  {
    var q, r := x / c, x % c;
    assert x + c == (q + 1) * c + r;
    DivModUnique(x + c, q + 1, r, c);
  }
}
