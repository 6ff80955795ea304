/** The few nonlinear facts the proofs use. */
module Arithmetic {
  lemma MulMono(a: int, b: int, c: int)
    requires a <= b && 0 <= c
    ensures a * c <= b * c
  {
  }

  lemma MulCancel(a: int, b: int, c: int)
    requires a * c <= b * c && 0 < c
    ensures a <= b
  {
    assert (b + 1) * c == b * c + c;
    if a > b {
      MulMono(b + 1, a, c);
    }
  }

  /** The quotient of a division and its successor. */
  lemma QuotientBounds(n: nat, d: nat)
    requires d > 0
    ensures 0 <= n / d <= n
    ensures n % d != 0 ==> n / d + 1 <= n
    ensures (n / d) * d <= n < (n / d + 1) * d
    ensures n % d == 0 <==> (n / d) * d == n
  {
    var q := n / d;
    assert n == q * d + n % d;
    MulMono(1, d, q);
    assert (q + 1) * d == q * d + d;
  }
}
