/** Products and quotients, stated once for the proofs that need them. */
module Arith {
  lemma MulMono(a: nat, b: nat, r: nat)
    requires a <= b
    ensures a * r <= b * r
  {
    assert b * r - a * r == (b - a) * r;
  }

  lemma MulStep(a: nat, r: nat)
    ensures (a + 1) * r == a * r + r
  {
  }

  // One more block of r fits after n blocks exactly while n is below the quotient.
  lemma FitsIff(c: nat, n: nat, r: nat)
    requires 1 <= r
    ensures n * r + r <= c <==> n < c / r
  {
    var m := c / r;
    assert c == r * m + c % r;
    assert m * r == r * m;
    MulStep(n, r);
    MulStep(m, r);
    if n < m {
      MulMono(n + 1, m, r);
    } else {
      MulMono(m + 1, n + 1, r);
    }
  }
}
