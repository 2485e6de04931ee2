/** Powers of two, and division facts shared by the mask and the checkpoint arithmetic. */
module Arith {
  lemma {:induction false} ProductAtLeast(p: nat, b: int, k: nat)
    requires k >= 1
    ensures p * (b + k) >= p * b + p
  {
    if k > 1 {
      ProductAtLeast(p, b, k - 1);
      assert p * (b + k) == p * (b + (k - 1)) + p;
    } else {
      assert p * (b + 1) == p * b + p;
    }
  }

  /** Quotient and remainder are determined by the division equation. */
  lemma DivisionUnique(n: nat, p: nat, q: int, r: nat)
    requires r < p && n == p * q + r
    ensures n / p == q && n % p == r
  {
    var q0, r0 := n / p, n % p;
    assert n == p * q0 + r0;
    if q0 > q {
      ProductAtLeast(p, q, q0 - q);
    } else if q > q0 {
      ProductAtLeast(p, q0, q - q0);
    }
  }

  function Pow2(n: nat): (p: nat)
    ensures p >= 1
  {
    if n == 0 then 1 else 2 * Pow2(n - 1)
  }
}
