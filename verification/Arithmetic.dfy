/** The few facts about multiplication and division, and the powers of two, that the other
    modules lean on. */
module Arithmetic {

  lemma MulMonotone(u: int, a: int, b: int)
    ensures u >= 0 && a <= b ==> u * a <= u * b
  {
    if u >= 0 && a <= b {
      assert u * (b - a) >= 0;
    }
  }

  /** Quotient and remainder are unique. */
  lemma DivModUnique(x: int, u: int, q: int, r: int)
    requires 0 <= r < u && x == u * q + r
    ensures x / u == q && x % u == r
  {
    var q', r' := x / u, x % u;
    assert x == u * q' + r';
    MulMonotone(u, q + 1, q');
    MulMonotone(u, q' + 1, q);
    assert u * (q + 1) == u * q + u && u * (q' + 1) == u * q' + u;
  }

  function Pow2(n: nat): (p: nat)
    ensures p > 0
  {
    if n == 0 then 1 else 2 * Pow2(n - 1)
  }
}
