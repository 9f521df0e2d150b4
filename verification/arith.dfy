/** Facts about multiplication and division that the solver does not find by itself. */
module Arith {

  lemma MulSign(b: nat, e: int)
    ensures e >= 1 ==> b * e >= b
    ensures e <= -1 ==> b * e + b <= 0
  {
  }

  lemma MulOrder(a: nat, b: nat, n: nat)
    requires a <= b
    ensures a * n <= b * n
  {
  }

  /** Quotient and remainder are unique. */
  lemma DivModUnique(b: nat, q: nat, r: nat)
    requires r < b
    ensures (b * q + r) / b == q && (b * q + r) % b == r
  {
    var a := b * q + r;
    assert b * (q - a / b) == a % b - r;
    MulSign(b, q - a / b);
  }
}
