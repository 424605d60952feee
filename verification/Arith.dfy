/** Facts about products and rounded-up quotients that several parts need. */
module Arith {

  function Pow2(n: nat): nat { if n == 0 then 1 else 2 * Pow2(n - 1) }

  function Pow10(n: nat): nat { if n == 0 then 1 else 10 * Pow10(n - 1) }

  lemma MulMonotone(x: int, y: int, b: int)
    requires x <= y && b >= 0
    ensures x * b <= y * b
  {}

  lemma MulMinusOne(x: int, b: int)
    ensures (x - 1) * b == x * b - b
  {}

  /** The rounded-up quotient q of d by b: q - 1 copies of b fall short of d, q copies do not. */
  lemma CeilBounds(d: int, b: int)
    requires b > 0
    ensures var q := (d + b - 1) / b; (q - 1) * b < d <= q * b
  {}

  lemma CeilUnique(n: int, d: int, b: int)
    requires b > 0 && (n - 1) * b < d <= n * b
    ensures n == (d + b - 1) / b
  {
    var q := (d + b - 1) / b;
    CeilBounds(d, b);
    if n < q {
      MulMonotone(n, q - 1, b);
    } else if q < n {
      MulMonotone(q, n - 1, b);
    }
  }

  lemma CeilIff(k: int, d: int, b: int)
    requires b > 0
    ensures k * b >= d <==> k >= (d + b - 1) / b
  {
    var q := (d + b - 1) / b;
    CeilBounds(d, b);
    if k >= q {
      MulMonotone(q, k, b);
    } else {
      MulMonotone(k, q - 1, b);
    }
  }

  lemma MultipleOf(q: nat, b: nat)
    requires b >= 1
    ensures (q * b) % b == 0
  {
    var d, r := (q * b) / b, (q * b) % b;
    assert q * b == d * b + r && (q - d) * b == q * b - d * b && (d - q) * b == d * b - q * b;
    AtLeastOnce(q - d, b);
    AtLeastOnce(d - q, b);
  }

  lemma AtLeastOnce(k: int, b: nat)
    ensures k >= 1 ==> k * b >= b
  {}
}
