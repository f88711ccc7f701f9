/** Division facts for a variable divisor, each proved once so that other proofs stay linear. */
module Modular {

  lemma MulAtLeast(a: int, b: nat)
    requires a >= 1
    ensures a * b >= b
  {
    assert a * b == (a - 1) * b + b;
  }

  lemma MulDistributes(a: int, b: int, d: int)
    ensures (a - b) * d == a * d - b * d && (a + b) * d == a * d + b * d
  {
  }

  lemma {:induction false} MulSwap(a: int, b: int, c: int)
    ensures a * b * c == a * c * b
  {
  }

  /** Quotient and remainder are unique. */
  lemma {:induction false} DivModUnique(x: int, d: nat, q: int, r: int)
    requires d > 0 && 0 <= r < d && x == q * d + r
    ensures x / d == q && x % d == r
  {
    var q', r' := x / d, x % d;
    assert x == q' * d + r';
    MulDistributes(q, q', d);
    if q > q' { MulAtLeast(q - q', d); }
    if q' > q { MulAtLeast(q' - q, d); MulDistributes(q', q, d); }
  }

  lemma MulMonotone(a: int, b: int, d: nat)
    requires a <= b
    ensures a * d <= b * d
  {
    assert b * d == a * d + (b - a) * d;
  }

  lemma {:induction false} DivMonotone(a: nat, b: nat, d: nat)
    requires a <= b && d > 0
    ensures a / d <= b / d
  {
    var q, p := a / d, b / d;
    assert a == q * d + a % d && b == p * d + b % d;
    if q > p { MulMonotone(p + 1, q, d); MulDistributes(p, 1, d); }
  }

  lemma {:induction false} MultipleOfMultiple(k: nat, b: nat, d: nat)
    requires d > 0 && b % d == 0
    ensures k * b % d == 0
  {
    assert b == b / d * d;
    assert k * b == k * (b / d) * d;
    DivModUnique(k * b, d, k * (b / d), 0);
  }

  lemma {:induction false} ModAddMultiple(x: int, d: nat, k: int)
    requires d > 0
    ensures (x + k * d) % d == x % d && (x + k * d) / d == x / d + k
  {
    MulDistributes(x / d, k, d);
    DivModUnique(x + k * d, d, x / d + k, x % d);
  }
}
