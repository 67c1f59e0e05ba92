/** Division and multiplication by variables, in steps the solver can take. */
module Arith {
  lemma AtLeast(d: int, k: int)
    requires d > 0 && k >= 1
    ensures d * k >= d
  {}

  lemma Distribute(d: int, a: int, b: int)
    ensures d * (a + b) == d * a + d * b && d * (a - b) == d * a - d * b
  {}

  lemma Commute(a: int, b: int)
    ensures a * b == b * a
  {}

  lemma MulAssoc(a: int, b: int, c: int)
    ensures (a * b) * c == a * (b * c)
  {}

  lemma Unique(d: int, q: int, r: int, q': int, r': int)
    requires d > 0 && d * q + r == d * q' + r' && 0 <= r < d && 0 <= r' < d
    ensures q == q' && r == r'
  {
    Distribute(d, q, q');
    Distribute(d, q', q);
    if q > q' { AtLeast(d, q - q'); }
    if q < q' { AtLeast(d, q' - q); }
  }

  lemma Division(x: nat, d: nat)
    requires d > 0
    ensures x == d * (x / d) + x % d && 0 <= x % d < d
  {}

  /** Quotient and remainder are unique. */
  lemma Quotient(x: nat, d: nat, q: int, r: int)
    requires d > 0 && x == d * q + r && 0 <= r < d
    ensures x / d == q && x % d == r
  {
    Division(x, d);
    Unique(d, q, r, x / d, x % d);
  }

  lemma MulMonotone(d: nat, a: int, b: int)
    requires a <= b
    ensures d * a <= d * b
  {}

  lemma SmallQuotient(r: nat, d: nat, k: nat)
    requires d > 0 && r < k * d
    ensures r / d < k
  {
    Division(r, d);
    if r / d >= k { MulMonotone(d, k, r / d); }
  }

  /** Dividing by `d` and then by `k`, seen from the remainder of `k * d`. */
  lemma TwoSteps(x: nat, d: nat, k: nat)
    requires d > 0 && k > 0
    ensures k * d > 0
    ensures x / d % k == x % (k * d) / d && x % d == x % (k * d) % d
  {
    AtLeast(d, k);
    var q, r := x / (k * d), x % (k * d);
    Division(x, k * d);
    Division(r, d);
    var s, t := r / d, r % d;
    SmallQuotient(r, d, k);
    MulAssoc(d, k, q);
    Distribute(d, k * q, s);
    Quotient(x, d, k * q + s, t);
    Quotient(k * q + s, k, q, s);
  }
}
