/** Facts about products, quotients and powers that the solver does not find by itself. */
module Arithmetic {

  /** Quotient and remainder are determined by their defining property. */
  lemma DivModUnique(n: int, d: nat, q: int, r: nat)
    requires d > 0 && n == q * d + r && r < d
    ensures n / d == q && n % d == r
  {
    var q', r' := n / d, n % d;
    assert q' * d + r' == q * d + r;
    assert (q' - q) * d == r - r';
    assert q' - q >= 1 ==> (q' - q) * d >= d;
    assert q' - q <= -1 ==> (q' - q) * d <= -1 * d;
  }

  function Pow(b: nat, e: nat): nat {
    if e == 0 then 1 else b * Pow(b, e - 1)
  }

  lemma {:induction false} PowPositive(b: nat, e: nat)
    requires b > 0
    ensures Pow(b, e) > 0
  {
    if e > 0 {
      PowPositive(b, e - 1);
    }
  }

  lemma {:induction false} PowMonotone(b: nat, d: nat, e: nat)
    requires b > 0 && d <= e
    ensures Pow(b, d) <= Pow(b, e)
  {
    if d < e {
      PowMonotone(b, d, e - 1);
      MulMonotone(1, b, Pow(b, e - 1));
    }
  }

  lemma MulMonotone(a: nat, b: nat, c: nat)
    requires a <= b
    ensures a * c <= b * c
  {
  }

  lemma CancelFactor(a: int, b: int, q: nat)
    requires q > 0
    ensures a * q == b * q <==> a == b
  {
    if a > b {
      PositiveProduct(a - b, q);
    } else if a < b {
      PositiveProduct(b - a, q);
    }
  }

  lemma PositiveProduct(a: nat, b: nat)
    requires a > 0 && b > 0
    ensures a * b > 0
  {
  }

  lemma MulAssociative(a: nat, b: nat, c: nat)
    ensures a * b * c == a * (b * c) && a * b * c == a * c * b
  {
  }

  lemma Regroup(q: nat, b: nat, r: nat, a: nat)
    ensures (q * b + r) * a == q * (a * b) + r * a
  {
    MulAssociative(q, b, a);
  }

  lemma MixedRadixParts(n: nat, a: nat, b: nat, q: nat, r: nat, q': nat, r': nat)
    requires n == q * a + r && r < a
    requires q == q' * b + r' && r' < b
    ensures n == q' * (a * b) + (r' * a + r) && r' * a + r < a * b
  {
    Regroup(q', b, r', a);
    MulMonotone(r' + 1, b, a);
  }

  /** A number in the mixed radix `a`, `b`. */
  lemma MixedRadix(n: nat, a: nat, b: nat)
    requires a > 0 && b > 0
    ensures a * b > 0 && n / (a * b) == n / a / b && n % (a * b) == n / a % b * a + n % a
  {
    MulMonotone(1, a, b);
    var q, r := n / a, n % a;
    var q', r' := q / b, q % b;
    MixedRadixParts(n, a, b, q, r, q', r');
    var ab, rest := a * b, r' * a + r;
    DivModUnique(n, ab, q', rest);
  }

  /** The low end of a remainder modulo a product, and what is left above it. */
  lemma ModOfProduct(n: nat, a: nat, b: nat)
    requires a > 0 && b > 0
    ensures a * b > 0 && n % (a * b) % a == n % a && n % (a * b) / a == n / a % b
  {
    MixedRadix(n, a, b);
    var m, q, r := n % (a * b), n / a % b, n % a;
    assert m == q * a + r;
    DivModUnique(m, a, q, r);
  }
}
