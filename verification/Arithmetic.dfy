/** Facts about products and quotients that several layers need. */
module Arithmetic {

  lemma MulLe(x: int, y: int, z: int)
    requires x <= y && 0 <= z
    ensures x * z <= y * z
  {
  }

  lemma MulAtLeast(d: int, k: int)
    requires 0 < d
    ensures (k >= 1 ==> d * k >= d) && (k <= -1 ==> d * k <= -d)
  {
    if k >= 1 { MulLe(1, k, d); } else if k <= -1 { MulLe(k, -1, d); }
  }

  /** A quotient and a remainder below the divisor are the ones division gives. */
  lemma DivIs(n: int, d: int, q: int, r: int)
    requires 0 < d && n == d * q + r && 0 <= r < d
    ensures n / d == q && n % d == r
  {
    var q', r' := n / d, n % d;
    assert n == d * q' + r';
    assert d * (q - q') == d * q - d * q' == r' - r;
    MulAtLeast(d, q - q');
  }

  /** Dividing by p and then by q. */
  lemma DivDiv(n: int, p: int, q: int)
    requires 0 <= n && 0 < p && 0 < q
    ensures 0 < p * q && n / p / q == n / (p * q)
  {
    var a := n / p;
    var b := a / q;
    MulLe(1, p, q);
    assert n == p * a + n % p && a == q * b + a % q;
    assert p * a == p * (q * b) + p * (a % q);
    assert p * (q * b) == (p * q) * b;
    var r := p * (a % q) + n % p;
    MulLe(a % q, q - 1, p);
    MulLe(0, a % q, p);
    assert p * (a % q) == (a % q) * p && (q - 1) * p == p * q - p;
    assert n == (p * q) * b + r && 0 <= r < p * q;
    DivIs(n, p * q, b, r);
  }

  function Pow256(n: nat): (p: nat)
    ensures p > 0
  {
    if n == 0 then 1 else 256 * Pow256(n - 1)
  }
}
