/** Division facts that groups of bits and decimal places rest on. */
module Arithmetic {
  lemma {:induction false} MulGap(a: nat, b: nat, m: nat)
    requires a > b
    ensures a * m >= b * m + m
  {
    if m > 0 {
      MulGap(a, b, m - 1);
    }
  }

  lemma DivIs(x: nat, m: nat, q: nat, r: nat)
    requires m > 0 && x == q * m + r && r < m
    ensures x / m == q
  {
    var d, e := x / m, x % m;
    assert x == d * m + e;
    if d < q {
      MulGap(q, d, m);
    } else if d > q {
      MulGap(d, q, m);
    }
  }

  lemma Spread(a: nat, s: nat, p: nat, t: nat)
    ensures a * (s * p + t) == s * (a * p) + a * t
  {
    assert a * (s * p + t) == a * (s * p) + a * t;
    assert a * (s * p) == s * (a * p);
  }

  /** Dividing twice is dividing by the product. */
  lemma DivTwice(x: nat, a: nat, p: nat)
    requires a > 0 && p > 0
    ensures a * p > 0 && x / a / p == x / (a * p)
  {
    var q, r := x / a, x % a;
    var s, t := q / p, q % p;
    Spread(a, s, p, t);
    MulGap(p, t, a);
    assert p * a == a * p && t * a == a * t;
    DivIs(x, a * p, s, a * t + r);
  }
}
