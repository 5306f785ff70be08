/** Quotients and products by a variable, which the solver is not asked to find on its own. */
module Division {
  lemma Scale(a: int, b: int, s: int)
    requires a <= b && s >= 0
    ensures a * s <= b * s
  {}

  lemma Distribute(s: int, q: int)
    ensures (q + 1) * s == q * s + s
  {}

  /** Two quotients with remainders are one number only if they are the same. */
  lemma SameParts(q: nat, r: nat, q': nat, r': nat, s: nat)
    requires r < s && r' < s
    ensures q * s + r == q' * s + r' <==> q == q' && r == r'
  {
    if q * s + r == q' * s + r' {
      Quotient(q * s + r, q, r, s);
      Quotient(q * s + r, q', r', s);
    }
  }

  /** Quotient and remainder are unique. */
  lemma Quotient(n: nat, q: nat, r: nat, s: nat)
    requires r < s && n == q * s + r
    ensures n / s == q && n % s == r
  {
    var d := n / s;
    assert n == d * s + n % s;
    Distribute(s, q);
    Distribute(s, d);
    if d > q {
      Scale(q + 1, d, s);
    } else if d < q {
      Scale(d + 1, q, s);
    }
  }
}
