/** Facts about products and remainders that the solver does not find on its own. */
module Arithmetic {
  lemma DivMod(x: int, d: nat)
    requires d > 0
    ensures x == x / d * d + x % d && 0 <= x % d < d
  {
  }

  lemma MulDiff(q: int, p: int, d: nat)
    ensures q * d - p * d == (q - p) * d
  {
  }

  lemma AtLeast(k: int, d: nat)
    requires k >= 1
    ensures k * d >= d
  {
    assert k * d == (k - 1) * d + d;
  }

  /** The remainder is the only one in its range. */
  lemma Remainder(q: int, r: nat, d: nat)
    requires r < d
    ensures (q * d + r) % d == r && (q * d + r) / d == q
  {
    var x := q * d + r;
    DivMod(x, d);
    var p := x / d;
    MulDiff(q, p, d);
    if q > p {
      AtLeast(q - p, d);
    } else if q < p {
      AtLeast(p - q, d);
      MulDiff(p, q, d);
    }
  }

  lemma QuotientBelow(x: nat, d: nat, n: nat)
    requires d > 0
    ensures x / d < n <==> x < n * d
  {
    DivMod(x, d);
    var q := x / d;
    if q < n {
      AtLeast(n - q, d);
      MulDiff(n, q, d);
    } else if q > n {
      AtLeast(q - n, d);
      MulDiff(q, n, d);
    }
  }
}
