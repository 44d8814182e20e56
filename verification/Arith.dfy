/** The little nonlinear arithmetic the metrics need, in linear pieces. */
module Arith {
  function Pow2(n: nat): (p: nat)
    ensures p > 0
  {
    if n == 0 then 1 else 2 * Pow2(n - 1)
  }

  lemma MulMono(a: int, b: int, c: int)
    requires a <= b && 0 <= c
    ensures a * c <= b * c
  {
  }

  lemma Distribute(a: int, b: int, c: int)
    ensures (a + b) * c == a * c + b * c && (a - b) * c == a * c - b * c
  {
  }

  /** Euclid's division, with the product named. */
  lemma DivMod(x: nat, m: nat) returns (q: nat, r: nat)
    requires m > 0
    ensures q == x / m && r == x % m && x == q * m + r && r < m && q <= x
  {
    q, r := x / m, x % m;
    MulMono(1, m, q);
  }

  lemma QuotientNat(x: nat, m: nat)
    requires m > 0
    ensures x / m >= 0
  {
    var q, r := DivMod(x, m);
  }

  lemma DivAtLeast(x: nat, m: nat, k: int)
    requires m > 0 && k * m <= x
    ensures k <= x / m
  {
    var q, r := DivMod(x, m);
    if q < k {
      MulMono(q + 1, k, m);
      Distribute(q, 1, m);
      assert false;
    }
  }

  lemma DivBelow(x: nat, m: nat, k: int)
    requires m > 0 && x < k * m
    ensures x / m < k
  {
    var q, r := DivMod(x, m);
    if q >= k {
      MulMono(k, q, m);
      assert false;
    }
  }

  lemma DivMonotone(x: nat, y: nat, m: nat)
    requires m > 0 && x <= y
    ensures x / m <= y / m
  {
    var q, r := DivMod(x, m);
    DivAtLeast(y, m, q);
  }

  lemma QuotientAtMost(x: nat, m: nat)
    requires m > 0
    ensures 0 <= x / m <= x
  {
    var q, r := DivMod(x, m);
  }
}
