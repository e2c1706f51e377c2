/** Nonlinear facts about multiplication and Euclidean division, each
    small enough for the solver on its own. */
module Arith {
  import opened Int32

  lemma MulMonotone(x: int, y: int, b: nat)
    requires x <= y
    ensures x * b <= y * b
  {
    assert y * b - x * b == (y - x) * b;
  }

  /** `n / d == q` whenever `q * d <= n < (q + 1) * d`. */
  lemma DivBetween(n: int, d: int, q: int)
    requires d > 0 && q * d <= n < (q + 1) * d
    ensures n / d == q
  {
    var r := n / d;
    assert n == r * d + n % d && 0 <= n % d < d;
    if r < q { MulMonotone(r + 1, q, d); }
    if r > q { MulMonotone(q + 1, r, d); }
  }

  lemma Distribute(m: int, q: int, r: int, p: int)
    ensures (m * q + r) * p == m * (q * p) + r * p
  {
  }

  /** Dividing by `p` and then by `q` is dividing by `p * q`. */
  lemma DivDivGeneral(x: nat, p: nat, q: nat)
    requires p > 0 && q > 0
    ensures x / p / q == x / (p * q)
  {
    var a1, r1 := x / p, x % p;
    var m, r2 := a1 / q, a1 % q;
    DivDivBracket(x, p, q, a1, r1, m, r2);
    MulCommutes(q, p);
    DivBetween(x, p * q, m);
  }

  /** Two nested Euclidean divisions bracket `x` between consecutive
      multiples of `q * p`. */
  lemma DivDivBracket(x: int, p: int, q: int, a1: int, r1: int, m: int, r2: int)
    requires p > 0 && q > 0
    requires x == a1 * p + r1 && 0 <= r1 < p
    requires a1 == m * q + r2 && 0 <= r2 < q
    ensures m * (q * p) <= x < (m + 1) * (q * p)
  {
    Distribute(m, q, r2, p);
    MulMonotone(r2, q - 1, p);
    var qp := q * p;
    assert (q - 1) * p == qp - p;
    assert (m + 1) * qp == m * qp + qp;
  }

  /** Dividing by 2^a and then by 2^b is dividing by 2^(a+b). */
  lemma DivDiv(x: nat, a: nat, b: nat)
    ensures x / Pow2(a) / Pow2(b) == x / Pow2(a + b)
  {
    Pow2Add(a, b);
    DivDivGeneral(x, Pow2(a), Pow2(b));
  }

  /** The quotient of naturals, as a natural. */
  function Quot(n: nat, d: nat): nat
    requires d > 0
  {
    n / d
  }
}
