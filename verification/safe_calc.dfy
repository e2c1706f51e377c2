/** Overflow-checked 32-bit arithmetic used by constant folding
    (`safe_calculate_int`): every operation either yields the exact
    mathematical result, which then fits in 32 bits, or reports that the
    result is not representable. */
module SafeCalc {
  import opened Wrappers
  import opened Int32
  import opened Arith

  /** The five operator functors the template is instantiated with. */
  datatype ArithOp = Plus | Minus | Multiplies | Divides | Modulus

  function SafeCalculateInt(a: I32, b: I32, op: ArithOp): (r: Option<I32>)
  {
    match op
    case Plus => SafePlus(a, b)
    case Minus => SafeMinus(a, b)
    case Multiplies => SafeMultiplies(a, b)
    case Divides => SafeDivides(a, b)
    case Modulus => SafeModulus(a, b)
  }

  function SafePlus(a: I32, b: I32): (r: Option<I32>)
    ensures r.None? <==> !InRange(a + b)
    ensures r.Some? ==> r.value == a + b
  {
    if b > 0 && a > MAX - b then None
    else if b < 0 && a < MIN - b then None
    else Some(a + b)
  }

  function SafeMinus(a: I32, b: I32): (r: Option<I32>)
    ensures r.None? <==> !InRange(a - b)
    ensures r.Some? ==> r.value == a - b
  {
    if b < 0 && a > MAX + b then None
    else if b > 0 && a < MIN + b then None
    else Some(a - b)
  }

  function SafeMultiplies(a: I32, b: I32): (r: Option<I32>)
    ensures a == 0 || b == 0 ==> r == Some(0)
    ensures a == -1 && b == MIN ==> r.None?
    ensures r.None? <==> !InRange(a * b)
    ensures r.Some? ==> r.value == a * b
  {
    var x: int, y: int := a, b;
    if x == 0 || y == 0 then Some(0)
    else if (x == -1 && y == MIN) || (y == -1 && x == MIN) then
      assert x * y == -MIN by { if x == -1 { assert x * y == -y; } else { assert x * y == -x; } }
      None
    else if x > 0 then
      if y > 0 then
        ProductAboveIff(x, MAX, y);
        assert TDiv(MAX, y) == MAX / y;
        if x > TDiv(MAX, y) then None else Some(a * b)
      else
        ProductAboveIff(-y, -MIN, x);
        NegProduct(-y, x);
        assert TDiv(MIN, x) == -((-MIN) / x);
        if y < TDiv(MIN, x) then None else Some(a * b)
    else
      if y > 0 then
        ProductAboveIff(-x, -MIN, y);
        NegProduct(-x, y);
        assert TDiv(MIN, y) == -((-MIN) / y);
        if x < TDiv(MIN, y) then None else Some(a * b)
      else
        ProductAboveIff(-x, MAX, -y);
        NegNegProduct(x, y);
        assert TDiv(MAX, y) == -(MAX / (-y));
        if x < TDiv(MAX, y) then None else Some(a * b)
  }

  lemma NegProduct(p: int, q: int)
    ensures (-p) * q == -(p * q)
  {
  }

  lemma NegNegProduct(p: int, q: int)
    ensures (-p) * (-q) == p * q
  {
  }

  /** For a positive divisor, `a * b > m` is the same test as `a > m / b`. */
  lemma ProductAboveIff(a: int, m: nat, b: int)
    requires b > 0
    ensures a * b > m <==> a > m / b
  {
    var q := m / b;
    DivModFacts(m, b);
    if a > q {
      MulMonotone(q + 1, a, b);
      assert (q + 1) * b == q * b + b;
    } else {
      MulMonotone(a, q, b);
    }
  }

  /** Euclidean division of naturals, spelled out for the nonlinear steps. */
  lemma DivModFacts(n: nat, d: nat)
    requires d > 0
    ensures n == (n / d) * d + n % d
    ensures 0 <= n % d < d
    ensures 0 <= n / d <= n
    ensures d > 1 && n > 0 ==> n / d < n
  {
    var q, r := n / d, n % d;
    assert n == q * d + r && 0 <= r < d;
    if q < 0 {
      MulMonotone(q, -1, d);
      assert false;
    }
    if q > n {
      MulMonotone(n + 1, q, d);
      MulMonotone(1, d, n + 1);
      assert false;
    }
    if d > 1 && n > 0 && q == n {
      MulMonotone(2, d, n);
      assert false;
    }
  }

  function SafeDivides(a: I32, b: I32): (r: Option<I32>)
    ensures r.None? <==> b == 0 || (a == MIN && b == -1)
    ensures r.Some? ==> b != 0 && r.value == TDiv(a, b)
  {
    if b == 0 then None
    else if a == MIN && b == -1 then None
    else
      QuotientInRange(a, b);
      Some(TDiv(a, b))
  }

  function SafeModulus(a: I32, b: I32): (r: Option<I32>)
    ensures r.None? <==> b == 0 || (a == MIN && b == -1)
    ensures r.Some? ==> b != 0 && r.value == TMod(a, b) && Abs(r.value) < Abs(b)
  {
    if b == 0 then None
    else if a == MIN && b == -1 then None
    else
      RemainderBound(a, b);
      assert InRange(TMod(a, b));
      Some(TMod(a, b))
  }

  /** A truncated quotient is no larger in magnitude than its dividend, so it
      fits in 32 bits unless it is `MIN / -1`. */
  lemma QuotientInRange(a: int, b: int)
    requires InRange(a) && b != 0 && !(a == MIN && b == -1)
    ensures InRange(TDiv(a, b))
  {
    DivModFacts(Abs(a), Abs(b));
  }

  /** The remainder is smaller than the divisor in magnitude and, when not
      zero, carries the dividend's sign. */
  lemma RemainderBound(a: int, b: int)
    requires b != 0
    ensures Abs(TMod(a, b)) < Abs(b)
    ensures TMod(a, b) == 0 || (TMod(a, b) < 0 <==> a < 0)
    ensures Abs(TMod(a, b)) <= Abs(a)
  {
    var q := Abs(a) / Abs(b);
    var s := Abs(a) % Abs(b);
    DivModFacts(Abs(a), Abs(b));
    var t := b * TDiv(a, b);
    if (a < 0) == (b < 0) {
      if a >= 0 {
        assert t == q * Abs(b);
      } else {
        NegNegProduct(Abs(b), q);
        assert t == -(q * Abs(b));
      }
    } else {
      if a >= 0 {
        NegNegProduct(Abs(b), q);
        assert t == q * Abs(b);
      } else {
        NegProduct(Abs(b), q);
        assert t == -(q * Abs(b));
      }
    }
    assert TMod(a, b) == a - t;
  }
}
