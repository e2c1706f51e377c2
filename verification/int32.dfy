/** 32-bit two's-complement integers as the compiler's C++ `int` and the
    generated code see them: bounds, wrap-around, and C's truncating
    division and remainder. */
module Int32 {

  const MIN: int := -0x8000_0000
  const MAX: int := 0x7fff_ffff
  const MODULUS: int := 0x1_0000_0000

  predicate InRange(x: int) { MIN <= x <= MAX }

  type I32 = x: int | MIN <= x <= MAX

  /** Two's-complement wrap-around of an exact result to 32 bits: the one
      value in range that differs from `x` by a multiple of 2^32. */
  function Wrap(x: int): (r: I32)
    ensures InRange(x) ==> r == x
    decreases if x < MIN then MIN - x else if x > MAX then x - MAX else 0
  {
    if x < MIN then Wrap(x + 0x1_0000_0000)
    else if x > MAX then Wrap(x - 0x1_0000_0000)
    else x
  }

  /** C's `/`: the quotient truncated toward zero. */
  function TDiv(a: int, b: int): int
    requires b != 0
  {
    if (a < 0) == (b < 0) then Abs(a) / Abs(b) else -(Abs(a) / Abs(b))
  }

  /** C's `%`: the remainder whose sign follows the dividend. */
  function TMod(a: int, b: int): int
    requires b != 0
  {
    a - b * TDiv(a, b)
  }

  function Abs(x: int): nat { if x < 0 then -x else x }

  function Pow2(k: nat): (r: nat)
    ensures r >= 1
  {
    if k == 0 then 1 else 2 * Pow2(k - 1)
  }

  lemma WrapInRange(x: int)
    requires InRange(x)
    ensures Wrap(x) == x
  {
  }

  /** A value in range that differs from `x` by `k` times 2^32 is `x`'s wrap. */
  lemma {:induction false} WrapUnique(x: int, k: int)
    requires InRange(x + k * 0x1_0000_0000)
    ensures Wrap(x) == x + k * 0x1_0000_0000
    decreases if k < 0 then -k else k
  {
    if k > 0 {
      WrapUnique(x + 0x1_0000_0000, k - 1);
    } else if k < 0 {
      WrapUnique(x - 0x1_0000_0000, k + 1);
    }
  }

  /** Wrapping moves a value by a whole number of 2^32 steps. */
  lemma {:induction false} WrapOffset(x: int) returns (k: int)
    ensures Wrap(x) == x + k * 0x1_0000_0000
    decreases if x < MIN then MIN - x else if x > MAX then x - MAX else 0
  {
    if x < MIN {
      var k' := WrapOffset(x + 0x1_0000_0000);
      k := k' + 1;
    } else if x > MAX {
      var k' := WrapOffset(x - 0x1_0000_0000);
      k := k' - 1;
    } else {
      k := 0;
    }
  }

  /** Values that differ by a multiple of 2^32 wrap to the same value. */
  lemma WrapShift(x: int, k: int)
    ensures Wrap(x + k * 0x1_0000_0000) == Wrap(x)
  {
    var k0 := WrapOffset(x);
    WrapUnique(x + k * 0x1_0000_0000, k0 - k);
  }

  /** Wrapping an operand before an addition, a subtraction or a
      multiplication does not change the wrapped result. */
  lemma WrapAddLeft(x: int, y: int)
    ensures Wrap(Wrap(x) + y) == Wrap(x + y)
  {
    var k := WrapOffset(x);
    WrapShift(x + y, k);
  }

  lemma WrapAddRight(x: int, y: int)
    ensures Wrap(x + Wrap(y)) == Wrap(x + y)
  {
    var k := WrapOffset(y);
    WrapShift(x + y, k);
  }

  lemma WrapSubLeft(x: int, y: int)
    ensures Wrap(Wrap(x) - y) == Wrap(x - y)
  {
    var k := WrapOffset(x);
    WrapShift(x - y, k);
  }

  lemma WrapSubRight(x: int, y: int)
    ensures Wrap(x - Wrap(y)) == Wrap(x - y)
  {
    var k := WrapOffset(y);
    WrapShift(x - y, -k);
  }

  lemma WrapMulLeft(x: int, y: int)
    ensures Wrap(Wrap(x) * y) == Wrap(x * y)
  {
    var k := WrapOffset(x);
    ScaleOffset(x, k, y);
    WrapShift(x * y, k * y);
  }

  lemma WrapMulRight(x: int, y: int)
    ensures Wrap(x * Wrap(y)) == Wrap(x * y)
  {
    WrapMulLeft(y, x);
    MulCommutes(x, Wrap(y));
    MulCommutes(x, y);
  }

  lemma MulCommutes(x: int, y: int)
    ensures x * y == y * x
  {
  }

  /** The 32-bit sum and difference of two wrapped values. */
  lemma WrapOfWrappedSum(x: int, y: int)
    ensures Wrap(Wrap(x) + Wrap(y)) == Wrap(x + y)
  {
    var kx := WrapOffset(x);
    var ky := WrapOffset(y);
    WrapShift(x + y, kx + ky);
  }

  lemma WrapOfWrappedDiff(x: int, y: int)
    ensures Wrap(Wrap(x) - Wrap(y)) == Wrap(x - y)
  {
    var kx := WrapOffset(x);
    var ky := WrapOffset(y);
    WrapShift(x - y, kx - ky);
  }

  lemma ScaleOffset(x: int, k: int, y: int)
    ensures (x + k * 0x1_0000_0000) * y == x * y + (k * y) * 0x1_0000_0000
  {
  }

  lemma Pow2Add(a: nat, b: nat)
    ensures Pow2(a + b) == Pow2(a) * Pow2(b)
    decreases a
  {
    if a > 0 {
      Pow2Add(a - 1, b);
    }
  }

  lemma Pow2Monotone(a: nat, b: nat)
    requires a <= b
    ensures Pow2(a) <= Pow2(b)
    decreases b
  {
    if a < b {
      Pow2Monotone(a, b - 1);
    }
  }

  /** 2^64, the modulus of `size_t`. */
  const TWO_TO_64: nat := 0x1_0000_0000_0000_0000

  lemma SixtyFourBits()
    ensures Pow2(64) == TWO_TO_64
  {
    Pow2Values();
    Pow2Add(32, 32);
  }

  lemma Pow2Values()
    ensures Pow2(0) == 1 && Pow2(1) == 2 && Pow2(2) == 4 && Pow2(4) == 16
    ensures Pow2(8) == 256 && Pow2(16) == 0x1_0000
    ensures Pow2(31) == 0x8000_0000 && Pow2(32) == MODULUS
  {
    Pow2Add(16, 16);
    Pow2Add(16, 15);
    Pow2Add(8, 8);
    Pow2Add(4, 4);
    Pow2Add(2, 2);
    assert Pow2(15) == 0x8000 by { Pow2Add(8, 7); Pow2Add(4, 3); }
  }

  lemma Pow2AtMost30(x: nat)
    requires x <= 30
    ensures Pow2(x) <= 0x4000_0000
  {
    Pow2Monotone(x, 30);
    Pow2Values();
    Pow2Add(16, 14);
    Pow2Add(8, 6);
    Pow2Add(4, 2);
  }

  /** The unsigned reading of a value's 32 bits. */
  function ToUnsigned(x: I32): (u: nat)
    ensures u < MODULUS && (u == x || u == x + MODULUS)
  {
    if x < 0 then x + MODULUS else x
  }

  lemma UnsignedWrap(u: nat)
    requires u < MODULUS
    ensures ToUnsigned(Wrap(u)) == u
  {
    if u > MAX {
      WrapUnique(u, -1);
    }
  }
}
