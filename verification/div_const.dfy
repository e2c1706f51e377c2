/** The bit helpers of `DivRemOpt` and the case split of `applyDivConst`,
    which lowers a signed 32-bit division by a constant on RISC-V
    (src/Backend/InstructionSets/RISC-V/Opt/Arithmetic.cpp). */
module DivRemOpt {
  import opened Int32
  import opened Arith
  import Bits

  /** `isPowerOf2`: `x > 0 && (x & (x - 1)) == 0`. */
  predicate IsPowerOf2(x: I32)
  {
    x > 0 && Bits.And(x, x - 1) == 0
  }

  lemma {:induction false} AndSelf(y: nat)
    ensures Bits.And(y, y) == y
  {
    if y > 0 { AndSelf(y / 2); }
  }

  /** The bit test recognises exactly the powers of two. */
  lemma {:induction false} PowerOf2Test(x: nat)
    requires x > 0
    ensures Bits.And(x, x - 1) == 0 <==> exists k: nat :: x == Pow2(k)
  {
    if x == 1 {
      assert x == Pow2(0);
    } else if x % 2 == 0 {
      var y := x / 2;
      assert Bits.And(x, x - 1) == 2 * Bits.And(y, y - 1) by {
        assert (x - 1) / 2 == y - 1 && (x - 1) % 2 == 1;
      }
      PowerOf2Test(y);
      PowerOfTwoHalves(x, y);
    } else {
      var y := x / 2;
      assert Bits.And(x, x - 1) == 2 * Bits.And(y, y) by {
        assert (x - 1) / 2 == y && (x - 1) % 2 == 0;
      }
      AndSelf(y);
      forall k: nat | x == Pow2(k) ensures false {
        if k > 0 { Pow2Even(k); }
      }
    }
  }

  /** An even number is a power of two exactly when its half is. */
  lemma PowerOfTwoHalves(x: nat, y: nat)
    requires x == 2 * y && y > 0
    ensures (exists k: nat :: x == Pow2(k)) <==> (exists k: nat :: y == Pow2(k))
  {
    if k: nat :| y == Pow2(k) {
      assert x == Pow2(k + 1);
    }
    if k: nat :| x == Pow2(k) {
      if k > 0 {
        assert y == Pow2(k - 1);
      }
    }
  }

  lemma Pow2Even(k: nat)
    requires k > 0
    ensures Pow2(k) % 2 == 0
  {
  }

  lemma IsPowerOf2Iff(x: I32)
    ensures IsPowerOf2(x) <==> x > 0 && exists k: nat :: x == Pow2(k)
  {
    if x > 0 { PowerOf2Test(x); }
  }

  /** One step of the leading-zero cascade: if the value is at least
      `pow` (= 2^s), shift it right by `s` and count `s` fewer zeros. */
  function Step(n: int, i: nat, s: nat, pow: nat): (int, nat)
    requires pow > 0
  {
    if i >= pow then (n - s, i / pow) else (n, i)
  }

  /** `numberOfLeadingZeros`. */
  function NumberOfLeadingZeros(i: I32): int
  {
    if i <= 0 then (if i == 0 then 32 else 0)
    else
      var (n4, i4) := Cascade(i);
      n4 - i4 / 2
  }

  /** The four shift steps for a positive input. */
  function Cascade(x: I32): (int, nat)
    requires x > 0
  {
    var (n1, i1) := Step(31, x, 16, 0x1_0000);
    var (n2, i2) := Step(n1, i1, 8, 0x100);
    var (n3, i3) := Step(n2, i2, 4, 0x10);
    Step(n3, i3, 2, 4)
  }

  /** `log2floor`. */
  function Log2Floor(x: I32): int
  {
    31 - NumberOfLeadingZeros(x)
  }

  lemma QuotientBelow(i: nat, pow: nat)
    requires 0 < pow <= i < pow * pow
    ensures 1 <= i / pow < pow
  {
    if i / pow >= pow { MulMonotone(pow, i / pow, pow); }
  }

  /** The cascade keeps `i` equal to the input shifted right by the bits
      already counted, and halves the width still to be examined. */
  lemma StepInvariant(x: nat, n: int, i: nat, s: nat, pow: nat)
    requires 0 <= 31 - n && s > 0 && pow == Pow2(s)
    requires i == x / Pow2(31 - n) && 1 <= i < pow * pow
    ensures var (n', i') := Step(n, i, s, pow);
      0 <= 31 - n' && i' == x / Pow2(31 - n') && 1 <= i' < pow
  {
    if i >= pow {
      DivDiv(x, 31 - n, s);
      QuotientBelow(i, pow);
    }
  }

  lemma CascadeConstants()
    ensures Pow2(16) == 0x1_0000 && Pow2(8) == 0x100 && Pow2(4) == 0x10 && Pow2(2) == 4
    ensures 0x1_0000 * 0x1_0000 == MODULUS
  {
    Pow2Values();
  }

  /** The last two bits decide between `n` and `n - 1`. */
  lemma FinalBracket(x: nat, a: nat, i: nat)
    requires i == x / Pow2(a) && 1 <= i < 4
    ensures i == 1 ==> Pow2(a) <= x < Pow2(a + 1)
    ensures i >= 2 ==> Pow2(a + 1) <= x < Pow2(a + 2)
  {
    var d := Pow2(a);
    var r := x % d;
    assert x == i * d + r && 0 <= r < d;
    assert Pow2(a + 1) == 2 * d;
    assert Pow2(a + 2) == 2 * Pow2(a + 1);
    SmallMultiple(x, i, d, r);
  }

  lemma SmallMultiple(x: int, i: int, d: int, r: int)
    requires 1 <= i < 4 && x == i * d + r && 0 <= r < d
    ensures i == 1 ==> d <= x < 2 * d
    ensures i >= 2 ==> 2 * d <= x < 4 * d
  {
    if i == 1 {
      assert x == d + r;
    } else if i == 2 {
      assert x == 2 * d + r;
    } else {
      assert x == 3 * d + r;
    }
  }

  lemma CascadeInvariant(x: I32)
    requires x > 0
    ensures 0 <= 31 - Cascade(x).0 <= 31
    ensures Cascade(x).1 == x / Pow2(31 - Cascade(x).0) && 1 <= Cascade(x).1 < 4
  {
    CascadeConstants();
    assert Pow2(0) == 1;
    var (n1, i1) := Step(31, x, 16, 0x1_0000);
    StepInvariant(x, 31, x, 16, 0x1_0000);
    var (n2, i2) := Step(n1, i1, 8, 0x100);
    StepInvariant(x, n1, i1, 8, 0x100);
    var (n3, i3) := Step(n2, i2, 4, 0x10);
    StepInvariant(x, n2, i2, 4, 0x10);
    StepInvariant(x, n3, i3, 2, 4);
  }

  /** For positive input the result brackets the value between consecutive
      powers of two; zero has 32 leading zeros and negatives none. */
  lemma NumberOfLeadingZerosBounds(x: I32)
    ensures x == 0 ==> NumberOfLeadingZeros(x) == 32
    ensures x < 0 ==> NumberOfLeadingZeros(x) == 0
    ensures x > 0 ==> (0 <= NumberOfLeadingZeros(x) <= 31
      && Pow2(31 - NumberOfLeadingZeros(x)) <= x < Pow2(32 - NumberOfLeadingZeros(x)))
  {
    if x > 0 {
      CascadeInvariant(x);
      var (n4, i4) := Cascade(x);
      var a: nat := 31 - n4;
      FinalBracket(x, a, i4);
      var z := NumberOfLeadingZeros(x);
      assert z == n4 - i4 / 2;
      if i4 == 1 {
        assert 31 - z == a && 32 - z == a + 1;
      } else {
        assert i4 / 2 == 1;
        assert 31 - z == a + 1 && 32 - z == a + 2;
      }
    }
  }

  /** A power of two is recovered from its floor logarithm. */
  lemma Log2FloorOfPowerOf2(x: I32)
    requires IsPowerOf2(x)
    ensures 0 <= Log2Floor(x) <= 30 && Pow2(Log2Floor(x)) == x
  {
    IsPowerOf2Iff(x);
    var k: nat :| x == Pow2(k);
    NumberOfLeadingZerosBounds(x);
    var l := Log2Floor(x);
    if k < l { Pow2Monotone(k + 1, l); }
    if k > l { Pow2Monotone(l + 1, k); }
    if l > 30 { Pow2Values(); Pow2Monotone(31, l); }
  }

  /** The core sequence `applyDivConst` emits for the divisor's magnitude. */
  datatype DivCore =
    | MoveSrc                          // divisor 1: copy the dividend
    | ShiftPow2(x: nat)                // divisor 2^x, 1 <= x <= 30
    | MagicSmall(high: int, sh: nat)   // multiply-high with a 31-bit magic number
    | MagicLarge(high: int, sh: nat)   // multiply-high with a 32-bit magic number, plus add-back

  /** The result of `applyDivConst`: C++ undefined behaviour (a zero
      divisor, or negating INT_MIN), `false`, or the emitted code. */
  datatype DivPlan = Undefined | Unsupported | Plan(core: DivCore, negate: bool)

  /** The halving loop that narrows the magic number. */
  function Narrow(low: int, high: int, sh: nat): (r: (int, int, nat))
    ensures r.2 <= sh
    decreases sh
  {
    if low / 2 < high / 2 && sh > 0 then Narrow(low / 2, high / 2, sh - 1) else (low, high, sh)
  }

  function MagicCore(divisor: I32): DivCore
    requires divisor > 0
  {
    var l := Log2Floor(divisor);
    var l' := if l < 0 then 0 else l;
    var low := Pow2(32 + l') / divisor;
    var high := (Pow2(32 + l') + Pow2(l' + 1)) / divisor;
    var (_, high', sh) := Narrow(low, high, l');
    if high' < Pow2(31) then MagicSmall(high', sh) else MagicLarge(high' - Pow2(32), sh)
  }

  function ApplyDivConst(c: I32): (r: DivPlan)
    // the plan is defined exactly when the divisor is neither 0 nor INT_MIN
    ensures r.Undefined? <==> c == 0 || c == MIN
    // every defined divisor gets code: the `false` return is unreachable
    ensures !r.Unsupported?
    ensures r.Plan? ==> r.negate == (c < 0)
    ensures r.Plan? ==> (r.core == MoveSrc <==> Abs(c) == 1)
    ensures r.Plan? && r.core.ShiftPow2? ==> 1 <= r.core.x <= 30 && Pow2(r.core.x) == Abs(c)
    ensures r.Plan? && (r.core.MagicSmall? || r.core.MagicLarge?) ==> !IsPowerOf2(Abs(c))
  {
    if c == 0 || c == MIN then Undefined
    else
      var divisor: I32 := Abs(c);
      if IsPowerOf2(divisor) then
        var x := Log2Floor(divisor);
        Log2FloorOfPowerOf2(divisor);
        if x == 0 then Plan(MoveSrc, c < 0)
        else if 1 <= x <= 30 then Plan(ShiftPow2(x), c < 0)
        else Unsupported
      else
        assert divisor != 1 by { assert Bits.And(1, 0) == 0; }
        Plan(MagicCore(divisor), c < 0)
  }

  /** `srli v, k` on the 64-bit register holding the sign-extended value. */
  function Srl64(v: I32, k: nat): nat
  {
    var u: nat := if v < 0 then v + TWO_TO_64 else v;
    Quot(u, Pow2(k))
  }

  /** `sraiw v, k`: arithmetic shift, i.e. the floor of `v / 2^k`. */
  function Sra(v: int, k: nat): int
  {
    v / Pow2(k)
  }

  /** The three-instruction sequence for divisor 2^x: add the bias 2^x - 1
      to a negative dividend, then shift arithmetically. */
  function ShiftQuotient(src: I32, x: nat): int
    requires 1 <= x <= 30
  {
    Sra(Wrap(src + Srl64(src, 64 - x)), x)
  }

  lemma SrlBias(src: I32, x: nat)
    requires 1 <= x <= 30
    ensures Srl64(src, 64 - x) == if src < 0 then Pow2(x) - 1 else 0
  {
    var p, d := Pow2(x), Pow2(64 - x);
    SplitTwoTo64(x);
    Pow2AtLeastModulus(64 - x);
    if src < 0 {
      BiasQuotient(src, p, d);
    } else {
      DivBetween(src, d, 0);
    }
  }

  lemma SplitTwoTo64(x: nat)
    requires x <= 64
    ensures Pow2(x) * Pow2(64 - x) == TWO_TO_64
  {
    Pow2Add(x, 64 - x);
    SixtyFourBits();
  }

  lemma Pow2AtLeastModulus(k: nat)
    requires k >= 32
    ensures Pow2(k) >= MODULUS
  {
    Pow2Monotone(32, k);
    Pow2Values();
  }

  /** The logical shift of a negative value's 64-bit pattern by `64 - x`
      leaves `x` one-bits. */
  lemma BiasQuotient(src: int, p: nat, d: nat)
    requires MIN <= src < 0 && p >= 1 && d >= MODULUS && p * d == TWO_TO_64
    ensures Quot(src + TWO_TO_64, d) == p - 1
  {
    assert (p - 1) * d == p * d - d;
    DivBetween(src + TWO_TO_64, d, p - 1);
  }

  /** The shift sequence computes C's truncating quotient by 2^x. */
  lemma ShiftQuotientIsTDiv(src: I32, x: nat)
    requires 1 <= x <= 30
    ensures ShiftQuotient(src, x) == TDiv(src, Pow2(x))
  {
    SrlBias(src, x);
    var p := Pow2(x);
    Pow2AtMost30(x);
    if src >= 0 {
      assert Wrap(src + 0) == src;
    } else {
      assert Wrap(src + (p - 1)) == src + p - 1;
      BiasedFloor(src, p);
    }
  }

  /** Adding `p - 1` before a floor division by `p` rounds a negative
      dividend toward zero. */
  lemma BiasedFloor(src: int, p: nat)
    requires src < 0 && p >= 1
    ensures (src + p - 1) / p == TDiv(src, p)
  {
    var a := -src;
    var q := a / p;
    assert a == q * p + a % p && 0 <= a % p < p;
    assert (-q) * p == -(q * p) && (-q + 1) * p == -(q * p) + p;
    DivBetween(src + p - 1, p, -q);
  }

  /** The final negation for a negative divisor, as written: the `li ans, 0`
      is constructed but never emitted, so the `sub` reads whatever `ans`
      held before. */
  function FinishAsWritten(q: int, negate: bool, ansBefore: I32): I32
  {
    if negate then Wrap(ansBefore - q) else Wrap(q)
  }

  /** The evidently intended negation: `ans = 0 - q`. */
  function FinishCorrected(q: int, negate: bool): I32
  {
    if negate then Wrap(0 - q) else Wrap(q)
  }

  /** What the emitted code leaves in `ans` for a power-of-two divisor. */
  function PowerOf2Quotient(core: DivCore, src: I32): int
    requires core.MoveSrc? || (core.ShiftPow2? && 1 <= core.x <= 30)
  {
    if core.MoveSrc? then src else ShiftQuotient(src, core.x)
  }

  /** With the corrected negation, every power-of-two divisor (of either
      sign) yields C's quotient, wrapped to 32 bits as the hardware does for
      INT_MIN / -1. */
  lemma CorrectedPowerOf2Division(c: I32, src: I32)
    requires ApplyDivConst(c).Plan? && (ApplyDivConst(c).core.MoveSrc? || ApplyDivConst(c).core.ShiftPow2?)
    ensures var p := ApplyDivConst(c);
      FinishCorrected(PowerOf2Quotient(p.core, src), p.negate) == Wrap(TDiv(src, c))
  {
    var p := ApplyDivConst(c);
    PowerOf2Core(c, p.core, src);
  }

  lemma PowerOf2Core(c: I32, core: DivCore, src: I32)
    requires c != 0 && c != MIN
    requires core == MoveSrc || (core.ShiftPow2? && 1 <= core.x <= 30)
    requires core == MoveSrc <==> Abs(c) == 1
    requires core.ShiftPow2? ==> Pow2(core.x) == Abs(c)
    ensures FinishCorrected(PowerOf2Quotient(core, src), c < 0) == Wrap(TDiv(src, c))
  {
    if core.ShiftPow2? { ShiftQuotientIsTDiv(src, core.x); }
    var q := TDiv(src, Abs(c));
    assert PowerOf2Quotient(core, src) == q;
    if c < 0 { assert TDiv(src, c) == -q; }
  }

  /** The as-written negation goes wrong: dividing 4 by -1 into a register
      that held 7 leaves 3 instead of -4. */
  lemma NegativeDivisorAsWritten()
    ensures var p := ApplyDivConst(-1);
      p == Plan(MoveSrc, true)
      && FinishAsWritten(PowerOf2Quotient(p.core, 4), p.negate, 7) == 3
      && TDiv(4, -1) == -4
  {
  }
}
