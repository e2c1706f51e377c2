/** Bitwise `&`, `|` and `^` on non-negative integers, defined bit by bit
    from the least significant end. */
module Bits {
  import opened Int32

  function And(a: nat, b: nat): nat
    decreases a
  {
    if a == 0 || b == 0 then 0
    else 2 * And(a / 2, b / 2) + (if a % 2 == 1 && b % 2 == 1 then 1 else 0)
  }

  function Or(a: nat, b: nat): nat
    decreases a
  {
    if a == 0 then b
    else if b == 0 then a
    else 2 * Or(a / 2, b / 2) + (if a % 2 == 1 || b % 2 == 1 then 1 else 0)
  }

  function Xor(a: nat, b: nat): nat
    decreases a
  {
    if a == 0 then b
    else if b == 0 then a
    else 2 * Xor(a / 2, b / 2) + (if a % 2 != b % 2 then 1 else 0)
  }

  /** Every operation splits into the high bits and the lowest bit. */
  lemma {:induction false} AndSplit(a: nat, b: nat)
    ensures And(a, b) / 2 == And(a / 2, b / 2)
    ensures And(a, b) % 2 == (if a % 2 == 1 && b % 2 == 1 then 1 else 0)
  {
    if a == 0 || b == 0 {
      if a == 0 { assert And(a / 2, b / 2) == 0; } else { assert And(a / 2, b / 2) == 0 by { assert b / 2 == 0; } }
    }
  }

  lemma {:induction false} OrSplit(a: nat, b: nat)
    ensures Or(a, b) / 2 == Or(a / 2, b / 2)
    ensures Or(a, b) % 2 == (if a % 2 == 1 || b % 2 == 1 then 1 else 0)
  {
    if a == 0 { assert Or(a / 2, b / 2) == b / 2; }
    else if b == 0 { assert Or(a / 2, b / 2) == a / 2 by { OrZero(a / 2); } }
  }

  lemma {:induction false} XorSplit(a: nat, b: nat)
    ensures Xor(a, b) / 2 == Xor(a / 2, b / 2)
    ensures Xor(a, b) % 2 == (if a % 2 != b % 2 then 1 else 0)
  {
    if a == 0 { assert Xor(a / 2, b / 2) == b / 2; }
    else if b == 0 { assert Xor(a / 2, b / 2) == a / 2 by { XorZero(a / 2); } }
  }

  /** `&` only clears bits, so it never exceeds its first operand. */
  lemma {:induction false} AndBelow(a: nat, b: nat)
    ensures And(a, b) <= a
    decreases a
  {
    if a != 0 && b != 0 {
      AndBelow(a / 2, b / 2);
    }
  }

  lemma OrZero(a: nat) ensures Or(a, 0) == a {}
  lemma XorZero(a: nat) ensures Xor(a, 0) == a {}

  /** Two numbers are equal when their low bits and their high parts are. */
  lemma Recompose(x: nat, y: nat)
    requires x / 2 == y / 2 && x % 2 == y % 2
    ensures x == y
  {
  }

  lemma {:induction false} AndCommutative(a: nat, b: nat)
    ensures And(a, b) == And(b, a)
    decreases a + b
  {
    if a > 0 && b > 0 { AndCommutative(a / 2, b / 2); }
  }

  lemma {:induction false} OrCommutative(a: nat, b: nat)
    ensures Or(a, b) == Or(b, a)
    decreases a + b
  {
    if a > 0 && b > 0 { OrCommutative(a / 2, b / 2); }
  }

  lemma {:induction false} XorCommutative(a: nat, b: nat)
    ensures Xor(a, b) == Xor(b, a)
    decreases a + b
  {
    if a > 0 && b > 0 { XorCommutative(a / 2, b / 2); }
  }

  lemma {:induction false} AndAssociative(a: nat, b: nat, c: nat)
    ensures And(And(a, b), c) == And(a, And(b, c))
    decreases a + b + c
  {
    if a + b + c > 0 {
      AndSplit(And(a, b), c); AndSplit(a, b);
      AndSplit(a, And(b, c)); AndSplit(b, c);
      AndAssociative(a / 2, b / 2, c / 2);
      Recompose(And(And(a, b), c), And(a, And(b, c)));
    }
  }

  lemma {:induction false} OrAssociative(a: nat, b: nat, c: nat)
    ensures Or(Or(a, b), c) == Or(a, Or(b, c))
    decreases a + b + c
  {
    if a + b + c > 0 {
      OrSplit(Or(a, b), c); OrSplit(a, b);
      OrSplit(a, Or(b, c)); OrSplit(b, c);
      OrAssociative(a / 2, b / 2, c / 2);
      Recompose(Or(Or(a, b), c), Or(a, Or(b, c)));
    }
  }

  lemma {:induction false} XorAssociative(a: nat, b: nat, c: nat)
    ensures Xor(Xor(a, b), c) == Xor(a, Xor(b, c))
    decreases a + b + c
  {
    if a + b + c > 0 {
      XorSplit(Xor(a, b), c); XorSplit(a, b);
      XorSplit(a, Xor(b, c)); XorSplit(b, c);
      XorAssociative(a / 2, b / 2, c / 2);
      Recompose(Xor(Xor(a, b), c), Xor(a, Xor(b, c)));
    }
  }

  /** Results stay within `k` bits when the operands do. */
  lemma {:induction false} WidthBound(a: nat, b: nat, k: nat)
    requires a < Pow2(k) && b < Pow2(k)
    ensures And(a, b) < Pow2(k) && Or(a, b) < Pow2(k) && Xor(a, b) < Pow2(k)
  {
    if k > 0 && a > 0 && b > 0 {
      WidthBound(a / 2, b / 2, k - 1);
    }
  }
}
