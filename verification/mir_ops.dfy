/** The operator tables of the IR instructions: `Icmp`/`Fcmp` comparison
    operators with their swap, inverse and operand reversal, and the
    commutativity/associativity predicates of `IntBinary`/`FloatBinary`
    (include/Mir/Instruction.h). */
module MirOps {
  import opened Wrappers
  import opened Int32
  import opened SafeCalc
  import Bits

  datatype CmpOp = EQ | NE | GT | LT | GE | LE

  /** What `icmp` computes on signed 32-bit values (and `fcmp` on ordered
      operands). */
  predicate Holds(op: CmpOp, a: int, b: int)
  {
    match op
    case EQ => a == b
    case NE => a != b
    case GT => a > b
    case LT => a < b
    case GE => a >= b
    case LE => a <= b
  }

  /** `Icmp::swap_op`: the operator that holds for swapped operands. */
  function IcmpSwapOp(op: CmpOp): (r: CmpOp)
    ensures forall a: int, b: int :: Holds(r, b, a) == Holds(op, a, b)
    ensures (op == EQ || op == NE) ==> r == op
  {
    match op
    case GT => LT
    case LT => GT
    case GE => LE
    case LE => GE
    case _ => op
  }

  /** `Fcmp::swap_op`: the same table as `Icmp::swap_op`. */
  function FcmpSwapOp(op: CmpOp): (r: CmpOp)
    ensures forall a: real, b: real :: HoldsReal(r, b, a) == HoldsReal(op, a, b)
    ensures r == IcmpSwapOp(op)
  {
    match op
    case GT => LT
    case LT => GT
    case GE => LE
    case LE => GE
    case _ => op
  }

  predicate HoldsReal(op: CmpOp, a: real, b: real)
  {
    match op
    case EQ => a == b
    case NE => a != b
    case GT => a > b
    case LT => a < b
    case GE => a >= b
    case LE => a <= b
  }

  /** `Icmp::inverse_op`: the operator that holds exactly when `op` fails. */
  function IcmpInverseOp(op: CmpOp): (r: CmpOp)
    ensures forall a: int, b: int :: Holds(r, a, b) == !Holds(op, a, b)
  {
    match op
    case EQ => NE
    case NE => EQ
    case GT => LE
    case LT => GE
    case GE => LT
    case LE => GT
  }

  lemma SwapInvolution(op: CmpOp)
    ensures IcmpSwapOp(IcmpSwapOp(op)) == op
  {
    // the semantic characterisation pins the operator down
    var r := IcmpSwapOp(IcmpSwapOp(op));
    assert Holds(r, 0, 1) == Holds(op, 0, 1) && Holds(r, 1, 0) == Holds(op, 1, 0) && Holds(r, 0, 0) == Holds(op, 0, 0);
    OperatorDeterminedBySamples(r, op);
  }

  lemma InverseInvolutionNoFixedPoint(op: CmpOp)
    ensures IcmpInverseOp(IcmpInverseOp(op)) == op
    ensures IcmpInverseOp(op) != op
  {
    var r := IcmpInverseOp(IcmpInverseOp(op));
    assert Holds(r, 0, 1) == Holds(op, 0, 1) && Holds(r, 1, 0) == Holds(op, 1, 0) && Holds(r, 0, 0) == Holds(op, 0, 0);
    OperatorDeterminedBySamples(r, op);
    assert Holds(IcmpInverseOp(op), 0, 0) != Holds(op, 0, 0);
  }

  /** Two operators agreeing on `<`, `>` and `=` samples are the same. */
  lemma OperatorDeterminedBySamples(p: CmpOp, q: CmpOp)
    requires Holds(p, 0, 1) == Holds(q, 0, 1) && Holds(p, 1, 0) == Holds(q, 1, 0) && Holds(p, 0, 0) == Holds(q, 0, 0)
    ensures p == q
  {
  }

  /** A comparison instruction: operator and two operand names. */
  datatype Cmp = Cmp(op: CmpOp, lhs: string, rhs: string)

  /** `reverse_op`: swap the operator and exchange the operands. */
  function ReverseOp(c: Cmp): (r: Cmp)
    ensures r.lhs == c.rhs && r.rhs == c.lhs
    ensures forall env: string -> int :: Holds(r.op, env(r.lhs), env(r.rhs)) == Holds(c.op, env(c.lhs), env(c.rhs))
  {
    Cmp(IcmpSwapOp(c.op), c.rhs, c.lhs)
  }

  lemma ReverseOpTwice(c: Cmp)
    ensures ReverseOp(ReverseOp(c)) == c
  {
    SwapInvolution(c.op);
  }

  datatype IntOp = ADD | SUB | MUL | DIV | MOD | AND | OR | XOR | SMAX | SMIN

  /** `IntBinary::is_commutative`; `sub`, `sdiv` and `srem` are not. */
  predicate IntIsCommutative(op: IntOp)
    ensures op == DIV || op == MOD || op == SUB ==> !IntIsCommutative(op)
  {
    match op
    case ADD | MUL | AND | OR | XOR | SMAX | SMIN => true
    case _ => false
  }

  /** `IntBinary::is_associative`: the same operators as
      `is_commutative`. */
  predicate IntIsAssociative(op: IntOp)
    ensures IntIsAssociative(op) == IntIsCommutative(op)
  {
    match op
    case ADD | MUL | AND | OR | XOR | SMAX | SMIN => true
    case _ => false
  }

  /** `is_associative_op`: the same operators again. */
  predicate IsAssociativeOp(op: IntOp)
    ensures IsAssociativeOp(op) == IntIsAssociative(op)
  {
    match op
    case ADD | MUL | AND | OR | XOR | SMAX | SMIN => true
    case _ => false
  }

  /** What the IR computes: `add`/`sub`/`mul` wrap, `sdiv`/`srem` are
      undefined for a zero divisor and for `INT_MIN / -1`. */
  function EvalInt(op: IntOp, a: I32, b: I32): (r: Option<I32>)
    ensures r.None? <==> (op == DIV || op == MOD) && (b == 0 || (a == MIN && b == -1))
  {
    match op
    case ADD => Some(Wrap(a + b))
    case SUB => Some(Wrap(a - b))
    case MUL => Some(Wrap(a * b))
    case DIV => SafeDivides(a, b)
    case MOD => SafeModulus(a, b)
    case AND => Some(Wrap(Bits.And(ToUnsigned(a), ToUnsigned(b))))
    case OR => Some(Wrap(Bits.Or(ToUnsigned(a), ToUnsigned(b))))
    case XOR => Some(Wrap(Bits.Xor(ToUnsigned(a), ToUnsigned(b))))
    case SMAX => Some(if a >= b then a else b)
    case SMIN => Some(if a <= b then a else b)
  }

  /** An operator is marked commutative exactly when exchanging the operands
      never changes the result. */
  lemma CommutativeIffSemantic(op: IntOp)
    ensures IntIsCommutative(op) <==> forall a: I32, b: I32 :: EvalInt(op, a, b) == EvalInt(op, b, a)
  {
    if IntIsCommutative(op) {
      forall a: I32, b: I32 ensures EvalInt(op, a, b) == EvalInt(op, b, a) {
        Bits.AndCommutative(ToUnsigned(a), ToUnsigned(b));
        Bits.OrCommutative(ToUnsigned(a), ToUnsigned(b));
        Bits.XorCommutative(ToUnsigned(a), ToUnsigned(b));
      }
    } else {
      var w := if op == SUB then (1, 0) else (2, 1);
      assert EvalInt(op, w.0, w.1) != EvalInt(op, w.1, w.0) by {
        if op == DIV { assert SafeDivides(1, 2) == Some(0); }
        if op == MOD { assert SafeModulus(1, 2) == Some(1) && SafeModulus(2, 1) == Some(0); }
      }
    }
  }

  /** Every operator marked associative regroups freely. */
  lemma AssociativeSemantic(op: IntOp, a: I32, b: I32, c: I32)
    requires IntIsAssociative(op)
    ensures EvalInt(op, EvalInt(op, a, b).value, c) == EvalInt(op, a, EvalInt(op, b, c).value)
  {
    match op
    case ADD => RingAssociative(op, a, b, c);
    case MUL => RingAssociative(op, a, b, c);
    case AND => BitwiseAssociative(op, a, b, c);
    case OR => BitwiseAssociative(op, a, b, c);
    case XOR => BitwiseAssociative(op, a, b, c);
    case SMAX =>
    case SMIN =>
  }

  lemma RingAssociative(op: IntOp, a: I32, b: I32, c: I32)
    requires op == ADD || op == MUL
    ensures EvalInt(op, EvalInt(op, a, b).value, c) == EvalInt(op, a, EvalInt(op, b, c).value)
  {
    if op == ADD {
      assert EvalInt(op, a, b).value == Wrap(a + b) && EvalInt(op, b, c).value == Wrap(b + c);
      WrappedSumAssociative(a, b, c);
    } else {
      assert EvalInt(op, a, b).value == Wrap(a * b) && EvalInt(op, b, c).value == Wrap(b * c);
      WrappedProductAssociative(a, b, c);
    }
  }

  lemma WrappedSumAssociative(a: int, b: int, c: int)
    ensures Wrap(Wrap(a + b) + c) == Wrap(a + Wrap(b + c))
  {
    WrapAddLeft(a + b, c);
    WrapAddRight(a, b + c);
  }

  lemma WrappedProductAssociative(a: int, b: int, c: int)
    ensures Wrap(Wrap(a * b) * c) == Wrap(a * Wrap(b * c))
  {
    var p, q := a * b, b * c;
    WrapMulLeft(p, c);
    WrapMulRight(a, q);
    ProductRegroups(a, b, c);
  }

  lemma BitwiseAssociative(op: IntOp, a: I32, b: I32, c: I32)
    requires op == AND || op == OR || op == XOR
    ensures EvalInt(op, EvalInt(op, a, b).value, c) == EvalInt(op, a, EvalInt(op, b, c).value)
  {
    var ua, ub, uc := ToUnsigned(a), ToUnsigned(b), ToUnsigned(c);
    assert MODULUS == Pow2(32) by { Pow2Values(); }
    Bits.WidthBound(ua, ub, 32); Bits.WidthBound(ub, uc, 32);
    if op == AND {
      UnsignedWrap(Bits.And(ua, ub)); UnsignedWrap(Bits.And(ub, uc));
      Bits.AndAssociative(ua, ub, uc);
    } else if op == OR {
      UnsignedWrap(Bits.Or(ua, ub)); UnsignedWrap(Bits.Or(ub, uc));
      Bits.OrAssociative(ua, ub, uc);
    } else {
      UnsignedWrap(Bits.Xor(ua, ub)); UnsignedWrap(Bits.Xor(ub, uc));
      Bits.XorAssociative(ua, ub, uc);
    }
  }

  lemma ProductRegroups(a: int, b: int, c: int)
    ensures (a * b) * c == a * (b * c)
  {
  }

  datatype FloatOp = FADD | FSUB | FMUL | FDIV | FMOD | FSMAX | FSMIN

  predicate FloatIsCommutative(op: FloatOp)
  {
    match op
    case FADD | FMUL | FSMAX | FSMIN => true
    case _ => false
  }

  /** `FloatBinary::is_associative`: the commutative operators, exactly
      those whose integer counterpart is commutative. */
  predicate FloatIsAssociative(op: FloatOp)
    ensures FloatIsAssociative(op) == FloatIsCommutative(op) == IntIsCommutative(IntCounterpart(op))
  {
    match op
    case FADD | FMUL | FSMAX | FSMIN => true
    case _ => false
  }

  function IntCounterpart(op: FloatOp): IntOp
  {
    match op
    case FADD => ADD case FSUB => SUB case FMUL => MUL case FDIV => DIV
    case FMOD => MOD case FSMAX => SMAX case FSMIN => SMIN
  }
}
