/** Operand normalisation (src/Pass/Transform/Common/StandardizeBinary.cpp):
    a constant on the left of a commutative operator or of a comparison
    moves to the right, and adding or subtracting a negative constant
    becomes the opposite operation on its magnitude. */
module StandardizeBinary {
  import opened Wrappers
  import opened Int32
  import opened MirOps

  /** An operand: a constant of the instruction's value domain or a named
      value. */
  datatype Operand<T> = Const(c: T) | Var(name: string)

  function Value<T>(o: Operand<T>, env: string -> T): T
  {
    match o
    case Const(c) => c
    case Var(n) => env(n)
  }

  /** The instructions the pass looks at; every other instruction is
      `Other`. Floating-point values are modelled as reals. */
  datatype Inst =
    | IntBinary(iop: IntOp, lhs: Operand<I32>, rhs: Operand<I32>)
    | FloatBinary(fop: FloatOp, flhs: Operand<real>, frhs: Operand<real>)
    | Icmp(cop: CmpOp, lhs: Operand<I32>, rhs: Operand<I32>)
    | Fcmp(cop: CmpOp, flhs: Operand<real>, frhs: Operand<real>)
    | Other(name: string)

  /** What an instruction produces. */
  datatype Outcome = Int(i: Option<I32>) | Float(f: Option<real>) | Bool(b: bool) | Opaque(name: string)

  /** `q` rounded toward zero, as C's `fmod` does with the quotient. */
  function TruncReal(q: real): int
  {
    if q >= 0.0 then q.Floor else -((-q).Floor)
  }

  /** The exact result of a floating-point operator; a zero divisor gives
      no number. */
  function EvalFloat(op: FloatOp, x: real, y: real): Option<real>
  {
    match op
    case FADD => Some(x + y)
    case FSUB => Some(x - y)
    case FMUL => Some(x * y)
    case FDIV => if y == 0.0 then None else Some(x / y)
    case FMOD => if y == 0.0 then None else Some(x - (TruncReal(x / y) as real) * y)
    case FSMAX => Some(if x >= y then x else y)
    case FSMIN => Some(if x <= y then x else y)
  }

  function Eval(i: Inst, ienv: string -> I32, fenv: string -> real): Outcome
  {
    match i
    case IntBinary(op, l, r) => Int(EvalInt(op, Value(l, ienv), Value(r, ienv)))
    case FloatBinary(op, l, r) => Float(EvalFloat(op, Value(l, fenv), Value(r, fenv)))
    case Icmp(op, l, r) => Bool(Holds(op, Value(l, ienv), Value(r, ienv)))
    case Fcmp(op, l, r) => Bool(HoldsReal(op, Value(l, fenv), Value(r, fenv)))
    case Other(n) => Opaque(n)
  }

  /** The shape `try_exchange_operands` rewrites: a constant left operand
      and a non-constant right one, on a commutative operator or a
      comparison. */
  predicate ConstantFirst(i: Inst)
  {
    match i
    case IntBinary(op, l, r) => IntIsCommutative(op) && l.Const? && r.Var?
    case FloatBinary(op, l, r) => FloatIsCommutative(op) && l.Const? && r.Var?
    case Icmp(_, l, r) => l.Const? && r.Var?
    case Fcmp(_, l, r) => l.Const? && r.Var?
    case Other(_) => false
  }

  /** `try_exchange_operands`: swap the operands of a commutative binary,
      or reverse a comparison, when only the left operand is a constant. */
  function TryExchangeOperands(i: Inst): (r: Inst)
    ensures !ConstantFirst(r)
    ensures r != i <==> ConstantFirst(i)
    ensures r.IntBinary? == i.IntBinary? && r.FloatBinary? == i.FloatBinary?
    ensures r.Icmp? == i.Icmp? && r.Fcmp? == i.Fcmp? && r.Other? == i.Other?
  {
    match i
    case IntBinary(op, l, r) =>
      if IntIsCommutative(op) && l.Const? && r.Var? then IntBinary(op, r, l) else i
    case FloatBinary(op, l, r) =>
      if FloatIsCommutative(op) && l.Const? && r.Var? then FloatBinary(op, r, l) else i
    case Icmp(op, l, r) =>
      if l.Const? && r.Var? then Icmp(IcmpSwapOp(op), r, l) else i
    case Fcmp(op, l, r) =>
      if l.Const? && r.Var? then Fcmp(FcmpSwapOp(op), r, l) else i
    case Other(_) => i
  }

  /** Exchanging operands never changes what an instruction produces. */
  lemma ExchangeKeepsValue(i: Inst, ienv: string -> I32, fenv: string -> real)
    ensures Eval(TryExchangeOperands(i), ienv, fenv) == Eval(i, ienv, fenv)
  {
    match i
    case IntBinary(op, l, r) =>
      if IntIsCommutative(op) && l.Const? && r.Var? {
        CommutativeIffSemantic(op);
        var x, y := Value(l, ienv), Value(r, ienv);
        assert EvalInt(op, x, y) == EvalInt(op, y, x);
      }
    case FloatBinary(op, l, r) =>
      if FloatIsCommutative(op) && l.Const? && r.Var? {
        var x, y := Value(l, fenv), Value(r, fenv);
        assert x * y == y * x;
        assert EvalFloat(op, x, y) == EvalFloat(op, y, x);
      }
    case Icmp(op, l, r) =>
    case Fcmp(op, l, r) =>
    case Other(_) =>
  }

  /** Running the exchange again changes nothing. */
  lemma ExchangeIdempotent(i: Inst)
    ensures TryExchangeOperands(TryExchangeOperands(i)) == TryExchangeOperands(i)
  {
  }

  /** `reverse_sign` as the source writes it: `a + c` with `c < 0` becomes
      `a - (-c)` and `a - c` becomes `a + (-c)`, with `-c` computed in 32
      bits, so that `-INT_MIN` comes back as `INT_MIN`. Only an add or a
      subtract of a negative constant is rewritten, and the rewrite keeps
      the instruction's value in 32-bit arithmetic. */
  function ReverseSignAsWritten(i: Inst): (r: Inst)
    ensures r != i ==> i.IntBinary? && i.rhs.Const? && i.rhs.c < 0 && (i.iop == ADD || i.iop == SUB)
    ensures forall ienv: string -> I32, fenv: string -> real :: Eval(r, ienv, fenv) == Eval(i, ienv, fenv)
  {
    if i.IntBinary? && i.rhs.Const? && i.rhs.c < 0 then
      var c: int := i.rhs.c;
      match i.iop
      case ADD =>
        var r := IntBinary(SUB, i.lhs, Const(Wrap(0 - c)));
        assert forall ienv: string -> I32, fenv: string -> real :: Eval(r, ienv, fenv) == Eval(i, ienv, fenv) by {
          forall ienv: string -> I32, fenv: string -> real ensures Eval(r, ienv, fenv) == Eval(i, ienv, fenv) {
            WrapSubRight(Value(i.lhs, ienv), 0 - c);
          }
        }
        r
      case SUB =>
        var r := IntBinary(ADD, i.lhs, Const(Wrap(0 - c)));
        assert forall ienv: string -> I32, fenv: string -> real :: Eval(r, ienv, fenv) == Eval(i, ienv, fenv) by {
          forall ienv: string -> I32, fenv: string -> real ensures Eval(r, ienv, fenv) == Eval(i, ienv, fenv) {
            WrapAddRight(Value(i.lhs, ienv), 0 - c);
          }
        }
        r
      case _ => i
    else i
  }

  /** For `INT_MIN` the negation overflows and the rewritten instruction
      still has a negative constant, so it is not in the normal form and a
      second run turns it back. */
  lemma ReverseSignMinAsWritten(a: Operand<I32>)
    ensures !InRange(0 - MIN)
    ensures ReverseSignAsWritten(IntBinary(ADD, a, Const(MIN))) == IntBinary(SUB, a, Const(MIN))
    ensures ReverseSignAsWritten(ReverseSignAsWritten(IntBinary(ADD, a, Const(MIN)))) == IntBinary(ADD, a, Const(MIN))
  {
    assert Wrap(0 - MIN) == MIN;
  }

  /** The shape `reverse_sign` rewrites, with the negation representable. */
  predicate NegativeAddend(i: Inst)
  {
    i.IntBinary? && (i.iop == ADD || i.iop == SUB) && i.rhs.Const? && MIN < i.rhs.c < 0
  }

  /** `reverse_sign` with the guard it evidently intends: a negative
      constant whose negation fits in 32 bits. The result has a positive
      constant and the opposite operator; anything else is kept. It agrees
      with the written rewrite on every constant but `INT_MIN`, and keeps
      the instruction's value. */
  function ReverseSign(i: Inst): (r: Inst)
    ensures NegativeAddend(i) ==>
      (r.IntBinary? && r.lhs == i.lhs && r.rhs.Const? && r.rhs.c == -i.rhs.c > 0 && (r.iop == ADD <==> i.iop == SUB))
    ensures !NegativeAddend(i) ==> r == i
    ensures !NegativeAddend(r)
    ensures !(i.IntBinary? && i.rhs.Const? && i.rhs.c == MIN) ==> r == ReverseSignAsWritten(i)
    ensures forall ienv: string -> I32, fenv: string -> real :: Eval(r, ienv, fenv) == Eval(i, ienv, fenv)
  {
    if NegativeAddend(i) then
      assert Wrap(0 - i.rhs.c) == -i.rhs.c;
      IntBinary(if i.iop == ADD then SUB else ADD, i.lhs, Const(-i.rhs.c))
    else i
  }

  /** The normal form the pass leaves behind. */
  predicate Standard(i: Inst)
  {
    !ConstantFirst(i) && !NegativeAddend(i)
  }

  /** Every instruction a run of the pass leaves is in the normal form and
      running it again changes nothing. */
  lemma StandardizeIdempotent(i: Inst)
    ensures Standard(ReverseSign(TryExchangeOperands(i)))
    ensures ReverseSign(TryExchangeOperands(ReverseSign(TryExchangeOperands(i)))) == ReverseSign(TryExchangeOperands(i))
  {
  }

  /** `run_on_block`: the exchange on every instruction, then the sign
      reversal on every integer binary. */
  method RunOnBlock(block: seq<Inst>) returns (r: seq<Inst>)
    ensures |r| == |block|
    ensures forall k :: 0 <= k < |r| ==> Standard(r[k])
    ensures forall k, ienv: string -> I32, fenv: string -> real :: 0 <= k < |r| ==>
      Eval(r[k], ienv, fenv) == Eval(block[k], ienv, fenv)
    ensures forall k :: 0 <= k < |r| && block[k].Other? ==> r[k] == block[k]
    ensures forall k :: 0 <= k < |r| && Standard(block[k]) ==> r[k] == block[k]
  {
    r := block;
    var i := 0;
    while i < |r|
      invariant 0 <= i <= |r| == |block|
      invariant forall k :: 0 <= k < i ==> r[k] == TryExchangeOperands(block[k])
      invariant forall k :: i <= k < |r| ==> r[k] == block[k]
    {
      r := r[i := TryExchangeOperands(r[i])];
      i := i + 1;
    }
    i := 0;
    while i < |r|
      invariant 0 <= i <= |r| == |block|
      invariant forall k :: 0 <= k < i ==> r[k] == ReverseSign(TryExchangeOperands(block[k]))
      invariant forall k :: i <= k < |r| ==> r[k] == TryExchangeOperands(block[k])
    {
      if r[i].IntBinary? {
        r := r[i := ReverseSign(r[i])];
      }
      i := i + 1;
    }
    forall k, ienv: string -> I32, fenv: string -> real | 0 <= k < |r|
      ensures Eval(r[k], ienv, fenv) == Eval(block[k], ienv, fenv)
    {
      ExchangeKeepsValue(block[k], ienv, fenv);
    }
    forall k | 0 <= k < |r| ensures Standard(r[k]) {
      StandardizeIdempotent(block[k]);
    }
  }
}
