/** The peephole rules of the algebraic simplification pass
    (src/Pass/Transform/Common/AlgebraicSimplify.cpp): each `reduce_*`
    looks at one integer binary instruction and its operands and either
    leaves it alone or replaces it by a cheaper expression.

    An instruction is modelled as an expression tree. The source compares
    operands by pointer; two operands that are the same SSA value are equal
    trees here, so every rule that fires in the source fires here, and
    soundness over structural equality covers pointer equality. The
    converse does not hold: two distinct instructions with equal trees
    fire a rule here that pointer identity skips in the source. Constants
    are interned in the source, so equal constants are the same pointer.

    The source folds constants with C++ `int` arithmetic, whose overflow
    is undefined behaviour in the compiler itself; every fold here wraps
    at 32 bits instead. */
module AlgebraicSimplify {
  import opened Wrappers
  import opened Int32
  import opened MirOps
  import SafeCalc
  import Arith

  /** The integer instructions the pass rewrites. Every other value (a
      load, a call, a bitwise result, an argument) is an operand the pass
      never looks into, modelled as a `Var`. */
  datatype Op = Add | Sub | Mul | Div | Mod | Smax | Smin

  datatype Expr =
    | Const(c: I32)
    | Var(name: string)
    | Bin(op: Op, lhs: Expr, rhs: Expr)

  /** The instruction's value on 32-bit operands: `add`, `sub` and `mul`
      wrap around, `sdiv` and `srem` truncate and are undefined on a zero
      divisor and on `INT_MIN / -1`. */
  function Apply(op: Op, x: I32, y: I32): (r: Option<I32>)
    ensures r.None? <==> (op == Div || op == Mod) && (y == 0 || (x == MIN && y == -1))
  {
    match op
    case Add => Some(Wrap(x + y))
    case Sub => Some(Wrap(x - y))
    case Mul => Some(Wrap(x * y))
    case Div => SafeCalc.SafeDivides(x, y)
    case Mod => SafeCalc.SafeModulus(x, y)
    case Smax => Some(if x >= y then x else y)
    case Smin => Some(if x <= y then x else y)
  }

  /** The interpreter's opcode for each operator. */
  function ToIntOp(op: Op): IntOp
  {
    match op
    case Add => ADD
    case Sub => SUB
    case Mul => MUL
    case Div => DIV
    case Mod => MOD
    case Smax => SMAX
    case Smin => SMIN
  }

  /** The pass's semantics of an operator is the interpreter's. */
  lemma ApplyIsEvalInt(op: Op, x: I32, y: I32)
    ensures Apply(op, x, y) == EvalInt(ToIntOp(op), x, y)
  {
  }

  /** The value of an expression, with 32-bit wrap-around for `add`, `sub`
      and `mul`; `None` when a division or remainder is undefined. */
  function Eval(e: Expr, env: string -> I32): Option<I32>
  {
    match e
    case Const(c) => Some(c)
    case Var(name) => Some(env(name))
    case Bin(op, l, r) => Combine(op, Eval(l, env), Eval(r, env))
  }

  /** An instruction's value from its operands' values: undefined when
      either operand is. */
  function Combine(op: Op, x: Option<I32>, y: Option<I32>): Option<I32>
  {
    if x.None? || y.None? then None else Apply(op, x.value, y.value)
  }

  /** The exact result of `op` fits in 32 bits (only `add`, `sub` and `mul`
      can overflow; `Apply` already leaves `INT_MIN / -1` undefined). */
  predicate ExactFits(op: Op, x: int, y: int)
  {
    match op
    case Add => InRange(x + y)
    case Sub => InRange(x - y)
    case Mul => InRange(x * y)
    case _ => true
  }

  /** No instruction of the tree overflows: the C semantics of the source
      language, in which signed overflow does not happen. */
  predicate NoOverflow(e: Expr, env: string -> I32)
  {
    match e
    case Bin(op, l, r) =>
      NoOverflow(l, env) && NoOverflow(r, env) &&
      (Eval(l, env).Some? && Eval(r, env).Some? ==> ExactFits(op, Eval(l, env).value, Eval(r, env).value))
    case _ => true
  }

  /** What a `reduce_*` does with one instruction: nothing (it returns
      false), replace it, or, in the source as written, divide by zero in
      the compiler itself. */
  datatype Rewrite = Keep | Replace(e: Expr) | Trap

  predicate Is(e: Expr, op: Op)
  {
    e.Bin? && e.op == op
  }

  /** `0 - b`, the IR's negation. */
  predicate IsNeg(e: Expr)
  {
    Is(e, Sub) && e.lhs == Const(0)
  }

  /** A rewrite is sound for an instruction whose value is defined when it
      does not trap and any replacement has the same value. */
  predicate Sound(e: Expr, w: Rewrite, env: string -> I32)
  {
    !w.Trap? && (w.Replace? ==> Eval(w.e, env) == Eval(e, env))
  }

  // ---------------------------------------------------------------------
  // The rules

  /** The first of two rule groups that fires: the source tries its rules
      in order and returns at the first that applies. */
  function FirstOf(a: Rewrite, b: Rewrite): (w: Rewrite)
    ensures a.Keep? ==> w == b
    ensures !a.Keep? ==> w == a
  {
    if a.Keep? then b else a
  }

  /** `reduce_add`, group by group in the source's order. */
  function ReduceAdd(l: Expr, r: Expr): (w: Rewrite)
    ensures !w.Trap?
  {
    if l == r then Replace(Bin(Mul, l, Const(2)))
    else FirstOf(AddConstant(l, r), FirstOf(AddNegation(l, r),
         FirstOf(AddSharedFactor(l, r), AddFactorSelf(l, r))))
  }

  /** `a + 0`, `(a + c1) + c`, `(a - c1) + c` and `(c1 - a) + c`. */
  function AddConstant(l: Expr, r: Expr): Rewrite
  {
    if !r.Const? then Keep
    else if r.c == 0 then Replace(l)
    else if Is(l, Add) && l.rhs.Const? then
      Replace(Bin(Add, l.lhs, Const(Wrap(l.rhs.c + r.c))))
    else if Is(l, Sub) && !l.lhs.Const? && l.rhs.Const? then
      Replace(Bin(Add, l.lhs, Const(Wrap(r.c - l.rhs.c))))
    else if Is(l, Sub) && l.lhs.Const? && !l.rhs.Const? then
      Replace(Bin(Sub, Const(Wrap(l.lhs.c + r.c)), l.rhs))
    else Keep
  }

  /** `a + (0 - b)` and `(0 - b) + a` become `a - b`. */
  function AddNegation(l: Expr, r: Expr): Rewrite
  {
    if IsNeg(r) then Replace(Bin(Sub, l, r.rhs))
    else if IsNeg(l) then Replace(Bin(Sub, r, l.rhs))
    else Keep
  }

  /** `x * y + z * w` with a factor shared, tried in the source's order. */
  function AddSharedFactor(l: Expr, r: Expr): Rewrite
  {
    if !(Is(l, Mul) && Is(r, Mul)) then Keep
    else if l.rhs == r.rhs then Replace(Bin(Mul, Bin(Add, l.lhs, r.lhs), l.rhs))
    else if l.lhs == r.rhs then Replace(Bin(Mul, Bin(Add, l.rhs, r.lhs), l.lhs))
    else if l.lhs == r.lhs then Replace(Bin(Mul, Bin(Add, l.rhs, r.rhs), l.lhs))
    else if l.rhs == r.lhs then Replace(Bin(Mul, Bin(Add, l.lhs, r.rhs), l.rhs))
    else Keep
  }

  /** `a * b + a`, `a * b + b`, `a + a * b` and `b + a * b`. */
  function AddFactorSelf(l: Expr, r: Expr): Rewrite
  {
    if Is(l, Mul) && l.lhs == r then Replace(Bin(Mul, Bin(Add, l.rhs, Const(1)), l.lhs))
    else if Is(l, Mul) && l.rhs == r then Replace(Bin(Mul, Bin(Add, l.lhs, Const(1)), l.rhs))
    else if Is(r, Mul) && r.lhs == l then Replace(Bin(Mul, Bin(Add, r.rhs, Const(1)), r.lhs))
    else if Is(r, Mul) && r.rhs == l then Replace(Bin(Mul, Bin(Add, r.lhs, Const(1)), r.rhs))
    else Keep
  }

  /** `reduce_sub`, group by group in the source's order. Its own rule for
      `0 - (0 - a)` is never reached: the earlier `a - (0 - b)` rule has
      already rewritten it to `0 + a`. */
  function ReduceSub(l: Expr, r: Expr): (w: Rewrite)
    ensures !w.Trap?
  {
    if l == r then Replace(Const(0))
    else if IsNeg(r) then Replace(Bin(Add, l, r.rhs))
    else FirstOf(SubCancel(l, r), FirstOf(SubFromConstant(l, r),
         FirstOf(SubConstant(l, r), FirstOf(SubFactorSelf(l, r), SubSharedFactor(l, r)))))
  }

  /** `(a + b) - a`, `(a + b) - b`, `a - (a + b)` and `a - (b + a)`. */
  function SubCancel(l: Expr, r: Expr): Rewrite
  {
    if Is(l, Add) && l.lhs == r then Replace(l.rhs)
    else if Is(l, Add) && l.rhs == r then Replace(l.lhs)
    else if Is(r, Add) && l == r.lhs then Replace(Bin(Sub, Const(0), r.rhs))
    else if Is(r, Add) && l == r.rhs then Replace(Bin(Sub, Const(0), r.lhs))
    else Keep
  }

  /** `0 - (a - b)`, `c1 - (x + c2)` and `c1 - (x - c2)`. */
  function SubFromConstant(l: Expr, r: Expr): Rewrite
  {
    if !l.Const? then Keep
    else if l.c == 0 && Is(r, Sub) then Replace(Bin(Sub, r.rhs, r.lhs))
    else if Is(r, Add) && r.rhs.Const? then Replace(Bin(Sub, Const(Wrap(l.c - r.rhs.c)), r.lhs))
    else if Is(r, Sub) && r.rhs.Const? then Replace(Bin(Sub, Const(Wrap(l.c + r.rhs.c)), r.lhs))
    else Keep
  }

  /** `a - 0`, `(a + c1) - c2`, `(a - c1) - c2` and `(c1 - a) - c2`. */
  function SubConstant(l: Expr, r: Expr): Rewrite
  {
    if !r.Const? then Keep
    else if r.c == 0 then Replace(l)
    else if Is(l, Add) && l.rhs.Const? then Replace(Bin(Add, l.lhs, Const(Wrap(l.rhs.c - r.c))))
    else if Is(l, Sub) && l.rhs.Const? then Replace(Bin(Sub, l.lhs, Const(Wrap(l.rhs.c + r.c))))
    else if Is(l, Sub) && l.lhs.Const? then Replace(Bin(Sub, Const(Wrap(l.lhs.c - r.c)), l.rhs))
    else Keep
  }

  /** `a * b - a` and `a * b - b`. */
  function SubFactorSelf(l: Expr, r: Expr): Rewrite
  {
    if Is(l, Mul) && l.lhs == r then Replace(Bin(Mul, Bin(Sub, l.rhs, Const(1)), l.lhs))
    else if Is(l, Mul) && l.rhs == r then Replace(Bin(Mul, Bin(Sub, l.lhs, Const(1)), l.rhs))
    else Keep
  }

  /** `x * y - z * w` with a factor shared, tried in the source's order. */
  function SubSharedFactor(l: Expr, r: Expr): Rewrite
  {
    if !(Is(l, Mul) && Is(r, Mul)) then Keep
    else if l.rhs == r.rhs then Replace(Bin(Mul, Bin(Sub, l.lhs, r.lhs), l.rhs))
    else if l.lhs == r.rhs then Replace(Bin(Mul, Bin(Sub, l.rhs, r.lhs), l.lhs))
    else if l.lhs == r.lhs then Replace(Bin(Mul, Bin(Sub, l.rhs, r.rhs), l.lhs))
    else if l.rhs == r.lhs then Replace(Bin(Mul, Bin(Sub, l.lhs, r.rhs), l.rhs))
    else Keep
  }

  /** `reduce_mul`: only a constant right operand is simplified. */
  function ReduceMul(l: Expr, r: Expr): (w: Rewrite)
    ensures !w.Trap? && (!r.Const? ==> w.Keep?)
  {
    if !r.Const? then Keep
    else if r.c == 0 then Replace(Const(0))
    else if r.c == 1 then Replace(l)
    else if r.c == -1 then Replace(Bin(Sub, Const(0), l))
    else if IsNeg(l) then Replace(Bin(Mul, l.rhs, Const(Wrap(0 - r.c))))
    else if Is(l, Mul) && l.rhs.Const? then Replace(Bin(Mul, l.lhs, Const(Wrap(l.rhs.c * r.c))))
    else Keep
  }

  /** `reduce_div`, as written when `asWritten` and corrected otherwise:
      the source computes `c2 % c1` even when `c1` is zero, and rewrites
      `(0 - a) / a` to 1 where the quotient is -1. */
  function DivRules(l: Expr, r: Expr, asWritten: bool): Rewrite
  {
    FirstOf(DivIdentity(l, r), FirstOf(DivByConstant(l, r, asWritten), DivByRelated(l, r, asWritten)))
  }

  /** `a / a`, `a / (0 - a)`, `0 / a`, `a / 1` and `a / -1`. */
  function DivIdentity(l: Expr, r: Expr): Rewrite
  {
    if l == r then Replace(Const(1))
    else if IsNeg(r) && r.rhs == l then Replace(Const(-1))
    else if l == Const(0) then Replace(Const(0))
    else if r == Const(1) then Replace(l)
    else if r == Const(-1) then Replace(Bin(Sub, Const(0), l))
    else Keep
  }

  /** `(a * c2) / c` when `c` divides `c2`, and `(0 - a) / c`. */
  function DivByConstant(l: Expr, r: Expr, asWritten: bool): Rewrite
  {
    if !r.Const? then Keep
    else if Is(l, Mul) && l.rhs.Const? && r.c == 0 && asWritten then Trap
    else if Is(l, Mul) && l.rhs.Const? && r.c != 0 && TMod(l.rhs.c, r.c) == 0 then
      Replace(Bin(Mul, l.lhs, Const(Wrap(TDiv(l.rhs.c, r.c)))))
    else if IsNeg(l) then Replace(Bin(Div, l.rhs, Const(Wrap(0 - r.c))))
    else Keep
  }

  /** `(0 - a) / a`, `a / (a * b)` and `a / (b * a)`. */
  function DivByRelated(l: Expr, r: Expr, asWritten: bool): Rewrite
  {
    if IsNeg(l) && l.rhs == r then Replace(Const(if asWritten then 1 else -1))
    else if Is(r, Mul) && l == r.lhs then Replace(Bin(Div, Const(1), r.rhs))
    else if Is(r, Mul) && l == r.rhs then Replace(Bin(Div, Const(1), r.lhs))
    else Keep
  }

  /** The pass itself fails exactly on `(a * c2) / 0`. */
  function ReduceDivAsWritten(l: Expr, r: Expr): (w: Rewrite)
    ensures w.Trap? <==> Is(l, Mul) && l.rhs.Const? && r == Const(0)
  {
    DivRules(l, r, true)
  }

  /** The corrected rules never fail, and agree with the written ones
      except on `(a * c2) / 0` and `(0 - a) / a`. */
  function ReduceDiv(l: Expr, r: Expr): (w: Rewrite)
    ensures !w.Trap?
    ensures !(Is(l, Mul) && l.rhs.Const? && r == Const(0)) && !(IsNeg(l) && l.rhs == r) ==>
      w == ReduceDivAsWritten(l, r)
  {
    DivRules(l, r, false)
  }

  /** `reduce_mod`, as written when `asWritten` and corrected otherwise:
      the source rewrites `a % a` to 1 (its own comment says 0) and
      computes `c2 % c1` even when `c1` is zero. */
  function ModRules(l: Expr, r: Expr, asWritten: bool): Rewrite
  {
    if l == r then Replace(Const(if asWritten then 1 else 0))
    else if l == Const(0) then Replace(Const(0))
    else if r == Const(1) || r == Const(-1) then Replace(Const(0))
    else if r.Const? && Is(l, Mul) && l.rhs.Const? && r.c == 0 && asWritten then Trap
    else if r.Const? && Is(l, Mul) && l.rhs.Const? && r.c != 0 && TMod(l.rhs.c, r.c) == 0 then
      Replace(Bin(Mul, l.lhs, Const(Wrap(TMod(l.rhs.c, r.c)))))
    else Keep
  }

  /** The pass itself fails exactly on `(a * c2) % 0`. */
  function ReduceModAsWritten(l: Expr, r: Expr): (w: Rewrite)
    ensures w.Trap? <==> Is(l, Mul) && l.rhs.Const? && r == Const(0)
  {
    ModRules(l, r, true)
  }

  /** The corrected rules never fail, and agree with the written ones
      except on `a % a` and `(a * c2) % 0`. */
  function ReduceMod(l: Expr, r: Expr): (w: Rewrite)
    ensures !w.Trap?
    ensures l != r && !(Is(l, Mul) && l.rhs.Const? && r == Const(0)) ==> w == ReduceModAsWritten(l, r)
  {
    ModRules(l, r, false)
  }

  /** `reduce_max`: a rewrite always picks one of the two operands. */
  function ReduceMax(l: Expr, r: Expr): (w: Rewrite)
    ensures !w.Trap? && (w.Replace? ==> w.e == l || w.e == r)
  {
    if l == r then Replace(l)
    else if Is(l, Smax) && (l.lhs == r || l.rhs == r) then Replace(l)
    else if Is(r, Smax) && (r.lhs == l || r.rhs == l) then Replace(r)
    else if Is(l, Smin) && (l.lhs == r || l.rhs == r) then Replace(r)
    else if Is(r, Smin) && (r.lhs == l || r.rhs == l) then Replace(l)
    else Keep
  }

  /** `reduce_min`: a rewrite always picks one of the two operands. */
  function ReduceMin(l: Expr, r: Expr): (w: Rewrite)
    ensures !w.Trap? && (w.Replace? ==> w.e == l || w.e == r)
  {
    if l == r then Replace(l)
    else if Is(l, Smax) && (l.lhs == r || l.rhs == r) then Replace(r)
    else if Is(r, Smax) && (r.lhs == l || r.rhs == l) then Replace(l)
    else if Is(l, Smin) && (l.lhs == r || l.rhs == r) then Replace(l)
    else if Is(r, Smin) && (r.lhs == l || r.rhs == l) then Replace(r)
    else Keep
  }

  /** The dispatch of `run_on_block` on the operator of one instruction,
      with the corrected division and remainder rules. */
  function Reduce(e: Expr): (w: Rewrite)
    ensures !w.Trap?
    ensures !e.Bin? ==> w.Keep?
  {
    match e
    case Bin(Add, l, r) => ReduceAdd(l, r)
    case Bin(Sub, l, r) => ReduceSub(l, r)
    case Bin(Mul, l, r) => ReduceMul(l, r)
    case Bin(Div, l, r) => ReduceDiv(l, r)
    case Bin(Mod, l, r) => ReduceMod(l, r)
    case Bin(Smax, l, r) => ReduceMax(l, r)
    case Bin(Smin, l, r) => ReduceMin(l, r)
    case _ => Keep
  }


  // ---------------------------------------------------------------------
  // 32-bit identities behind the rules, each stated on exactly the wrapped
  // terms the two sides of a rule evaluate to

  lemma AddMul(p: int, q: int, s: int)
    ensures (p + q) * s == p * s + q * s
    ensures (p - q) * s == p * s - q * s
  {
  }

  /** The wrapped sum of two terms is the wrapped value of anything that
      wraps like their exact sum. */
  lemma WrappedSumOf(a: int, b: int, t: int, w: int)
    requires t == a + b && Wrap(w) == Wrap(t)
    ensures Wrap(Wrap(a) + Wrap(b)) == Wrap(w)
  {
    WrapOfWrappedSum(a, b);
  }

  lemma WrappedDiffOf(a: int, b: int, t: int, w: int)
    requires t == a - b && Wrap(w) == Wrap(t)
    ensures Wrap(Wrap(a) - Wrap(b)) == Wrap(w)
  {
    WrapOfWrappedDiff(a, b);
  }

  /** The step of `DistribAdd` once the exact product is split. */
  lemma DistribAddStep(p: int, q: int, s: int)
    requires (p + q) * s == p * s + q * s
    requires Wrap(Wrap(p + q) * s) == Wrap((p + q) * s)
    ensures Wrap(Wrap(p * s) + Wrap(q * s)) == Wrap(Wrap(p + q) * s)
  {
    WrappedSumOf(p * s, q * s, (p + q) * s, Wrap(p + q) * s);
  }

  lemma DistribSubStep(p: int, q: int, s: int)
    requires (p - q) * s == p * s - q * s
    requires Wrap(Wrap(p - q) * s) == Wrap((p - q) * s)
    ensures Wrap(Wrap(p * s) - Wrap(q * s)) == Wrap(Wrap(p - q) * s)
  {
    WrappedDiffOf(p * s, q * s, (p - q) * s, Wrap(p - q) * s);
  }

  /** `p * s + q * s == (p + q) * s` in 32 bits. */
  lemma DistribAdd(p: int, q: int, s: int)
    ensures Wrap(Wrap(p * s) + Wrap(q * s)) == Wrap(Wrap(p + q) * s)
  {
    AddMul(p, q, s);
    WrapMulLeft(p + q, s);
    DistribAddStep(p, q, s);
  }

  /** `p * s - q * s == (p - q) * s` in 32 bits. */
  lemma DistribSub(p: int, q: int, s: int)
    ensures Wrap(Wrap(p * s) - Wrap(q * s)) == Wrap(Wrap(p - q) * s)
  {
    assert (p - q) * s == p * s - q * s by { AddMul(p, q, s); }
    WrapMulLeft(p - q, s);
    DistribSubStep(p, q, s);
  }

  lemma SubConstAdd(x: int, c1: int, c: int)
    ensures Wrap(Wrap(x - c1) + c) == Wrap(x + Wrap(c - c1))
  {
    WrapAddLeft(x - c1, c);
    WrapAddRight(x, c - c1);
  }

  lemma ConstSubAdd(c1: int, x: int, c: int)
    ensures Wrap(Wrap(c1 - x) + c) == Wrap(Wrap(c1 + c) - x)
  {
    WrapAddLeft(c1 - x, c);
    WrapSubLeft(c1 + c, x);
  }

  /** Adding a negation is subtracting, and subtracting one is adding. */
  lemma AddNegation32(x: int, y: int)
    ensures Wrap(x + Wrap(0 - y)) == Wrap(x - y)
    ensures Wrap(Wrap(0 - y) + x) == Wrap(x - y)
    ensures Wrap(x - Wrap(0 - y)) == Wrap(x + y)
  {
    WrapAddRight(x, 0 - y);
    WrapAddLeft(0 - y, x);
    WrapSubRight(x, 0 - y);
  }


  lemma NegDiff32(x: int, y: int)
    ensures Wrap(0 - Wrap(x - y)) == Wrap(y - x)
  {
    WrapSubRight(0, x - y);
  }

  lemma ConstMinusSum32(c1: int, x: int, c2: int)
    ensures Wrap(c1 - Wrap(x + c2)) == Wrap(Wrap(c1 - c2) - x)
  {
    WrapSubRight(c1, x + c2);
    WrapSubLeft(c1 - c2, x);
  }

  lemma ConstMinusDiff32(c1: int, x: int, c2: int)
    ensures Wrap(c1 - Wrap(x - c2)) == Wrap(Wrap(c1 + c2) - x)
  {
    WrapSubRight(c1, x - c2);
    WrapSubLeft(c1 + c2, x);
  }

  lemma MulNeg32(x: int, c: int)
    ensures Wrap(Wrap(0 - x) * c) == Wrap(x * Wrap(0 - c))
  {
    WrapMulLeft(0 - x, c);
    WrapMulRight(x, 0 - c);
    SafeCalc.NegProduct(x, c);
    MulCommutes(x, -c);
    SafeCalc.NegProduct(c, x);
  }

  lemma MulAssocInt(x: int, y: int, z: int)
    ensures (x * y) * z == x * (y * z)
  {
  }

  lemma MulAssoc32(x: int, c1: int, c: int)
    ensures Wrap(Wrap(x * c1) * c) == Wrap(x * Wrap(c1 * c))
  {
    WrapMulLeft(x * c1, c);
    WrapMulRight(x, c1 * c);
    MulAssocInt(x, c1, c);
  }

  /** `p * q + p == (q + 1) * p` in 32 bits. */
  lemma FactorSelfPlus(p: I32, q: int)
    ensures Wrap(Wrap(p * q) + p) == Wrap(Wrap(q + 1) * p)
  {
    var pq := p * q;
    WrapAddLeft(pq, p);
    WrapMulLeft(q + 1, p);
    AddMul(q, 1, p);
    MulCommutes(p, q);
  }

  /** `p + p * q == (q + 1) * p` in 32 bits. */
  lemma FactorSelfPlusLeft(p: I32, q: int)
    ensures Wrap(p + Wrap(p * q)) == Wrap(Wrap(q + 1) * p)
  {
    var pq := p * q;
    WrapAddRight(p, pq);
    WrapMulLeft(q + 1, p);
    AddMul(q, 1, p);
    MulCommutes(p, q);
  }

  /** `p * q - p == (q - 1) * p` in 32 bits. */
  lemma FactorSelfMinus(p: I32, q: int)
    ensures Wrap(Wrap(p * q) - p) == Wrap(Wrap(q - 1) * p)
  {
    var pq := p * q;
    WrapSubLeft(pq, p);
    WrapMulLeft(q - 1, p);
    AddMul(q, 1, p);
    MulCommutes(p, q);
  }

  /** `(x + y) - x == y` in 32 bits. */
  lemma SumMinus32(x: I32, y: int)
    ensures Wrap(Wrap(x + y) - x) == Wrap(y)
  {
    WrapSubLeft(x + y, x);
  }

  /** `x - (x + y) == 0 - y` in 32 bits. */
  lemma MinusSum32(x: int, y: int)
    ensures Wrap(x - Wrap(x + y)) == Wrap(0 - y)
  {
    WrapSubRight(x, x + y);
  }

  lemma AddMinusConst32(x: int, c1: int, c2: int)
    ensures Wrap(Wrap(x + c1) - c2) == Wrap(x + Wrap(c1 - c2))
  {
    WrapSubLeft(x + c1, c2);
    WrapAddRight(x, c1 - c2);
  }

  lemma SubMinusConst32(x: int, c1: int, c2: int)
    ensures Wrap(Wrap(x - c1) - c2) == Wrap(x - Wrap(c1 + c2))
  {
    WrapSubLeft(x - c1, c2);
    WrapSubRight(x, c1 + c2);
  }

  lemma ConstSubMinusConst32(c1: int, x: int, c2: int)
    ensures Wrap(Wrap(c1 - x) - c2) == Wrap(Wrap(c1 - c2) - x)
  {
    WrapSubLeft(c1 - x, c2);
    WrapSubLeft(c1 - c2, x);
  }

  // ---------------------------------------------------------------------
  // Soundness of the add, sub and mul rules. Each rule lemma states, for
  // the shape the rule matches with arbitrary sub-expressions of values
  // `x`, `y`, ..., that the replacement has the instruction's value; the
  // group lemmas pick the rule that fires.

  /** The two operand orders of a product have the same value. */
  lemma MulSwap(a: Expr, b: Expr, x: I32, y: I32, env: string -> I32)
    requires Eval(a, env) == Some(x) && Eval(b, env) == Some(y)
    ensures Eval(Bin(Mul, a, b), env) == Eval(Bin(Mul, b, a), env)
  {
    MulCommutes(x, y);
  }

  /** `a + a` becomes `a * 2`. */
  lemma AddSelf(a: Expr, x: I32, env: string -> I32)
    requires Eval(a, env) == Some(x)
    ensures Eval(Bin(Mul, a, Const(2)), env) == Eval(Bin(Add, a, a), env)
  {
    assert x * 2 == x + x;
  }

  /** `(a + c1) + c` becomes `a + (c1 + c)`. */
  lemma AddOfAddConst(a: Expr, x: I32, c1: I32, c: I32, env: string -> I32)
    requires Eval(a, env) == Some(x)
    ensures Eval(Bin(Add, a, Const(Wrap(c1 + c))), env) == Eval(Bin(Add, Bin(Add, a, Const(c1)), Const(c)), env)
  {
    WrappedSumAssociative(x, c1, c);
    assert Eval(Bin(Add, a, Const(c1)), env) == Some(Wrap(x + c1));
  }

  /** `(a - c1) + c` becomes `a + (c - c1)`. */
  lemma AddOfSubConst(a: Expr, x: I32, c1: I32, c: I32, env: string -> I32)
    requires Eval(a, env) == Some(x)
    ensures Eval(Bin(Add, a, Const(Wrap(c - c1))), env) == Eval(Bin(Add, Bin(Sub, a, Const(c1)), Const(c)), env)
  {
    SubConstAdd(x, c1, c);
    assert Eval(Bin(Sub, a, Const(c1)), env) == Some(Wrap(x - c1));
  }

  /** `(c1 - a) + c` becomes `(c1 + c) - a`. */
  lemma AddOfConstSub(c1: I32, a: Expr, x: I32, c: I32, env: string -> I32)
    requires Eval(a, env) == Some(x)
    ensures Eval(Bin(Sub, Const(Wrap(c1 + c)), a), env) == Eval(Bin(Add, Bin(Sub, Const(c1), a), Const(c)), env)
  {
    ConstSubAdd(c1, x, c);
    assert Eval(Bin(Sub, Const(c1), a), env) == Some(Wrap(c1 - x));
  }

  /** `a + (0 - b)` and `(0 - b) + a` become `a - b`. */
  lemma AddOfNeg(a: Expr, b: Expr, x: I32, y: I32, env: string -> I32)
    requires Eval(a, env) == Some(x) && Eval(b, env) == Some(y)
    ensures Eval(Bin(Sub, a, b), env) == Eval(Bin(Add, a, Bin(Sub, Const(0), b)), env)
    ensures Eval(Bin(Sub, a, b), env) == Eval(Bin(Add, Bin(Sub, Const(0), b), a), env)
  {
    assert Eval(Bin(Sub, Const(0), b), env) == Some(Wrap(0 - y));
    AddNegation32(x, y);
  }

  /** `x * y + z * y` becomes `(x + z) * y`, and `x * y - z * y` becomes
      `(x - z) * y`. */
  lemma SharedFactor(op: Op, a: Expr, b: Expr, d: Expr, x: I32, y: I32, z: I32, env: string -> I32)
    requires op == Add || op == Sub
    requires Eval(a, env) == Some(x) && Eval(b, env) == Some(y) && Eval(d, env) == Some(z)
    ensures Eval(Bin(Mul, Bin(op, a, d), b), env) == Eval(Bin(op, Bin(Mul, a, b), Bin(Mul, d, b)), env)
  {
    assert Eval(Bin(Mul, a, b), env) == Some(Wrap(x * y));
    assert Eval(Bin(Mul, d, b), env) == Some(Wrap(z * y));
    if op == Add {
      assert Eval(Bin(op, a, d), env) == Some(Wrap(x + z));
      DistribAdd(x, z, y);
    } else {
      assert Eval(Bin(op, a, d), env) == Some(Wrap(x - z));
      DistribSub(x, z, y);
    }
  }

  /** `a * b + a` becomes `(b + 1) * a`. */
  lemma FactorSelfAdd(a: Expr, b: Expr, x: I32, y: I32, env: string -> I32)
    requires Eval(a, env) == Some(x) && Eval(b, env) == Some(y)
    ensures Eval(Bin(Mul, Bin(Add, b, Const(1)), a), env) == Eval(Bin(Add, Bin(Mul, a, b), a), env)
  {
    assert Eval(Bin(Mul, a, b), env) == Some(Wrap(x * y));
    assert Eval(Bin(Add, b, Const(1)), env) == Some(Wrap(y + 1));
    FactorSelfPlus(x, y);
  }

  /** `a + a * b` becomes `(b + 1) * a`. */
  lemma FactorSelfAddLeft(a: Expr, b: Expr, x: I32, y: I32, env: string -> I32)
    requires Eval(a, env) == Some(x) && Eval(b, env) == Some(y)
    ensures Eval(Bin(Mul, Bin(Add, b, Const(1)), a), env) == Eval(Bin(Add, a, Bin(Mul, a, b)), env)
  {
    assert Eval(Bin(Mul, a, b), env) == Some(Wrap(x * y));
    assert Eval(Bin(Add, b, Const(1)), env) == Some(Wrap(y + 1));
    FactorSelfPlusLeft(x, y);
  }

  /** `a * b - a` becomes `(b - 1) * a`. */
  lemma FactorSelfSub(a: Expr, b: Expr, x: I32, y: I32, env: string -> I32)
    requires Eval(a, env) == Some(x) && Eval(b, env) == Some(y)
    ensures Eval(Bin(Mul, Bin(Sub, b, Const(1)), a), env) == Eval(Bin(Sub, Bin(Mul, a, b), a), env)
  {
    assert Eval(Bin(Mul, a, b), env) == Some(Wrap(x * y));
    assert Eval(Bin(Sub, b, Const(1)), env) == Some(Wrap(y - 1));
    FactorSelfMinus(x, y);
  }

  lemma AddConstantSound(l: Expr, r: Expr, env: string -> I32)
    requires Eval(Bin(Add, l, r), env).Some?
    ensures Sound(Bin(Add, l, r), AddConstant(l, r), env)
  {
    if r.Const? && r.c == 0 {
      assert Eval(Bin(Add, l, r), env) == Some(Wrap(Eval(l, env).value + 0));
    } else if r.Const? && Is(l, Add) && l.rhs.Const? {
      var a, c1 := l.lhs, l.rhs.c;
      assert l == Bin(Add, a, Const(c1)) && r == Const(r.c);
      AddOfAddConst(a, Eval(a, env).value, c1, r.c, env);
    } else if r.Const? && Is(l, Sub) {
      AddSubConstantSound(l, r, env);
    }
  }

  lemma AddSubConstantSound(l: Expr, r: Expr, env: string -> I32)
    requires Eval(Bin(Add, l, r), env).Some?
    requires r.Const? && r.c != 0 && Is(l, Sub)
    ensures Sound(Bin(Add, l, r), AddConstant(l, r), env)
  {
    var a, b := l.lhs, l.rhs;
    assert l == Bin(Sub, a, b) && r == Const(r.c);
    if !a.Const? && b.Const? {
      assert b == Const(b.c);
      AddOfSubConst(a, Eval(a, env).value, b.c, r.c, env);
    } else if a.Const? && !b.Const? {
      assert a == Const(a.c);
      AddOfConstSub(a.c, b, Eval(b, env).value, r.c, env);
    }
  }

  lemma AddNegationSound(l: Expr, r: Expr, env: string -> I32)
    requires Eval(Bin(Add, l, r), env).Some?
    ensures Sound(Bin(Add, l, r), AddNegation(l, r), env)
  {
    if IsNeg(r) {
      assert r == Bin(Sub, Const(0), r.rhs);
      AddOfNeg(l, r.rhs, Eval(l, env).value, Eval(r.rhs, env).value, env);
    } else if IsNeg(l) {
      assert l == Bin(Sub, Const(0), l.rhs);
      AddOfNeg(r, l.rhs, Eval(r, env).value, Eval(l.rhs, env).value, env);
    }
  }

  /** The four ways `reduce_add` and `reduce_sub` find a factor shared by
      two products. */
  lemma SharedFactorSound(op: Op, l: Expr, r: Expr, env: string -> I32)
    requires op == Add || op == Sub
    requires Eval(Bin(op, l, r), env).Some?
    ensures Sound(Bin(op, l, r), if op == Add then AddSharedFactor(l, r) else SubSharedFactor(l, r), env)
  {
    if Is(l, Mul) && Is(r, Mul) {
      var s, t, u, w := l.lhs, l.rhs, r.lhs, r.rhs;
      assert l == Bin(Mul, s, t) && r == Bin(Mul, u, w);
      var vs, vt, vu, vw := Eval(s, env).value, Eval(t, env).value, Eval(u, env).value, Eval(w, env).value;
      if t == w {
        SharedFactor(op, s, t, u, vs, vt, vu, env);
      } else if s == w {
        MulSwap(s, t, vs, vt, env);
        SharedFactor(op, t, s, u, vt, vs, vu, env);
      } else if s == u {
        MulSwap(s, t, vs, vt, env);
        MulSwap(s, w, vs, vw, env);
        SharedFactor(op, t, s, w, vt, vs, vw, env);
      } else if t == u {
        MulSwap(t, w, vt, vw, env);
        SharedFactor(op, s, t, w, vs, vt, vw, env);
      }
    }
  }

  lemma AddFactorSelfSound(l: Expr, r: Expr, env: string -> I32)
    requires Eval(Bin(Add, l, r), env).Some?
    ensures Sound(Bin(Add, l, r), AddFactorSelf(l, r), env)
  {
    if Is(l, Mul) && (l.lhs == r || l.rhs == r) {
      var s, t := l.lhs, l.rhs;
      assert l == Bin(Mul, s, t);
      var vs, vt := Eval(s, env).value, Eval(t, env).value;
      if s == r {
        FactorSelfAdd(s, t, vs, vt, env);
      } else {
        MulSwap(s, t, vs, vt, env);
        FactorSelfAdd(t, s, vt, vs, env);
      }
    } else if Is(r, Mul) && (r.lhs == l || r.rhs == l) {
      var s, t := r.lhs, r.rhs;
      assert r == Bin(Mul, s, t);
      var vs, vt := Eval(s, env).value, Eval(t, env).value;
      if s == l {
        FactorSelfAddLeft(s, t, vs, vt, env);
      } else {
        MulSwap(s, t, vs, vt, env);
        FactorSelfAddLeft(t, s, vt, vs, env);
      }
    }
  }

  /** Every rewrite of `reduce_add` keeps the value: the 32-bit sum wraps
      the same way as each replacement. */
  lemma ReduceAddSound(l: Expr, r: Expr, env: string -> I32)
    requires Eval(Bin(Add, l, r), env).Some?
    ensures Sound(Bin(Add, l, r), ReduceAdd(l, r), env)
  {
    if l == r {
      AddSelf(l, Eval(l, env).value, env);
    } else {
      AddConstantSound(l, r, env);
      AddNegationSound(l, r, env);
      SharedFactorSound(Add, l, r, env);
      AddFactorSelfSound(l, r, env);
    }
  }

  /** `a - a` becomes 0. */
  lemma SubSelf(a: Expr, x: I32, env: string -> I32)
    requires Eval(a, env) == Some(x)
    ensures Eval(Bin(Sub, a, a), env) == Some(0)
  {
    assert x - x == 0;
  }

  /** `a - (0 - b)` becomes `a + b`. */
  lemma SubOfNeg(a: Expr, b: Expr, x: I32, y: I32, env: string -> I32)
    requires Eval(a, env) == Some(x) && Eval(b, env) == Some(y)
    ensures Eval(Bin(Add, a, b), env) == Eval(Bin(Sub, a, Bin(Sub, Const(0), b)), env)
  {
    assert Eval(Bin(Sub, Const(0), b), env) == Some(Wrap(0 - y));
    AddNegation32(x, y);
  }

  /** `(a + b) - a` becomes `b`. */
  lemma SumMinusLeft(a: Expr, b: Expr, x: I32, y: I32, env: string -> I32)
    requires Eval(a, env) == Some(x) && Eval(b, env) == Some(y)
    ensures Eval(Bin(Sub, Bin(Add, a, b), a), env) == Some(y)
  {
    assert Eval(Bin(Add, a, b), env) == Some(Wrap(x + y));
    SumMinus32(x, y);
  }

  /** `(a + b) - b` becomes `a`. */
  lemma SumMinusRight(a: Expr, b: Expr, x: I32, y: I32, env: string -> I32)
    requires Eval(a, env) == Some(x) && Eval(b, env) == Some(y)
    ensures Eval(Bin(Sub, Bin(Add, a, b), b), env) == Some(x)
  {
    assert Eval(Bin(Add, a, b), env) == Some(Wrap(x + y));
    assert x + y == y + x;
    SumMinus32(y, x);
  }

  /** `a - (a + b)` becomes `0 - b`. */
  lemma MinusSumLeft(a: Expr, b: Expr, x: I32, y: I32, env: string -> I32)
    requires Eval(a, env) == Some(x) && Eval(b, env) == Some(y)
    ensures Eval(Bin(Sub, Const(0), b), env) == Eval(Bin(Sub, a, Bin(Add, a, b)), env)
  {
    assert Eval(Bin(Add, a, b), env) == Some(Wrap(x + y));
    MinusSum32(x, y);
  }

  /** `b - (a + b)` becomes `0 - a`. */
  lemma MinusSumRight(a: Expr, b: Expr, x: I32, y: I32, env: string -> I32)
    requires Eval(a, env) == Some(x) && Eval(b, env) == Some(y)
    ensures Eval(Bin(Sub, Const(0), a), env) == Eval(Bin(Sub, b, Bin(Add, a, b)), env)
  {
    assert Eval(Bin(Add, a, b), env) == Some(Wrap(x + y));
    assert x + y == y + x;
    MinusSum32(y, x);
  }

  /** `0 - (a - b)` becomes `b - a`. */
  lemma NegOfDiff(a: Expr, b: Expr, x: I32, y: I32, env: string -> I32)
    requires Eval(a, env) == Some(x) && Eval(b, env) == Some(y)
    ensures Eval(Bin(Sub, b, a), env) == Eval(Bin(Sub, Const(0), Bin(Sub, a, b)), env)
  {
    assert Eval(Bin(Sub, a, b), env) == Some(Wrap(x - y));
    NegDiff32(x, y);
  }

  /** `c1 - (a + c2)` becomes `(c1 - c2) - a`. */
  lemma ConstMinusSum(c1: I32, a: Expr, x: I32, c2: I32, env: string -> I32)
    requires Eval(a, env) == Some(x)
    ensures Eval(Bin(Sub, Const(Wrap(c1 - c2)), a), env) == Eval(Bin(Sub, Const(c1), Bin(Add, a, Const(c2))), env)
  {
    ConstMinusSum32(c1, x, c2);
    assert Eval(Bin(Add, a, Const(c2)), env) == Some(Wrap(x + c2));
  }

  /** `c1 - (a - c2)` becomes `(c1 + c2) - a`. */
  lemma ConstMinusDiff(c1: I32, a: Expr, x: I32, c2: I32, env: string -> I32)
    requires Eval(a, env) == Some(x)
    ensures Eval(Bin(Sub, Const(Wrap(c1 + c2)), a), env) == Eval(Bin(Sub, Const(c1), Bin(Sub, a, Const(c2))), env)
  {
    ConstMinusDiff32(c1, x, c2);
    assert Eval(Bin(Sub, a, Const(c2)), env) == Some(Wrap(x - c2));
  }

  /** `(a + c1) - c2` becomes `a + (c1 - c2)`. */
  lemma SubOfAddConst(a: Expr, x: I32, c1: I32, c2: I32, env: string -> I32)
    requires Eval(a, env) == Some(x)
    ensures Eval(Bin(Add, a, Const(Wrap(c1 - c2))), env) == Eval(Bin(Sub, Bin(Add, a, Const(c1)), Const(c2)), env)
  {
    AddMinusConst32(x, c1, c2);
    assert Eval(Bin(Add, a, Const(c1)), env) == Some(Wrap(x + c1));
  }

  /** `(a - c1) - c2` becomes `a - (c1 + c2)`. */
  lemma SubOfSubConst(a: Expr, x: I32, c1: I32, c2: I32, env: string -> I32)
    requires Eval(a, env) == Some(x)
    ensures Eval(Bin(Sub, a, Const(Wrap(c1 + c2))), env) == Eval(Bin(Sub, Bin(Sub, a, Const(c1)), Const(c2)), env)
  {
    SubMinusConst32(x, c1, c2);
    assert Eval(Bin(Sub, a, Const(c1)), env) == Some(Wrap(x - c1));
  }

  /** `(c1 - a) - c2` becomes `(c1 - c2) - a`. */
  lemma SubOfConstSub(c1: I32, a: Expr, x: I32, c2: I32, env: string -> I32)
    requires Eval(a, env) == Some(x)
    ensures Eval(Bin(Sub, Const(Wrap(c1 - c2)), a), env) == Eval(Bin(Sub, Bin(Sub, Const(c1), a), Const(c2)), env)
  {
    ConstSubMinusConst32(c1, x, c2);
    assert Eval(Bin(Sub, Const(c1), a), env) == Some(Wrap(c1 - x));
  }

  lemma SubCancelSound(l: Expr, r: Expr, env: string -> I32)
    requires Eval(Bin(Sub, l, r), env).Some?
    ensures Sound(Bin(Sub, l, r), SubCancel(l, r), env)
  {
    if Is(l, Add) && (l.lhs == r || l.rhs == r) {
      var a, b := l.lhs, l.rhs;
      assert l == Bin(Add, a, b);
      if a == r {
        SumMinusLeft(a, b, Eval(a, env).value, Eval(b, env).value, env);
      } else {
        SumMinusRight(a, b, Eval(a, env).value, Eval(b, env).value, env);
      }
    } else if Is(r, Add) && (l == r.lhs || l == r.rhs) {
      var a, b := r.lhs, r.rhs;
      assert r == Bin(Add, a, b);
      if l == a {
        MinusSumLeft(a, b, Eval(a, env).value, Eval(b, env).value, env);
      } else {
        MinusSumRight(a, b, Eval(a, env).value, Eval(b, env).value, env);
      }
    }
  }

  lemma SubFromConstantSound(l: Expr, r: Expr, env: string -> I32)
    requires Eval(Bin(Sub, l, r), env).Some?
    ensures Sound(Bin(Sub, l, r), SubFromConstant(l, r), env)
  {
    if l.Const? && r.Bin? {
      var a, b := r.lhs, r.rhs;
      assert l == Const(l.c);
      if l.c == 0 && Is(r, Sub) {
        assert r == Bin(Sub, a, b);
        NegOfDiff(a, b, Eval(a, env).value, Eval(b, env).value, env);
      } else if b.Const? && (Is(r, Add) || Is(r, Sub)) {
        SubFromConstantOf(l, r, env);
      }
    }
  }

  lemma SubFromConstantOf(l: Expr, r: Expr, env: string -> I32)
    requires Eval(Bin(Sub, l, r), env).Some?
    requires l.Const? && !(l.c == 0 && Is(r, Sub)) && (Is(r, Add) || Is(r, Sub)) && r.rhs.Const?
    ensures Sound(Bin(Sub, l, r), SubFromConstant(l, r), env)
  {
    var a, c2 := r.lhs, r.rhs.c;
    assert l == Const(l.c);
    if Is(r, Add) {
      assert r == Bin(Add, a, Const(c2));
      ConstMinusSum(l.c, a, Eval(a, env).value, c2, env);
    } else {
      assert r == Bin(Sub, a, Const(c2));
      ConstMinusDiff(l.c, a, Eval(a, env).value, c2, env);
    }
  }

  lemma SubConstantSound(l: Expr, r: Expr, env: string -> I32)
    requires Eval(Bin(Sub, l, r), env).Some?
    ensures Sound(Bin(Sub, l, r), SubConstant(l, r), env)
  {
    if r.Const? && r.c == 0 {
      assert Eval(Bin(Sub, l, r), env) == Some(Wrap(Eval(l, env).value - 0));
    } else if r.Const? && Is(l, Add) && l.rhs.Const? {
      var a, c1 := l.lhs, l.rhs.c;
      assert l == Bin(Add, a, Const(c1)) && r == Const(r.c);
      SubOfAddConst(a, Eval(a, env).value, c1, r.c, env);
    } else if r.Const? && Is(l, Sub) {
      SubSubConstantSound(l, r, env);
    }
  }

  lemma SubSubConstantSound(l: Expr, r: Expr, env: string -> I32)
    requires Eval(Bin(Sub, l, r), env).Some?
    requires r.Const? && r.c != 0 && Is(l, Sub)
    ensures Sound(Bin(Sub, l, r), SubConstant(l, r), env)
  {
    var a, b := l.lhs, l.rhs;
    assert l == Bin(Sub, a, b) && r == Const(r.c);
    if b.Const? {
      assert b == Const(b.c);
      SubOfSubConst(a, Eval(a, env).value, b.c, r.c, env);
    } else if a.Const? {
      assert a == Const(a.c);
      SubOfConstSub(a.c, b, Eval(b, env).value, r.c, env);
    }
  }

  lemma SubFactorSelfSound(l: Expr, r: Expr, env: string -> I32)
    requires Eval(Bin(Sub, l, r), env).Some?
    ensures Sound(Bin(Sub, l, r), SubFactorSelf(l, r), env)
  {
    if Is(l, Mul) && (l.lhs == r || l.rhs == r) {
      var s, t := l.lhs, l.rhs;
      assert l == Bin(Mul, s, t);
      var vs, vt := Eval(s, env).value, Eval(t, env).value;
      if s == r {
        FactorSelfSub(s, t, vs, vt, env);
      } else {
        MulSwap(s, t, vs, vt, env);
        FactorSelfSub(t, s, vt, vs, env);
      }
    }
  }

  /** Every rewrite of `reduce_sub` keeps the value. */
  lemma ReduceSubSound(l: Expr, r: Expr, env: string -> I32)
    requires Eval(Bin(Sub, l, r), env).Some?
    ensures Sound(Bin(Sub, l, r), ReduceSub(l, r), env)
  {
    if l == r {
      SubSelf(l, Eval(l, env).value, env);
    } else if IsNeg(r) {
      assert r == Bin(Sub, Const(0), r.rhs);
      SubOfNeg(l, r.rhs, Eval(l, env).value, Eval(r.rhs, env).value, env);
    } else {
      SubCancelSound(l, r, env);
      SubFromConstantSound(l, r, env);
      SubConstantSound(l, r, env);
      SubFactorSelfSound(l, r, env);
      SharedFactorSound(Sub, l, r, env);
    }
  }

  // ---------------------------------------------------------------------
  // Soundness of the mul rules

  /** `a * 0` becomes 0 and `a * 1` becomes `a`. */
  lemma MulByZeroOrOne(a: Expr, x: I32, env: string -> I32)
    requires Eval(a, env) == Some(x)
    ensures Eval(Bin(Mul, a, Const(0)), env) == Some(0)
    ensures Eval(Bin(Mul, a, Const(1)), env) == Some(x)
  {
    assert x * 0 == 0 && x * 1 == x;
  }

  /** `a * -1` becomes `0 - a`. */
  lemma MulMinusOne(a: Expr, x: I32, env: string -> I32)
    requires Eval(a, env) == Some(x)
    ensures Eval(Bin(Sub, Const(0), a), env) == Eval(Bin(Mul, a, Const(-1)), env)
  {
    assert x * -1 == 0 - x;
  }

  /** `(0 - a) * c` becomes `a * -c`. */
  lemma MulOfNeg(a: Expr, x: I32, c: I32, env: string -> I32)
    requires Eval(a, env) == Some(x)
    ensures Eval(Bin(Mul, a, Const(Wrap(0 - c))), env) == Eval(Bin(Mul, Bin(Sub, Const(0), a), Const(c)), env)
  {
    MulNeg32(x, c);
    assert Eval(Bin(Sub, Const(0), a), env) == Some(Wrap(0 - x));
  }

  /** `(a * c1) * c` becomes `a * (c1 * c)`. */
  lemma MulOfMulConst(a: Expr, x: I32, c1: I32, c: I32, env: string -> I32)
    requires Eval(a, env) == Some(x)
    ensures Eval(Bin(Mul, a, Const(Wrap(c1 * c))), env) == Eval(Bin(Mul, Bin(Mul, a, Const(c1)), Const(c)), env)
  {
    MulAssoc32(x, c1, c);
    assert Eval(Bin(Mul, a, Const(c1)), env) == Some(Wrap(x * c1));
  }

  /** Every rewrite of `reduce_mul` keeps the value. */
  lemma ReduceMulSound(l: Expr, r: Expr, env: string -> I32)
    requires Eval(Bin(Mul, l, r), env).Some?
    ensures Sound(Bin(Mul, l, r), ReduceMul(l, r), env)
  {
    if r.Const? {
      var x := Eval(l, env).value;
      if r.c == 0 {
        MulByZeroOrOne(l, x, env);
      } else if r.c == 1 {
        MulByZeroOrOne(l, x, env);
      } else if r.c == -1 {
        MulMinusOne(l, x, env);
      } else {
        MulConstantSound(l, r, env);
      }
    }
  }

  lemma MulConstantSound(l: Expr, r: Expr, env: string -> I32)
    requires Eval(Bin(Mul, l, r), env).Some?
    requires r.Const? && r.c != 0 && r.c != 1 && r.c != -1
    ensures Sound(Bin(Mul, l, r), ReduceMul(l, r), env)
  {
    assert r == Const(r.c);
    if IsNeg(l) {
      assert l == Bin(Sub, Const(0), l.rhs);
      MulOfNeg(l.rhs, Eval(l.rhs, env).value, r.c, env);
    } else if Is(l, Mul) && l.rhs.Const? {
      assert l == Bin(Mul, l.lhs, Const(l.rhs.c));
      MulOfMulConst(l.lhs, Eval(l.lhs, env).value, l.rhs.c, r.c, env);
    }
  }

  // ---------------------------------------------------------------------
  // Truncating division

  lemma AbsProduct(a: int, b: int)
    ensures Abs(a * b) == Abs(a) * Abs(b)
  {
    SafeCalc.NegProduct(a, b);
    SafeCalc.NegProduct(b, a);
    SafeCalc.NegNegProduct(a, b);
    if a < 0 && b >= 0 { assert (-a) * b >= 0; }
    if a >= 0 && b < 0 { assert a * (-b) >= 0; }
    if a < 0 && b < 0 { assert (-a) * (-b) > 0; }
  }

  /** A multiple of `c` divides back exactly and leaves no remainder. */
  lemma TDivOfMultiple(m: int, c: int)
    requires c != 0
    ensures TDiv(m * c, c) == m && TMod(m * c, c) == 0
  {
    AbsProduct(m, c);
    Arith.DivBetween(Abs(m) * Abs(c), Abs(c), Abs(m));
    assert (Abs(m) + 1) * Abs(c) == Abs(m) * Abs(c) + Abs(c);
    SafeCalc.NegProduct(m, c);
    SafeCalc.NegProduct(c, m);
    SafeCalc.NegNegProduct(m, c);
    if m > 0 && c > 0 { assert m * c > 0; }
    if m > 0 && c < 0 { assert m * (-c) > 0; }
    if m < 0 && c > 0 { assert (-m) * c > 0; }
    if m < 0 && c < 0 { assert (-m) * (-c) > 0; }
  }

  lemma TDivSmall(a: int, c: int)
    requires c != 0 && Abs(a) < Abs(c)
    ensures TDiv(a, c) == 0
  {
    Arith.DivBetween(Abs(a), Abs(c), 0);
  }

  /** `x / x == 1` and `x % x == 0`. */
  lemma TDivSelf(x: int)
    requires x != 0
    ensures TDiv(x, x) == 1 && TMod(x, x) == 0
  {
    TDivOfMultiple(1, x);
  }

  /** `x / -x == -x / x == -1`. */
  lemma TDivNegSelf(x: int)
    requires x != 0
    ensures TDiv(x, -x) == -1 && TDiv(-x, x) == -1
  {
    TDivOfMultiple(-1, -x);
    TDivOfMultiple(-1, x);
  }

  /** Dividing by 1 or -1 leaves no remainder. */
  lemma TDivUnit(x: int)
    ensures TDiv(x, 1) == x && TMod(x, 1) == 0
    ensures TDiv(x, -1) == -x && TMod(x, -1) == 0
  {
    TDivOfMultiple(x, 1);
    TDivOfMultiple(-x, -1);
  }

  /** `-a / c == a / -c` for a dividend whose negation fits, `INT_MIN`
      included as a divisor whose negation wraps to itself. */
  lemma DivNegation(a: int, c: I32)
    requires c != 0 && InRange(a) && InRange(-a)
    ensures TDiv(-a, c) == TDiv(a, Wrap(0 - c))
  {
    if c == MIN {
      TDivSmall(-a, c);
      TDivSmall(a, c);
    }
  }

  lemma ProductFactors(a: int, b: int)
    requires a * b != 0
    ensures a != 0 && b != 0
  {
  }

  /** `a / (a * b) == 1 / b` whenever the product is not zero. */
  lemma TDivByProduct(a: int, b: int)
    requires a != 0 && b != 0
    ensures TDiv(a, a * b) == TDiv(1, b)
  {
    var p := a * b;
    AbsProduct(a, b);
    if b == 1 {
      assert p == a;
      TDivSelf(a);
    } else if b == -1 {
      assert p == -a;
      TDivNegSelf(a);
    } else {
      Arith.MulMonotone(2, Abs(b), Abs(a));
      assert Abs(p) >= 2 * Abs(a);
      TDivSmall(a, p);
      TDivSmall(1, b);
    }
  }

  /** `(a * c2) / c == a * (c2 / c)` and `(a * c2) % c == 0` when `c`
      divides `c2`. */
  lemma DivExactMultiple(a: int, c2: int, c: int)
    requires c != 0 && TMod(c2, c) == 0
    ensures TDiv(a * c2, c) == a * TDiv(c2, c) && TMod(a * c2, c) == 0
  {
    var k := TDiv(c2, c);
    assert c2 == c * k;
    var ak := a * k;
    assert a * c2 == ak * c by {
      assert a * (c * k) == (a * k) * c;
    }
    TDivOfMultiple(ak, c);
  }

  // ---------------------------------------------------------------------
  // Soundness of the div and mod rules. A division is only rewritten when
  // its value is defined, and the source language's signed arithmetic
  // does not overflow, so the operand values obey `NoOverflow`.

  /** `a / a` becomes 1. */
  lemma DivSelf(a: Expr, x: I32, env: string -> I32)
    requires Eval(a, env) == Some(x) && Eval(Bin(Div, a, a), env).Some?
    ensures Eval(Bin(Div, a, a), env) == Some(1)
  {
    TDivSelf(x);
  }

  /** `a / (0 - a)` becomes -1 when the negation does not overflow. */
  lemma DivByNegSelf(a: Expr, x: I32, env: string -> I32)
    requires Eval(a, env) == Some(x) && InRange(0 - x)
    requires Eval(Bin(Div, a, Bin(Sub, Const(0), a)), env).Some?
    ensures Eval(Bin(Div, a, Bin(Sub, Const(0), a)), env) == Some(-1)
  {
    assert Eval(Bin(Sub, Const(0), a), env) == Some(-x);
    TDivNegSelf(x);
  }

  /** `0 / a` becomes 0. */
  lemma ZeroDiv(b: Expr, y: I32, env: string -> I32)
    requires Eval(b, env) == Some(y) && Eval(Bin(Div, Const(0), b), env).Some?
    ensures Eval(Bin(Div, Const(0), b), env) == Some(0)
  {
    TDivOfMultiple(0, y);
  }

  /** `a / 1` becomes `a` and `a / -1` becomes `0 - a`. */
  lemma DivByUnit(a: Expr, x: I32, env: string -> I32)
    requires Eval(a, env) == Some(x)
    ensures Eval(Bin(Div, a, Const(1)), env) == Some(x)
    ensures Eval(Bin(Div, a, Const(-1)), env).Some? ==>
      Eval(Bin(Div, a, Const(-1)), env) == Eval(Bin(Sub, Const(0), a), env)
  {
    TDivUnit(x);
  }

  /** `(a * c2) / c` becomes `a * (c2 / c)` when `c` divides `c2` and the
      product does not overflow. */
  lemma DivOfMultiple(a: Expr, x: I32, c2: I32, c: I32, env: string -> I32)
    requires Eval(a, env) == Some(x) && InRange(x * c2)
    requires c != 0 && TMod(c2, c) == 0
    requires Eval(Bin(Div, Bin(Mul, a, Const(c2)), Const(c)), env).Some?
    ensures Eval(Bin(Mul, a, Const(Wrap(TDiv(c2, c)))), env) == Eval(Bin(Div, Bin(Mul, a, Const(c2)), Const(c)), env)
  {
    var p, q := x * c2, TDiv(c2, c);
    assert Eval(Bin(Mul, a, Const(c2)), env) == Some(p);
    var k := Wrap(q);
    assert Eval(Bin(Mul, a, Const(k)), env) == Some(Wrap(x * k));
    DivExactMultiple(x, c2, c);
    WrapMulRight(x, q);
  }

  /** `(0 - a) / c` becomes `a / -c` when the negation does not overflow;
      `-INT_MIN` wraps to `INT_MIN`, which divides alike. */
  lemma DivOfNegation(a: Expr, x: I32, c: I32, env: string -> I32)
    requires Eval(a, env) == Some(x) && InRange(0 - x)
    requires Eval(Bin(Div, Bin(Sub, Const(0), a), Const(c)), env).Some?
    ensures Eval(Bin(Div, a, Const(Wrap(0 - c))), env) == Eval(Bin(Div, Bin(Sub, Const(0), a), Const(c)), env)
  {
    assert Eval(Bin(Sub, Const(0), a), env) == Some(-x);
    var k := Wrap(0 - c);
    assert Eval(Bin(Div, a, Const(k)), env) == SafeCalc.SafeDivides(x, k);
    DivNegation(x, c);
  }

  /** `(0 - a) / a` is -1 when the negation does not overflow. */
  lemma NegDivSelf(a: Expr, x: I32, env: string -> I32)
    requires Eval(a, env) == Some(x) && InRange(0 - x)
    requires Eval(Bin(Div, Bin(Sub, Const(0), a), a), env).Some?
    ensures Eval(Bin(Div, Bin(Sub, Const(0), a), a), env) == Some(-1)
  {
    assert Eval(Bin(Sub, Const(0), a), env) == Some(-x);
    TDivNegSelf(x);
  }

  /** `a / (a * b)` becomes `1 / b` when the product does not overflow. */
  lemma DivByProduct(a: Expr, b: Expr, x: I32, y: I32, env: string -> I32)
    requires Eval(a, env) == Some(x) && Eval(b, env) == Some(y) && InRange(x * y)
    requires Eval(Bin(Div, a, Bin(Mul, a, b)), env).Some?
    ensures Eval(Bin(Div, Const(1), b), env) == Eval(Bin(Div, a, Bin(Mul, a, b)), env)
  {
    var p := x * y;
    assert Eval(Bin(Mul, a, b), env) == Some(p);
    ProductFactors(x, y);
    TDivByProduct(x, y);
  }

  /** `a % a` becomes 0. */
  lemma ModSelf(a: Expr, x: I32, env: string -> I32)
    requires Eval(a, env) == Some(x) && Eval(Bin(Mod, a, a), env).Some?
    ensures Eval(Bin(Mod, a, a), env) == Some(0)
  {
    TDivSelf(x);
  }

  /** `0 % a` becomes 0. */
  lemma ZeroMod(b: Expr, y: I32, env: string -> I32)
    requires Eval(b, env) == Some(y) && Eval(Bin(Mod, Const(0), b), env).Some?
    ensures Eval(Bin(Mod, Const(0), b), env) == Some(0)
  {
    TDivOfMultiple(0, y);
  }

  /** `a % 1` and `a % -1` become 0. */
  lemma ModByUnit(a: Expr, x: I32, env: string -> I32)
    requires Eval(a, env) == Some(x)
    ensures Eval(Bin(Mod, a, Const(1)), env) == Some(0)
    ensures Eval(Bin(Mod, a, Const(-1)), env).Some? ==> Eval(Bin(Mod, a, Const(-1)), env) == Some(0)
  {
    TDivUnit(x);
  }

  /** `(a * c2) % c` becomes `a * (c2 % c)`, that is 0, when `c` divides
      `c2` and the product does not overflow. */
  lemma ModOfMultiple(a: Expr, x: I32, c2: I32, c: I32, env: string -> I32)
    requires Eval(a, env) == Some(x) && InRange(x * c2)
    requires c != 0 && TMod(c2, c) == 0
    requires Eval(Bin(Mod, Bin(Mul, a, Const(c2)), Const(c)), env).Some?
    ensures Eval(Bin(Mul, a, Const(Wrap(TMod(c2, c)))), env) == Eval(Bin(Mod, Bin(Mul, a, Const(c2)), Const(c)), env)
  {
    var p := x * c2;
    assert Eval(Bin(Mul, a, Const(c2)), env) == Some(p);
    assert Eval(Bin(Mul, a, Const(0)), env) == Some(Wrap(x * 0));
    DivExactMultiple(x, c2, c);
  }

  lemma DivIdentitySound(l: Expr, r: Expr, env: string -> I32)
    requires Eval(Bin(Div, l, r), env).Some? && NoOverflow(Bin(Div, l, r), env)
    ensures Sound(Bin(Div, l, r), DivIdentity(l, r), env)
  {
    var x, y := Eval(l, env).value, Eval(r, env).value;
    if l == r {
      DivSelf(l, x, env);
    } else if IsNeg(r) && r.rhs == l {
      assert r == Bin(Sub, Const(0), l);
      assert NoOverflow(r, env);
      DivByNegSelf(l, x, env);
    } else if l == Const(0) {
      ZeroDiv(r, y, env);
    } else {
      DivByUnit(l, x, env);
    }
  }

  lemma DivByConstantSound(l: Expr, r: Expr, env: string -> I32)
    requires Eval(Bin(Div, l, r), env).Some? && NoOverflow(Bin(Div, l, r), env)
    ensures Sound(Bin(Div, l, r), DivByConstant(l, r, false), env)
  {
    if r.Const? && l.Bin? {
      assert r == Const(r.c);
      assert NoOverflow(l, env);
      var a, b := l.lhs, l.rhs;
      if Is(l, Mul) && b.Const? && r.c != 0 && TMod(b.c, r.c) == 0 {
        assert l == Bin(Mul, a, Const(b.c));
        DivOfMultiple(a, Eval(a, env).value, b.c, r.c, env);
      } else if IsNeg(l) {
        assert l == Bin(Sub, Const(0), b);
        DivOfNegation(b, Eval(b, env).value, r.c, env);
      }
    }
  }

  lemma DivByRelatedSound(l: Expr, r: Expr, env: string -> I32)
    requires Eval(Bin(Div, l, r), env).Some? && NoOverflow(Bin(Div, l, r), env)
    ensures Sound(Bin(Div, l, r), DivByRelated(l, r, false), env)
  {
    if IsNeg(l) && l.rhs == r {
      assert l == Bin(Sub, Const(0), r);
      assert NoOverflow(l, env);
      NegDivSelf(r, Eval(r, env).value, env);
    } else if Is(r, Mul) && (l == r.lhs || l == r.rhs) {
      var s, t := r.lhs, r.rhs;
      assert r == Bin(Mul, s, t);
      assert NoOverflow(r, env);
      var vs, vt := Eval(s, env).value, Eval(t, env).value;
      if l == s {
        DivByProduct(s, t, vs, vt, env);
      } else {
        MulCommutes(vs, vt);
        MulSwap(s, t, vs, vt, env);
        DivByProduct(t, s, vt, vs, env);
      }
    }
  }

  /** Every rewrite of the corrected `reduce_div` keeps the value of a
      division that is defined and does not overflow. */
  lemma ReduceDivSound(l: Expr, r: Expr, env: string -> I32)
    requires Eval(Bin(Div, l, r), env).Some? && NoOverflow(Bin(Div, l, r), env)
    ensures Sound(Bin(Div, l, r), ReduceDiv(l, r), env)
  {
    DivIdentitySound(l, r, env);
    DivByConstantSound(l, r, env);
    DivByRelatedSound(l, r, env);
  }

  /** Every rewrite of the corrected `reduce_mod` keeps the value of a
      remainder that is defined and does not overflow. */
  lemma ReduceModSound(l: Expr, r: Expr, env: string -> I32)
    requires Eval(Bin(Mod, l, r), env).Some? && NoOverflow(Bin(Mod, l, r), env)
    ensures Sound(Bin(Mod, l, r), ReduceMod(l, r), env)
  {
    var x := Eval(l, env).value;
    if l == r {
      ModSelf(l, x, env);
    } else if l == Const(0) {
      ZeroMod(r, Eval(r, env).value, env);
    } else if r == Const(1) || r == Const(-1) {
      ModByUnit(l, x, env);
    } else if r.Const? && Is(l, Mul) && l.rhs.Const? && r.c != 0 && TMod(l.rhs.c, r.c) == 0 {
      assert r == Const(r.c) && l == Bin(Mul, l.lhs, Const(l.rhs.c));
      assert NoOverflow(l, env);
      ModOfMultiple(l.lhs, Eval(l.lhs, env).value, l.rhs.c, r.c, env);
    }
  }

  /** Every rewrite of `reduce_max` keeps the value. */
  lemma ReduceMaxSound(l: Expr, r: Expr, env: string -> I32)
    requires Eval(Bin(Smax, l, r), env).Some?
    ensures Sound(Bin(Smax, l, r), ReduceMax(l, r), env)
  {
    var x, y := Eval(l, env).value, Eval(r, env).value;
    if Is(l, Smax) && (l.lhs == r || l.rhs == r) {
      assert Eval(l.lhs, env).Some? && Eval(l.rhs, env).Some?;
    } else if Is(r, Smax) && (r.lhs == l || r.rhs == l) {
      assert Eval(r.lhs, env).Some? && Eval(r.rhs, env).Some?;
    } else if Is(l, Smin) && (l.lhs == r || l.rhs == r) {
      assert Eval(l.lhs, env).Some? && Eval(l.rhs, env).Some?;
    } else if Is(r, Smin) && (r.lhs == l || r.rhs == l) {
      assert Eval(r.lhs, env).Some? && Eval(r.rhs, env).Some?;
    }
  }

  /** Every rewrite of `reduce_min` keeps the value. */
  lemma ReduceMinSound(l: Expr, r: Expr, env: string -> I32)
    requires Eval(Bin(Smin, l, r), env).Some?
    ensures Sound(Bin(Smin, l, r), ReduceMin(l, r), env)
  {
    var x, y := Eval(l, env).value, Eval(r, env).value;
    if Is(l, Smax) && (l.lhs == r || l.rhs == r) {
      assert Eval(l.lhs, env).Some? && Eval(l.rhs, env).Some?;
    } else if Is(r, Smax) && (r.lhs == l || r.rhs == l) {
      assert Eval(r.lhs, env).Some? && Eval(r.rhs, env).Some?;
    } else if Is(l, Smin) && (l.lhs == r || l.rhs == r) {
      assert Eval(l.lhs, env).Some? && Eval(l.rhs, env).Some?;
    } else if Is(r, Smin) && (r.lhs == l || r.rhs == l) {
      assert Eval(r.lhs, env).Some? && Eval(r.rhs, env).Some?;
    }
  }

  /** The corrected pass never traps and never changes the value of an
      instruction whose value is defined and that does not overflow. */
  lemma ReduceSound(e: Expr, env: string -> I32)
    requires Eval(e, env).Some? && NoOverflow(e, env)
    ensures Sound(e, Reduce(e), env)
  {
    if e.Bin? {
      match e.op
      case Add => ReduceAddSound(e.lhs, e.rhs, env);
      case Sub => ReduceSubSound(e.lhs, e.rhs, env);
      case Mul => ReduceMulSound(e.lhs, e.rhs, env);
      case Div => ReduceDivSound(e.lhs, e.rhs, env);
      case Mod => ReduceModSound(e.lhs, e.rhs, env);
      case Smax => ReduceMaxSound(e.lhs, e.rhs, env);
      case Smin => ReduceMinSound(e.lhs, e.rhs, env);
    }
  }

  // ---------------------------------------------------------------------
  // The rules as written

  /** An environment in which every variable is 5. */
  function Fives(name: string): I32
  {
    5
  }

  /** `a % a` becomes 1: with `a == 5` the instruction is 0 and the
      replacement 1. */
  lemma ModSelfAsWritten()
    ensures var a, env := Var("a"), Fives;
      ReduceModAsWritten(a, a) == Replace(Const(1)) &&
      Eval(Bin(Mod, a, a), env) == Some(0) && NoOverflow(Bin(Mod, a, a), env)
  {
    assert SafeCalc.SafeModulus(5, 5) == Some(0) by { TDivOfMultiple(1, 5); }
  }

  /** `(0 - a) / a` becomes 1: with `a == 5` the instruction is -1. */
  lemma NegDivAsWritten()
    ensures var a, env := Var("a"), Fives;
      var e := Bin(Div, Bin(Sub, Const(0), a), a);
      ReduceDivAsWritten(e.lhs, e.rhs) == Replace(Const(1)) &&
      Eval(e, env) == Some(-1) && NoOverflow(e, env)
  {
    assert SafeCalc.SafeDivides(-5, 5) == Some(-1) by { TDivOfMultiple(-1, 5); }
  }

  /** `(a * 4) / 0` and `(a * 4) % 0` make the compiler evaluate `4 % 0`;
      the corrected rules leave such an instruction alone. */
  lemma ConstantZeroDivisorAsWritten(a: Expr)
    ensures var l := Bin(Mul, a, Const(4));
      ReduceDivAsWritten(l, Const(0)) == Trap && ReduceModAsWritten(l, Const(0)) == Trap &&
      ReduceDiv(l, Const(0)) == Keep && ReduceMod(l, Const(0)) == Keep
  {
  }

  /** The corrected rules: `a % a` becomes 0, `(0 - a) / a` becomes -1 (for
      a constant `a` the constant-divisor rule comes first), and a constant
      zero divisor is never divided by. */
  lemma CorrectedRules(a: Expr, l: Expr, r: Expr)
    ensures ReduceMod(a, a) == Replace(Const(0))
    ensures !a.Const? ==> ReduceDiv(Bin(Sub, Const(0), a), a) == Replace(Const(-1))
    ensures !ReduceDiv(l, r).Trap? && !ReduceMod(l, r).Trap?
  {
    var n := Bin(Sub, Const(0), a);
    assert n != a;
    if a.Bin? {
      assert a == Bin(a.op, a.lhs, a.rhs);
      assert a.rhs < a < n;
    }
  }
}
