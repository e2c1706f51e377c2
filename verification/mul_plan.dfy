/** The multiplication-by-constant planner of `ArithmeticOpt`
    (src/Backend/InstructionSets/RISC-V/Opt/Arithmetic.cpp): a table from
    32-bit constants to shift/add/sub trees of cost at most three, built
    breadth-first by level, and the value the emitted code computes. */
module MulPlan {
  import opened Wrappers
  import opened Int32

  const MUL_COST: nat := 3

  /** A plan node. `Constant` is the `ConstantMulOp` leaf, `Variable` the
      multiplicand itself, `Final` the fallback to a real `mul`; `Shl`, `Add`
      and `Sub` are the three kinds of `Action`. */
  datatype MulOp =
    | Constant(value: I32)
    | Variable
    | Final
    | Shl(l: MulOp, amount: nat)
    | Add(l: MulOp, r: MulOp)
    | Sub(l: MulOp, r: MulOp)

  type Entry = (I32, MulOp)

  /** `cost`: leaves are free, every action costs one more than its operands
      (the shift amount is a free constant), and `MulFinal` costs `INT_MAX`. */
  function Cost(op: MulOp): nat
  {
    match op
    case Constant(_) => 0
    case Variable => 0
    case Final => MAX
    case Shl(l, _) => Cost(l) + 1
    case Add(l, r) => Cost(l) + Cost(r) + 1
    case Sub(l, r) => Cost(l) + Cost(r) + 1
  }

  /** The exact multiplier a plan node stands for. The builder's key for a
      node is this value as an `int32_t` (see `Key`). */
  function Mult(op: MulOp): int
  {
    match op
    case Constant(v) => v
    case Variable => 1
    case Final => 0
    case Shl(l, a) => Mult(l) * Pow2(a)
    case Add(l, r) => Mult(l) + Mult(r)
    case Sub(l, r) => Mult(l) - Mult(r)
  }

  /** The constant a node is filed under: its multiplier wrapped to 32 bits,
      which is what `i1 << i`, `i1 + i2` and `i1 - i2` on `int32_t` produce
      step by step (`KeyOfShl`, `KeyOfAdd`, `KeyOfSub`). */
  function Key(op: MulOp): I32
  {
    Wrap(Mult(op))
  }

  /** The shapes the builder produces: no `Final` inside, every constant
      leaf is zero, a shift always shifts a register (never a constant),
      and shift amounts stay below 32. */
  predicate Valid(op: MulOp)
  {
    match op
    case Constant(v) => v == 0
    case Variable => true
    case Final => false
    case Shl(l, a) => Valid(l) && !l.Constant? && a <= 31
    case Add(l, r) => Valid(l) && Valid(r)
    case Sub(l, r) => Valid(l) && Valid(r)
  }

  /** The exact value the code emitted by `readPlanRec` computes for
      multiplicand `x`: the register itself, a shift, a sum or a difference,
      with a constant operand of an add or sub read as zero. The emitted
      shifts are the 64-bit `sll`/`slli`, so intermediate results are not
      wrapped to 32 bits; what the plan computes is the low 32 bits of the
      result, `Wrap(Eval(op, x))`, since taking the low bits commutes with
      addition, subtraction and multiplication. */
  function Eval(op: MulOp, x: int): int
    requires Valid(op)
  {
    match op
    case Constant(_) => 0
    case Variable => x
    case Shl(l, a) => Eval(l, x) * Pow2(a)
    case Add(l, r) => Eval(l, x) + Eval(r, x)
    case Sub(l, r) => Eval(l, x) - Eval(r, x)
  }

  /** A valid plan computes `x` times its multiplier. */
  lemma {:induction false} EvalIsMultiplication(op: MulOp, x: int)
    requires Valid(op)
    ensures Eval(op, x) == x * Mult(op)
  {
    match op
    case Constant(_) =>
    case Variable =>
    case Shl(l, a) =>
      EvalIsMultiplication(l, x);
      MulAssoc(x, Mult(l), Pow2(a));
    case Add(l, r) =>
      EvalIsMultiplication(l, x);
      EvalIsMultiplication(r, x);
      MulDistrib(x, Mult(l), Mult(r));
    case Sub(l, r) =>
      EvalIsMultiplication(l, x);
      EvalIsMultiplication(r, x);
      MulDistrib(x, Mult(l), Mult(r));
  }

  lemma MulAssoc(x: int, m: int, p: int)
    ensures x * m * p == x * (m * p)
  {
  }

  lemma MulDistrib(x: int, m1: int, m2: int)
    ensures x * m1 + x * m2 == x * (m1 + m2)
    ensures x * m1 - x * m2 == x * (m1 - m2)
  {
  }

  /** The key of a shifted node is the `int32_t` shift of its operand's key. */
  lemma KeyOfShl(o1: MulOp, i1: I32, i: nat, v: int)
    requires Key(o1) == i1 && v == i1 * Pow2(i)
    ensures Key(Shl(o1, i)) == Wrap(v)
  {
    WrapMulLeft(Mult(o1), Pow2(i));
  }

  /** The keys of a sum and a difference node are the `int32_t` sum and
      difference of their operands' keys. */
  lemma KeyOfAdd(o1: MulOp, o2: MulOp)
    ensures Key(Add(o1, o2)) == Wrap(Key(o1) + Key(o2))
  {
    WrapOfWrappedSum(Mult(o1), Mult(o2));
  }

  lemma KeyOfSub(o1: MulOp, o2: MulOp)
    ensures Key(Sub(o1, o2)) == Wrap(Key(o1) - Key(o2))
  {
    WrapOfWrappedDiff(Mult(o1), Mult(o2));
  }

  /** Every entry of the table is a valid plan for its own key within the
      cost budget. */
  predicate TableOk(table: map<I32, MulOp>)
  {
    forall k :: k in table ==> Valid(table[k]) && Key(table[k]) == k && Cost(table[k]) <= MUL_COST
  }

  /** A level's entries are in the table as recorded, and cost at most the
      level's number. */
  predicate LevelOk(table: map<I32, MulOp>, level: seq<Entry>, bound: nat)
  {
    forall j :: 0 <= j < |level| ==>
      level[j].0 in table && table[level[j].0] == level[j].1
      && Valid(level[j].1) && Key(level[j].1) == level[j].0 && Cost(level[j].1) <= bound
  }

  /** `t'` keeps every plan of `t`. */
  predicate Extends(t: map<I32, MulOp>, t': map<I32, MulOp>)
  {
    forall k :: k in t ==> k in t' && t'[k] == t[k]
  }

  /** Every power of two 2^1 .. 2^31, as an `int32_t`, has a plan. */
  predicate PowersPlanned(table: map<I32, MulOp>)
  {
    forall j: nat :: 1 <= j <= 31 ==> Wrap(Pow2(j)) in table
  }

  /** `tryAddOp`: record a plan only for a constant that has none yet. */
  function TryAddOp(table: map<I32, MulOp>, level: seq<Entry>, id: I32, op: MulOp): (r: (map<I32, MulOp>, seq<Entry>))
    ensures r.0.Keys == table.Keys + {id}
    ensures Extends(table, r.0)
    ensures id in table ==> r.1 == level
    ensures id !in table ==> r.0[id] == op && r.1 == level + [(id, op)]
  {
    if id in table then (table, level) else (table[id := op], level + [(id, op)])
  }

  lemma TryAddOpKeepsInvariant(table: map<I32, MulOp>, level: seq<Entry>, bound: nat, id: I32, op: MulOp,
                               levels: seq<seq<Entry>>)
    requires TableOk(table) && LevelOk(table, level, bound) && bound <= MUL_COST
    requires forall j :: 0 <= j < |levels| ==> LevelOk(table, levels[j], j)
    requires Valid(op) && Key(op) == id && Cost(op) <= bound
    ensures var (t, l) := TryAddOp(table, level, id, op);
      TableOk(t) && LevelOk(t, l, bound) && forall j :: 0 <= j < |levels| ==> LevelOk(t, levels[j], j)
  {
    var (t, l) := TryAddOp(table, level, id, op);
    forall j | 0 <= j < |levels| ensures LevelOk(t, levels[j], j) {
      ExtendsKeepsLevel(table, t, levels[j], j);
    }
    ExtendsKeepsLevel(table, t, level, bound);
  }

  lemma ExtendsKeepsLevel(t: map<I32, MulOp>, t': map<I32, MulOp>, level: seq<Entry>, bound: nat)
    requires LevelOk(t, level, bound) && Extends(t, t')
    ensures LevelOk(t', level, bound)
  {
  }

  lemma Pow2Below31(i: nat)
    requires Pow2(i) <= MAX
    ensures i <= 30
  {
    if i > 30 {
      Pow2Monotone(31, i);
      Pow2Values();
    }
  }

  /** The builder's invariant: the table is sound and every finished level
      agrees with it. */
  predicate Built(table: map<I32, MulOp>, levels: seq<seq<Entry>>)
  {
    TableOk(table) && forall j :: 0 <= j < |levels| ==> LevelOk(table, levels[j], j)
  }

  /** 2^1 .. 2^(n-1) have plans. */
  predicate PowersUpTo(table: map<I32, MulOp>, n: nat)
  {
    forall j: nat :: 1 <= j < n ==> Wrap(Pow2(j)) in table
  }

  /** The inner shift loop for one entry `(i1, o1)`: try `i1 << i` for
      i = 1, 2, ... until the shifted value's sign bit is set. The running
      value `v` is `i1 * 2^i` before wrapping. */
  method ShiftFrom(table0: map<I32, MulOp>, level0: seq<Entry>, bound: nat, levels: seq<seq<Entry>>,
                   i1: I32, o1: MulOp)
    returns (table: map<I32, MulOp>, level: seq<Entry>)
    requires Built(table0, levels) && LevelOk(table0, level0, bound) && 1 <= bound <= MUL_COST
    requires i1 != 0 && Valid(o1) && Key(o1) == i1 && Cost(o1) < bound
    ensures Built(table, levels) && LevelOk(table, level, bound) && Extends(table0, table)
    ensures i1 == 1 ==> PowersPlanned(table)
  {
    table, level := table0, level0;
    var i: nat := 0;
    var v: int := i1;
    assert v == i1 * Pow2(0) by { assert Pow2(0) == 1; }
    var stop := false;
    while !stop
      invariant Built(table, levels) && LevelOk(table, level, bound) && Extends(table0, table)
      invariant i <= 31 && v == i1 * Pow2(i) && (i == 0 ==> v == i1)
      invariant i1 > 0 ==> 0 < v < MODULUS
      invariant i1 < 0 ==> i == 0
      invariant i1 == 1 ==> PowersUpTo(table, if stop then 32 else i)
      decreases 32 - i, if stop then 0 else 1
    {
      var t := table;
      table, level, stop := ShiftOnce(table, level, bound, levels, i1, o1, i, v);
      ExtendsTransitive(table0, t, table);
      if !stop {
        v, i := 2 * v, i + 1;
      }
    }
  }

  /** One round of the shift loop: record `i1 << i` (for i >= 1) and report
      whether its sign bit is set, which ends the loop. */
  method ShiftOnce(table0: map<I32, MulOp>, level0: seq<Entry>, bound: nat, levels: seq<seq<Entry>>,
                   i1: I32, o1: MulOp, i: nat, v: int)
    returns (table: map<I32, MulOp>, level: seq<Entry>, stop: bool)
    requires Built(table0, levels) && LevelOk(table0, level0, bound) && 1 <= bound <= MUL_COST
    requires i1 != 0 && Valid(o1) && Key(o1) == i1 && Cost(o1) < bound
    requires i <= 31 && v == i1 * Pow2(i) && (i1 > 0 ==> 0 < v < MODULUS) && (i1 < 0 ==> i == 0)
    requires i == 0 ==> v == i1
    requires i1 == 1 ==> PowersUpTo(table0, i)
    ensures Built(table, levels) && LevelOk(table, level, bound) && Extends(table0, table)
    ensures stop <==> Wrap(v) < 0
    ensures !stop ==> i1 > 0 && i <= 30 && 0 < 2 * v < MODULUS && 2 * v == i1 * Pow2(i + 1)
    ensures i1 == 1 ==> PowersUpTo(table, if stop then 32 else i + 1)
  {
    table, level := table0, level0;
    var idShl := Wrap(v);
    if i == 0 {
      WrapInRange(v);
      if i1 == 1 { PowersStep(table0, table, 0); }
    } else {
      KeyOfShl(o1, i1, i, v);
      table, level := AddPlan(table, level, bound, levels, idShl, Shl(o1, i));
      if i1 == 1 { PowersStep(table0, table, i); }
    }
    stop := idShl < 0;
    if stop && i1 == 1 {
      OneShiftExit(i);
    }
    if !stop {
      ShiftAdvance(i1, i, v);
    }
  }

  lemma PowersStep(t: map<I32, MulOp>, t': map<I32, MulOp>, i: nat)
    requires PowersUpTo(t, i) && t.Keys <= t'.Keys && (i >= 1 ==> Wrap(1 * Pow2(i)) in t')
    ensures PowersUpTo(t', i + 1)
  {
  }

  /** One `tryAddOp` call inside the builder, with the table invariants. */
  method AddPlan(table0: map<I32, MulOp>, level0: seq<Entry>, bound: nat, levels: seq<seq<Entry>>, id: I32, op: MulOp)
    returns (table: map<I32, MulOp>, level: seq<Entry>)
    requires Built(table0, levels) && LevelOk(table0, level0, bound) && bound <= MUL_COST
    requires Valid(op) && Key(op) == id && Cost(op) <= bound
    ensures Built(table, levels) && LevelOk(table, level, bound) && Extends(table0, table)
    ensures table.Keys == table0.Keys + {id}
    ensures (table, level) == TryAddOp(table0, level0, id, op)
  {
    TryAddOpKeepsInvariant(table0, level0, bound, id, op, levels);
    var r := TryAddOp(table0, level0, id, op);
    table, level := r.0, r.1;
  }

  lemma ExtendsTransitive(a: map<I32, MulOp>, b: map<I32, MulOp>, c: map<I32, MulOp>)
    requires Extends(a, b) && Extends(b, c)
    ensures Extends(a, c)
  {
  }

  /** Shifting 1 left first sets the sign bit at 31. */
  lemma OneShiftExit(i: nat)
    requires i <= 31 && 0 < 1 * Pow2(i) < MODULUS && Wrap(1 * Pow2(i)) < 0
    ensures i == 31
  {
    if i <= 30 {
      Pow2AtMost30(i);
      WrapInRange(1 * Pow2(i));
    }
  }

  /** While the shifted value is still non-negative, one more shift stays
      below 2^32 and below a shift amount of 32. */
  lemma ShiftAdvance(i1: int, i: nat, v: int)
    requires i1 > 0 && v == i1 * Pow2(i) && 0 < v < MODULUS && Wrap(v) >= 0
    ensures i <= 30 && 0 < 2 * v < MODULUS && 2 * v == i1 * Pow2(i + 1)
  {
    var p := Pow2(i);
    if v > MAX { WrapHigh(v); }
    MulGrows(i1, p);
    Pow2Below31(i);
    assert Pow2(i + 1) == 2 * p;
    Double(i1, p);
  }

  lemma Double(a: int, p: int)
    ensures a * (2 * p) == 2 * (a * p)
  {
  }

  lemma WrapHigh(v: int)
    requires MAX < v < MODULUS
    ensures Wrap(v) == v - MODULUS
  {
    WrapUnique(v, -1);
  }

  lemma MulGrows(a: int, b: nat)
    requires a >= 1
    ensures b <= a * b
  {
  }
  /** The add/sub loop for one entry `(i1, o1)` against every entry of
      level `l2`. */
  method AddSubFrom(table0: map<I32, MulOp>, level0: seq<Entry>, bound: nat, levels: seq<seq<Entry>>,
                    i1: I32, o1: MulOp, l2: nat)
    returns (table: map<I32, MulOp>, level: seq<Entry>)
    requires Built(table0, levels) && LevelOk(table0, level0, bound) && bound <= MUL_COST
    requires l2 < |levels| && Valid(o1) && Key(o1) == i1 && Cost(o1) + l2 + 1 <= bound
    ensures Built(table, levels) && LevelOk(table, level, bound) && Extends(table0, table)
  {
    table, level := table0, level0;
    var src := levels[l2];
    var p := 0;
    while p < |src|
      invariant p <= |src|
      invariant Built(table, levels) && LevelOk(table, level, bound) && Extends(table0, table)
    {
      var (i2, o2) := src[p];
      assert Valid(o2) && Key(o2) == i2 && Cost(o2) <= l2;
      KeyOfAdd(o1, o2);
      KeyOfSub(o1, o2);
      var t := table;
      table, level := AddPlan(table, level, bound, levels, Wrap(i1 + i2), Add(o1, o2));
      ExtendsTransitive(table0, t, table);
      var t' := table;
      table, level := AddPlan(table, level, bound, levels, Wrap(i1 - i2), Sub(o1, o2));
      ExtendsTransitive(table0, t', table);
      p := p + 1;
    }
  }


  lemma ExtendsKeepsPowers(t: map<I32, MulOp>, t': map<I32, MulOp>)
    requires PowersPlanned(t) && Extends(t, t')
    ensures PowersPlanned(t')
  {
  }

  /** The SHIFT LEFT pass over level `l1`, skipping the constant 0. */
  method ShiftLevel(table0: map<I32, MulOp>, level0: seq<Entry>, bound: nat, levels: seq<seq<Entry>>, l1: nat)
    returns (table: map<I32, MulOp>, level: seq<Entry>)
    requires Built(table0, levels) && LevelOk(table0, level0, bound) && bound <= MUL_COST
    requires l1 < |levels| && l1 < bound
    ensures Built(table, levels) && LevelOk(table, level, bound) && Extends(table0, table)
    ensures (exists p :: 0 <= p < |levels[l1]| && levels[l1][p].0 == 1) ==> PowersPlanned(table)
  {
    table, level := table0, level0;
    var src := levels[l1];
    var p := 0;
    while p < |src|
      invariant p <= |src|
      invariant Built(table, levels) && LevelOk(table, level, bound) && Extends(table0, table)
      invariant (exists q :: 0 <= q < p && src[q].0 == 1) ==> PowersPlanned(table)
    {
      var (i1, o1) := src[p];
      if i1 != 0 {
        var t := table;
        table, level := ShiftFrom(table, level, bound, levels, i1, o1);
        ExtendsTransitive(table0, t, table);
        if exists q :: 0 <= q < p && src[q].0 == 1 { ExtendsKeepsPowers(t, table); }
      }
      p := p + 1;
    }
  }

  /** The ADD/SUB pass pairing level `l1` with level `l2`. */
  method AddSubLevels(table0: map<I32, MulOp>, level0: seq<Entry>, bound: nat, levels: seq<seq<Entry>>,
                      l1: nat, l2: nat)
    returns (table: map<I32, MulOp>, level: seq<Entry>)
    requires Built(table0, levels) && LevelOk(table0, level0, bound) && bound <= MUL_COST
    requires l1 < |levels| && l2 < |levels| && l1 + l2 < bound
    ensures Built(table, levels) && LevelOk(table, level, bound) && Extends(table0, table)
  {
    table, level := table0, level0;
    var src := levels[l1];
    var p := 0;
    while p < |src|
      invariant p <= |src|
      invariant Built(table, levels) && LevelOk(table, level, bound) && Extends(table0, table)
    {
      var (i1, o1) := src[p];
      var t := table;
      table, level := AddSubFrom(table, level, bound, levels, i1, o1, l2);
      ExtendsTransitive(table0, t, table);
      p := p + 1;
    }
  }

  /** One iteration of the outer loop: the plans of cost `ld`, built from
      shifts of every cheaper level and sums and differences of pairs of
      levels whose costs add up to less than `ld`. */
  method BuildLevel(table0: map<I32, MulOp>, levels: seq<seq<Entry>>, ld: nat)
    returns (table: map<I32, MulOp>, level: seq<Entry>)
    requires Built(table0, levels) && |levels| == ld && 1 <= ld <= MUL_COST
    ensures Built(table, levels) && LevelOk(table, level, ld) && Extends(table0, table)
    ensures (exists p :: 0 <= p < |levels[0]| && levels[0][p].0 == 1) ==> PowersPlanned(table)
  {
    table, level := table0, [];
    var l1 := 0;
    while l1 < ld
      invariant l1 <= ld
      invariant Built(table, levels) && LevelOk(table, level, ld) && Extends(table0, table)
      invariant l1 > 0 && (exists p :: 0 <= p < |levels[0]| && levels[0][p].0 == 1) ==> PowersPlanned(table)
    {
      var t := table;
      table, level := ShiftLevel(table, level, ld, levels, l1);
      ExtendsTransitive(table0, t, table);
      if l1 > 0 && exists p :: 0 <= p < |levels[0]| && levels[0][p].0 == 1 { ExtendsKeepsPowers(t, table); }
      ghost var afterShift := table;
      var l2 := 0;
      while l1 + l2 < ld
        invariant Built(table, levels) && LevelOk(table, level, ld) && Extends(afterShift, table)
        invariant Extends(table0, table)
      {
        t := table;
        table, level := AddSubLevels(table, level, ld, levels, l1, l2);
        ExtendsTransitive(table0, t, table);
        ExtendsTransitive(afterShift, t, table);
        l2 := l2 + 1;
      }
      if exists p :: 0 <= p < |levels[0]| && levels[0][p].0 == 1 { ExtendsKeepsPowers(afterShift, table); }
      l1 := l1 + 1;
    }
  }

  const LEVEL_ZERO: seq<Entry> := [(0, Constant(0)), (1, Variable)]

  /** `initialize`: level 0 holds 0 and 1; levels 1 to 3 follow; then every
      level's entries are written into the table. */
  method Initialize() returns (table: map<I32, MulOp>, levels: seq<seq<Entry>>)
    ensures TableOk(table) && |levels| == MUL_COST + 1
    ensures forall j :: 0 <= j < |levels| ==> LevelOk(table, levels[j], j)
    ensures 0 in table && 1 in table && table[0] == Constant(0) && table[1] == Variable
    ensures PowersPlanned(table)
  {
    table := map[0 := Constant(0), 1 := Variable];
    levels := [LEVEL_ZERO];
    assert LevelOk(table, LEVEL_ZERO, 0);
    var ld := 1;
    while ld <= MUL_COST
      invariant 1 <= ld <= MUL_COST + 1 && |levels| == ld && levels[0] == LEVEL_ZERO
      invariant Built(table, levels)
      invariant 0 in table && 1 in table && table[0] == Constant(0) && table[1] == Variable
      invariant ld > 1 ==> PowersPlanned(table)
    {
      var t := table;
      var level;
      assert LEVEL_ZERO[1].0 == 1;
      table, level := BuildLevel(table, levels, ld);
      if ld > 1 { ExtendsKeepsPowers(t, table); }
      levels := levels + [level];
      ld := ld + 1;
    }
    var built := table;
    table := Publish(table, levels);
  }

  /** The closing loop of `initialize` rewrites every recorded pair into the
      table; since each pair is already there, the table does not change. */
  method Publish(table0: map<I32, MulOp>, levels: seq<seq<Entry>>) returns (table: map<I32, MulOp>)
    requires forall j :: 0 <= j < |levels| ==> LevelOk(table0, levels[j], j)
    ensures table == table0
  {
    table := table0;
    var j := 0;
    while j < |levels|
      invariant j <= |levels| && table == table0
    {
      var list := levels[j];
      var p := 0;
      while p < |list|
        invariant p <= |list| && table == table0
      {
        assert list[p].0 in table && table[list[p].0] == list[p].1;
        table := table[list[p].0 := list[p].1];
        p := p + 1;
      }
      j := j + 1;
    }
  }

  /** `makePlan`: the recorded plan, or `MulFinal` when there is none. */
  function MakePlan(table: map<I32, MulOp>, c: I32): (r: MulOp)
    ensures c !in table ==> r.Final?
    ensures TableOk(table) ==> (r.Final? <==> c !in table)
    ensures TableOk(table) && !r.Final? ==> Valid(r) && Key(r) == c && Cost(r) <= MUL_COST
  {
    if c in table then table[c] else Final
  }

  /** The value `applyMulConst` leaves in `ans` for multiplicand `x`:
      `mul` by the loaded constant for `MulFinal`, a move for the
      multiplicand, `li 0` for the zero constant, and the plan's code
      otherwise. `None` where no code reaches `ans`. */
  function ApplyMulConst(plan: MulOp, c: I32, x: I32): Option<I32>
  {
    match plan
    case Final => Some(Wrap(x * c))
    case Variable => Some(x)
    case Constant(v) => if v == 0 then Some(0) else None
    case _ => if Valid(plan) then Some(Wrap(Eval(plan, x))) else None
  }

  /** Every constant multiplication the table plans computes `x * c`
      wrapped to 32 bits, for every multiplicand. */
  lemma MulConstCorrect(table: map<I32, MulOp>, c: I32, x: I32)
    requires TableOk(table)
    ensures ApplyMulConst(MakePlan(table, c), c, x) == Some(Wrap(x * c))
  {
    var plan := MakePlan(table, c);
    if !plan.Final? {
      EvalIsMultiplication(plan, x);
      WrapMulRight(x, Mult(plan));
      if plan.Variable? { WrapInRange(x); assert x * 1 == x; }
      if plan.Constant? { WrapInRange(0); assert x * 0 == 0; }
    }
  }

  /** After `initialize`, every constant is handled with the right value, and
      a planned constant costs at most three shift/add/sub steps. */
  method MulByConst(c: I32, x: I32) returns (r: Option<I32>, cost: nat)
    ensures r == Some(Wrap(x * c))
    ensures c == 0 || c == 1 || (exists j: nat :: 1 <= j <= 31 && c == Wrap(Pow2(j))) ==> cost <= MUL_COST
  {
    var table, levels := Initialize();
    var plan := MakePlan(table, c);
    MulConstCorrect(table, c, x);
    if j: nat :| 1 <= j <= 31 && c == Wrap(Pow2(j)) { assert c in table; }
    r, cost := ApplyMulConst(plan, c, x), Cost(plan);
  }
}
