/** The stack frame of a RISC-V function (`RISCV::Stack` in
    include/Backend/InstructionSets/RISC-V/Modules.h): variables are stacked
    below the return-address slot, parameters passed on the caller's stack
    keep a negative position, and an offset from `sp` is computed against
    the frame size rounded up to 16 bytes. */
module RiscvStack {
  import opened Wrappers
  import opened Int32
  import Bits
  import Arith
  import SafeCalc
  import opened VariableTypes

  /** `RA_SIZE`: the bytes reserved for the return address. */
  const RA_SIZE: nat := 8 * BYTE

  /** `VariableWide`: where the object a variable refers to lives. */
  datatype Lifetime = GLOBAL | FUNCTIONAL | LOCAL

  /** The fields of `Backend::Variable` the frame reads. */
  datatype Variable = Variable(name: string, workload: VariableType, lifetime: Lifetime, length: nat)

  /** `Variable::size()`: the element size times the length. */
  function Size(v: Variable): nat
  {
    TypeToSize(v.workload) * v.length
  }

  /** `stack_index` (position of each variable, measured down from the top of
      the frame) and `stack_size` (an unsigned 32-bit count of bytes). */
  datatype Stack = Stack(index: map<string, int>, size: nat)

  function NewStack(): Stack
  {
    Stack(map[], RA_SIZE)
  }

  /** The messages `log_error` prints. The logger prints and returns, so
      the operation that logged carries on. */
  datatype StackError = NotOnStack(name: string) | NotStored(name: string)

  /** A result together with the messages logged while computing it. */
  datatype Logged<T> = Logged(value: T, log: seq<StackError>)

  /** `add_variable`: a name already present is left alone. Otherwise the
      frame grows by the variable's size and the variable's position is the
      new frame size; a variable whose object does not live on the stack is
      logged and placed all the same. */
  function AddVariable(s: Stack, v: Variable): (r: Logged<Stack>)
    ensures v.name in s.index ==> r == Logged(s, [])
    ensures v.name !in s.index ==>
      r.value.size == (s.size + Size(v)) % MODULUS &&
      r.value.index.Keys == s.index.Keys + {v.name} &&
      r.value.index[v.name] == Wrap(r.value.size) &&
      (forall n :: n in s.index ==> r.value.index[n] == s.index[n])
    ensures r.log != [] <==> v.name !in s.index && v.lifetime != FUNCTIONAL
    ensures r.log != [] ==> r.log == [NotOnStack(v.name)]
  {
    if v.name in s.index then Logged(s, [])
    else
      var size := (s.size + Size(v)) % MODULUS;
      var log := if v.lifetime != FUNCTIONAL then [NotOnStack(v.name)] else [];
      Logged(Stack(s.index[v.name := Wrap(size)], size), log)
  }

  /** `add_parameter`: a parameter passed `sp_plus` bytes into the caller's
      frame gets the position `-sp_plus`, replacing any earlier one; a
      variable whose object does not live on the stack is logged and
      placed all the same. */
  function AddParameter(s: Stack, v: Variable, spPlus: I32): (r: Logged<Stack>)
    ensures r.value.size == s.size && r.value.index.Keys == s.index.Keys + {v.name}
    ensures r.value.index[v.name] == Wrap(0 - spPlus as int)
    ensures forall n :: n in s.index && n != v.name ==> r.value.index[n] == s.index[n]
    ensures r.log == (if v.lifetime != FUNCTIONAL then [NotOnStack(v.name)] else [])
  {
    var log := if v.lifetime != FUNCTIONAL then [NotOnStack(v.name)] else [];
    Logged(Stack(s.index[v.name := Wrap(0 - spPlus as int)], s.size), log)
  }

  /** `align(alignment)`: `(stack_size + alignment - 1) & ~(alignment - 1)`
      in 64-bit unsigned arithmetic. The mask only clears bits, so the
      result never exceeds the rounded-up operand. */
  function Align(s: Stack, alignment: nat): (r: nat)
    requires 1 <= alignment <= MODULUS && s.size < MODULUS
    ensures r <= s.size + alignment - 1
  {
    Bits.AndBelow(s.size + alignment - 1, TWO_TO_64 - alignment);
    Bits.And(s.size + alignment - 1, TWO_TO_64 - alignment)
  }

  /** What `offset_of` yields: the offset, the stack afterwards (looking up
      a missing name with `operator[]` inserts it at position 0) and the
      messages logged. */
  datatype Located = Located(offset: I32, stack: Stack, log: seq<StackError>)

  /** `offset_of`: a parameter's negative position as it is; a stacked
      variable's distance from `sp`, the aligned frame size minus its
      position. A name that was never stored is logged, inserted at
      position 0 and so found at the aligned frame size. For a variable
      whose object does not live on the stack the function logs and falls
      off its end without returning a value, which is undefined behaviour
      in C++: that case has no result. */
  function OffsetOf(s: Stack, v: Variable): (r: Option<Located>)
    requires s.size < MODULUS
    ensures r.None? <==> v.lifetime != FUNCTIONAL
    ensures r.Some? ==> r.value.stack.size == s.size && v.name in r.value.stack.index
    ensures r.Some? ==> (r.value.log == [] <==> v.name in s.index)
    ensures r.Some? && v.name in s.index ==> r.value.stack == s
  {
    if v.lifetime != FUNCTIONAL then None
    else
      var log := if v.name in s.index then [] else [NotStored(v.name)];
      var t := if v.name in s.index then s else Stack(s.index[v.name := 0], s.size);
      var position := t.index[v.name];
      if position < 0 then Some(Located(Wrap(position), t, log))
      else Some(Located(Wrap(Wrap(Align(t, 16)) - position), t, log))
  }

  // ---------------------------------------------------------------------
  // Alignment

  /** Clearing the low `k` bits of a value below 2^n with the mask
      2^n - 2^k rounds it down to a multiple of 2^k. */
  lemma {:induction false} AndMask(y: nat, n: nat, k: nat)
    requires k <= n && y < Pow2(n)
    ensures Pow2(k) <= Pow2(n)
    ensures Bits.And(y, Pow2(n) - Pow2(k)) == Pow2(k) * (y / Pow2(k))
    decreases n
  {
    Pow2Monotone(k, n);
    if k == 0 {
      AndOnes(y, n);
    } else if k == n {
      assert Bits.And(y, 0) == 0;
      Arith.DivBetween(y, Pow2(k), 0);
    } else if y == 0 {
      assert 0 / Pow2(k) == 0;
    } else {
      assert y / 2 < Pow2(n - 1);
      AndMask(y / 2, n - 1, k - 1);
      Pow2Monotone(k - 1, n - 1);
      AndMaskStep(y, n, k);
    }
  }

  /** The step of `AndMask`: the low bit is cleared and the rest is the
      same rounding one bit narrower. */
  lemma AndMaskStep(y: nat, n: nat, k: nat)
    requires 0 < k < n && Pow2(k - 1) <= Pow2(n - 1)
    requires Bits.And(y / 2, Pow2(n - 1) - Pow2(k - 1)) == Pow2(k - 1) * ((y / 2) / Pow2(k - 1))
    ensures Bits.And(y, Pow2(n) - Pow2(k)) == Pow2(k) * (y / Pow2(k))
  {
    Pow2Monotone(k, n);
    var p := Pow2(k - 1);
    var q := y / Pow2(k);
    var m2 := Pow2(n - 1) - p;
    var m := Pow2(n) - Pow2(k);
    assert Pow2(k) == 2 * p && m == 2 * m2;
    assert m / 2 == m2 && m % 2 == 0;
    Bits.AndSplit(y, m);
    assert Pow2(1) == 2;
    Arith.DivDiv(y, 1, k - 1);
    assert (y / 2) / p == q;
    var t := Pow2(k) * q;
    MulAssoc(2, p, q);
    assert t / 2 == p * q && t % 2 == 0;
    Bits.Recompose(Bits.And(y, m), t);
  }

  lemma MulAssoc(a: int, b: int, c: int)
    ensures (a * b) * c == a * (b * c)
  {
  }

  lemma {:induction false} AndOnes(y: nat, n: nat)
    requires y < Pow2(n)
    ensures Bits.And(y, Pow2(n) - 1) == y
    decreases n
  {
    if y > 0 {
      assert n > 0;
      var m := Pow2(n) - 1;
      assert m == 2 * (Pow2(n - 1) - 1) + 1;
      Bits.AndSplit(y, m);
      AndOnes(y / 2, n - 1);
      Bits.Recompose(Bits.And(y, m), y);
    }
  }

  lemma MulMod(q: nat, d: nat)
    requires d > 0
    ensures (d * q) % d == 0
  {
    assert (q + 1) * d == q * d + d;
    Arith.DivBetween(d * q, d, q);
    SafeCalc.DivModFacts(d * q, d);
  }

  /** For a power-of-two alignment, `align` rounds the frame size up to the
      next multiple of the alignment. */
  lemma AlignRoundsUp(s: Stack, k: nat)
    requires k <= 32 && s.size < MODULUS
    ensures Pow2(k) <= MODULUS
    ensures var r := Align(s, Pow2(k));
      r % Pow2(k) == 0 && s.size <= r < s.size + Pow2(k)
  {
    AlignmentBound(k);
    var d := Pow2(k);
    var y := s.size + d - 1;
    assert y < TWO_TO_64;
    WideMask(y, k);
    RoundDown(y, d);
  }

  /** `d * (y / d)` is the multiple of `d` at most `y` and above `y - d`. */
  lemma RoundDown(y: nat, d: nat)
    requires d > 0
    ensures var r := d * (y / d);
      r % d == 0 && y - d < r <= y
  {
    var q := y / d;
    SafeCalc.DivModFacts(y, d);
    MulCommutes(q, d);
    assert d * q == y - y % d;
    MulMod(q, d);
  }

  lemma AlignmentBound(k: nat)
    requires k <= 32
    ensures 1 <= Pow2(k) <= MODULUS
  {
    Pow2Monotone(k, 32);
    Pow2Values();
  }

  /** `~(alignment - 1)` in 64 bits for an alignment of 2^k. */
  lemma WideMask(y: nat, k: nat)
    requires k <= 32 && y < TWO_TO_64
    ensures Pow2(k) <= MODULUS
    ensures Bits.And(y, TWO_TO_64 - Pow2(k)) == Pow2(k) * (y / Pow2(k))
  {
    AlignmentBound(k);
    SixtyFourBits();
    AndMask(y, 64, k);
  }

  /** `align(16)`: the frame size rounded up to a multiple of 16. */
  lemma Align16(s: Stack)
    requires s.size < MODULUS
    ensures Align(s, 16) % 16 == 0 && s.size <= Align(s, 16) < s.size + 16
  {
    Pow2Values();
    AlignRoundsUp(s, 4);
  }

  // ---------------------------------------------------------------------
  // Frame layout

  /** Adding a variable a second time changes nothing and logs nothing. */
  lemma AddVariableIdempotent(s: Stack, v: Variable)
    ensures AddVariable(AddVariable(s, v).value, v) == Logged(AddVariable(s, v).value, [])
  {
  }

  /** The frame built by adding `vars` in order to a new stack, with every
      message logged on the way. */
  function Frame(vars: seq<Variable>): Logged<Stack>
  {
    if |vars| == 0 then Logged(NewStack(), [])
    else
      var f := Frame(vars[..|vars| - 1]);
      var a := AddVariable(f.value, vars[|vars| - 1]);
      Logged(a.value, f.log + a.log)
  }

  function TotalSize(vars: seq<Variable>): nat
  {
    if |vars| == 0 then 0 else TotalSize(vars[..|vars| - 1]) + Size(vars[|vars| - 1])
  }

  predicate DistinctNames(vars: seq<Variable>)
  {
    forall i, j :: 0 <= i < j < |vars| ==> vars[i].name != vars[j].name
  }

  predicate AllOnStack(vars: seq<Variable>)
  {
    forall i :: 0 <= i < |vars| ==> vars[i].lifetime == FUNCTIONAL
  }

  /** Room for the frame in a signed 32-bit offset, alignment included. */
  predicate Fits(vars: seq<Variable>)
  {
    RA_SIZE + TotalSize(vars) + 16 <= MAX
  }

  /** The names of `vars`. */
  function Names(vars: seq<Variable>): set<string>
  {
    if |vars| == 0 then {} else Names(vars[..|vars| - 1]) + {vars[|vars| - 1].name}
  }

  /** A stack whose positions are those of `vars` laid out in order. */
  predicate Positioned(vars: seq<Variable>, s: Stack)
  {
    forall i :: 0 <= i < |vars| ==>
      vars[i].name in s.index && s.index[vars[i].name] == RA_SIZE + TotalSize(vars[..i + 1])
  }

  lemma {:induction false} NamesMembers(vars: seq<Variable>, name: string)
    ensures name in Names(vars) <==> exists i :: 0 <= i < |vars| && vars[i].name == name
    decreases |vars|
  {
    if |vars| > 0 {
      var init := vars[..|vars| - 1];
      NamesMembers(init, name);
      if name in Names(init) {
        var i :| 0 <= i < |init| && init[i].name == name;
        assert vars[i].name == name;
      }
      if exists i :: 0 <= i < |vars| && vars[i].name == name {
        var i :| 0 <= i < |vars| && vars[i].name == name;
        if i < |vars| - 1 { assert init[i].name == name; }
      }
    }
  }

  /** The requirements of `FrameLayout` hold for every prefix, and the last
      variable is not among the names before it. */
  lemma InitFacts(vars: seq<Variable>)
    requires |vars| > 0 && DistinctNames(vars) && Fits(vars)
    ensures var init := vars[..|vars| - 1];
      DistinctNames(init) && Fits(init) && vars[|vars| - 1].name !in Names(init) &&
      (AllOnStack(vars) <==> AllOnStack(init) && vars[|vars| - 1].lifetime == FUNCTIONAL)
  {
    var init := vars[..|vars| - 1];
    var v := vars[|vars| - 1];
    assert forall i :: 0 <= i < |init| ==> init[i] == vars[i];
    NamesMembers(init, v.name);
  }

  lemma TotalSizeLast(vars: seq<Variable>, i: nat)
    requires i < |vars|
    ensures TotalSize(vars[..i + 1]) == TotalSize(vars[..i]) + Size(vars[i])
  {
    assert vars[..i + 1][..i] == vars[..i];
  }

  lemma {:induction false} TotalSizeMonotone(vars: seq<Variable>, a: nat, b: nat)
    requires a <= b <= |vars|
    ensures TotalSize(vars[..a]) <= TotalSize(vars[..b])
    decreases b - a
  {
    if a < b {
      TotalSizeLast(vars, b - 1);
      TotalSizeMonotone(vars, a, b - 1);
    }
  }

  /** A variable laid out before `v` keeps its position once `v` is added. */
  lemma PositionedEarlier(init: seq<Variable>, v: Variable, s: Stack, size: nat, i: nat)
    requires Positioned(init, s) && v.name !in s.index && i < |init|
    ensures var vars := init + [v];
      vars[i].name in s.index[v.name := size] &&
      s.index[v.name := size][vars[i].name] == RA_SIZE + TotalSize(vars[..i + 1])
  {
    var vars := init + [v];
    assert vars[..i + 1] == init[..i + 1];
    assert vars[i] == init[i];
    assert init[i].name in s.index;
  }

  lemma PositionedStep(init: seq<Variable>, v: Variable, s: Stack, size: nat)
    requires Positioned(init, s) && v.name !in s.index
    requires size == RA_SIZE + TotalSize(init + [v])
    ensures Positioned(init + [v], Stack(s.index[v.name := size], size))
  {
    var vars := init + [v];
    var s' := Stack(s.index[v.name := size], size);
    forall i | 0 <= i < |vars|
      ensures vars[i].name in s'.index && s'.index[vars[i].name] == RA_SIZE + TotalSize(vars[..i + 1])
    {
      if i < |init| {
        PositionedEarlier(init, v, s, size, i);
      } else {
        assert vars[..i + 1] == vars;
      }
    }
  }

  lemma AddFreshVariable(s: Stack, v: Variable, size: nat)
    requires v.name !in s.index
    requires size == s.size + Size(v) <= MAX
    ensures AddVariable(s, v).value == Stack(s.index[v.name := size], size)
  {
    WrapInRange(size);
  }

  /** `s` is the frame laid out for `vars`: the return-address slot plus
      their sizes, holding exactly their names, each at its position. */
  predicate Built(vars: seq<Variable>, s: Stack)
  {
    s.size == RA_SIZE + TotalSize(vars) && s.index.Keys == Names(vars) && Positioned(vars, s)
  }

  /** Adding a fresh variable to a frame laid out for `init` lays it out
      for `init + [v]`. */
  lemma FrameGrow(init: seq<Variable>, v: Variable, s: Stack)
    requires Built(init, s)
    requires v.name !in Names(init) && RA_SIZE + TotalSize(init + [v]) <= MAX
    ensures Built(init + [v], AddVariable(s, v).value)
  {
    var vars := init + [v];
    assert vars[..|vars| - 1] == init && vars[|vars| - 1] == v;
    var size := s.size + Size(v);
    assert TotalSize(vars) == TotalSize(init) + Size(v);
    AddFreshVariable(s, v, size);
    PositionedStep(init, v, s, size);
  }

  lemma Snoc<T>(xs: seq<T>)
    requires |xs| > 0
    ensures xs[..|xs| - 1] + [xs[|xs| - 1]] == xs
  {
  }

  /** The step of `FrameBuilt`, stated on `vars` and its prefix. */
  lemma FrameBuiltStep(vars: seq<Variable>)
    requires |vars| > 0 && vars[|vars| - 1].name !in Names(vars[..|vars| - 1])
    requires RA_SIZE + TotalSize(vars) <= MAX
    requires Built(vars[..|vars| - 1], Frame(vars[..|vars| - 1]).value)
    ensures Built(vars, Frame(vars).value)
  {
    Snoc(vars);
    FrameGrow(vars[..|vars| - 1], vars[|vars| - 1], Frame(vars[..|vars| - 1]).value);
  }

  lemma {:induction false} FrameBuilt(vars: seq<Variable>)
    requires DistinctNames(vars) && Fits(vars)
    ensures Built(vars, Frame(vars).value)
    decreases |vars|
  {
    if |vars| > 0 {
      InitFacts(vars);
      FrameBuilt(vars[..|vars| - 1]);
      FrameBuiltStep(vars);
    }
  }

  /** The frame logs nothing exactly when every object lives on the stack. */
  lemma {:induction false} FrameLog(vars: seq<Variable>)
    requires DistinctNames(vars) && Fits(vars)
    ensures Frame(vars).log == [] <==> AllOnStack(vars)
    decreases |vars|
  {
    if |vars| > 0 {
      var init := vars[..|vars| - 1];
      var v := vars[|vars| - 1];
      InitFacts(vars);
      FrameLog(init);
      FrameBuilt(init);
      var a := AddVariable(Frame(init).value, v);
      assert Frame(vars).log == Frame(init).log + a.log;
      assert a.log == [] <==> v.lifetime == FUNCTIONAL;
    }
  }

  /** Distinct variables added in order are laid out one after the other:
      the frame is the return-address slot plus their sizes, the frame
      holds exactly their names, and each variable's position is the frame
      size just after it was added. Nothing is logged exactly when every
      object lives on the stack; the others are placed all the same. */
  lemma FrameLayout(vars: seq<Variable>)
    requires DistinctNames(vars) && Fits(vars)
    ensures Frame(vars).value.size == RA_SIZE + TotalSize(vars)
    ensures forall name :: name in Frame(vars).value.index <==> exists i :: 0 <= i < |vars| && vars[i].name == name
    ensures forall i :: 0 <= i < |vars| ==>
      vars[i].name in Frame(vars).value.index &&
      Frame(vars).value.index[vars[i].name] == RA_SIZE + TotalSize(vars[..i + 1])
    ensures Frame(vars).log == [] <==> AllOnStack(vars)
  {
    FrameBuilt(vars);
    FrameLog(vars);
    forall name
      ensures name in Frame(vars).value.index <==> exists i :: 0 <= i < |vars| && vars[i].name == name
    {
      NamesMembers(vars, name);
    }
  }

  /** The offset of the `i`-th variable: the aligned frame size minus the
      return-address slot and the sizes of the variables up to it; looking
      it up changes nothing and logs nothing. */
  lemma OffsetAt(vars: seq<Variable>, i: nat)
    requires DistinctNames(vars) && Fits(vars) && i < |vars| && vars[i].lifetime == FUNCTIONAL
    ensures Frame(vars).value.size == RA_SIZE + TotalSize(vars)
    ensures OffsetOf(Frame(vars).value, vars[i]).Some?
    ensures var s := Frame(vars).value;
      var l := OffsetOf(s, vars[i]).value;
      l.offset == Align(s, 16) - RA_SIZE - TotalSize(vars[..i + 1]) && l.stack == s && l.log == []
  {
    FrameBuilt(vars);
    var s := Frame(vars).value;
    assert vars[i].name in s.index;
    Align16(s);
    TotalSizeMonotone(vars, i + 1, |vars|);
    assert vars[..|vars|] == vars;
    WrapInRange(Align(s, 16));
    WrapInRange(Align(s, 16) - RA_SIZE - TotalSize(vars[..i + 1]));
  }

  /** Every stacked variable of such a frame gets its own bytes: its offset
      from `sp` is non-negative, its bytes end below the return-address
      slot at the top of the 16-byte aligned frame, and two variables never
      share a byte. */
  lemma FrameOffsets(vars: seq<Variable>, i: nat, j: nat)
    requires DistinctNames(vars) && Fits(vars)
    requires i < |vars| && j < |vars| && i != j
    requires vars[i].lifetime == FUNCTIONAL && vars[j].lifetime == FUNCTIONAL
    ensures Frame(vars).value.size < MODULUS
    ensures OffsetOf(Frame(vars).value, vars[i]).Some? && OffsetOf(Frame(vars).value, vars[j]).Some?
    ensures var s := Frame(vars).value;
      var oi, oj := OffsetOf(s, vars[i]).value.offset, OffsetOf(s, vars[j]).value.offset;
      0 <= oi && oi + Size(vars[i]) + RA_SIZE <= Align(s, 16) &&
      (oi + Size(vars[i]) <= oj || oj + Size(vars[j]) <= oi)
  {
    OffsetAt(vars, i);
    OffsetAt(vars, j);
    var s := Frame(vars).value;
    Align16(s);
    PrefixOrder(vars, i, j);
    PrefixOrder(vars, j, i);
    var a := Align(s, 16);
    var ti, tj := TotalSize(vars[..i + 1]), TotalSize(vars[..j + 1]);
    assert OffsetOf(s, vars[i]).value.offset == a - RA_SIZE - ti;
    assert OffsetOf(s, vars[j]).value.offset == a - RA_SIZE - tj;
  }

  /** Prefix sums of the sizes: the `i`-th prefix holds the `i`-th size,
      stays within the total, and ends before a later variable starts. */
  lemma PrefixOrder(vars: seq<Variable>, i: nat, j: nat)
    requires i < |vars| && j < |vars|
    ensures Size(vars[i]) <= TotalSize(vars[..i + 1]) <= TotalSize(vars)
    ensures i < j ==> TotalSize(vars[..i + 1]) + Size(vars[j]) <= TotalSize(vars[..j + 1])
  {
    TotalSizeLast(vars, i);
    TotalSizeLast(vars, j);
    TotalSizeMonotone(vars, i + 1, |vars|);
    assert vars[..|vars|] == vars;
    if i < j {
      TotalSizeMonotone(vars, i + 1, j);
    }
  }

  /** A parameter passed on the caller's stack is found at minus its
      distance, whatever else the frame holds. */
  lemma ParameterOffset(s: Stack, v: Variable, spPlus: I32)
    requires v.lifetime == FUNCTIONAL && 0 < spPlus && s.size < MODULUS
    ensures AddParameter(s, v, spPlus).log == []
    ensures OffsetOf(AddParameter(s, v, spPlus).value, v) == Some(Located(-spPlus, AddParameter(s, v, spPlus).value, []))
  {
    WrapInRange(0 - spPlus as int);
  }

  /** A variable whose object does not live on the stack is logged by
      every operation, and `add_variable` and `add_parameter` place it as
      they would a stack object; `offset_of` returns no value for it. */
  lemma NonStackLogged(s: Stack, v: Variable, spPlus: I32)
    requires v.lifetime != FUNCTIONAL && s.size < MODULUS
    ensures v.name !in s.index ==>
      (AddVariable(s, v).log == [NotOnStack(v.name)] &&
       AddVariable(s, v).value == AddVariable(s, v.(lifetime := FUNCTIONAL)).value)
    ensures AddParameter(s, v, spPlus).log == [NotOnStack(v.name)] &&
      AddParameter(s, v, spPlus).value == AddParameter(s, v.(lifetime := FUNCTIONAL), spPlus).value
    ensures OffsetOf(s, v).None?
  {
  }

  /** Asking for the offset of a name that was never stored logs it,
      inserts it at position 0, and so yields the aligned frame size. */
  lemma UnknownNameOffset(s: Stack, v: Variable)
    requires v.lifetime == FUNCTIONAL && v.name !in s.index && s.size < MODULUS
    ensures OffsetOf(s, v) == Some(Located(Wrap(Align(s, 16)), Stack(s.index[v.name := 0], s.size), [NotStored(v.name)]))
  {
    var t := Stack(s.index[v.name := 0], s.size);
    assert Align(t, 16) == Align(s, 16);
  }
}
