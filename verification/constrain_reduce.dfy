/** The difference-bound constraints of the branch-constraint reduction
    (src/Pass/Transform/DataFlow/ConstrainReduce.cpp): a square matrix whose
    entry (i, j) bounds v_i - v_j from above, tightened by comparisons,
    closed by Floyd–Warshall and queried for the outcome of a comparison;
    and the map that numbers the values taking part. */
module ConstrainReduce {
  import opened Wrappers
  import opened MirOps

  /** `max_depth`: the default matrix size and the capacity of `Map`. */
  const MAX_DEPTH: nat := 100

  /** An entry of the matrix: a finite bound, or `infinity` (no bound). */
  datatype Bound = Fin(n: int) | Inf

  /** The order of bounds, with `infinity` on top. */
  predicate Le(a: Bound, b: Bound)
  {
    b.Inf? || (a.Fin? && a.n <= b.n)
  }

  function MinB(a: Bound, b: Bound): Bound
  {
    if Le(a, b) then a else b
  }

  /** A sum of bounds, unbounded if either is. */
  function Add(a: Bound, b: Bound): Bound
  {
    if a.Fin? && b.Fin? then Fin(a.n + b.n) else Inf
  }

  /** A difference `d` respects the bound `b`. */
  predicate Admits(b: Bound, d: int)
  {
    b.Inf? || d <= b.n
  }

  type Matrix = seq<seq<Bound>>

  predicate Square(m: Matrix)
  {
    forall i :: 0 <= i < |m| ==> |m[i]| == |m|
  }

  /** `Constraint`: entry (i, j) bounds v_i - v_j. */
  datatype Constraint = Constraint(matrix: Matrix, size: nat)
  {
    predicate Valid() { |matrix| == size && Square(matrix) }
  }

  /** The valuation `v` of the numbered values meets every bound. */
  predicate Sat(v: seq<int>, m: Matrix)
    requires Square(m)
  {
    |v| == |m| && forall i, j :: 0 <= i < |m| && 0 <= j < |m| ==> Admits(m[i][j], v[i] - v[j])
  }

  // ---------------------------------------------------------------------
  // Construction and tightening

  /** The constructor: zero on the diagonal, `infinity` elsewhere, so that
      no valuation is ruled out. */
  function New(size: nat): (c: Constraint)
    ensures c.Valid() && |c.matrix| == size
    ensures forall i, j :: 0 <= i < size && 0 <= j < size ==>
      c.matrix[i][j] == if i == j then Fin(0) else Inf
    ensures forall v: seq<int> :: |v| == size ==> Sat(v, c.matrix)
  {
    Constraint(seq(size, i => seq(size, j => if i == j then Fin(0) else Inf)), size)
  }

  /** Every entry of `r` is at most the matching entry of `c`. */
  predicate NoLooser(r: Constraint, c: Constraint)
    requires r.Valid() && c.Valid() && r.size == c.size
  {
    forall x, y :: 0 <= x < c.size && 0 <= y < c.size ==> Le(r.matrix[x][y], c.matrix[x][y])
  }

  lemma AdmitsMin(a: Bound, b: Bound, d: int)
    ensures Admits(MinB(a, b), d) <==> Admits(a, d) && Admits(b, d)
  {
  }

  /** A valuation meets the tightened matrix exactly when it meets the old
      one and the new bound. */
  lemma TightenMeaning(c: Constraint, i: nat, j: nat, b: Bound, r: Matrix, v: seq<int>)
    requires c.Valid() && i < c.size && j < c.size && |v| == c.size
    requires r == c.matrix[i := c.matrix[i][j := MinB(c.matrix[i][j], b)]]
    ensures Square(r) && (Sat(v, r) <==> Sat(v, c.matrix) && Admits(b, v[i] - v[j]))
  {
    AdmitsMin(c.matrix[i][j], b, v[i] - v[j]);
    if Sat(v, r) {
      assert Admits(r[i][j], v[i] - v[j]);
      forall x, y | 0 <= x < c.size && 0 <= y < c.size ensures Admits(c.matrix[x][y], v[x] - v[y]) {
        assert Admits(r[x][y], v[x] - v[y]);
      }
    }
  }

  /** Lower entry (i, j) to at most `b`: no entry gets looser, and a
      valuation meets the result exactly when it meets `c` and the new
      bound. */
  function Tighten(c: Constraint, i: nat, j: nat, b: Bound): (r: Constraint)
    requires c.Valid() && i < c.size && j < c.size
    ensures r.Valid() && r.size == c.size && NoLooser(r, c)
    ensures forall v: seq<int> :: |v| == c.size ==>
      (Sat(v, r.matrix) <==> Sat(v, c.matrix) && Admits(b, v[i] - v[j]))
  {
    var m := c.matrix[i := c.matrix[i][j := MinB(c.matrix[i][j], b)]];
    assert forall v: seq<int> | |v| == c.size :: Sat(v, m) <==> Sat(v, c.matrix) && Admits(b, v[i] - v[j]) by {
      forall v: seq<int> | |v| == c.size ensures Sat(v, m) <==> Sat(v, c.matrix) && Admits(b, v[i] - v[j]) {
        TightenMeaning(c, i, j, b, m, v);
      }
    }
    Constraint(m, c.size)
  }

  /** `add_relation(i, j, diff)`: record v_i - v_j <= diff. No bound gets
      looser, and exactly that constraint is added. */
  function AddDiff(c: Constraint, i: nat, j: nat, diff: int): (r: Constraint)
    requires c.Valid() && i < c.size && j < c.size
    ensures r.Valid() && r.size == c.size && NoLooser(r, c)
    ensures forall v: seq<int> :: |v| == c.size ==>
      (Sat(v, r.matrix) <==> Sat(v, c.matrix) && v[i] - v[j] <= diff)
  {
    Tighten(c, i, j, Fin(diff))
  }

  /** `add_relation(i, j, op)`: record the outcome `v_i op v_j` of a
      comparison. No bound gets looser, and exactly that constraint is
      added, for every operator but `ne`, which difference bounds cannot
      express and which records nothing. */
  function AddRelation(c: Constraint, i: nat, j: nat, op: CmpOp): (r: Constraint)
    requires c.Valid() && i < c.size && j < c.size
    ensures r.Valid() && r.size == c.size && NoLooser(r, c)
    ensures forall v: seq<int> :: |v| == c.size ==>
      (Sat(v, r.matrix) <==> Sat(v, c.matrix) && (op != NE ==> Holds(op, v[i], v[j])))
  {
    match op
    case EQ => Tighten(Tighten(c, i, j, Fin(0)), j, i, Fin(0))
    case LT => Tighten(c, i, j, Fin(-1))
    case LE => Tighten(c, i, j, Fin(0))
    case GT => Tighten(c, j, i, Fin(-1))
    case GE => Tighten(c, j, i, Fin(0))
    case NE => c
  }

  // ---------------------------------------------------------------------
  // deduce_relation

  /** `deduce_relation(i, j, op)`: the outcome of `v_i op v_j` when the
      bounds decide it, `None` otherwise; `gt` and `ge` ask the swapped
      question. */
  function Deduce(c: Constraint, i: nat, j: nat, op: CmpOp): (r: Option<bool>)
    requires c.Valid() && i < c.size && j < c.size
    ensures forall v: seq<int> :: Sat(v, c.matrix) && r.Some? ==> r.value == Holds(op, v[i], v[j])
    decreases if op == GT || op == GE then 1 else 0
  {
    var mij, mji := c.matrix[i][j], c.matrix[j][i];
    match op
    case EQ =>
      if Le(mij, Fin(0)) && Le(mji, Fin(0)) then Some(true)
      else if Le(mij, Fin(-1)) || Le(mji, Fin(-1)) then Some(false)
      else None
    case NE =>
      if Le(mij, Fin(0)) && Le(mji, Fin(0)) then Some(false)
      else if Le(mij, Fin(-1)) || Le(mji, Fin(-1)) then Some(true)
      else None
    case LT =>
      if Le(mij, Fin(-1)) then Some(true)
      else if Le(mji, Fin(0)) then Some(false)
      else None
    case LE =>
      if Le(mij, Fin(0)) then Some(true)
      else if Le(mji, Fin(-1)) then Some(false)
      else None
    case GT => Deduce(c, j, i, IcmpSwapOp(op))
    case GE => Deduce(c, j, i, IcmpSwapOp(op))
  }

  /** Asking with the operands swapped and the operator swapped gives the
      same answer, for every operator; for `gt` and `ge` this is the
      definition. */
  lemma DeduceSwap(c: Constraint, i: nat, j: nat, op: CmpOp)
    requires c.Valid() && i < c.size && j < c.size
    ensures Deduce(c, i, j, op) == Deduce(c, j, i, IcmpSwapOp(op))
  {
  }

  /** A relation just recorded is deduced: after `add_relation(i, j, op)`,
      `deduce_relation(i, j, op)` answers true for every operator but `ne`. */
  lemma DeduceAfterAdd(c: Constraint, i: nat, j: nat, op: CmpOp)
    requires c.Valid() && i < c.size && j < c.size && op != NE
    ensures Deduce(AddRelation(c, i, j, op), i, j, op) == Some(true)
  {
    if op == EQ {
      var c1 := Tighten(c, i, j, Fin(0));
      assert Le(c1.matrix[i][j], Fin(0));
    }
  }

  // ---------------------------------------------------------------------
  // propagate: Floyd–Warshall, in place

  /** One step of the innermost loop: entry (i, j) through `k`. */
  function Relax(m: Matrix, k: nat, i: nat, j: nat): (r: Matrix)
    requires Square(m) && k < |m| && i < |m| && j < |m|
    ensures Square(r) && |r| == |m|
  {
    if m[i][k].Fin? && m[k][j].Fin? then
      m[i := m[i][j := MinB(m[i][j], Fin(m[i][k].n + m[k][j].n))]]
    else m
  }

  /** The `j` loop from `j` on. */
  function RowPass(m: Matrix, k: nat, i: nat, j: nat): (r: Matrix)
    requires Square(m) && k < |m| && i < |m| && j <= |m|
    ensures Square(r) && |r| == |m|
    decreases |m| - j
  {
    if j == |m| then m else RowPass(Relax(m, k, i, j), k, i, j + 1)
  }

  /** The `i` loop from `i` on. */
  function RoundPass(m: Matrix, k: nat, i: nat): (r: Matrix)
    requires Square(m) && k < |m| && i <= |m|
    ensures Square(r) && |r| == |m|
    decreases |m| - i
  {
    if i == |m| then m else RoundPass(RowPass(m, k, i, 0), k, i + 1)
  }

  /** The `k` loop from `k` on. */
  function Rounds(m: Matrix, k: nat): (r: Matrix)
    requires Square(m) && k <= |m|
    ensures Square(r) && |r| == |m|
    decreases |m| - k
  {
    if k == |m| then m else Rounds(RoundPass(m, k, 0), k + 1)
  }

  /** `propagate`. */
  function Propagate(c: Constraint): (r: Constraint)
    requires c.Valid()
    ensures r.Valid() && r.size == c.size
  {
    Constraint(Rounds(c.matrix, 0), c.size)
  }

  /** Every entry is at most the entry of `m` at the same place. */
  predicate Below(r: Matrix, m: Matrix)
    requires Square(r) && Square(m) && |r| == |m|
  {
    forall x, y :: 0 <= x < |m| && 0 <= y < |m| ==> Le(r[x][y], m[x][y])
  }

  lemma RelaxBelow(m: Matrix, k: nat, i: nat, j: nat)
    requires Square(m) && k < |m| && i < |m| && j < |m|
    ensures Below(Relax(m, k, i, j), m)
  {
  }

  lemma BelowTrans(a: Matrix, b: Matrix, c: Matrix)
    requires Square(a) && Square(b) && Square(c) && |a| == |b| == |c|
    requires Below(a, b) && Below(b, c)
    ensures Below(a, c)
  {
    forall x, y | 0 <= x < |c| && 0 <= y < |c| ensures Le(a[x][y], c[x][y]) {
      assert Le(a[x][y], b[x][y]) && Le(b[x][y], c[x][y]);
    }
  }

  lemma BelowRefl(m: Matrix)
    requires Square(m)
    ensures Below(m, m)
  {
  }

  lemma {:induction false} RowPassBelow(m: Matrix, k: nat, i: nat, j: nat)
    requires Square(m) && k < |m| && i < |m| && j <= |m|
    ensures Below(RowPass(m, k, i, j), m)
    decreases |m| - j
  {
    if j == |m| {
      BelowRefl(m);
    } else {
      var m' := Relax(m, k, i, j);
      RelaxBelow(m, k, i, j);
      RowPassBelow(m', k, i, j + 1);
      BelowTrans(RowPass(m', k, i, j + 1), m', m);
    }
  }

  lemma {:induction false} RoundPassBelow(m: Matrix, k: nat, i: nat)
    requires Square(m) && k < |m| && i <= |m|
    ensures Below(RoundPass(m, k, i), m)
    decreases |m| - i
  {
    if i == |m| {
      BelowRefl(m);
    } else {
      var m' := RowPass(m, k, i, 0);
      RowPassBelow(m, k, i, 0);
      RoundPassBelow(m', k, i + 1);
      BelowTrans(RoundPass(m', k, i + 1), m', m);
    }
  }

  lemma {:induction false} RoundsBelow(m: Matrix, k: nat)
    requires Square(m) && k <= |m|
    ensures Below(Rounds(m, k), m)
    decreases |m| - k
  {
    if k == |m| {
      BelowRefl(m);
    } else {
      var m' := RoundPass(m, k, 0);
      RoundPassBelow(m, k, 0);
      RoundsBelow(m', k + 1);
      BelowTrans(Rounds(m', k + 1), m', m);
    }
  }

  /** `propagate` never loosens any bound. */
  lemma PropagateNeverIncreases(c: Constraint)
    requires c.Valid()
    ensures Below(Propagate(c).matrix, c.matrix)
  {
    RoundsBelow(c.matrix, 0);
  }

  lemma RelaxSat(m: Matrix, k: nat, i: nat, j: nat, v: seq<int>)
    requires Square(m) && k < |m| && i < |m| && j < |m| && Sat(v, m)
    ensures Sat(v, Relax(m, k, i, j))
  {
    assert Admits(m[i][k], v[i] - v[k]) && Admits(m[k][j], v[k] - v[j]);
    var r := Relax(m, k, i, j);
    forall x, y | 0 <= x < |m| && 0 <= y < |m| ensures Admits(r[x][y], v[x] - v[y]) {
      assert Admits(m[x][y], v[x] - v[y]);
    }
  }

  lemma {:induction false} RowPassSat(m: Matrix, k: nat, i: nat, j: nat, v: seq<int>)
    requires Square(m) && k < |m| && i < |m| && j <= |m| && Sat(v, m)
    ensures Sat(v, RowPass(m, k, i, j))
    decreases |m| - j
  {
    if j < |m| {
      RelaxSat(m, k, i, j, v);
      RowPassSat(Relax(m, k, i, j), k, i, j + 1, v);
    }
  }

  lemma {:induction false} RoundPassSat(m: Matrix, k: nat, i: nat, v: seq<int>)
    requires Square(m) && k < |m| && i <= |m| && Sat(v, m)
    ensures Sat(v, RoundPass(m, k, i))
    decreases |m| - i
  {
    if i < |m| {
      RowPassSat(m, k, i, 0, v);
      RoundPassSat(RowPass(m, k, i, 0), k, i + 1, v);
    }
  }

  lemma {:induction false} RoundsSat(m: Matrix, k: nat, v: seq<int>)
    requires Square(m) && k <= |m| && Sat(v, m)
    ensures Sat(v, Rounds(m, k))
    decreases |m| - k
  {
    if k < |m| {
      RoundPassSat(m, k, 0, v);
      RoundsSat(RoundPass(m, k, 0), k + 1, v);
    }
  }

  /** `propagate` only derives consequences: a valuation that meets the
      bounds before meets them after. */
  lemma PropagateSound(c: Constraint, v: seq<int>)
    requires c.Valid() && Sat(v, c.matrix)
    ensures Sat(v, Propagate(c).matrix)
  {
    RoundsSat(c.matrix, 0, v);
  }

  // The closure proof. Round `k` done in place gives the same matrix as
  // computing every entry from the matrix at the start of the round, since
  // row `k` and column `k` do not move when the diagonal entry is not
  // negative.

  /** Entry (x, y) after round `k`, from the matrix at the start of it. */
  function RoundCell(m: Matrix, k: nat, x: nat, y: nat): Bound
    requires Square(m) && k < |m| && x < |m| && y < |m|
  {
    if m[x][k].Fin? && m[k][y].Fin? then MinB(m[x][y], Fin(m[x][k].n + m[k][y].n)) else m[x][y]
  }

  /** `e` is `m` with the cells before (i, j) in row-major order already
      updated by round `k`. */
  predicate Agree(e: Matrix, m: Matrix, k: nat, i: nat, j: nat)
    requires Square(m) && k < |m|
  {
    Square(e) && |e| == |m| &&
    forall x, y :: 0 <= x < |m| && 0 <= y < |m| ==>
      e[x][y] == if x < i || (x == i && y < j) then RoundCell(m, k, x, y) else m[x][y]
  }

  /** Round `k` leaves row `k` and column `k` alone when the diagonal entry
      admits zero. */
  lemma PivotFixed(m: Matrix, k: nat, x: nat)
    requires Square(m) && k < |m| && x < |m| && Admits(m[k][k], 0)
    ensures RoundCell(m, k, x, k) == m[x][k] && RoundCell(m, k, k, x) == m[k][x]
  {
  }

  lemma RelaxAgree(e: Matrix, m: Matrix, k: nat, i: nat, j: nat)
    requires Square(m) && k < |m| && i < |m| && j < |m| && Admits(m[k][k], 0)
    requires Agree(e, m, k, i, j)
    ensures Agree(Relax(e, k, i, j), m, k, i, j + 1)
  {
    PivotFixed(m, k, i);
    PivotFixed(m, k, j);
    assert e[i][k] == m[i][k] && e[k][j] == m[k][j] && e[i][j] == m[i][j];
  }

  lemma {:induction false} RowPassAgree(e: Matrix, m: Matrix, k: nat, i: nat, j: nat)
    requires Square(m) && k < |m| && i < |m| && j <= |m| && Admits(m[k][k], 0)
    requires Agree(e, m, k, i, j)
    ensures Agree(RowPass(e, k, i, j), m, k, i + 1, 0)
    decreases |m| - j
  {
    if j < |m| {
      RelaxAgree(e, m, k, i, j);
      RowPassAgree(Relax(e, k, i, j), m, k, i, j + 1);
    }
  }

  lemma {:induction false} RoundPassAgree(e: Matrix, m: Matrix, k: nat, i: nat)
    requires Square(m) && k < |m| && i <= |m| && Admits(m[k][k], 0)
    requires Agree(e, m, k, i, 0)
    ensures Agree(RoundPass(e, k, i), m, k, |m|, 0)
    decreases |m| - i
  {
    if i < |m| {
      RowPassAgree(e, m, k, i, 0);
      RoundPassAgree(RowPass(e, k, i, 0), m, k, i + 1);
    }
  }

  /** The in-place round computes every entry from the matrix at the start
      of the round. */
  lemma RoundInPlace(m: Matrix, k: nat)
    requires Square(m) && k < |m| && Admits(m[k][k], 0)
    ensures forall x, y :: 0 <= x < |m| && 0 <= y < |m| ==>
      RoundPass(m, k, 0)[x][y] == RoundCell(m, k, x, y)
  {
    RoundPassAgree(m, m, k, 0);
  }

  /** Entry (i, j) is no more than the path through `k0`. */
  predicate TriangleThrough(m: Matrix, k0: nat)
    requires Square(m) && k0 < |m|
  {
    forall i, j :: 0 <= i < |m| && 0 <= j < |m| ==> Le(m[i][j], Add(m[i][k0], m[k0][j]))
  }

  /** After round `k`, every entry is at most the path through `k`. */
  lemma RoundCreatesTriangle(m: Matrix, k: nat, r: Matrix)
    requires Square(m) && k < |m| && Admits(m[k][k], 0)
    requires Square(r) && |r| == |m|
    requires forall x, y :: 0 <= x < |m| && 0 <= y < |m| ==> r[x][y] == RoundCell(m, k, x, y)
    ensures TriangleThrough(r, k)
  {
    forall i, j | 0 <= i < |m| && 0 <= j < |m| ensures Le(r[i][j], Add(r[i][k], r[k][j])) {
      PivotFixed(m, k, i);
      PivotFixed(m, k, j);
      assert r[i][k] == m[i][k] && r[k][j] == m[k][j];
    }
  }

  /** A later round keeps the triangle through an earlier pivot, provided a
      valuation meets the bounds (so no cycle through the two pivots is
      negative). */
  lemma RoundKeepsTriangle(m: Matrix, k: nat, k0: nat, r: Matrix, v: seq<int>)
    requires Square(m) && k < |m| && k0 < |m| && Sat(v, m) && TriangleThrough(m, k0)
    requires Square(r) && |r| == |m|
    requires forall x, y :: 0 <= x < |m| && 0 <= y < |m| ==> r[x][y] == RoundCell(m, k, x, y)
    ensures TriangleThrough(r, k0)
  {
    forall i, j | 0 <= i < |m| && 0 <= j < |m| ensures Le(r[i][j], Add(r[i][k0], r[k0][j])) {
      KeepsAt(m, k, k0, i, j, v);
    }
  }

  lemma KeepsAt(m: Matrix, k: nat, k0: nat, i: nat, j: nat, v: seq<int>)
    requires Square(m) && k < |m| && k0 < |m| && i < |m| && j < |m|
    requires Sat(v, m) && TriangleThrough(m, k0)
    ensures Le(RoundCell(m, k, i, j), Add(RoundCell(m, k, i, k0), RoundCell(m, k, k0, j)))
  {
    assert Le(m[i][j], Add(m[i][k0], m[k0][j]));
    assert Le(m[i][k], Add(m[i][k0], m[k0][k]));
    assert Le(m[k][j], Add(m[k][k0], m[k0][j]));
    assert Admits(m[k][k0], v[k] - v[k0]) && Admits(m[k0][k], v[k0] - v[k]);
  }

  /** A valuation meets only diagonal entries that admit zero. */
  lemma SatDiagonal(m: Matrix, k: nat, v: seq<int>)
    requires Square(m) && k < |m| && Sat(v, m)
    ensures Admits(m[k][k], 0)
  {
    SatAt(v, m, k, k);
  }

  lemma SatAt(v: seq<int>, m: Matrix, i: nat, j: nat)
    requires Square(m) && i < |m| && j < |m| && Sat(v, m)
    ensures Admits(m[i][j], v[i] - v[j])
  {
  }

  lemma {:induction false} RoundsClosed(m: Matrix, k: nat, v: seq<int>)
    requires Square(m) && k <= |m| && Sat(v, m)
    requires forall k0 :: 0 <= k0 < k ==> TriangleThrough(m, k0)
    ensures forall k0 :: 0 <= k0 < |m| ==> TriangleThrough(Rounds(m, k), k0)
    decreases |m| - k
  {
    if k < |m| {
      var r := RoundPass(m, k, 0);
      SatDiagonal(m, k, v);
      RoundInPlace(m, k);
      RoundCreatesTriangle(m, k, r);
      forall k0 | 0 <= k0 < k ensures TriangleThrough(r, k0) {
        RoundKeepsTriangle(m, k, k0, r, v);
      }
      RoundPassSat(m, k, 0, v);
      RoundsClosed(r, k + 1, v);
    }
  }

  /** After `propagate`, every entry is at most the sum of the entries along
      any detour (a sum with an unbounded entry is unbounded), whenever
      some valuation meets the bounds, which is when the constraint graph
      has no negative cycle. */
  lemma PropagateCloses(c: Constraint, v: seq<int>)
    requires c.Valid() && Sat(v, c.matrix)
    ensures forall i, k, j :: 0 <= i < c.size && 0 <= k < c.size && 0 <= j < c.size ==>
      Le(Propagate(c).matrix[i][j], Add(Propagate(c).matrix[i][k], Propagate(c).matrix[k][j]))
  {
    var d := Propagate(c).matrix;
    RoundsClosed(c.matrix, 0, v);
    forall i, k, j | 0 <= i < c.size && 0 <= k < c.size && 0 <= j < c.size
      ensures Le(d[i][j], Add(d[i][k], d[k][j]))
    {
      assert TriangleThrough(d, k);
    }
  }

  // ---------------------------------------------------------------------
  // Map: numbering of values

  /** `Map<T>`: the number given to each key, and the counter `cnt_`. */
  datatype IdMap<K> = IdMap(ids: map<K, int>, cnt: int)

  function EmptyIdMap<K>(): (m: IdMap<K>)
    ensures Numbered(m)
  {
    IdMap(map[], 0)
  }

  /** The numbers in use are 1 .. cnt, one per key. */
  predicate Numbered<K>(m: IdMap<K>)
  {
    m.cnt == |m.ids| &&
    (forall k :: k in m.ids ==> 1 <= m.ids[k] <= m.cnt) &&
    (forall k1, k2 :: k1 in m.ids && k2 in m.ids && m.ids[k1] == m.ids[k2] ==> k1 == k2)
  }

  /** `operator[]`: a fresh key is numbered `++cnt_`; then, once the map holds
      `max_depth` keys, a `runtime_error` is thrown. On a numbered map, a key
      already numbered keeps its number and the map is unchanged; a fresh
      key gets `cnt + 1`; the numbering stays one-to-one, and every number
      handed out is a valid index of a `max_depth` matrix. */
  function GetId<K>(m: IdMap<K>, key: K): (r: Result<(IdMap<K>, int), string>)
    ensures r.Ok? <==> (if key in m.ids then |m.ids| else |m.ids| + 1) < MAX_DEPTH
    ensures Numbered(m) && r.Ok? ==>
      var (m', id) := r.value;
      Numbered(m') && key in m'.ids && m'.ids[key] == id && 1 <= id < MAX_DEPTH &&
      (key in m.ids ==> m' == m) &&
      (key !in m.ids ==> id == m.cnt + 1 && m'.ids == m.ids[key := id])
  {
    var m' := if key in m.ids then m else IdMap(m.ids[key := m.cnt + 1], m.cnt + 1);
    assert key !in m.ids ==> |m'.ids| == |m.ids| + 1;
    assert Numbered(m) ==> Numbered(m') by {
      if Numbered(m) && key !in m.ids {
        forall k1, k2 | k1 in m'.ids && k2 in m'.ids && m'.ids[k1] == m'.ids[k2] ensures k1 == k2 {
          if k1 != key && k2 != key {
            assert m.ids[k1] == m.ids[k2];
          }
        }
      }
    }
    if |m'.ids| >= MAX_DEPTH then Err("") else Ok((m', m'.ids[key]))
  }
}
