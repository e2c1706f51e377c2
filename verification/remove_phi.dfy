/** Phi elimination (src/Pass/Transform/DataFlow/RemovePhi.cpp): the
    critical-edge test, the edge split, and the lowering of the parallel
    copy a block's phis stand for into a sequence of moves placed at the end
    of one predecessor. */
module RemovePhi {
  import opened Wrappers

  type Block = string

  /** The control-flow-graph analysis: each block's predecessor and
      successor sets. */
  datatype Cfg = Cfg(preds: map<Block, set<Block>>, succs: map<Block, set<Block>>)

  /** The two relations describe the same edges, and every block has both
      entries. */
  predicate WellFormed(g: Cfg)
  {
    && g.preds.Keys == g.succs.Keys
    && (forall a, b :: a in g.succs && b in g.succs[a] ==> b in g.preds && a in g.preds[b])
    && (forall a, b :: b in g.preds && a in g.preds[b] ==> a in g.succs && b in g.succs[a])
  }

  predicate IsEdge(g: Cfg, prev: Block, succ: Block)
  {
    prev in g.succs && succ in g.succs[prev]
  }

  /** `is_critical_edge`: `succ` has several predecessors and `prev` several
      successors. The `&&` short-circuits, so the lookup of `prev` happens
      only when `succ` has several predecessors; `None` where a lookup
      that does happen throws. */
  function IsCriticalEdge(g: Cfg, prev: Block, succ: Block): (r: Option<bool>)
    ensures r.None? <==> succ !in g.preds || (|g.preds[succ]| > 1 && prev !in g.succs)
    ensures r == Some(true) <==> succ in g.preds && prev in g.succs && |g.preds[succ]| > 1 && |g.succs[prev]| > 1
    ensures succ in g.preds && |g.preds[succ]| <= 1 ==> r == Some(false)
  {
    if succ !in g.preds then None
    else if |g.preds[succ]| <= 1 then Some(false)
    else if prev !in g.succs then None
    else Some(|g.succs[prev]| > 1)
  }

  /** A set holding `x` has more than one element exactly when it holds
      something besides `x`. */
  lemma MoreThanOne<T>(s: set<T>, x: T)
    requires x in s
    ensures |s| > 1 <==> exists y :: y in s && y != x
  {
    assert |s - {x}| == |s| - 1;
    if exists y :: y in s && y != x {
      var y :| y in s && y != x;
      assert y in s - {x};
    }
    if |s| > 1 {
      var y :| y in s - {x};
    }
  }

  /** On an edge of the graph, the edge is critical exactly when `prev` can
      also branch elsewhere and `succ` can also be entered from elsewhere,
      which is when moves placed at the end of `prev` or at the head of
      `succ` would run on paths that do not take this edge. */
  lemma CriticalMeansShared(g: Cfg, prev: Block, succ: Block)
    requires WellFormed(g) && IsEdge(g, prev, succ)
    ensures IsCriticalEdge(g, prev, succ) == Some(true) <==>
      (exists p :: p in g.preds[succ] && p != prev) && (exists s :: s in g.succs[prev] && s != succ)
  {
    MoreThanOne(g.preds[succ], prev);
    MoreThanOne(g.succs[prev], succ);
  }

  /** `|(s - {x}) + {y}| == |s|` when `x` is in `s` and `y` is not. */
  lemma SwapElementCard<T>(s: set<T>, x: T, y: T)
    requires x in s && y !in s
    ensures |(s - {x}) + {y}| == |s|
  {
    assert |s - {x}| == |s| - 1;
  }

  /** `split_critical_edge` on the graph: the fresh block `mid` ends in a
      jump to `succ`, takes `succ`'s place among `prev`'s successors and
      `prev`'s place among `succ`'s predecessors. */
  function SplitEdge(g: Cfg, prev: Block, succ: Block, mid: Block): (r: Cfg)
    requires WellFormed(g) && IsEdge(g, prev, succ) && mid !in g.succs
    ensures WellFormed(r)
    ensures IsCriticalEdge(r, prev, mid) == Some(false) && IsCriticalEdge(r, mid, succ) == Some(false)
    ensures IsEdge(r, prev, mid) && IsEdge(r, mid, succ) && !IsEdge(r, prev, succ)
    ensures |r.succs[prev]| == |g.succs[prev]| && |r.preds[succ]| == |g.preds[succ]|
    ensures forall a, b :: IsEdge(g, a, b) && (a, b) != (prev, succ) ==> IsEdge(r, a, b)
    ensures forall a, b :: IsEdge(r, a, b) ==> IsEdge(g, a, b) || (a, b) == (prev, mid) || (a, b) == (mid, succ)
  {
    var r := Cfg(g.preds[succ := (g.preds[succ] - {prev}) + {mid}][mid := {prev}],
                 g.succs[prev := (g.succs[prev] - {succ}) + {mid}][mid := {succ}]);
    SwapElementCard(g.preds[succ], prev, mid);
    SwapElementCard(g.succs[prev], succ, mid);
    SplitKeepsOtherEdges(g, prev, succ, mid);
    r
  }

  /** The split graph still lists each edge on both sides. */
  lemma SplitKeepsOtherEdges(g: Cfg, prev: Block, succ: Block, mid: Block)
    requires WellFormed(g) && IsEdge(g, prev, succ) && mid !in g.succs
    ensures var r := Cfg(g.preds[succ := (g.preds[succ] - {prev}) + {mid}][mid := {prev}],
                         g.succs[prev := (g.succs[prev] - {succ}) + {mid}][mid := {succ}]);
      WellFormed(r)
  {
  }

  /** A value an instruction reads: a constant, a named value, or a
      `%temp_` value numbered by the global name counter. */
  datatype Value = Const(c: int) | Var(name: string) | Temp(id: nat)

  /** `modify_operand(prev, mid)` on a phi: the value arriving from `prev`
      now arrives from `mid`; everything else is kept. */
  function Relabel(incoming: map<Block, Value>, prev: Block, mid: Block): (r: map<Block, Value>)
    requires prev in incoming && mid !in incoming
    ensures mid in r && r[mid] == incoming[prev] && prev !in r
    ensures forall b :: b in incoming && b != prev ==> b in r && r[b] == incoming[b]
    ensures forall b :: b in r ==> b == mid || (b in incoming && b != prev)
    ensures |r| == |incoming|
  {
    var r := (incoming - {prev})[mid := incoming[prev]];
    assert r.Keys == (incoming.Keys - {prev}) + {mid};
    SwapElementCard(incoming.Keys, prev, mid);
    r
  }

  /** One `move to, from` instruction. */
  datatype Move = Move(to: Value, from: Value)

  /** Contents of the values at one point of execution; a value never
      written reads as 0. */
  type State = map<Value, int>

  function Read(s: State, v: Value): int
  {
    if v.Const? then v.c else if v in s then s[v] else 0
  }

  /** The moves executed one after the other. */
  function Run(ms: seq<Move>, s: State): State
    decreases |ms|
  {
    if |ms| == 0 then s else Run(ms[1..], s[ms[0].to := Read(s, ms[0].from)])
  }

  function Dests(moves: seq<Move>): set<Value>
  {
    set m | m in moves :: m.to
  }

  /** The sources that are also destinations: the ones saved first. */
  function Endangered(moves: seq<Move>): set<Value>
  {
    set m | m in moves && m.from in Dests(moves) :: m.from
  }

  /** The value was not created by the name counter from `next` on. */
  predicate Older(v: Value, next: nat)
  {
    v.Temp? ==> v.id < next
  }

  /** What a block's phis hand to `insert_moves`: one move per phi, so the
      destinations are distinct phi copies (never constants), and all
      values predate the counter. */
  predicate PhiCopies(moves: seq<Move>, next: nat)
  {
    && (forall i, j :: 0 <= i < j < |moves| ==> moves[i].to != moves[j].to)
    && (forall i :: 0 <= i < |moves| ==> !moves[i].to.Const? && Older(moves[i].to, next) && Older(moves[i].from, next))
  }

  predicate DistinctTargets(a: seq<Move>)
  {
    forall i, j :: 0 <= i < j < |a| ==> a[i].to != a[j].to
  }

  /** No move of `a` reads a value some move of `a` writes. */
  predicate ReadsNoTarget(a: seq<Move>)
  {
    forall i, j :: 0 <= i < |a| && 0 <= j < |a| ==> a[i].from != a[j].to
  }

  /** Moves whose targets are distinct, are not constants, and are never
      read by the sequence run as one parallel copy. */
  lemma {:induction false} RunDisjoint(a: seq<Move>, t: State)
    requires DistinctTargets(a) && ReadsNoTarget(a)
    requires forall i :: 0 <= i < |a| ==> !a[i].to.Const?
    ensures forall i :: 0 <= i < |a| ==> Read(Run(a, t), a[i].to) == Read(t, a[i].from)
    ensures forall v :: (forall i :: 0 <= i < |a| ==> a[i].to != v) ==> Read(Run(a, t), v) == Read(t, v)
    decreases |a|
  {
    if |a| > 0 {
      var t' := t[a[0].to := Read(t, a[0].from)];
      var rest := a[1..];
      assert forall i :: 0 <= i < |rest| ==> rest[i] == a[i + 1];
      RunDisjoint(rest, t');
      forall i | 0 <= i < |a|
        ensures Read(Run(a, t), a[i].to) == Read(t, a[i].from)
      {
        if i == 0 {
          assert forall k :: 0 <= k < |rest| ==> rest[k].to != a[0].to;
        } else {
          assert a[i] == rest[i - 1];
          assert a[i].from != a[0].to;
        }
      }
    }
  }

  lemma {:induction false} RunAppend(a: seq<Move>, b: seq<Move>, s: State)
    ensures Run(a + b, s) == Run(b, Run(a, s))
    decreases |a|
  {
    if |a| == 0 {
      assert a + b == b;
    } else {
      assert (a + b)[0] == a[0];
      assert (a + b)[1..] == a[1..] + b;
      RunAppend(a[1..], b, s[a[0].to := Read(s, a[0].from)]);
    }
  }

  /** The saved copy of a source, or the source itself. */
  function Redirect(saved: map<Value, Value>, v: Value): Value
  {
    if v in saved then saved[v] else v
  }

  /** The elements of a sequence without repetition number its length. */
  lemma {:induction false} DistinctCard<T>(xs: seq<T>)
    requires forall i, j :: 0 <= i < j < |xs| ==> xs[i] != xs[j]
    ensures |set x | x in xs| == |xs|
    decreases |xs|
  {
    if |xs| > 0 {
      var init := xs[..|xs| - 1];
      DistinctCard(init);
      assert (set x | x in xs) == (set x | x in init) + {xs[|xs| - 1]};
      assert xs[|xs| - 1] !in (set x | x in init);
    }
  }

  /** `saved` maps the `k`-th saved source to the `k`-th temp from `next`,
      and saves nothing else. */
  predicate Saves(order: seq<Value>, saved: map<Value, Value>, next: nat)
  {
    && (forall k :: 0 <= k < |order| ==> order[k] in saved && saved[order[k]] == Temp(next + k))
    && (forall v :: v in saved ==> v in order)
  }

  lemma SavesExtend(order: seq<Value>, saved: map<Value, Value>, next: nat, src: Value)
    requires Saves(order, saved, next) && src !in saved
    ensures Saves(order + [src], saved[src := Temp(next + |order|)], next)
  {
    assert forall k :: 0 <= k < |order| ==> order[k] != src;
  }

  /** `insert_moves`, past the choice of block: every source that some move
      also writes is first copied to a fresh temp (numbered from `next`),
      then each destination is assigned from the saved copy or, when its
      source is safe, from the source itself. Run in this order, the moves
      behave as the parallel copy the phis stand for. */
  method InsertMoves(moves: seq<Move>, next: nat) returns (final: seq<Move>, next': nat)
    ensures next' == next + |Endangered(moves)|
    ensures |final| == |moves| + |Endangered(moves)|
    ensures forall k :: 0 <= k < next' - next ==>
      final[k].to == Temp(next + k) && final[k].from in Endangered(moves)
    ensures forall v :: v in Endangered(moves) ==> exists k :: 0 <= k < next' - next && final[k].from == v
    ensures forall i :: 0 <= i < |moves| ==> final[next' - next + i].to == moves[i].to
    ensures PhiCopies(moves, next) ==> forall s: State, i :: 0 <= i < |moves| ==>
      Read(Run(final, s), moves[i].to) == Read(s, moves[i].from)
    ensures PhiCopies(moves, next) ==> forall s: State, v :: v !in Dests(moves) && Older(v, next) ==>
      Read(Run(final, s), v) == Read(s, v)
  {
    var save, saved, order := SaveEndangered(moves, next);
    var assign := AssignDestinations(moves, saved);
    final := save + assign;
    next' := next + |save|;
    forall v | v in Endangered(moves)
      ensures exists k :: 0 <= k < |save| && final[k].from == v
    {
      var k :| 0 <= k < |order| && order[k] == v;
      assert final[k] == save[k];
    }
    if PhiCopies(moves, next) {
      forall s: State
        ensures forall i :: 0 <= i < |moves| ==> Read(Run(final, s), moves[i].to) == Read(s, moves[i].from)
        ensures forall v :: v !in Dests(moves) && Older(v, next) ==> Read(Run(final, s), v) == Read(s, v)
      {
        RunAppend(save, assign, s);
        LoweringIsParallel(moves, next, order, saved, save, assign, s);
      }
    }
  }

  /** The first loop of `insert_moves`: a copy to the next temp for each
      source that is also a destination, the first time it is met. */
  method SaveEndangered(moves: seq<Move>, next: nat) returns (save: seq<Move>, saved: map<Value, Value>, ghost order: seq<Value>)
    ensures |save| == |order| == |Endangered(moves)|
    ensures (set v | v in order) == Endangered(moves)
    ensures forall k :: 0 <= k < |order| ==> save[k] == Move(Temp(next + k), order[k]) && order[k] in Dests(moves)
    ensures Saves(order, saved, next)
    ensures forall j :: 0 <= j < |moves| && moves[j].from in Dests(moves) ==> moves[j].from in saved
  {
    var dests := Dests(moves);
    saved := map[];
    order := [];
    ghost var origin: seq<nat> := [];
    save := [];
    var i := 0;
    while i < |moves|
      invariant 0 <= i <= |moves|
      invariant |save| == |order| == |origin|
      invariant forall k :: 0 <= k < |order| ==> save[k] == Move(Temp(next + k), order[k])
      invariant forall k :: 0 <= k < |order| ==> origin[k] < |moves| && moves[origin[k]].from == order[k] && order[k] in dests
      invariant Saves(order, saved, next)
      invariant forall j :: 0 <= j < i && moves[j].from in dests ==> moves[j].from in saved
    {
      var src := moves[i].from;
      if src in dests && src !in saved {
        SavesExtend(order, saved, next, src);
        var temp := Temp(next + |save|);
        save := save + [Move(temp, src)];
        saved := saved[src := temp];
        order := order + [src];
        origin := origin + [i];
      }
      i := i + 1;
    }
    SavedAreEndangered(moves, order, origin, saved, next);
  }

  /** The second loop of `insert_moves`: each destination in turn, read
      through its saved copy when there is one. */
  method AssignDestinations(moves: seq<Move>, saved: map<Value, Value>) returns (assign: seq<Move>)
    ensures |assign| == |moves|
    ensures forall k :: 0 <= k < |moves| ==> assign[k].to == moves[k].to
    ensures forall k :: 0 <= k < |moves| ==>
      assign[k].from == (if moves[k].from in saved then saved[moves[k].from] else moves[k].from)
  {
    assign := [];
    var j := 0;
    while j < |moves|
      invariant 0 <= j <= |moves|
      invariant |assign| == j
      invariant forall k :: 0 <= k < j ==> assign[k] == Move(moves[k].to, Redirect(saved, moves[k].from))
    {
      var m := moves[j];
      if m.from in saved {
        assign := assign + [Move(m.to, saved[m.from])];
      } else {
        assign := assign + [Move(m.to, m.from)];
      }
      j := j + 1;
    }
  }

  /** The temps are handed out to exactly the endangered sources, one each. */
  lemma SavedAreEndangered(moves: seq<Move>, order: seq<Value>, origin: seq<nat>, saved: map<Value, Value>, next: nat)
    requires |order| == |origin|
    requires forall k :: 0 <= k < |order| ==> origin[k] < |moves| && moves[origin[k]].from == order[k] && order[k] in Dests(moves)
    requires Saves(order, saved, next)
    requires forall j :: 0 <= j < |moves| && moves[j].from in Dests(moves) ==> moves[j].from in saved
    ensures (set v | v in order) == Endangered(moves)
    ensures |order| == |Endangered(moves)|
  {
    forall v | v in Endangered(moves) ensures v in order {
      var m :| m in moves && m.from in Dests(moves) && m.from == v;
      var j :| 0 <= j < |moves| && moves[j] == m;
    }
    forall v | v in order ensures v in Endangered(moves) {
      var k :| 0 <= k < |order| && order[k] == v;
      assert moves[origin[k]] in moves;
    }
    forall k, l | 0 <= k < l < |order| ensures order[k] != order[l] {
      assert saved[order[k]] == Temp(next + k) && saved[order[l]] == Temp(next + l);
    }
    DistinctCard(order);
  }

  /** The two halves `insert_moves` builds, run one after the other, give
      every destination its source's value on entry and leave every other
      older value alone. */
  lemma LoweringIsParallel(moves: seq<Move>, next: nat, order: seq<Value>, saved: map<Value, Value>,
                           save: seq<Move>, assign: seq<Move>, s: State)
    requires PhiCopies(moves, next)
    requires |save| == |order| && |assign| == |moves|
    requires forall k :: 0 <= k < |order| ==> save[k] == Move(Temp(next + k), order[k]) && order[k] in Dests(moves)
    requires Saves(order, saved, next)
    requires forall j :: 0 <= j < |moves| && moves[j].from in Dests(moves) ==> moves[j].from in saved
    requires forall k :: 0 <= k < |moves| ==> assign[k] == Move(moves[k].to, Redirect(saved, moves[k].from))
    ensures forall i :: 0 <= i < |moves| ==> Read(Run(assign, Run(save, s)), moves[i].to) == Read(s, moves[i].from)
    ensures forall v :: v !in Dests(moves) && Older(v, next) ==> Read(Run(assign, Run(save, s)), v) == Read(s, v)
  {
    OrderIsOlder(moves, next, order);
    SavesAreDisjoint(save, order, next);
    RunDisjoint(save, s);
    var mid := Run(save, s);
    SavedCopiesRead(moves, next, order, saved, save, assign, s);
    AssignsAreDisjoint(moves, next, order, saved, assign);
    RunDisjoint(assign, mid);
    OthersUntouched(moves, next, order, save, assign, s);
  }

  /** A value that is neither a destination nor a fresh temp is not written
      by either half. */
  lemma OthersUntouched(moves: seq<Move>, next: nat, order: seq<Value>, save: seq<Move>, assign: seq<Move>, s: State)
    requires |save| == |order| && |assign| == |moves|
    requires forall k :: 0 <= k < |order| ==> save[k].to == Temp(next + k)
    requires forall k :: 0 <= k < |moves| ==> assign[k].to == moves[k].to
    requires forall v :: (forall k :: 0 <= k < |save| ==> save[k].to != v) ==> Read(Run(save, s), v) == Read(s, v)
    requires forall v :: (forall k :: 0 <= k < |assign| ==> assign[k].to != v) ==>
      Read(Run(assign, Run(save, s)), v) == Read(Run(save, s), v)
    ensures forall v :: v !in Dests(moves) && Older(v, next) ==> Read(Run(assign, Run(save, s)), v) == Read(s, v)
  {
    forall v | v !in Dests(moves) && Older(v, next)
      ensures Read(Run(assign, Run(save, s)), v) == Read(s, v)
    {
      forall k | 0 <= k < |assign| ensures assign[k].to != v {
        assert moves[k] in moves;
      }
      assert forall k :: 0 <= k < |save| ==> save[k].to != v;
    }
  }

  /** After the saves, reading a move's redirected source gives what its
      original source held on entry. */
  lemma SavedCopiesRead(moves: seq<Move>, next: nat, order: seq<Value>, saved: map<Value, Value>,
                        save: seq<Move>, assign: seq<Move>, s: State)
    requires PhiCopies(moves, next)
    requires |save| == |order| && |assign| == |moves|
    requires forall k :: 0 <= k < |order| ==> save[k] == Move(Temp(next + k), order[k])
    requires forall k :: 0 <= k < |save| ==> Read(Run(save, s), save[k].to) == Read(s, save[k].from)
    requires forall v :: (forall k :: 0 <= k < |save| ==> save[k].to != v) ==> Read(Run(save, s), v) == Read(s, v)
    requires Saves(order, saved, next)
    requires forall j :: 0 <= j < |moves| && moves[j].from in Dests(moves) ==> moves[j].from in saved
    requires forall k :: 0 <= k < |moves| ==> assign[k] == Move(moves[k].to, Redirect(saved, moves[k].from))
    ensures forall i :: 0 <= i < |moves| ==> Read(Run(save, s), assign[i].from) == Read(s, moves[i].from)
  {
    forall i | 0 <= i < |moves|
      ensures Read(Run(save, s), assign[i].from) == Read(s, moves[i].from)
    {
      var v := moves[i].from;
      if v in saved {
        var k :| 0 <= k < |order| && order[k] == v;
        assert save[k] == Move(Temp(next + k), v);
      } else {
        assert forall k :: 0 <= k < |save| ==> save[k].to != v;
      }
    }
  }

  lemma OrderIsOlder(moves: seq<Move>, next: nat, order: seq<Value>)
    requires PhiCopies(moves, next)
    requires forall k :: 0 <= k < |order| ==> order[k] in Dests(moves)
    ensures forall k :: 0 <= k < |order| ==> Older(order[k], next)
  {
    forall k | 0 <= k < |order| ensures Older(order[k], next) {
      var m :| m in moves && m.to == order[k];
      var j :| 0 <= j < |moves| && moves[j] == m;
    }
  }

  lemma SavesAreDisjoint(save: seq<Move>, order: seq<Value>, next: nat)
    requires |save| == |order|
    requires forall k :: 0 <= k < |order| ==> save[k] == Move(Temp(next + k), order[k]) && Older(order[k], next)
    ensures DistinctTargets(save) && ReadsNoTarget(save)
    ensures forall i :: 0 <= i < |save| ==> !save[i].to.Const?
  {
  }

  lemma AssignsAreDisjoint(moves: seq<Move>, next: nat, order: seq<Value>, saved: map<Value, Value>, assign: seq<Move>)
    requires PhiCopies(moves, next)
    requires |assign| == |moves|
    requires Saves(order, saved, next)
    requires forall j :: 0 <= j < |moves| && moves[j].from in Dests(moves) ==> moves[j].from in saved
    requires forall k :: 0 <= k < |moves| ==> assign[k] == Move(moves[k].to, Redirect(saved, moves[k].from))
    ensures DistinctTargets(assign) && ReadsNoTarget(assign)
    ensures forall i :: 0 <= i < |assign| ==> !assign[i].to.Const?
  {
    forall i, j | 0 <= i < |assign| && 0 <= j < |assign|
      ensures assign[i].from != assign[j].to
    {
      var v := moves[i].from;
      assert moves[j].to in Dests(moves);
      if v in saved {
        var k :| 0 <= k < |order| && order[k] == v;
      }
    }
  }
}
