/** The integer interval sets of the value-range analysis
    (`IntervalAnalysis::IntervalSet<int>` in
    include/Pass/Analyses/IntervalAnalysis.h): a list of closed intervals or
    the undefined element, kept sorted and merged by `normalize`, with the
    lattice operations and the interval arithmetic the analysis uses. */
module IntervalSets {
  import opened Int32
  import SafeCalc

  /** `Interval<int>`: the closed range [lo, hi]. */
  datatype Interval = Interval(lo: int, hi: int)

  /** `IntervalSet<int>`: the undefined element X_N, or a list of intervals
      (the empty list is the empty set). */
  datatype IntervalSet = Undefined | Defined(ivs: seq<Interval>)

  /** `numeric_limits_v<int>`: `int` has no infinity, so the analysis uses
      the extreme values. */
  const NEG_INF: int := MIN
  const POS_INF: int := MAX

  predicate InInterval(iv: Interval, x: int) { iv.lo <= x <= iv.hi }

  predicate InAny(ivs: seq<Interval>, x: int)
  {
    exists iv :: iv in ivs && InInterval(iv, x)
  }

  /** The points a set stands for; the undefined element holds none. */
  predicate Contains(s: IntervalSet, x: int)
  {
    s.Defined? && InAny(s.ivs, x)
  }

  /** `is_empty`: defined and without intervals. */
  predicate IsEmpty(s: IntervalSet)
  {
    s.Defined? && |s.ivs| == 0
  }

  /** Every interval is non-empty. */
  predicate WellFormed(ivs: seq<Interval>)
  {
    forall iv :: iv in ivs ==> iv.lo <= iv.hi
  }

  /** The shape `normalize` produces: non-empty intervals in increasing
      order, no two of them overlapping or adjacent. */
  predicate Canonical(ivs: seq<Interval>)
  {
    WellFormed(ivs) && forall i, j :: 0 <= i < j < |ivs| ==> ivs[i].hi + 1 < ivs[j].lo
  }

  /** Every bound is an `int`. */
  predicate Bounded(ivs: seq<Interval>)
  {
    forall iv :: iv in ivs ==> InRange(iv.lo) && InRange(iv.hi)
  }

  function Min(a: int, b: int): int { if a <= b then a else b }

  function Max(a: int, b: int): int { if a >= b then a else b }

  // ---------------------------------------------------------------------
  // Construction

  /** `IntervalSet(lower, upper)`: one interval, or the empty set when the
      bounds are crossed. */
  function Range(lower: int, upper: int): (s: IntervalSet)
    ensures s.Defined? && Canonical(s.ivs)
    ensures IsEmpty(s) <==> lower > upper
  {
    if lower <= upper then Defined([Interval(lower, upper)]) else Defined([])
  }

  /** `IntervalSet(constant)`. */
  function Constant(c: int): (s: IntervalSet)
    ensures s.Defined? && Canonical(s.ivs) && |s.ivs| == 1
  {
    Defined([Interval(c, c)])
  }

  /** `make_any`: every `int`. */
  function Any(): (s: IntervalSet)
    ensures s.Defined? && Canonical(s.ivs) && Bounded(s.ivs) && |s.ivs| == 1
  {
    Range(NEG_INF, POS_INF)
  }

  /** The range holds exactly the points between its bounds, the constant
      only itself, and the top element every `int`. */
  lemma ConstructorPoints(lower: int, upper: int, x: int)
    ensures Contains(Range(lower, upper), x) <==> lower <= x <= upper
    ensures Contains(Constant(lower), x) <==> x == lower
    ensures Contains(Any(), x) <==> InRange(x)
  {
    SingletonPoints(Interval(lower, upper), x);
    SingletonPoints(Interval(lower, lower), x);
    SingletonPoints(Interval(NEG_INF, POS_INF), x);
  }

  // ---------------------------------------------------------------------
  // normalize: sort by lower bound, then merge overlapping or adjacent
  // neighbours

  /** `intersects_or_adjacent` for integers: [1, 2] and [3, 4] touch. The
      sum `min(upper, other.upper) + 1` is taken without overflow; the
      source computes it in `int` (see `TouchesAsWritten`). */
  predicate Touches(a: Interval, b: Interval)
  {
    Max(a.lo, b.lo) <= Min(a.hi, b.hi) + 1
  }

  /** `intersects_or_adjacent` as written: `min(upper, other.upper) + 1` is
      an `int` sum, which wraps to `INT_MIN` when both uppers are
      `INT_MAX` (signed overflow is undefined in C++; two's-complement
      wrap-around is what the hardware does). */
  predicate TouchesAsWritten(a: Interval, b: Interval)
  {
    Max(a.lo, b.lo) <= Wrap(Min(a.hi, b.hi) + 1)
  }

  /** As written, [0, INT_MAX] and [5, INT_MAX] do not touch although they
      overlap, so a merge step of `normalize` keeps both, and the result
      is not in normal form. */
  lemma OverlapAtMaxAsWritten()
    ensures Touches(Interval(0, MAX), Interval(5, MAX))
    ensures !TouchesAsWritten(Interval(0, MAX), Interval(5, MAX))
    ensures AbsorbAsWritten([Interval(0, MAX)], Interval(5, MAX)) == [Interval(0, MAX), Interval(5, MAX)]
    ensures !Canonical(AbsorbAsWritten([Interval(0, MAX)], Interval(5, MAX)))
  {
    assert Wrap(MAX + 1) == MIN;
    var r := AbsorbAsWritten([Interval(0, MAX)], Interval(5, MAX));
    assert r[0].hi + 1 >= r[1].lo;
  }

  /** `merge`: the smallest interval covering both; for two touching
      non-empty intervals it covers exactly their points. */
  function Hull(a: Interval, b: Interval): (r: Interval)
    ensures a.lo <= a.hi && b.lo <= b.hi && Touches(a, b) ==>
      forall x :: InInterval(r, x) <==> InInterval(a, x) || InInterval(b, x)
  {
    Interval(Min(a.lo, b.lo), Max(a.hi, b.hi))
  }

  predicate SortedByLo(ivs: seq<Interval>)
  {
    forall i, j :: 0 <= i < j < |ivs| ==> ivs[i].lo <= ivs[j].lo
  }

  /** Insert `x` after every interval whose lower bound is not above its own. */
  function InsertByLo(t: seq<Interval>, x: Interval): seq<Interval>
    decreases |t|
  {
    if |t| == 0 then [x]
    else if t[|t| - 1].lo <= x.lo then t + [x]
    else InsertByLo(t[..|t| - 1], x) + [t[|t| - 1]]
  }

  /** `std::sort` with `operator<` on the lower bound. The order among equal
      lower bounds is left open by `std::sort`; this sort keeps the input
      order, and `normalize` merges such intervals whatever their order. */
  function SortByLo(s: seq<Interval>): seq<Interval>
  {
    if |s| == 0 then [] else InsertByLo(SortByLo(s[..|s| - 1]), s[|s| - 1])
  }

  lemma {:induction false} InsertByLoPermutes(t: seq<Interval>, x: Interval)
    ensures multiset(InsertByLo(t, x)) == multiset(t) + multiset{x}
    decreases |t|
  {
    if |t| > 0 && t[|t| - 1].lo > x.lo {
      InsertByLoPermutes(t[..|t| - 1], x);
      assert t == t[..|t| - 1] + [t[|t| - 1]];
    }
  }

  /** The sort only reorders. */
  lemma {:induction false} SortByLoPermutes(s: seq<Interval>)
    ensures multiset(SortByLo(s)) == multiset(s)
  {
    if |s| > 0 {
      SortByLoPermutes(s[..|s| - 1]);
      InsertByLoPermutes(SortByLo(s[..|s| - 1]), s[|s| - 1]);
      assert s == s[..|s| - 1] + [s[|s| - 1]];
    }
  }

  lemma {:induction false} InsertByLoSorted(t: seq<Interval>, x: Interval)
    requires SortedByLo(t)
    ensures SortedByLo(InsertByLo(t, x))
    decreases |t|
  {
    if |t| > 0 && t[|t| - 1].lo > x.lo {
      var t' := t[..|t| - 1];
      InsertByLoSorted(t', x);
      InsertByLoPermutes(t', x);
      var r' := InsertByLo(t', x);
      forall iv | iv in r' ensures iv.lo <= t[|t| - 1].lo {
        assert iv in multiset(r');
        if iv != x {
          assert iv in multiset(t');
          var k :| 0 <= k < |t'| && t'[k] == iv;
          assert t[k] == iv;
        }
      }
      SortedAppend(r', t[|t| - 1]);
    }
  }

  lemma SortedAppend(r: seq<Interval>, y: Interval)
    requires SortedByLo(r) && forall iv :: iv in r ==> iv.lo <= y.lo
    ensures SortedByLo(r + [y])
  {
    forall i, j | 0 <= i < j < |r + [y]| ensures (r + [y])[i].lo <= (r + [y])[j].lo {
      if j == |r| { assert r[i] in r; }
    }
  }

  lemma {:induction false} SortByLoSorted(s: seq<Interval>)
    ensures SortedByLo(SortByLo(s))
  {
    if |s| > 0 {
      SortByLoSorted(s[..|s| - 1]);
      InsertByLoSorted(SortByLo(s[..|s| - 1]), s[|s| - 1]);
    }
  }

  /** Equal multisets of intervals hold the same points and the same
      intervals. */
  lemma SameElements(a: seq<Interval>, b: seq<Interval>)
    requires multiset(a) == multiset(b)
    ensures forall iv :: iv in a <==> iv in b
  {
    forall iv ensures iv in a <==> iv in b {
      assert iv in a <==> iv in multiset(a);
      assert iv in b <==> iv in multiset(b);
    }
  }

  /** One step of the merge loop: widen the last merged interval by `iv`
      when they touch, otherwise start a new one. */
  function Absorb(acc: seq<Interval>, iv: Interval): (r: seq<Interval>)
    requires |acc| > 0
    ensures |r| > 0
  {
    var last := acc[|acc| - 1];
    if Touches(last, iv) then acc[..|acc| - 1] + [Hull(last, iv)] else acc + [iv]
  }

  /** `Absorb` with the merge test as written: the same step unless both
      uppers are `INT_MAX`. */
  function AbsorbAsWritten(acc: seq<Interval>, iv: Interval): (r: seq<Interval>)
    requires |acc| > 0
    ensures var hi := Min(acc[|acc| - 1].hi, iv.hi);
      InRange(acc[|acc| - 1].hi) && InRange(iv.hi) && hi < MAX ==> r == Absorb(acc, iv)
    ensures !TouchesAsWritten(acc[|acc| - 1], iv) ==> r == acc + [iv]
  {
    var last := acc[|acc| - 1];
    if TouchesAsWritten(last, iv) then acc[..|acc| - 1] + [Hull(last, iv)] else acc + [iv]
  }

  /** The merge loop over the sorted intervals, starting from `acc`. */
  function Sweep(acc: seq<Interval>, rest: seq<Interval>): (r: seq<Interval>)
    requires |acc| > 0
    ensures |r| > 0
    decreases |rest|
  {
    if |rest| == 0 then acc else Sweep(Absorb(acc, rest[0]), rest[1..])
  }

  /** `normalize`: nothing to do for the undefined element or at most one
      interval; otherwise sort and merge. */
  function Normalize(s: IntervalSet): IntervalSet
  {
    if s.Undefined? || |s.ivs| <= 1 then s
    else
      var t := SortByLo(s.ivs);
      Defined(Sweep([t[0]], t[1..]))
  }

  lemma AbsorbPoints(acc: seq<Interval>, iv: Interval, x: int)
    requires |acc| > 0 && WellFormed(acc) && iv.lo <= iv.hi
    ensures WellFormed(Absorb(acc, iv))
    ensures InAny(Absorb(acc, iv), x) <==> InAny(acc, x) || InInterval(iv, x)
  {
    var last := acc[|acc| - 1];
    var init := acc[..|acc| - 1];
    assert acc == init + [last];
    assert last in acc;
    if Touches(last, iv) {
      var r := init + [Hull(last, iv)];
      if InAny(acc, x) {
        var w :| w in acc && InInterval(w, x);
        if w != last { assert w in init && w in r; } else { assert Hull(last, iv) in r; }
      }
      if InInterval(iv, x) { assert Hull(last, iv) in r; }
      if InAny(r, x) {
        var w :| w in r && InInterval(w, x);
        if w in init { assert w in acc; }
      }
    } else {
      var r := acc + [iv];
      if InAny(acc, x) {
        var w :| w in acc && InInterval(w, x);
        assert w in r;
      }
      if InInterval(iv, x) { assert iv in r; }
    }
  }

  lemma {:induction false} SweepPoints(acc: seq<Interval>, rest: seq<Interval>, x: int)
    requires |acc| > 0 && WellFormed(acc) && WellFormed(rest)
    ensures WellFormed(Sweep(acc, rest))
    ensures InAny(Sweep(acc, rest), x) <==> InAny(acc, x) || InAny(rest, x)
    decreases |rest|
  {
    if |rest| > 0 {
      assert rest[0] in rest;
      AbsorbPoints(acc, rest[0], x);
      assert WellFormed(rest[1..]) by {
        forall iv | iv in rest[1..] ensures iv in rest { }
      }
      SweepPoints(Absorb(acc, rest[0]), rest[1..], x);
      HeadTailPoints(rest, x);
    }
  }

  lemma HeadTailPoints(s: seq<Interval>, x: int)
    requires |s| > 0
    ensures InAny(s, x) <==> InInterval(s[0], x) || InAny(s[1..], x)
  {
    assert s == [s[0]] + s[1..];
    if InAny(s, x) {
      var w :| w in s && InInterval(w, x);
      if w != s[0] { assert w in s[1..]; }
    }
    if InAny(s[1..], x) {
      var w :| w in s[1..] && InInterval(w, x);
      assert w in s;
    }
  }

  /** Absorbing an interval that starts no earlier than the last one keeps
      the merged list canonical. */
  lemma AbsorbCanonical(acc: seq<Interval>, iv: Interval)
    requires |acc| > 0 && Canonical(acc) && iv.lo <= iv.hi && acc[|acc| - 1].lo <= iv.lo
    ensures Canonical(Absorb(acc, iv))
    ensures Absorb(acc, iv)[|Absorb(acc, iv)| - 1].lo <= iv.lo
  {
    var last := acc[|acc| - 1];
    assert last in acc;
    var r := Absorb(acc, iv);
    if Touches(last, iv) {
      var h := Hull(last, iv);
      assert h.lo == last.lo;
      forall w | w in r ensures w.lo <= w.hi {
        if w != h { assert w in acc; }
      }
      forall i, j | 0 <= i < j < |r| ensures r[i].hi + 1 < r[j].lo {
        assert r[i] == acc[i];
        if j < |r| - 1 { assert r[j] == acc[j]; }
      }
    } else {
      forall w | w in r ensures w.lo <= w.hi {
        if w != iv { assert w in acc; }
      }
      forall i, j | 0 <= i < j < |r| ensures r[i].hi + 1 < r[j].lo {
        assert r[i] == acc[i];
        if j < |acc| {
          assert r[j] == acc[j];
        } else if i < |acc| - 1 {
          assert acc[i].hi + 1 < last.lo;
        }
      }
    }
  }

  lemma {:induction false} SweepCanonical(acc: seq<Interval>, rest: seq<Interval>)
    requires |acc| > 0 && Canonical(acc) && WellFormed(rest) && SortedByLo(rest)
    requires |rest| > 0 ==> acc[|acc| - 1].lo <= rest[0].lo
    ensures Canonical(Sweep(acc, rest))
    decreases |rest|
  {
    if |rest| > 0 {
      assert rest[0] in rest;
      AbsorbCanonical(acc, rest[0]);
      assert WellFormed(rest[1..]) by {
        forall iv | iv in rest[1..] ensures iv in rest { }
      }
      if |rest| > 1 { assert rest[0].lo <= rest[1].lo; }
      SweepCanonical(Absorb(acc, rest[0]), rest[1..]);
    }
  }

  /** `normalize` keeps the point set and yields the canonical shape. */
  lemma NormalizeCorrect(s: IntervalSet, x: int)
    requires s.Defined? && WellFormed(s.ivs)
    ensures Normalize(s).Defined? && Canonical(Normalize(s).ivs)
    ensures Contains(Normalize(s), x) <==> Contains(s, x)
  {
    if |s.ivs| == 1 {
      assert s.ivs[0] in s.ivs;
    } else if |s.ivs| > 1 {
      var t := SortByLo(s.ivs);
      SortByLoPermutes(s.ivs);
      SameElements(t, s.ivs);
      SortByLoSorted(s.ivs);
      assert t[0] in t;
      assert WellFormed(t);
      assert WellFormed(t[1..]) && SortedByLo(t[1..]) by {
        forall iv | iv in t[1..] ensures iv in t { }
      }
      SweepPoints([t[0]], t[1..], x);
      SweepCanonical([t[0]], t[1..]);
      HeadTailPoints(t, x);
      SingletonPoints(t[0], x);
      SamePoints(t, s.ivs, x);
    }
  }

  lemma SingletonPoints(iv: Interval, x: int)
    ensures InAny([iv], x) <==> InInterval(iv, x)
  {
    if InInterval(iv, x) { assert iv in [iv]; }
  }

  lemma SamePoints(a: seq<Interval>, b: seq<Interval>, x: int)
    requires forall iv :: iv in a <==> iv in b
    ensures InAny(a, x) <==> InAny(b, x)
  {
  }

  // ---------------------------------------------------------------------
  // union_with, intersect_with, widen

  /** `union_with`: the undefined element is the identity, on either
      side. */
  function Union(a: IntervalSet, b: IntervalSet): (r: IntervalSet)
    ensures b.Undefined? ==> r == a
    ensures a.Undefined? ==> r == b
  {
    if b.Undefined? then a
    else if a.Undefined? then b
    else Normalize(Defined(a.ivs + b.ivs))
  }

  /** Union of defined sets holds exactly the points of either, in
      canonical shape. */
  lemma UnionCorrect(a: IntervalSet, b: IntervalSet, x: int)
    requires a.Defined? && b.Defined? && WellFormed(a.ivs) && WellFormed(b.ivs)
    ensures Union(a, b).Defined? && Canonical(Union(a, b).ivs)
    ensures Contains(Union(a, b), x) <==> Contains(a, x) || Contains(b, x)
  {
    var c := Defined(a.ivs + b.ivs);
    assert WellFormed(c.ivs) by {
      forall iv | iv in c.ivs ensures iv.lo <= iv.hi { assert iv in a.ivs || iv in b.ivs; }
    }
    NormalizeCorrect(c, x);
    ConcatPoints(a.ivs, b.ivs, x);
  }

  lemma ConcatPoints(a: seq<Interval>, b: seq<Interval>, x: int)
    ensures InAny(a + b, x) <==> InAny(a, x) || InAny(b, x)
  {
    if InAny(a + b, x) {
      var w :| w in a + b && InInterval(w, x);
      assert w in a || w in b;
    }
    if InAny(a, x) {
      var w :| w in a && InInterval(w, x);
      assert w in a + b;
    }
    if InAny(b, x) {
      var w :| w in b && InInterval(w, x);
      assert w in a + b;
    }
  }

  /** The non-empty overlaps of `i1` with each interval of `bs`, in order. */
  function Clip(i1: Interval, bs: seq<Interval>): (r: seq<Interval>)
    ensures WellFormed(r)
  {
    if |bs| == 0 then []
    else
      var lower := Max(i1.lo, bs[0].lo);
      var upper := Min(i1.hi, bs[0].hi);
      (if lower <= upper then [Interval(lower, upper)] else []) + Clip(i1, bs[1..])
  }

  /** The double loop of `intersect_with`. */
  function ClipAll(xs: seq<Interval>, bs: seq<Interval>): (r: seq<Interval>)
    ensures WellFormed(r)
  {
    if |xs| == 0 then [] else Clip(xs[0], bs) + ClipAll(xs[1..], bs)
  }

  /** `intersect_with`: an undefined operand is ignored; the result is not
      normalized. */
  function Intersect(a: IntervalSet, b: IntervalSet): IntervalSet
  {
    if b.Undefined? then a
    else if a.Undefined? then b
    else Defined(ClipAll(a.ivs, b.ivs))
  }

  lemma {:induction false} ClipPoints(i1: Interval, bs: seq<Interval>, x: int)
    ensures InAny(Clip(i1, bs), x) <==> InInterval(i1, x) && InAny(bs, x)
  {
    if |bs| > 0 {
      var lower := Max(i1.lo, bs[0].lo);
      var upper := Min(i1.hi, bs[0].hi);
      var head: seq<Interval> := if lower <= upper then [Interval(lower, upper)] else [];
      ClipPoints(i1, bs[1..], x);
      ConcatPoints(head, Clip(i1, bs[1..]), x);
      HeadTailPoints(bs, x);
      if lower <= upper { SingletonPoints(Interval(lower, upper), x); }
    }
  }

  lemma {:induction false} ClipAllPoints(xs: seq<Interval>, bs: seq<Interval>, x: int)
    ensures InAny(ClipAll(xs, bs), x) <==> InAny(xs, x) && InAny(bs, x)
  {
    if |xs| > 0 {
      ClipPoints(xs[0], bs, x);
      ClipAllPoints(xs[1..], bs, x);
      ConcatPoints(Clip(xs[0], bs), ClipAll(xs[1..], bs), x);
      HeadTailPoints(xs, x);
    }
  }

  /** Intersection of defined sets holds exactly the points of both; an
      undefined operand leaves the other unchanged. */
  lemma IntersectCorrect(a: IntervalSet, b: IntervalSet, x: int)
    ensures b.Undefined? ==> Intersect(a, b) == a
    ensures a.Undefined? ==> Intersect(a, b) == b
    ensures a.Defined? && b.Defined? ==>
      Intersect(a, b).Defined? && WellFormed(Intersect(a, b).ivs)
      && (Contains(Intersect(a, b), x) <==> Contains(a, x) && Contains(b, x))
  {
    if a.Defined? && b.Defined? {
      ClipAllPoints(a.ivs, b.ivs, x);
    }
  }

  /** `widen` (∇): the hull of the old set, with a bound moved to infinity
      wherever the new set reaches past it. */
  function Widen(a: IntervalSet, b: IntervalSet): IntervalSet
  {
    if b.Undefined? || IsEmpty(b) then a
    else if IsEmpty(a) || a.Undefined? then b
    else
      var min1, max1 := a.ivs[0].lo, a.ivs[|a.ivs| - 1].hi;
      var min2, max2 := b.ivs[0].lo, b.ivs[|b.ivs| - 1].hi;
      var lower := if min2 < min1 then NEG_INF else min1;
      var upper := if max2 > max1 then POS_INF else max1;
      Defined([Interval(lower, upper)])
  }

  /** Widening two non-empty sets gives one interval that keeps each old
      bound unless the new set passes it, and then jumps to infinity. */
  lemma WidenShape(a: IntervalSet, b: IntervalSet)
    requires a.Defined? && b.Defined? && |a.ivs| > 0 && |b.ivs| > 0
    ensures |Widen(a, b).ivs| == 1
    ensures Widen(a, b).ivs[0].lo == if b.ivs[0].lo < a.ivs[0].lo then NEG_INF else a.ivs[0].lo
    ensures Widen(a, b).ivs[0].hi ==
      if b.ivs[|b.ivs| - 1].hi > a.ivs[|a.ivs| - 1].hi then POS_INF else a.ivs[|a.ivs| - 1].hi
  {
  }

  /** An empty or undefined operand makes widening return the other one. */
  lemma WidenTrivial(a: IntervalSet, b: IntervalSet)
    ensures b.Undefined? || IsEmpty(b) ==> Widen(a, b) == a
    ensures !(b.Undefined? || IsEmpty(b)) && (a.Undefined? || IsEmpty(a)) ==> Widen(a, b) == b
  {
  }

  /** Widening over-approximates both operands: every point of either
      canonical, bounded set stays in the result. */
  lemma WidenCovers(a: IntervalSet, b: IntervalSet, x: int)
    requires a.Defined? && b.Defined? && Canonical(a.ivs) && Canonical(b.ivs)
    requires Bounded(a.ivs) && Bounded(b.ivs)
    ensures Contains(a, x) || Contains(b, x) ==> Contains(Widen(a, b), x)
  {
    if (Contains(a, x) || Contains(b, x)) && |a.ivs| > 0 && |b.ivs| > 0 {
      CanonicalSpan(a.ivs, x);
      CanonicalSpan(b.ivs, x);
      var r := Widen(a, b);
      assert r.ivs[0] in r.ivs;
      assert a.ivs[0] in a.ivs && b.ivs[0] in b.ivs;
      assert a.ivs[|a.ivs| - 1] in a.ivs && b.ivs[|b.ivs| - 1] in b.ivs;
    }
  }

  /** Every point of a canonical list lies between its first lower and its
      last upper bound. */
  lemma CanonicalSpan(ivs: seq<Interval>, x: int)
    requires Canonical(ivs) && |ivs| > 0
    ensures InAny(ivs, x) ==> ivs[0].lo <= x <= ivs[|ivs| - 1].hi
  {
    if InAny(ivs, x) {
      var w :| w in ivs && InInterval(w, x);
      var k :| 0 <= k < |ivs| && ivs[k] == w;
      if k > 0 { assert ivs[0].hi + 1 < ivs[k].lo; assert ivs[0] in ivs; }
      if k < |ivs| - 1 { assert ivs[k].hi + 1 < ivs[|ivs| - 1].lo; assert ivs[|ivs| - 1] in ivs; }
    }
  }

  // ---------------------------------------------------------------------
  // Interval arithmetic

  /** The binary operators modelled: `+`, `-`, `max`, `%` as the source
      writes it, and `%` with the bounds the C remainder actually reaches. */
  datatype BinOp = Plus | Minus | Maximum | Rem | RemChecked

  /** The interval the double loop emits for one pair of operand intervals. */
  function Combine(op: BinOp, i1: Interval, i2: Interval): Interval
  {
    match op
    case Plus => Interval(i1.lo + i2.lo, i1.hi + i2.hi)
    case Minus => Interval(i1.lo - i2.hi, i1.hi - i2.lo)
    case Maximum => Interval(Max(i1.lo, i2.lo), Max(i1.hi, i2.hi))
    case Rem =>
      if i2.lo <= 0 && i2.hi >= 0 then Interval(NEG_INF, POS_INF)
      else if i2.lo > 0 then Interval(0, i2.hi - 1)
      else Interval(i2.hi + 1, 0)
    case RemChecked =>
      if i2.lo <= 0 && i2.hi >= 0 then Interval(NEG_INF, POS_INF)
      else
        var m := if i2.lo > 0 then i2.hi else -i2.lo;
        Interval(if i1.lo < 0 then 1 - m else 0, if i1.hi > 0 then m - 1 else 0)
  }

  function CombineWith(op: BinOp, i1: Interval, bs: seq<Interval>): seq<Interval>
  {
    if |bs| == 0 then [] else [Combine(op, i1, bs[0])] + CombineWith(op, i1, bs[1..])
  }

  function CombineAll(op: BinOp, xs: seq<Interval>, bs: seq<Interval>): seq<Interval>
  {
    if |xs| == 0 then [] else CombineWith(op, xs[0], bs) + CombineAll(op, xs[1..], bs)
  }

  /** `operator+`, `operator-`, `max` and `operator%`: undefined if either
      operand is, empty if either is empty, otherwise the normalized list of
      pairwise results. */
  function Apply(op: BinOp, a: IntervalSet, b: IntervalSet): (r: IntervalSet)
    ensures a.Undefined? || b.Undefined? ==> r.Undefined?
    ensures a.Defined? && b.Defined? && (IsEmpty(a) || IsEmpty(b)) ==> IsEmpty(r)
  {
    if a.Undefined? || b.Undefined? then Undefined
    else if IsEmpty(a) || IsEmpty(b) then Defined([])
    else Normalize(Defined(CombineAll(op, a.ivs, b.ivs)))
  }

  /** The value of an operator on two points, where it is defined. */
  predicate Defines(op: BinOp, x: int, y: int)
  {
    (op == Rem || op == RemChecked) ==> y != 0
  }

  function Eval(op: BinOp, x: int, y: int): int
    requires Defines(op, x, y)
  {
    match op
    case Plus => x + y
    case Minus => x - y
    case Maximum => Max(x, y)
    case Rem => TMod(x, y)
    case RemChecked => TMod(x, y)
  }

  /** The points on which a transfer function is claimed sound: `+`, `-`
      and `max` everywhere, the source's `%` only for a non-negative
      dividend and a positive divisor, the corrected `%` for every `int`
      dividend and non-zero `int` divisor. */
  predicate Covered(op: BinOp, x: int, y: int)
  {
    match op
    case Rem => 0 <= x && 0 < y && InRange(x) && InRange(y)
    case RemChecked => y != 0 && InRange(x) && InRange(y)
    case _ => true
  }

  /** One pair of operand intervals: the emitted interval holds the
      operator's value on every covered pair of points. */
  lemma CombineSound(op: BinOp, i1: Interval, i2: Interval, x: int, y: int)
    requires InInterval(i1, x) && InInterval(i2, y) && Covered(op, x, y)
    ensures Defines(op, x, y) && InInterval(Combine(op, i1, i2), Eval(op, x, y))
  {
    if op == Rem || op == RemChecked {
      SafeCalc.RemainderBound(x, y);
    }
  }

  /** `+`, `-` and `max` lose nothing on one pair of intervals: every point
      of the emitted interval is the value of some pair of points. */
  lemma CombineExact(op: BinOp, i1: Interval, i2: Interval, z: int) returns (x: int, y: int)
    requires op == Plus || op == Minus || op == Maximum
    requires i1.lo <= i1.hi && i2.lo <= i2.hi && InInterval(Combine(op, i1, i2), z)
    ensures InInterval(i1, x) && InInterval(i2, y) && Eval(op, x, y) == z
  {
    match op
    case Plus =>
      x := if z - i2.lo <= i1.hi then z - i2.lo else i1.hi;
      y := z - x;
    case Minus =>
      x := if z + i2.hi <= i1.hi then z + i2.hi else i1.hi;
      y := x - z;
    case Maximum =>
      if i1.lo <= z <= i1.hi {
        x, y := z, i2.lo;
      } else {
        x, y := i1.lo, z;
      }
  }

  lemma {:induction false} CombineWithMembers(op: BinOp, i1: Interval, bs: seq<Interval>, w: Interval)
    ensures w in CombineWith(op, i1, bs) <==> exists i2 :: i2 in bs && w == Combine(op, i1, i2)
  {
    if |bs| > 0 {
      CombineWithMembers(op, i1, bs[1..], w);
      assert bs == [bs[0]] + bs[1..];
    }
  }

  /** The double loop emits exactly the combinations of one interval of
      each operand. */
  lemma {:induction false} CombineAllMembers(op: BinOp, xs: seq<Interval>, bs: seq<Interval>, w: Interval)
    ensures w in CombineAll(op, xs, bs) <==>
      exists i1, i2 :: i1 in xs && i2 in bs && w == Combine(op, i1, i2)
  {
    if |xs| > 0 {
      CombineWithMembers(op, xs[0], bs, w);
      CombineAllMembers(op, xs[1..], bs, w);
      assert xs == [xs[0]] + xs[1..];
    }
  }

  /** On well-formed operands every emitted interval is non-empty. */
  lemma CombineAllWellFormed(op: BinOp, xs: seq<Interval>, bs: seq<Interval>)
    requires WellFormed(xs) && WellFormed(bs)
    ensures WellFormed(CombineAll(op, xs, bs))
  {
    forall w | w in CombineAll(op, xs, bs) ensures w.lo <= w.hi {
      CombineAllMembers(op, xs, bs, w);
      var i1, i2 :| i1 in xs && i2 in bs && w == Combine(op, i1, i2);
    }
  }

  /** Every covered pair of points of the operands has its value in the
      result: `+`, `-`, `max` and the corrected `%` always, the source's `%`
      for a non-negative dividend and a positive divisor. */
  lemma ApplySound(op: BinOp, a: IntervalSet, b: IntervalSet, x: int, y: int)
    requires a.Defined? && b.Defined? && WellFormed(a.ivs) && WellFormed(b.ivs)
    requires Contains(a, x) && Contains(b, y) && Covered(op, x, y)
    ensures Defines(op, x, y) && Contains(Apply(op, a, b), Eval(op, x, y))
  {
    var i1 :| i1 in a.ivs && InInterval(i1, x);
    var i2 :| i2 in b.ivs && InInterval(i2, y);
    CombineSound(op, i1, i2, x, y);
    var w := Combine(op, i1, i2);
    var c := CombineAll(op, a.ivs, b.ivs);
    CombineAllMembers(op, a.ivs, b.ivs, w);
    CombineAllWellFormed(op, a.ivs, b.ivs);
    NormalizeCorrect(Defined(c), Eval(op, x, y));
    assert w in c;
  }

  /** `+`, `-` and `max` add no points: every point of the result is the
      value of a pair of points of the operands. With `ApplySound` the
      result is exactly the image of the operator. */
  lemma ApplyComplete(op: BinOp, a: IntervalSet, b: IntervalSet, z: int) returns (x: int, y: int)
    requires op == Plus || op == Minus || op == Maximum
    requires a.Defined? && b.Defined? && WellFormed(a.ivs) && WellFormed(b.ivs)
    requires Contains(Apply(op, a, b), z)
    ensures Contains(a, x) && Contains(b, y) && Eval(op, x, y) == z
  {
    var c := CombineAll(op, a.ivs, b.ivs);
    CombineAllWellFormed(op, a.ivs, b.ivs);
    NormalizeCorrect(Defined(c), z);
    var w :| w in c && InInterval(w, z);
    CombineAllMembers(op, a.ivs, b.ivs, w);
    var i1, i2 :| i1 in a.ivs && i2 in b.ivs && w == Combine(op, i1, i2);
    x, y := CombineExact(op, i1, i2, z);
  }

  /** The source's `%` with a positive divisor interval [c, d] gives exactly
      [0, d - 1], whatever the dividend. */
  lemma RemPositiveDivisor(a: IntervalSet, c: int, d: int)
    requires a.Defined? && |a.ivs| > 0 && 0 < c <= d
    ensures Apply(Rem, a, Range(c, d)) == Defined([Interval(0, d - 1)])
  {
    var iv := Interval(0, d - 1);
    var t := CombineAll(Rem, a.ivs, [Interval(c, d)]);
    forall w | w in t ensures w == iv {
      CombineAllMembers(Rem, a.ivs, [Interval(c, d)], w);
    }
    assert |t| == |a.ivs| by { CombineAllLength(Rem, a.ivs, [Interval(c, d)]); }
    if |t| == 1 {
      assert t[0] in t;
      assert t == [iv];
    } else {
      var u := SortByLo(t);
      SortByLoPermutes(t);
      SameElements(u, t);
      assert u[0] in u;
      forall w | w in u[1..] ensures w == iv { assert w in u; }
      SweepSame(iv, u[1..]);
    }
  }

  lemma {:induction false} CombineAllLength(op: BinOp, xs: seq<Interval>, bs: seq<Interval>)
    ensures |CombineAll(op, xs, bs)| == |xs| * |bs|
  {
    if |xs| > 0 {
      CombineWithLength(op, xs[0], bs);
      CombineAllLength(op, xs[1..], bs);
    }
  }

  lemma {:induction false} CombineWithLength(op: BinOp, i1: Interval, bs: seq<Interval>)
    ensures |CombineWith(op, i1, bs)| == |bs|
  {
    if |bs| > 0 {
      CombineWithLength(op, i1, bs[1..]);
    }
  }

  /** Merging copies of one interval leaves that interval alone. */
  lemma {:induction false} SweepSame(iv: Interval, rest: seq<Interval>)
    requires iv.lo <= iv.hi && forall w :: w in rest ==> w == iv
    ensures Sweep([iv], rest) == [iv]
    decreases |rest|
  {
    if |rest| > 0 {
      assert rest[0] in rest;
      assert Absorb([iv], rest[0]) == [iv];
      forall w | w in rest[1..] ensures w == iv { assert w in rest; }
      SweepSame(iv, rest[1..]);
    }
  }

  /** The source's `%` misses negative remainders: C gives -5 % 3 == -2,
      while the interval computed for it is [0, 2]. */
  lemma RemMissesNegativeDividend()
    ensures TMod(-5, 3) == -2
    ensures Apply(Rem, Constant(-5), Constant(3)) == Defined([Interval(0, 2)])
    ensures !Contains(Apply(Rem, Constant(-5), Constant(3)), TMod(-5, 3))
  {
    ApplySingles(Rem, Interval(-5, -5), Interval(3, 3));
    NoPoint(Interval(0, 2), -2);
  }

  /** With a negative divisor the source's `%` gives only non-positive
      values, but C gives 5 % -3 == 2. */
  lemma RemMissesPositiveDividend()
    ensures TMod(5, -3) == 2
    ensures Apply(Rem, Constant(5), Constant(-3)) == Defined([Interval(-2, 0)])
    ensures !Contains(Apply(Rem, Constant(5), Constant(-3)), TMod(5, -3))
  {
    ApplySingles(Rem, Interval(5, 5), Interval(-3, -3));
    NoPoint(Interval(-2, 0), 2);
  }

  /** With a negative divisor interval the source bounds the remainder by the
      divisor closest to zero, not the farthest: C gives -5 % -6 == -5, while
      the interval computed for [-6, -1] as divisor is [0, 0]. */
  lemma RemUsesWrongDivisorBound()
    ensures TMod(-5, -6) == -5
    ensures Apply(Rem, Constant(-5), Range(-6, -1)) == Defined([Interval(0, 0)])
    ensures !Contains(Apply(Rem, Constant(-5), Range(-6, -1)), TMod(-5, -6))
  {
    assert TDiv(-5, -6) == 0;
    ApplySingles(Rem, Interval(-5, -5), Interval(-6, -1));
    NoPoint(Interval(0, 0), -5);
  }

  /** On two single intervals an operator emits one interval. */
  lemma ApplySingles(op: BinOp, i1: Interval, i2: Interval)
    ensures Apply(op, Defined([i1]), Defined([i2])) == Defined([Combine(op, i1, i2)])
  {
    assert [i1][1..] == [] && [i2][1..] == [];
    assert CombineWith(op, i1, [i2]) == [Combine(op, i1, i2)];
    assert CombineAll(op, [i1], [i2]) == [Combine(op, i1, i2)];
  }

  lemma NoPoint(iv: Interval, x: int)
    requires !InInterval(iv, x)
    ensures !InAny([iv], x)
  {
  }

  /** The corrected `%` holds the C remainder of every pair of `int`
      points with a non-zero divisor; on the three inputs above it holds the
      value the source's interval misses. */
  lemma RemCheckedSound(a: IntervalSet, b: IntervalSet, x: int, y: int)
    requires a.Defined? && b.Defined? && WellFormed(a.ivs) && WellFormed(b.ivs)
    requires Contains(a, x) && Contains(b, y) && y != 0 && InRange(x) && InRange(y)
    ensures Contains(Apply(RemChecked, a, b), TMod(x, y))
  {
    ApplySound(RemChecked, a, b, x, y);
  }

  // ---------------------------------------------------------------------
  // Properties of the lattice operations the source relies on

  /** `intersect_with` skips `normalize` because, for normalized operands,
      the pairwise overlaps are already sorted, disjoint and not adjacent. */
  lemma {:induction false} IntersectCanonical(xs: seq<Interval>, bs: seq<Interval>)
    requires Canonical(xs) && Canonical(bs)
    ensures Canonical(ClipAll(xs, bs))
    ensures |xs| > 0 ==> forall w :: w in ClipAll(xs, bs) ==> xs[0].lo <= w.lo
  {
    if |xs| > 0 {
      ClipCanonical(xs[0], bs);
      CanonicalSorted(bs);
      ClipBounds(xs[0], bs);
      assert Canonical(xs[1..]) by {
        forall iv | iv in xs[1..] ensures iv in xs { }
      }
      IntersectCanonical(xs[1..], bs);
      var p := Clip(xs[0], bs);
      var q := ClipAll(xs[1..], bs);
      forall u, v | u in p && v in q ensures u.hi + 1 < v.lo {
        assert xs[0].hi + 1 < xs[1].lo;
      }
      CanonicalConcat(p, q);
    }
  }

  /** Every overlap lies inside `i1` and starts no earlier than the first
      interval of `bs`. */
  lemma {:induction false} ClipBounds(i1: Interval, bs: seq<Interval>)
    requires SortedByLo(bs)
    ensures forall w :: w in Clip(i1, bs) ==> i1.lo <= w.lo && w.hi <= i1.hi
    ensures |bs| > 0 ==> forall w :: w in Clip(i1, bs) ==> bs[0].lo <= w.lo
  {
    if |bs| > 0 {
      assert SortedByLo(bs[1..]) by {
        forall i, j | 0 <= i < j < |bs[1..]| ensures bs[1..][i].lo <= bs[1..][j].lo {
          assert bs[1..][i] == bs[i + 1] && bs[1..][j] == bs[j + 1];
        }
      }
      ClipBounds(i1, bs[1..]);
      if |bs| > 1 {
        assert bs[0].lo <= bs[1].lo;
      }
    }
  }

  lemma {:induction false} ClipCanonical(i1: Interval, bs: seq<Interval>)
    requires Canonical(bs)
    ensures Canonical(Clip(i1, bs))
  {
    if |bs| > 0 {
      assert Canonical(bs[1..]) by {
        forall iv | iv in bs[1..] ensures iv in bs { }
      }
      ClipCanonical(i1, bs[1..]);
      CanonicalSorted(bs[1..]);
      ClipBounds(i1, bs[1..]);
      var lower := Max(i1.lo, bs[0].lo);
      var upper := Min(i1.hi, bs[0].hi);
      var head: seq<Interval> := if lower <= upper then [Interval(lower, upper)] else [];
      var q := Clip(i1, bs[1..]);
      forall u, v | u in head && v in q ensures u.hi + 1 < v.lo {
        assert bs[0].hi + 1 < bs[1].lo;
      }
      CanonicalConcat(head, q);
    }
  }

  lemma CanonicalConcat(p: seq<Interval>, q: seq<Interval>)
    requires Canonical(p) && Canonical(q)
    requires forall u, v :: u in p && v in q ==> u.hi + 1 < v.lo
    ensures Canonical(p + q)
  {
    var r := p + q;
    forall i, j | 0 <= i < j < |r| ensures r[i].hi + 1 < r[j].lo {
      if j < |p| {
        assert r[i] == p[i] && r[j] == p[j];
      } else if i >= |p| {
        assert r[i] == q[i - |p|] && r[j] == q[j - |p|];
      } else {
        assert r[i] == p[i] && r[j] == q[j - |p|];
        assert p[i] in p && q[j - |p|] in q;
      }
    }
  }

  /** `normalize` leaves a normalized set unchanged, so it is idempotent. */
  lemma NormalizeFixesCanonical(s: IntervalSet)
    requires s.Defined? && Canonical(s.ivs)
    ensures Normalize(s) == s
  {
    var t := s.ivs;
    if |t| > 1 {
      CanonicalSorted(t);
      SortedFixed(t);
      assert [t[0]] + t[1..] == t;
      SweepFixed([t[0]], t[1..]);
    }
  }

  lemma CanonicalSorted(t: seq<Interval>)
    requires Canonical(t)
    ensures SortedByLo(t)
  {
    forall i, j | 0 <= i < j < |t| ensures t[i].lo <= t[j].lo {
      assert t[i] in t;
    }
  }

  lemma {:induction false} SortedFixed(s: seq<Interval>)
    requires SortedByLo(s)
    ensures SortByLo(s) == s
  {
    if |s| > 0 {
      var init := s[..|s| - 1];
      SortedPrefix(s);
      SortedFixed(init);
      SortStep(s);
    }
  }

  lemma SortStep(s: seq<Interval>)
    requires |s| > 0 && SortByLo(s[..|s| - 1]) == s[..|s| - 1]
    requires |s| > 1 ==> s[|s| - 2].lo <= s[|s| - 1].lo
    ensures SortByLo(s) == s
  {
    var init, last := s[..|s| - 1], s[|s| - 1];
    assert SortByLo(s) == InsertByLo(SortByLo(init), last);
    if |init| > 0 {
      assert init[|init| - 1] == s[|s| - 2];
    }
    InsertAtEnd(init, last);
    assert s == init + [last];
  }

  lemma SortedPrefix(s: seq<Interval>)
    requires SortedByLo(s) && |s| > 0
    ensures SortedByLo(s[..|s| - 1])
    ensures |s| > 1 ==> s[|s| - 2].lo <= s[|s| - 1].lo
  {
    var init := s[..|s| - 1];
    forall i, j | 0 <= i < j < |init| ensures init[i].lo <= init[j].lo {
      assert init[i] == s[i] && init[j] == s[j];
    }
  }

  lemma InsertAtEnd(t: seq<Interval>, x: Interval)
    requires |t| > 0 ==> t[|t| - 1].lo <= x.lo
    ensures InsertByLo(t, x) == t + [x]
  {
  }

  lemma {:induction false} SweepFixed(acc: seq<Interval>, rest: seq<Interval>)
    requires |acc| > 0 && Canonical(acc + rest)
    ensures Sweep(acc, rest) == acc + rest
    decreases |rest|
  {
    if |rest| > 0 {
      var r := acc + rest;
      assert r[|acc| - 1] == acc[|acc| - 1] && r[|acc|] == rest[0];
      assert r[|acc| - 1] in r;
      assert !Touches(acc[|acc| - 1], rest[0]);
      assert acc + [rest[0]] + rest[1..] == r;
      SweepFixed(acc + [rest[0]], rest[1..]);
    }
  }

  /** Normalizing twice is normalizing once. */
  lemma NormalizeIdempotent(s: IntervalSet)
    requires s.Defined? && WellFormed(s.ivs)
    ensures Normalize(Normalize(s)) == Normalize(s)
  {
    NormalizeCorrect(s, 0);
    NormalizeFixesCanonical(Normalize(s));
  }
}
