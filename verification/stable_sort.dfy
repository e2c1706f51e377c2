/** `list.sort(key=...)` / `sorted(..., key=...)` on a string key, over
    entries that carry their key as first component. Python's sort is
    stable: entries with equal keys keep their order. */
module StableSort {
  import opened Text

  type Entry<T> = (string, T)

  predicate SortedByKey<T>(s: seq<Entry<T>>)
  {
    forall i, j :: 0 <= i < j < |s| ==> LexLe(s[i].0, s[j].0)
  }

  /** The entries of `s` whose key is `k`, in order. */
  function WithKey<T>(s: seq<Entry<T>>, k: string): seq<Entry<T>>
  {
    if |s| == 0 then []
    else WithKey(s[..|s| - 1], k) + (if s[|s| - 1].0 == k then [s[|s| - 1]] else [])
  }

  lemma {:induction false} WithKeyConcat<T>(a: seq<Entry<T>>, b: seq<Entry<T>>, k: string)
    ensures WithKey(a + b, k) == WithKey(a, k) + WithKey(b, k)
    decreases |b|
  {
    if |b| == 0 {
      assert a + b == a;
    } else {
      assert (a + b)[..|a + b| - 1] == a + b[..|b| - 1];
      WithKeyConcat(a, b[..|b| - 1], k);
    }
  }

  /** Insert `x` after every entry whose key is not greater than its own. */
  function Insert<T>(t: seq<Entry<T>>, x: Entry<T>): (r: seq<Entry<T>>)
    ensures |r| == |t| + 1
    ensures forall i :: 0 <= i < |r| ==> r[i] == x || r[i] in t
    decreases |t|
  {
    if |t| == 0 then [x]
    else if LexLe(t[|t| - 1].0, x.0) then t + [x]
    else Insert(t[..|t| - 1], x) + [t[|t| - 1]]
  }

  lemma {:induction false} InsertSorted<T>(t: seq<Entry<T>>, x: Entry<T>)
    requires SortedByKey(t)
    ensures SortedByKey(Insert(t, x))
    decreases |t|
  {
    if |t| > 0 {
      var y := t[|t| - 1];
      var t' := t[..|t| - 1];
      if LexLe(y.0, x.0) {
        forall i | 0 <= i < |t| ensures LexLe(t[i].0, x.0) {
          if i < |t| - 1 { LexLeTransitive(t[i].0, y.0, x.0); }
        }
      } else {
        InsertSorted(t', x);
        var r' := Insert(t', x);
        LexLeTotal(y.0, x.0);
        forall i | 0 <= i < |r'| ensures LexLe(r'[i].0, y.0) {
          if r'[i] != x {
            var j :| 0 <= j < |t'| && t'[j] == r'[i];
            assert t[j] == t'[j];
          }
        }
      }
    }
  }

  lemma {:induction false} InsertMultiset<T>(t: seq<Entry<T>>, x: Entry<T>)
    ensures multiset(Insert(t, x)) == multiset(t) + multiset{x}
    decreases |t|
  {
    if |t| > 0 && !LexLe(t[|t| - 1].0, x.0) {
      var t' := t[..|t| - 1];
      assert t == t' + [t[|t| - 1]];
      InsertMultiset(t', x);
    }
  }

  lemma {:induction false} InsertStable<T>(t: seq<Entry<T>>, x: Entry<T>, k: string)
    ensures WithKey(Insert(t, x), k) == WithKey(t, k) + WithKey([x], k)
    decreases |t|
  {
    if |t| == 0 {
      assert [x][..0] == [];
    } else {
      var y := t[|t| - 1];
      var t' := t[..|t| - 1];
      assert t == t' + [y];
      if LexLe(y.0, x.0) {
        WithKeyConcat(t, [x], k);
      } else {
        InsertStable(t', x, k);
        WithKeyConcat(Insert(t', x), [y], k);
        WithKeyConcat(t', [y], k);
        if y.0 == x.0 { LexLeReflexive(x.0); }
        assert [y][..0] == [] && [x][..0] == [];
      }
    }
  }

  /** Insertion sort: the stable sort by key. */
  function SortByKey<T>(s: seq<Entry<T>>): (r: seq<Entry<T>>)
    ensures |r| == |s|
  {
    if |s| == 0 then [] else Insert(SortByKey(s[..|s| - 1]), s[|s| - 1])
  }

  /** The result is ordered by key and is a permutation of the input. */
  lemma SortByKeyCorrect<T>(s: seq<Entry<T>>)
    ensures SortedByKey(SortByKey(s))
    ensures multiset(SortByKey(s)) == multiset(s)
  {
    SortByKeySorted(s);
    SortByKeyPermutes(s);
  }

  lemma {:induction false} SortByKeySorted<T>(s: seq<Entry<T>>)
    ensures SortedByKey(SortByKey(s))
  {
    if |s| > 0 {
      var p := s[..|s| - 1];
      SortByKeySorted(p);
      InsertSorted(SortByKey(p), s[|s| - 1]);
    }
  }

  lemma {:induction false} SortByKeyPermutes<T>(s: seq<Entry<T>>)
    ensures multiset(SortByKey(s)) == multiset(s)
  {
    if |s| > 0 {
      var p, x := s[..|s| - 1], s[|s| - 1];
      SortByKeyPermutes(p);
      InsertMultiset(SortByKey(p), x);
      assert s == p + [x];
    }
  }

  /** Stability: for each key, the entries carrying it appear in the result
      in the order they had in the input. */
  lemma {:induction false} SortByKeyStable<T>(s: seq<Entry<T>>, k: string)
    ensures WithKey(SortByKey(s), k) == WithKey(s, k)
  {
    if |s| > 0 {
      var p, x := s[..|s| - 1], s[|s| - 1];
      assert s == p + [x];
      calc {
        WithKey(SortByKey(s), k);
        WithKey(Insert(SortByKey(p), x), k);
        { InsertStable(SortByKey(p), x, k); }
        WithKey(SortByKey(p), k) + WithKey([x], k);
        { SortByKeyStable(p, k); }
        WithKey(p, k) + WithKey([x], k);
        { WithKeyConcat(p, [x], k); }
        WithKey(s, k);
      }
    }
  }
}
