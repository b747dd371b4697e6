/**
 * The display order `sortedData` (src/components/DataTable.tsx, lines 31-50).
 * `Array.prototype.sort` is required to be stable (ECMA-262, section
 * 23.1.3.30); it is modelled here by a stable insertion sort, and
 * `SortRowsIsTheStableSort` shows that, in a column of one kind, every
 * stable, sorted arrangement of the rows is this one, so there the choice of
 * algorithm is not observable.
 */
module Ordering {
  import opened Wrappers
  import opened Seqs
  import opened Comparator

  /** Inserts `x` in front of the first row of `s` that must come strictly after it. */
  function Insert<T>(s: seq<T>, x: T, key: T -> Option<Value>, dir: Dir): (r: seq<T>)
  {
    if s == [] then [x]
    else if CompareValues(key(x), key(s[0]), dir) < 0 then [x] + s
    else [s[0]] + Insert(s[1..], x, key, dir)
  }

  /** Sorts `s` by the comparator, each row inserted in input order. */
  function SortRows<T>(s: seq<T>, key: T -> Option<Value>, dir: Dir): (r: seq<T>)
    decreases |s|
  {
    if s == [] then [] else Insert(SortRows(s[..|s| - 1], key, dir), s[|s| - 1], key, dir)
  }

  /** The key of a column: the row's value of field `f`, or `None` when it is null or absent. */
  function ColumnKey<T>(cell: (T, Field) -> Option<Value>, f: Field): (key: T -> Option<Value>)
  {
    (x: T) => cell(x, f)
  }

  /** `if (!sortKey)`: no key, and the empty field name, which is falsy, both leave the rows alone. */
  predicate SortActive(sortKey: Option<Field>)
  {
    sortKey.Some? && sortKey.value != ""
  }

  /** `sortedData`: the input itself when no key is active, otherwise a sorted copy. */
  function SortedData<T>(data: seq<T>, cell: (T, Field) -> Option<Value>, sortKey: Option<Field>, dir: Dir): (r: seq<T>)
  {
    if !SortActive(sortKey) then data else SortRows(data, ColumnKey(cell, sortKey.value), dir)
  }

  // ---------------------------------------------------------------------------
  // What the order promises

  /** Every row with an absent value comes after every row with a present one. */
  ghost predicate NullsLast<T>(r: seq<T>, key: T -> Option<Value>)
  {
    forall i, j :: 0 <= i < j < |r| && key(r[i]).None? ==> key(r[j]).None?
  }

  /** No two rows are out of order under the comparator. */
  ghost predicate SortedBy<T>(r: seq<T>, key: T -> Option<Value>, dir: Dir)
  {
    forall i, j :: 0 <= i < j < |r| ==> CompareValues(key(r[i]), key(r[j]), dir) <= 0
  }

  /** Every present value of the column is of kind `k`. */
  ghost predicate Uniform<T>(s: seq<T>, key: T -> Option<Value>, k: Kind)
  {
    forall i :: 0 <= i < |s| ==> OfKind(key(s[i]), k)
  }

  function KeyIs<T>(key: T -> Option<Value>, v: Option<Value>): (p: T -> bool)
  {
    (x: T) => key(x) == v
  }

  /** For every key value, the rows holding it appear in `r` in the order they have in `s`. */
  ghost predicate StableFor<T>(r: seq<T>, s: seq<T>, key: T -> Option<Value>)
  {
    forall v :: Filter(r, KeyIs(key, v)) == Filter(s, KeyIs(key, v))
  }

  // ---------------------------------------------------------------------------
  // Insertion

  lemma InMultiset<T>(y: T, r: seq<T>, s: seq<T>)
    requires multiset(r) == multiset(s)
    requires y in r
    ensures y in s
  {
    assert y in multiset(r);
  }

  lemma {:induction false} InsertPermutation<T>(s: seq<T>, x: T, key: T -> Option<Value>, dir: Dir)
    ensures multiset(Insert(s, x, key, dir)) == multiset(s) + multiset{x}
  {
    if s != [] && CompareValues(key(x), key(s[0]), dir) >= 0 {
      InsertPermutation(s[1..], x, key, dir);
      assert s == [s[0]] + s[1..];
    }
  }

  lemma {:induction false} InsertNullsLast<T>(s: seq<T>, x: T, key: T -> Option<Value>, dir: Dir)
    requires NullsLast(s, key)
    ensures NullsLast(Insert(s, x, key, dir), key)
  {
    if s != [] && CompareValues(key(x), key(s[0]), dir) >= 0 {
      var t := Insert(s[1..], x, key, dir);
      InsertNullsLast(s[1..], x, key, dir);
      InsertPermutation(s[1..], x, key, dir);
      var r := [s[0]] + t;
      assert Insert(s, x, key, dir) == r;
      if key(s[0]).None? {
        assert key(x).None?;
        forall j | 0 <= j < |t| ensures key(t[j]).None? {
          assert t[j] in multiset(s[1..]) + multiset{x};
          if t[j] != x {
            assert t[j] in s[1..];
          }
        }
      }
    }
  }

  lemma InsertSortedFront<T>(s: seq<T>, x: T, key: T -> Option<Value>, dir: Dir, k: Kind)
    requires SortedBy(s, key, dir) && Uniform(s, key, k) && OfKind(key(x), k)
    requires s != [] && CompareValues(key(x), key(s[0]), dir) < 0
    ensures SortedBy([x] + s, key, dir)
  {
    var r := [x] + s;
    forall j | 1 <= j < |r| ensures CompareValues(key(x), key(r[j]), dir) <= 0 {
      if j > 1 {
        CompareTrans(key(x), key(s[0]), key(s[j - 1]), dir, k);
      }
    }
  }

  /** Putting `h` in front of a sorted `t` keeps it sorted when `h` may precede every row of `t`. */
  lemma SortedCons<T>(h: T, t: seq<T>, key: T -> Option<Value>, dir: Dir)
    requires SortedBy(t, key, dir)
    requires forall j :: 0 <= j < |t| ==> CompareValues(key(h), key(t[j]), dir) <= 0
    ensures SortedBy([h] + t, key, dir)
  {
  }

  lemma {:induction false} InsertSorted<T>(s: seq<T>, x: T, key: T -> Option<Value>, dir: Dir, k: Kind)
    requires SortedBy(s, key, dir) && Uniform(s, key, k) && OfKind(key(x), k)
    ensures SortedBy(Insert(s, x, key, dir), key, dir)
  {
    if s == [] {
    } else if CompareValues(key(x), key(s[0]), dir) < 0 {
      InsertSortedFront(s, x, key, dir, k);
    } else {
      CompareAntisym(key(x), key(s[0]), dir);
      var t := Insert(s[1..], x, key, dir);
      assert Insert(s, x, key, dir) == [s[0]] + t;
      InsertSorted(s[1..], x, key, dir, k);
      InsertPermutation(s[1..], x, key, dir);
      forall j | 0 <= j < |t| ensures CompareValues(key(s[0]), key(t[j]), dir) <= 0 {
        assert t[j] in multiset(s[1..]) + multiset{x};
        if t[j] != x {
          assert t[j] in s[1..];
        }
      }
      SortedCons(s[0], t, key, dir);
    }
  }

  /** A row inserted at the front shares its key with no row of `s`. */
  lemma InsertFrontFresh<T>(s: seq<T>, x: T, key: T -> Option<Value>, dir: Dir, k: Kind)
    requires SortedBy(s, key, dir) && Uniform(s, key, k) && OfKind(key(x), k)
    requires s != [] && CompareValues(key(x), key(s[0]), dir) < 0
    ensures forall j :: 0 <= j < |s| ==> key(s[j]) != key(x)
  {
    forall j | 0 <= j < |s| ensures key(s[j]) != key(x) {
      if key(s[j]) == key(x) {
        CompareReflexive(key(x), dir);
        if j > 0 {
          CompareTrans(key(s[0]), key(s[j]), key(x), dir, k);
        }
        CompareAntisym(key(x), key(s[0]), dir);
      }
    }
  }

  lemma InsertStableFront<T>(s: seq<T>, x: T, key: T -> Option<Value>, dir: Dir, k: Kind, v: Option<Value>)
    requires SortedBy(s, key, dir) && Uniform(s, key, k) && OfKind(key(x), k)
    requires s != [] && CompareValues(key(x), key(s[0]), dir) < 0
    ensures Filter(Insert(s, x, key, dir), KeyIs(key, v)) == Filter(s, KeyIs(key, v)) + Filter([x], KeyIs(key, v))
  {
    var p := KeyIs(key, v);
    assert Insert(s, x, key, dir) == [x] + s;
    FilterCons(x, s, p);
    FilterCons(x, [], p);
    assert [x] + [] == [x];
    if key(x) == v {
      InsertFrontFresh(s, x, key, dir, k);
      FilterNone(s, p);
    } else {
      assert Filter([x], p) == [];
    }
  }

  lemma {:induction false} InsertStable<T>(s: seq<T>, x: T, key: T -> Option<Value>, dir: Dir, k: Kind, v: Option<Value>)
    requires SortedBy(s, key, dir) && Uniform(s, key, k) && OfKind(key(x), k)
    ensures Filter(Insert(s, x, key, dir), KeyIs(key, v)) == Filter(s, KeyIs(key, v)) + Filter([x], KeyIs(key, v))
  {
    var p := KeyIs(key, v);
    if s == [] {
      assert Insert(s, x, key, dir) == [x];
    } else if CompareValues(key(x), key(s[0]), dir) < 0 {
      InsertStableFront(s, x, key, dir, k, v);
    } else {
      var t := Insert(s[1..], x, key, dir);
      var h := if p(s[0]) then [s[0]] else [];
      assert Insert(s, x, key, dir) == [s[0]] + t;
      InsertStable(s[1..], x, key, dir, k, v);
      FilterCons(s[0], t, p);
      FilterCons(s[0], s[1..], p);
      assert s == [s[0]] + s[1..];
      calc {
        Filter(Insert(s, x, key, dir), p);
        h + Filter(t, p);
        h + (Filter(s[1..], p) + Filter([x], p));
        { ConcatAssoc(h, Filter(s[1..], p), Filter([x], p)); }
        (h + Filter(s[1..], p)) + Filter([x], p);
        Filter(s, p) + Filter([x], p);
      }
    }
  }

  // ---------------------------------------------------------------------------
  // The sort

  /** The output has exactly the rows of the input, each as often. */
  lemma {:induction false} SortPermutation<T>(s: seq<T>, key: T -> Option<Value>, dir: Dir)
    ensures multiset(SortRows(s, key, dir)) == multiset(s)
    ensures |SortRows(s, key, dir)| == |s|
    decreases |s|
  {
    if s != [] {
      var init, last := s[..|s| - 1], s[|s| - 1];
      SortPermutation(init, key, dir);
      InsertPermutation(SortRows(init, key, dir), last, key, dir);
      assert s == init + [last];
    }
    assert |multiset(SortRows(s, key, dir))| == |multiset(s)|;
  }

  /** Rows with an absent value come last, in either direction, whatever the column holds. */
  lemma {:induction false} SortNullsLast<T>(s: seq<T>, key: T -> Option<Value>, dir: Dir)
    ensures NullsLast(SortRows(s, key, dir), key)
    decreases |s|
  {
    if s != [] {
      SortNullsLast(s[..|s| - 1], key, dir);
      InsertNullsLast(SortRows(s[..|s| - 1], key, dir), s[|s| - 1], key, dir);
    }
  }

  lemma UniformPermutation<T>(r: seq<T>, s: seq<T>, key: T -> Option<Value>, k: Kind)
    requires multiset(r) == multiset(s) && Uniform(s, key, k)
    ensures Uniform(r, key, k)
  {
    forall i | 0 <= i < |r| ensures OfKind(key(r[i]), k) {
      InMultiset(r[i], r, s);
    }
  }

  /** In a column of one kind the output is in comparator order. */
  lemma {:induction false} SortSorted<T>(s: seq<T>, key: T -> Option<Value>, dir: Dir, k: Kind)
    requires Uniform(s, key, k)
    ensures SortedBy(SortRows(s, key, dir), key, dir)
    decreases |s|
  {
    if s != [] {
      var init := s[..|s| - 1];
      SortSorted(init, key, dir, k);
      SortPermutation(init, key, dir);
      UniformPermutation(SortRows(init, key, dir), init, key, k);
      InsertSorted(SortRows(init, key, dir), s[|s| - 1], key, dir, k);
    }
  }

  /**
   * In a column of one kind: ascending, present values never decrease;
   * descending, they never increase; absent values come last either way.
   */
  lemma SortOrdered<T>(s: seq<T>, key: T -> Option<Value>, dir: Dir, k: Kind)
    requires Uniform(s, key, k)
    ensures var r := SortRows(s, key, dir);
      forall i, j :: 0 <= i < j < |r| ==> Before(key(r[i]), key(r[j]), dir)
  {
    var r := SortRows(s, key, dir);
    SortSorted(s, key, dir, k);
    forall i, j | 0 <= i < j < |r| ensures Before(key(r[i]), key(r[j]), dir) {
      CompareMeaning(key(r[i]), key(r[j]), dir);
    }
  }

  /** The last input row is inserted into the sorted rest. */
  lemma SortRowsLast<T>(s: seq<T>, key: T -> Option<Value>, dir: Dir)
    requires s != []
    ensures SortRows(s, key, dir) == Insert(SortRows(s[..|s| - 1], key, dir), s[|s| - 1], key, dir)
    ensures s == s[..|s| - 1] + [s[|s| - 1]]
  {
    SplitLast(s);
  }

  /** In a column of one kind, rows with equal keys keep their input order. */
  lemma {:induction false} SortStable<T>(s: seq<T>, key: T -> Option<Value>, dir: Dir, k: Kind, v: Option<Value>)
    requires Uniform(s, key, k)
    ensures Filter(SortRows(s, key, dir), KeyIs(key, v)) == Filter(s, KeyIs(key, v))
    decreases |s|
  {
    if s != [] {
      var init, last := s[..|s| - 1], s[|s| - 1];
      var p := KeyIs(key, v);
      var sortedInit := SortRows(init, key, dir);
      SortRowsLast(s, key, dir);
      SortStable(init, key, dir, k, v);
      SortSorted(init, key, dir, k);
      SortPermutation(init, key, dir);
      UniformPermutation(sortedInit, init, key, k);
      InsertStable(sortedInit, last, key, dir, k, v);
      FilterConcat(init, [last], p);
    }
  }

  /** The first row of `r` heads the rows of `r` that share its key. */
  lemma FilterHead<T>(r: seq<T>, key: T -> Option<Value>, w: Option<Value>)
    requires r != []
    ensures Filter(r, KeyIs(key, w)) == (if key(r[0]) == w then [r[0]] else []) + Filter(r[1..], KeyIs(key, w))
  {
  }

  /** A row of `t` occurs in `r` when both hold the same rows for its key. */
  lemma SharedRow<T>(r: seq<T>, t: seq<T>, key: T -> Option<Value>, i: nat)
    requires i < |t|
    requires Filter(r, KeyIs(key, key(t[i]))) == Filter(t, KeyIs(key, key(t[i])))
    ensures t[i] in r
  {
    FilterMembers(r, KeyIs(key, key(t[i])));
    FilterMembers(t, KeyIs(key, key(t[i])));
    var f := Filter(t, KeyIs(key, key(t[i])));
    var m :| 0 <= m < |f| && f[m] == t[i];
  }

  /** When both sorted sequences are non-empty and agree on every key, their first rows have equal keys. */
  lemma HeadsSameKey<T>(r: seq<T>, t: seq<T>, key: T -> Option<Value>, dir: Dir, k: Kind)
    requires r != [] && t != []
    requires Uniform(r, key, k) && Uniform(t, key, k)
    requires SortedBy(r, key, dir) && SortedBy(t, key, dir)
    requires StableFor(r, t, key)
    ensures key(r[0]) == key(t[0])
  {
    var a, b := r[0], t[0];
    SharedRow(r, t, key, 0);
    SharedRow(t, r, key, 0);
    var j :| 0 <= j < |r| && r[j] == b;
    var i :| 0 <= i < |t| && t[i] == a;
    CompareReflexive(key(a), dir);
    CompareReflexive(key(b), dir);
    assert CompareValues(key(a), key(b), dir) <= 0;
    assert CompareValues(key(b), key(a), dir) <= 0;
    CompareAntisym(key(a), key(b), dir);
    CompareZeroIffSame(key(a), key(b), dir, k);
  }

  lemma EmptyAgrees<T>(r: seq<T>, t: seq<T>, key: T -> Option<Value>)
    requires StableFor(r, t, key)
    ensures r == [] <==> t == []
  {
    if r == [] && t != [] {
      SharedRow(r, t, key, 0);
    } else if r != [] && t == [] {
      SharedRow(t, r, key, 0);
    }
  }

  /** Two sorted arrangements of one kind that agree on the order within every key are the same. */
  lemma {:induction false} SortedAndStableDetermine<T>(r: seq<T>, t: seq<T>, key: T -> Option<Value>, dir: Dir, k: Kind)
    requires Uniform(r, key, k) && Uniform(t, key, k)
    requires SortedBy(r, key, dir) && SortedBy(t, key, dir)
    requires StableFor(r, t, key)
    ensures r == t
    decreases |r|
  {
    EmptyAgrees(r, t, key);
    if r != [] {
      HeadsSameKey(r, t, key, dir, k);
      var v := key(r[0]);
      FilterHead(r, key, v);
      FilterHead(t, key, v);
      assert Filter(r, KeyIs(key, v)) == Filter(t, KeyIs(key, v));
      assert r[0] == Filter(r, KeyIs(key, v))[0] == t[0];
      forall w ensures Filter(r[1..], KeyIs(key, w)) == Filter(t[1..], KeyIs(key, w)) {
        FilterHead(r, key, w);
        FilterHead(t, key, w);
        assert Filter(r, KeyIs(key, w)) == Filter(t, KeyIs(key, w));
        var h := if key(r[0]) == w then [r[0]] else [];
        CancelPrefix(h, Filter(r[1..], KeyIs(key, w)), Filter(t[1..], KeyIs(key, w)));
      }
      SortedAndStableDetermine(r[1..], t[1..], key, dir, k);
      assert r == [r[0]] + r[1..] && t == [t[0]] + t[1..];
    }
  }

  /**
   * Any arrangement of the rows that is in comparator order and keeps rows
   * with equal keys in input order is the one `SortRows` computes.
   */
  lemma SortRowsIsTheStableSort<T>(s: seq<T>, r: seq<T>, key: T -> Option<Value>, dir: Dir, k: Kind)
    requires Uniform(s, key, k)
    requires SortedBy(r, key, dir) && StableFor(r, s, key)
    ensures r == SortRows(s, key, dir)
  {
    var t := SortRows(s, key, dir);
    SortSorted(s, key, dir, k);
    SortPermutation(s, key, dir);
    UniformPermutation(t, s, key, k);
    forall v ensures Filter(r, KeyIs(key, v)) == Filter(t, KeyIs(key, v)) {
      SortStable(s, key, dir, k, v);
    }
    forall i | 0 <= i < |r| ensures OfKind(key(r[i]), k) {
      SharedRow(s, r, key, i);
    }
    SortedAndStableDetermine(r, t, key, dir, k);
  }
}
