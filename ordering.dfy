/**
 * The orderings the portfolio engine relies on: Python's comparison of
 * strings, the stable sort behind `sorted(...)` and `list.sort(...)`, and
 * the first-occurrence de-duplication that a Python `dict` or `set` of keys
 * performs.
 */
module Ordering {

  // ---------------------------------------------------------------------
  // Python's order on `str`: code point by code point, a proper prefix first
  // ---------------------------------------------------------------------

  predicate StrLess(a: string, b: string)
    ensures StrLess(a, b) ==> a != b
    ensures |a| < |b| && a == b[..|a|] ==> StrLess(a, b)
    decreases |a|
  {
    if |a| == 0 then |b| > 0
    else if |b| == 0 then false
    else if a[0] != b[0] then a[0] < b[0]
    else StrLess(a[1..], b[1..])
  }

  lemma {:induction false} StrLessIrreflexive(a: string)
    ensures !StrLess(a, a)
    decreases |a|
  {
    if |a| > 0 {
      StrLessIrreflexive(a[1..]);
    }
  }

  lemma {:induction false} StrLessTransitive(a: string, b: string, c: string)
    requires StrLess(a, b) && StrLess(b, c)
    ensures StrLess(a, c)
    decreases |a|
  {
    if |a| > 0 && a[0] == b[0] && b[0] == c[0] {
      StrLessTransitive(a[1..], b[1..], c[1..]);
    }
  }

  lemma {:induction false} StrLessTotal(a: string, b: string)
    ensures a == b || StrLess(a, b) || StrLess(b, a)
    decreases |a|
  {
    if |a| > 0 && |b| > 0 && a[0] == b[0] {
      StrLessTotal(a[1..], b[1..]);
      if a[1..] == b[1..] {
        assert a == [a[0]] + a[1..] && b == [b[0]] + b[1..];
      }
    }
  }

  // ---------------------------------------------------------------------
  // Strict total orders on sort keys
  // ---------------------------------------------------------------------

  ghost predicate Irreflexive<K(!new)>(lt: (K, K) -> bool)
  {
    forall a :: !lt(a, a)
  }

  /** `lt` is irreflexive, transitive and relates any two distinct keys. */
  ghost predicate StrictTotalOrder<K(!new)>(lt: (K, K) -> bool)
  {
    && Irreflexive(lt)
    && (forall a, b, c :: lt(a, b) && lt(b, c) ==> lt(a, c))
    && (forall a, b :: a == b || lt(a, b) || lt(b, a))
  }

  lemma StrLessIsStrictTotal()
    ensures StrictTotalOrder(StrLess)
  {
    forall a: string
      ensures !StrLess(a, a)
    {
      StrLessIrreflexive(a);
    }
    forall a: string, b: string, c: string | StrLess(a, b) && StrLess(b, c)
      ensures StrLess(a, c)
    {
      StrLessTransitive(a, b, c);
    }
    forall a: string, b: string
      ensures a == b || StrLess(a, b) || StrLess(b, a)
    {
      StrLessTotal(a, b);
    }
  }

  // ---------------------------------------------------------------------
  // Sortedness, key classes and the stable sort
  // ---------------------------------------------------------------------

  /** No element's key comes strictly before the key of an element ahead of it. */
  ghost predicate SortedBy<T(!new), K>(s: seq<T>, key: T -> K, lt: (K, K) -> bool)
  {
    forall i, j :: 0 <= i < j < |s| ==> !lt(key(s[j]), key(s[i]))
  }

  /** The elements of `s` whose key is `k`, in their order in `s`. */
  ghost function Filter<T(!new), K>(s: seq<T>, key: T -> K, k: K): seq<T>
  {
    if |s| == 0 then []
    else (if key(s[0]) == k then [s[0]] else []) + Filter(s[1..], key, k)
  }

  /** A key class holds exactly the elements of `s` with that key. */
  lemma {:induction false} FilterMembers<T(!new), K>(s: seq<T>, key: T -> K, k: K)
    ensures forall x :: x in Filter(s, key, k) <==> x in s && key(x) == k
  {
    if |s| > 0 {
      FilterMembers(s[1..], key, k);
      assert s == [s[0]] + s[1..];
    }
  }

  lemma {:induction false} FilterAppend<T(!new), K>(a: seq<T>, b: seq<T>, key: T -> K, k: K)
    ensures Filter(a + b, key, k) == Filter(a, key, k) + Filter(b, key, k)
  {
    if |a| == 0 {
      assert a + b == b;
    } else {
      var h := if key(a[0]) == k then [a[0]] else [];
      var fa, fb := Filter(a[1..], key, k), Filter(b, key, k);
      assert (a + b)[0] == a[0] && (a + b)[1..] == a[1..] + b;
      assert Filter(a + b, key, k) == h + Filter(a[1..] + b, key, k);
      FilterAppend(a[1..], b, key, k);
      assert Filter(a, key, k) == h + fa;
      assert h + (fa + fb) == (h + fa) + fb;
    }
  }

  /** Inserts `x` into `r` in front of the first element whose key comes strictly after `x`'s. */
  function Insert<T(!new), K>(r: seq<T>, x: T, key: T -> K, lt: (K, K) -> bool): (q: seq<T>)
    ensures |q| == |r| + 1
    ensures multiset(q) == multiset(r) + multiset{x}
  {
    if |r| == 0 then [x]
    else if lt(key(x), key(r[0])) then [x] + r
    else
      assert r == [r[0]] + r[1..];
      [r[0]] + Insert(r[1..], x, key, lt)
  }

  lemma {:induction false} InsertKeepsSorted<T(!new), K(!new)>(r: seq<T>, x: T, key: T -> K, lt: (K, K) -> bool)
    requires StrictTotalOrder(lt)
    requires SortedBy(r, key, lt)
    ensures SortedBy(Insert(r, x, key, lt), key, lt)
  {
    if |r| == 0 {
    } else if lt(key(x), key(r[0])) {
      var q := [x] + r;
      forall i, j | 0 <= i < j < |q|
        ensures !lt(key(q[j]), key(q[i]))
      {
        if i == 0 && j > 1 {
          assert q[j] == r[j - 1];
          assert !lt(key(r[j - 1]), key(r[0]));
        }
      }
    } else {
      var tail := Insert(r[1..], x, key, lt);
      InsertKeepsSorted(r[1..], x, key, lt);
      forall m | 0 <= m < |tail|
        ensures !lt(key(tail[m]), key(r[0]))
      {
        assert tail[m] in multiset(tail);
        if tail[m] != x {
          assert tail[m] in multiset(r[1..]);
          var n :| 0 <= n < |r[1..]| && r[1..][n] == tail[m];
          assert r[n + 1] == tail[m];
        }
      }
    }
  }

  /** No element of a sorted sequence shares the key of an element ordered before its first one. */
  lemma KeyBeforeFirstIsNew<T(!new), K(!new)>(r: seq<T>, x: T, key: T -> K, lt: (K, K) -> bool)
    requires Irreflexive(lt)
    requires SortedBy(r, key, lt)
    requires |r| > 0 && lt(key(x), key(r[0]))
    ensures forall j :: 0 <= j < |r| ==> key(r[j]) != key(x)
  {
    forall j | 0 < j < |r|
      ensures key(r[j]) != key(x)
    {
      assert !lt(key(r[j]), key(r[0]));
    }
  }

  lemma {:induction false} FilterOfOtherKeys<T(!new), K>(r: seq<T>, key: T -> K, k: K)
    requires forall j :: 0 <= j < |r| ==> key(r[j]) != k
    ensures Filter(r, key, k) == []
  {
    if |r| > 0 {
      FilterOfOtherKeys(r[1..], key, k);
    }
  }

  lemma InsertInFrontIsStable<T(!new), K(!new)>(r: seq<T>, x: T, key: T -> K, lt: (K, K) -> bool, k: K)
    requires Irreflexive(lt)
    requires SortedBy(r, key, lt)
    requires |r| > 0 && lt(key(x), key(r[0]))
    ensures Filter([x] + r, key, k) == Filter(r, key, k) + Filter([x], key, k)
  {
    FilterAppend([x], r, key, k);
    if key(x) == k {
      KeyBeforeFirstIsNew(r, x, key, lt);
      FilterOfOtherKeys(r, key, k);
    } else {
      assert [x][1..] == [];
      assert Filter([x], key, k) == [];
    }
  }

  /** Inserting `x` into a sorted sequence puts it after every element with the same key. */
  lemma {:induction false} InsertIsStable<T(!new), K(!new)>(r: seq<T>, x: T, key: T -> K, lt: (K, K) -> bool, k: K)
    requires Irreflexive(lt)
    requires SortedBy(r, key, lt)
    ensures Filter(Insert(r, x, key, lt), key, k) == Filter(r, key, k) + Filter([x], key, k)
  {
    if |r| == 0 {
      assert [x][1..] == [];
    } else if lt(key(x), key(r[0])) {
      InsertInFrontIsStable(r, x, key, lt, k);
    } else {
      var tail := Insert(r[1..], x, key, lt);
      assert Insert(r, x, key, lt) == [r[0]] + tail;
      assert Filter(tail, key, k) == Filter(r[1..], key, k) + Filter([x], key, k) by {
        assert SortedBy(r[1..], key, lt) by {
          forall i, j | 0 <= i < j < |r[1..]|
            ensures !lt(key(r[1..][j]), key(r[1..][i]))
          {
            assert r[1..][i] == r[i + 1] && r[1..][j] == r[j + 1];
          }
        }
        InsertIsStable(r[1..], x, key, lt, k);
      }
      assert Filter([r[0]] + tail, key, k) == Filter([r[0]], key, k) + Filter(tail, key, k) by {
        FilterAppend([r[0]], tail, key, k);
      }
      assert Filter(r, key, k) == Filter([r[0]], key, k) + Filter(r[1..], key, k) by {
        assert [r[0]] + r[1..] == r;
        FilterAppend([r[0]], r[1..], key, k);
      }
    }
  }

  lemma InsertIsStableForAllKeys<T(!new), K(!new)>(r: seq<T>, x: T, key: T -> K, lt: (K, K) -> bool)
    requires Irreflexive(lt)
    requires SortedBy(r, key, lt)
    ensures forall k :: Filter(Insert(r, x, key, lt), key, k) == Filter(r, key, k) + Filter([x], key, k)
  {
    forall k
      ensures Filter(Insert(r, x, key, lt), key, k) == Filter(r, key, k) + Filter([x], key, k)
    {
      InsertIsStable(r, x, key, lt, k);
    }
  }

  lemma FilterSnoc<T(!new), K>(s: seq<T>, key: T -> K)
    requires |s| > 0
    ensures forall k :: Filter(s, key, k) == Filter(s[..|s| - 1], key, k) + Filter([s[|s| - 1]], key, k)
  {
    assert s == s[..|s| - 1] + [s[|s| - 1]];
    forall k
      ensures Filter(s, key, k) == Filter(s[..|s| - 1], key, k) + Filter([s[|s| - 1]], key, k)
    {
      FilterAppend(s[..|s| - 1], [s[|s| - 1]], key, k);
    }
  }

  /**
   * A stable sort by `key` under `lt`, as Python's `sorted` and `list.sort`:
   * the result is ordered, is a permutation of `s`, and elements with equal
   * keys keep their relative order from `s`.
   */
  function StableSort<T(!new), K(!new)>(s: seq<T>, key: T -> K, lt: (K, K) -> bool): (r: seq<T>)
    requires StrictTotalOrder(lt)
    ensures SortedBy(r, key, lt)
    ensures multiset(r) == multiset(s)
    ensures forall k :: Filter(r, key, k) == Filter(s, key, k)
    decreases |s|
  {
    if |s| == 0 then []
    else
      var init := StableSort(s[..|s| - 1], key, lt);
      InsertLast(s, init, key, lt);
      Insert(init, s[|s| - 1], key, lt)
  }

  /** Inserting the last element of `s` into a stable sort of the others gives a stable sort of `s`. */
  lemma InsertLast<T(!new), K(!new)>(s: seq<T>, init: seq<T>, key: T -> K, lt: (K, K) -> bool)
    requires StrictTotalOrder(lt)
    requires |s| > 0
    requires SortedBy(init, key, lt)
    requires multiset(init) == multiset(s[..|s| - 1])
    requires forall k :: Filter(init, key, k) == Filter(s[..|s| - 1], key, k)
    ensures SortedBy(Insert(init, s[|s| - 1], key, lt), key, lt)
    ensures multiset(Insert(init, s[|s| - 1], key, lt)) == multiset(s)
    ensures forall k :: Filter(Insert(init, s[|s| - 1], key, lt), key, k) == Filter(s, key, k)
  {
    var x := s[|s| - 1];
    InsertKeepsSorted(init, x, key, lt);
    assert multiset(s) == multiset(s[..|s| - 1]) + multiset{x} by {
      assert s == s[..|s| - 1] + [x];
    }
    InsertIsStableForAllKeys(init, x, key, lt);
    FilterSnoc(s, key);
  }

  // ---------------------------------------------------------------------
  // Consequences used by the planner and the report
  // ---------------------------------------------------------------------

  /** A sorted sequence whose keys are pairwise distinct is strictly increasing. */
  lemma SortedDistinctIsStrict<T(!new), K(!new)>(s: seq<T>, key: T -> K, lt: (K, K) -> bool)
    requires StrictTotalOrder(lt)
    requires SortedBy(s, key, lt)
    requires forall i, j :: 0 <= i < j < |s| ==> key(s[i]) != key(s[j])
    ensures forall i, j :: 0 <= i < j < |s| ==> lt(key(s[i]), key(s[j]))
  {
  }

  /** Every element of `s` stands `before` every element after it. */
  ghost predicate ChainedBy<T(!new)>(s: seq<T>, before: (T, T) -> bool)
  {
    forall i, j :: 0 <= i < j < |s| ==> before(s[i], s[j])
  }

  /** Keeping the elements of one key class keeps any all-pairs order of `s`. */
  lemma {:induction false} FilterKeepsOrder<T(!new), K>(s: seq<T>, key: T -> K, k: K, before: (T, T) -> bool)
    requires ChainedBy(s, before)
    ensures ChainedBy(Filter(s, key, k), before)
  {
    if |s| > 0 {
      assert ChainedBy(s[1..], before) by {
        forall i, j | 0 <= i < j < |s[1..]|
          ensures before(s[1..][i], s[1..][j])
        {
          assert s[1..][i] == s[i + 1] && s[1..][j] == s[j + 1];
        }
      }
      FilterKeepsOrder(s[1..], key, k, before);
      var rest := Filter(s[1..], key, k);
      FilterMembers(s[1..], key, k);
      if key(s[0]) == k {
        var f := [s[0]] + rest;
        assert Filter(s, key, k) == f;
        forall i, j | 0 <= i < j < |f|
          ensures before(f[i], f[j])
        {
          if i == 0 {
            assert f[j] == rest[j - 1] && rest[j - 1] in rest;
            var n :| 0 <= n < |s[1..]| && s[1..][n] == f[j];
            assert s[n + 1] == f[j];
          } else {
            assert f[i] == rest[i - 1] && f[j] == rest[j - 1];
          }
        }
      } else {
        assert Filter(s, key, k) == [] + rest == rest;
      }
    }
  }

  /** Where `r[j]` stands in the key class of `r[j]`: after the members of that class in `r[..j]`. */
  lemma FilterAt<T(!new), K>(r: seq<T>, key: T -> K, j: nat)
    requires j < |r|
    ensures var k := key(r[j]); var m := |Filter(r[..j], key, k)|;
      m < |Filter(r, key, k)| && Filter(r, key, k)[m] == r[j]
  {
    var k := key(r[j]);
    assert r == r[..j] + ([r[j]] + r[j + 1..]);
    FilterAppend(r[..j], [r[j]] + r[j + 1..], key, k);
    FilterAppend([r[j]], r[j + 1..], key, k);
    assert [r[j]][1..] == [];
  }

  lemma FilterPrefixGrows<T(!new), K>(r: seq<T>, key: T -> K, i: nat, j: nat)
    requires i < j <= |r|
    ensures |Filter(r[..i], key, key(r[i]))| < |Filter(r[..j], key, key(r[i]))|
  {
    var k := key(r[i]);
    assert r[..j] == r[..i] + ([r[i]] + r[i + 1..j]);
    FilterAppend(r[..i], [r[i]] + r[i + 1..j], key, k);
    FilterAppend([r[i]], r[i + 1..j], key, k);
    assert [r[i]][1..] == [];
  }

  /**
   * Stability, stated on positions: if `r` keeps every key class of `s` in
   * order and `s` is ordered by `before`, then two elements of `r` with the
   * same key are ordered by `before` too.
   */
  lemma StableTieBreak<T(!new), K>(s: seq<T>, r: seq<T>, key: T -> K, before: (T, T) -> bool)
    requires forall k :: Filter(r, key, k) == Filter(s, key, k)
    requires ChainedBy(s, before)
    ensures forall i, j :: 0 <= i < j < |r| && key(r[i]) == key(r[j]) ==> before(r[i], r[j])
  {
    forall i, j | 0 <= i < j < |r| && key(r[i]) == key(r[j])
      ensures before(r[i], r[j])
    {
      var k := key(r[i]);
      FilterAt(r, key, i);
      FilterAt(r, key, j);
      FilterPrefixGrows(r, key, i, j);
      FilterKeepsOrder(s, key, k, before);
      assert Filter(r, key, k) == Filter(s, key, k);
      var f := Filter(r, key, k);
      assert before(f[|Filter(r[..i], key, k)|], f[|Filter(r[..j], key, k)|]);
    }
  }

  lemma {:induction false} DistinctKeysCountOnce<T(!new), K>(a: seq<T>, key: T -> K, x: T)
    requires forall i, j :: 0 <= i < j < |a| ==> key(a[i]) != key(a[j])
    ensures multiset(a)[x] <= 1
  {
    if |a| > 0 {
      DistinctKeysCountOnce(a[1..], key, x);
      assert a == [a[0]] + a[1..];
      if x == a[0] {
        assert x !in a[1..];
      }
    }
  }

  /** A permutation of a sequence whose keys are pairwise distinct has pairwise distinct keys. */
  lemma DistinctKeysPermutation<T(!new), K>(a: seq<T>, b: seq<T>, key: T -> K)
    requires multiset(a) == multiset(b)
    requires forall i, j :: 0 <= i < j < |a| ==> key(a[i]) != key(a[j])
    ensures forall i, j :: 0 <= i < j < |b| ==> key(b[i]) != key(b[j])
  {
    forall i, j | 0 <= i < j < |b|
      ensures key(b[i]) != key(b[j])
    {
      if b[i] == b[j] {
        assert b == b[..j] + [b[j]] + b[j + 1..];
        assert b[i] in b[..j];
        assert multiset(b)[b[i]] >= 2;
        DistinctKeysCountOnce(a, key, b[i]);
      } else {
        assert b[i] in multiset(a) && b[j] in multiset(a);
        var i' :| 0 <= i' < |a| && a[i'] == b[i];
        var j' :| 0 <= j' < |a| && a[j'] == b[j];
        assert i' != j';
      }
    }
  }

  // ---------------------------------------------------------------------
  // Distinct keys and sorted sets of names
  // ---------------------------------------------------------------------

  /** `f` applied to every element of `s`, in order: a list comprehension over one field. */
  function Project<T, U>(s: seq<T>, f: T -> U): (r: seq<U>)
    ensures |r| == |s|
    ensures forall i :: 0 <= i < |s| ==> r[i] == f(s[i])
  {
    if |s| == 0 then [] else Project(s[..|s| - 1], f) + [f(s[|s| - 1])]
  }

  /** The distinct elements of `s` in order of first occurrence: the key order of a Python dict. */
  function Distinct<T(==,!new)>(s: seq<T>): (d: seq<T>)
    ensures forall x :: x in d <==> x in s
    ensures forall i, j :: 0 <= i < j < |d| ==> d[i] != d[j]
  {
    if |s| == 0 then []
    else
      var d0 := Distinct(s[..|s| - 1]);
      assert forall x :: x in s <==> x in s[..|s| - 1] || x == s[|s| - 1] by {
        assert s == s[..|s| - 1] + [s[|s| - 1]];
      }
      if s[|s| - 1] in d0 then d0 else d0 + [s[|s| - 1]]
  }

  /** Python's `sorted(set(names))`: every name once, in increasing string order. */
  function SortedSet(names: seq<string>): (r: seq<string>)
    ensures forall x :: x in r <==> x in names
    ensures forall i, j :: 0 <= i < j < |r| ==> StrLess(r[i], r[j])
  {
    StrLessIsStrictTotal();
    var d := Distinct(names);
    var r := StableSort(d, s => s, StrLess);
    assert forall x :: x in r <==> x in multiset(d);
    DistinctKeysPermutation(d, r, s => s);
    SortedDistinctIsStrict(r, s => s, StrLess);
    r
  }
}
