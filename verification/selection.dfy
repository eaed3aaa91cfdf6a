/** Stable sorting by an integer key, and pandas' `nlargest(n, column)`
    with its default `keep='first'`: the `n` rows with the largest key, in
    descending key order, where among rows with equal keys those that come
    first in the input are kept first. Sorting by year (`sorted(..., key=...)`)
    and ranking rows (`nlargest`, `sort_values`) are both built on it. */
module Selection {
  import opened Common

  /** Inserts `x` after every element of the sorted `s` whose key is not
      greater than `x`'s. */
  function InsertBy<T>(x: T, s: seq<T>, key: T -> int): seq<T> {
    if s == [] || key(x) < key(s[0]) then [x] + s
    else [s[0]] + InsertBy(x, s[1..], key)
  }

  /** Stable ascending sort by `key` (insertion sort, left to right). */
  function SortBy<T>(xs: seq<T>, key: T -> int): seq<T> {
    if xs == [] then [] else InsertBy(xs[|xs| - 1], SortBy(xs[..|xs| - 1], key), key)
  }

  ghost predicate SortedBy<T>(s: seq<T>, key: T -> int) {
    forall i, j | 0 <= i < j < |s| :: key(s[i]) <= key(s[j])
  }

  /** The elements of `s` whose key is `k`, in their order in `s`. */
  function FilterKey<T>(s: seq<T>, key: T -> int, k: int): seq<T> {
    if s == [] then []
    else (if key(s[0]) == k then [s[0]] else []) + FilterKey(s[1..], key, k)
  }

  /** Sum of `f` over the elements of `s` (pandas' column `sum()`). */
  function SumBy<T>(s: seq<T>, f: T -> int): int {
    if s == [] then 0 else f(s[0]) + SumBy(s[1..], f)
  }

  function Negated<T>(key: T -> int): T -> int {
    x => -key(x)
  }

  /** `nlargest(n, key)`: the first `n` rows of the stable descending sort. */
  function Largest<T>(xs: seq<T>, n: nat, key: T -> int): seq<T> {
    Take(SortBy(xs, Negated(key)), n)
  }

  ghost predicate DistinctBy<T, K>(s: seq<T>, id: T -> K) {
    forall i, j | 0 <= i < j < |s| :: id(s[i]) != id(s[j])
  }

  // ---------------------------------------------------------------------
  // Sorting permutes

  lemma {:induction false} InsertByPermutes<T>(x: T, s: seq<T>, key: T -> int)
    ensures |InsertBy(x, s, key)| == |s| + 1
    ensures multiset(InsertBy(x, s, key)) == multiset(s) + multiset{x}
  {
    if s != [] && key(x) >= key(s[0]) {
      InsertByPermutes(x, s[1..], key);
      assert s == [s[0]] + s[1..];
    }
  }

  /** `SortBy` only rearranges its input. */
  lemma {:induction false} SortByPermutes<T>(xs: seq<T>, key: T -> int)
    ensures |SortBy(xs, key)| == |xs|
    ensures multiset(SortBy(xs, key)) == multiset(xs)
  {
    if xs != [] {
      var init, last := xs[..|xs| - 1], xs[|xs| - 1];
      SortByPermutes(init, key);
      InsertByPermutes(last, SortBy(init, key), key);
      assert xs == init + [last];
    }
  }

  lemma SortByMembers<T>(xs: seq<T>, key: T -> int)
    ensures forall y :: y in SortBy(xs, key) <==> y in xs
  {
    SortByPermutes(xs, key);
    forall y ensures y in SortBy(xs, key) <==> y in xs {
      assert y in SortBy(xs, key) <==> y in multiset(SortBy(xs, key));
      assert y in xs <==> y in multiset(xs);
    }
  }

  // ---------------------------------------------------------------------
  // Sorting sorts

  lemma {:induction false} InsertBySorted<T>(x: T, s: seq<T>, key: T -> int)
    requires SortedBy(s, key)
    ensures SortedBy(InsertBy(x, s, key), key)
  {
    if s != [] && key(x) >= key(s[0]) {
      InsertBySorted(x, s[1..], key);
      InsertByPermutes(x, s[1..], key);
      var r := InsertBy(x, s[1..], key);
      forall j | 0 <= j < |r| ensures key(s[0]) <= key(r[j]) {
        assert r[j] in multiset(r);
      }
    }
  }

  lemma {:induction false} SortBySorted<T>(xs: seq<T>, key: T -> int)
    ensures SortedBy(SortBy(xs, key), key)
  {
    if xs != [] {
      SortBySorted(xs[..|xs| - 1], key);
      InsertBySorted(xs[|xs| - 1], SortBy(xs[..|xs| - 1], key), key);
    }
  }

  // ---------------------------------------------------------------------
  // Sorting is stable

  lemma {:induction false} FilterKeyAppend<T>(a: seq<T>, b: seq<T>, key: T -> int, k: int)
    ensures FilterKey(a + b, key, k) == FilterKey(a, key, k) + FilterKey(b, key, k)
  {
    if a == [] {
      assert a + b == b;
    } else {
      FilterKeyAppend(a[1..], b, key, k);
      assert (a + b)[0] == a[0];
      assert (a + b)[1..] == a[1..] + b;
    }
  }

  lemma {:induction false} FilterKeyNone<T>(s: seq<T>, key: T -> int, k: int)
    requires forall e | e in s :: key(e) > k
    ensures FilterKey(s, key, k) == []
  {
    if s != [] {
      FilterKeyNone(s[1..], key, k);
    }
  }

  lemma {:induction false} InsertByStable<T>(x: T, s: seq<T>, key: T -> int, k: int)
    requires SortedBy(s, key)
    ensures FilterKey(InsertBy(x, s, key), key, k)
         == FilterKey(s, key, k) + (if key(x) == k then [x] else [])
  {
    var tail := if key(x) == k then [x] else [];
    if s == [] {
      assert InsertBy(x, s, key) == [x];
      assert FilterKey([x], key, k) == tail + FilterKey([], key, k);
    } else if key(x) < key(s[0]) {
      var r := [x] + s;
      assert InsertBy(x, s, key) == r;
      assert r[0] == x && r[1..] == s;
      assert FilterKey(r, key, k) == tail + FilterKey(s, key, k);
      if key(x) == k {
        forall e | e in s ensures key(e) > k {
          var i :| 0 <= i < |s| && s[i] == e;
          assert key(s[0]) <= key(s[i]);
        }
        FilterKeyNone(s, key, k);
      }
    } else {
      var rest := InsertBy(x, s[1..], key);
      var r := [s[0]] + rest;
      assert InsertBy(x, s, key) == r;
      assert r[0] == s[0] && r[1..] == rest;
      var head := if key(s[0]) == k then [s[0]] else [];
      assert FilterKey(r, key, k) == head + FilterKey(rest, key, k);
      InsertByStable(x, s[1..], key, k);
      assert FilterKey(s, key, k) == head + FilterKey(s[1..], key, k);
    }
  }

  /** Among elements with equal keys, `SortBy` keeps the input order. */
  lemma {:induction false} SortByStable<T>(xs: seq<T>, key: T -> int, k: int)
    ensures FilterKey(SortBy(xs, key), key, k) == FilterKey(xs, key, k)
  {
    if xs != [] {
      var init, last := xs[..|xs| - 1], xs[|xs| - 1];
      SortByStable(init, key, k);
      SortBySorted(init, key);
      InsertByStable(last, SortBy(init, key), key, k);
      FilterKeyAppend(init, [last], key, k);
      assert xs == init + [last];
    }
  }

  lemma {:induction false} FilterKeyNegated<T>(s: seq<T>, key: T -> int, k: int)
    ensures FilterKey(s, Negated(key), -k) == FilterKey(s, key, k)
  {
    if s != [] {
      FilterKeyNegated(s[1..], key, k);
    }
  }

  // ---------------------------------------------------------------------
  // Sums do not depend on the order

  lemma {:induction false} SumByAppend<T>(a: seq<T>, b: seq<T>, f: T -> int)
    ensures SumBy(a + b, f) == SumBy(a, f) + SumBy(b, f)
  {
    if a == [] {
      assert a + b == b;
    } else {
      SumByAppend(a[1..], b, f);
      assert (a + b)[0] == a[0];
      assert (a + b)[1..] == a[1..] + b;
    }
  }

  lemma {:induction false} InsertBySum<T>(x: T, s: seq<T>, key: T -> int, f: T -> int)
    ensures SumBy(InsertBy(x, s, key), f) == f(x) + SumBy(s, f)
  {
    if s != [] && key(x) >= key(s[0]) {
      InsertBySum(x, s[1..], key, f);
    }
  }

  lemma {:induction false} SortBySum<T>(xs: seq<T>, key: T -> int, f: T -> int)
    ensures SumBy(SortBy(xs, key), f) == SumBy(xs, f)
  {
    if xs != [] {
      var init, last := xs[..|xs| - 1], xs[|xs| - 1];
      SortBySum(init, key, f);
      InsertBySum(last, SortBy(init, key), key, f);
      SumByAppend(init, [last], f);
      assert xs == init + [last];
    }
  }

  // ---------------------------------------------------------------------
  // Distinct identifiers survive sorting

  lemma {:induction false} InsertByDistinctBy<T, K>(x: T, s: seq<T>, key: T -> int, id: T -> K)
    requires DistinctBy(s, id)
    requires forall e | e in s :: id(e) != id(x)
    ensures DistinctBy(InsertBy(x, s, key), id)
  {
    if s != [] && key(x) >= key(s[0]) {
      InsertByDistinctBy(x, s[1..], key, id);
      InsertByPermutes(x, s[1..], key);
      var r := InsertBy(x, s[1..], key);
      forall j | 0 <= j < |r| ensures id(s[0]) != id(r[j]) {
        assert r[j] in multiset(r);
      }
    }
  }

  lemma {:induction false} SortByDistinctBy<T, K>(xs: seq<T>, key: T -> int, id: T -> K)
    requires DistinctBy(xs, id)
    ensures DistinctBy(SortBy(xs, key), id)
  {
    if xs != [] {
      var init, last := xs[..|xs| - 1], xs[|xs| - 1];
      SortByDistinctBy(init, key, id);
      SortByMembers(init, key);
      forall e | e in SortBy(init, key) ensures id(e) != id(last) {
        assert e in multiset(SortBy(init, key));
        SortByPermutes(init, key);
        assert e in multiset(init);
        var i :| 0 <= i < |init| && init[i] == e;
        assert xs[i] == e && xs[|xs| - 1] == last;
      }
      InsertByDistinctBy(last, SortBy(init, key), key, id);
    }
  }

  // ---------------------------------------------------------------------
  // nlargest

  lemma LargestIsPrefix<T>(xs: seq<T>, n: nat, key: T -> int)
    ensures SortBy(xs, Negated(key)) == Largest(xs, n, key) + SortBy(xs, Negated(key))[|Largest(xs, n, key)|..]
    ensures |SortBy(xs, Negated(key))| == |xs|
    ensures multiset(SortBy(xs, Negated(key))) == multiset(xs)
  {
    SortByPermutes(xs, Negated(key));
  }

  /** `nlargest(n, key)` returns `min(n, |xs|)` rows of the input, in
      descending key order. */
  lemma {:induction false} LargestOrdered<T>(xs: seq<T>, n: nat, key: T -> int)
    ensures |Largest(xs, n, key)| == Min(n, |xs|)
    ensures multiset(Largest(xs, n, key)) <= multiset(xs)
    ensures forall i, j | 0 <= i < j < |Largest(xs, n, key)| ::
              key(Largest(xs, n, key)[i]) >= key(Largest(xs, n, key)[j])
  {
    var s := SortBy(xs, Negated(key));
    var r := Largest(xs, n, key);
    LargestIsPrefix(xs, n, key);
    SortBySorted(xs, Negated(key));
    assert multiset(s) == multiset(r) + multiset(s[|r|..]);
    forall i, j | 0 <= i < j < |r| ensures key(r[i]) >= key(r[j]) {
      assert Negated(key)(s[i]) <= Negated(key)(s[j]);
    }
  }

  /** Every row `nlargest` leaves out has a key no larger than any row it
      keeps. */
  lemma {:induction false} LargestDominates<T>(xs: seq<T>, n: nat, key: T -> int, y: T, x: T)
    requires y in xs && multiset(Largest(xs, n, key))[y] < multiset(xs)[y]
    requires x in Largest(xs, n, key)
    ensures key(y) <= key(x)
  {
    var s := SortBy(xs, Negated(key));
    var r := Largest(xs, n, key);
    var m := |r|;
    LargestIsPrefix(xs, n, key);
    SortBySorted(xs, Negated(key));
    assert multiset(s) == multiset(r) + multiset(s[m..]);
    assert y in multiset(s[m..]);
    var b :| m <= b < |s| && s[b] == y;
    var a :| 0 <= a < m && r[a] == x;
    assert s[a] == x;
    assert Negated(key)(s[a]) <= Negated(key)(s[b]);
  }

  /** Among rows with equal keys, `nlargest` keeps those that come first
      in the input (`keep='first'`). */
  lemma {:induction false} LargestKeepsFirst<T>(xs: seq<T>, n: nat, key: T -> int, k: int)
    ensures FilterKey(Largest(xs, n, key), key, k) <= FilterKey(xs, key, k)
  {
    var s := SortBy(xs, Negated(key));
    var r := Largest(xs, n, key);
    LargestIsPrefix(xs, n, key);
    FilterKeyAppend(r, s[|r|..], Negated(key), -k);
    SortByStable(xs, Negated(key), -k);
    FilterKeyNegated(xs, key, k);
    FilterKeyNegated(r, key, k);
  }
}
