/** The row order of the summary table (datos_exportaciones.py, lines
    500-508): categories by the latest year, largest first, then "Otros",
    then "Total"; no row is lost or added on the way. */
module SummaryOrder {
  import opened Common
  import opened Selection
  import opened Summary

  /** 0 for a category, 1 for "Otros", 2 for "Total". */
  function Rank(r: Row): nat {
    if r.name == "Total" then 2 else if r.name == "Otros" then 1 else 0
  }

  /** Categories before "Otros" before "Total". */
  ghost predicate Grouped(rows: seq<Row>) {
    forall i, j | 0 <= i < j < |rows| :: Rank(rows[i]) <= Rank(rows[j])
  }

  /** The categories are in descending order of the latest year. */
  ghost predicate CategoriesDescending(rows: seq<Row>, width: nat) {
    forall i, j | 0 <= i < j < |rows| && Rank(rows[i]) == 0 && Rank(rows[j]) == 0 ::
      CurrentOf(width)(rows[i]) >= CurrentOf(width)(rows[j])
  }

  lemma {:induction false} SplitByLabel(s: seq<Row>, tag: string)
    ensures multiset(WithoutLabel(s, tag)) + multiset(WithLabel(s, tag)) == multiset(s)
    ensures forall x | x in WithLabel(s, tag) :: x in s && x.name == tag
    ensures forall x | x in WithoutLabel(s, tag) :: x in s && x.name != tag
  {
    if s != [] {
      SplitByLabel(s[1..], tag);
      assert s == [s[0]] + s[1..];
    }
  }

  lemma {:induction false} WithoutLabelAppend(a: seq<Row>, b: seq<Row>, tag: string)
    ensures WithoutLabel(a + b, tag) == WithoutLabel(a, tag) + WithoutLabel(b, tag)
  {
    if a == [] {
      assert a + b == b;
    } else {
      var ab := a + b;
      assert ab[0] == a[0] && ab[1..] == a[1..] + b;
      WithoutLabelAppend(a[1..], b, tag);
      var h := if a[0].name != tag then [a[0]] else [];
      var x, y := WithoutLabel(a[1..], tag), WithoutLabel(b, tag);
      assert WithoutLabel(ab, tag) == h + (x + y);
      assert WithoutLabel(a, tag) == h + x;
      assert h + (x + y) == (h + x) + y;
    }
  }

  lemma {:induction false} WithoutAbsentLabel(s: seq<Row>, tag: string)
    requires forall x | x in s :: x.name != tag
    ensures WithoutLabel(s, tag) == s
  {
    if s != [] {
      WithoutAbsentLabel(s[1..], tag);
    }
  }

  /** Dropping rows keeps a descending order descending. */
  lemma {:induction false} WithoutLabelSorted(s: seq<Row>, tag: string, key: Row -> int)
    requires SortedBy(s, key)
    ensures SortedBy(WithoutLabel(s, tag), key)
  {
    if s != [] {
      WithoutLabelSorted(s[1..], tag, key);
      SplitByLabel(s[1..], tag);
      var t := WithoutLabel(s[1..], tag);
      if s[0].name != tag {
        forall j | 0 <= j < |t| ensures key(s[0]) <= key(t[j]) {
          assert t[j] in s[1..];
        }
      }
    }
  }

  /** Two groups side by side stay grouped when every rank in the first
      is at most every rank in the second. */
  lemma GroupedAppend(a: seq<Row>, b: seq<Row>, k: nat)
    requires Grouped(a) && Grouped(b)
    requires forall x | x in a :: Rank(x) <= k
    requires forall x | x in b :: Rank(x) >= k
    ensures Grouped(a + b)
  {
    var r := a + b;
    forall i, j | 0 <= i < j < |r| ensures Rank(r[i]) <= Rank(r[j]) {
      if j < |a| {
        assert r[i] == a[i] && r[j] == a[j];
      } else if i >= |a| {
        assert r[i] == b[i - |a|] && r[j] == b[j - |a|];
      } else {
        assert r[i] in a && r[j] in b;
      }
    }
  }

  lemma AllSameRankGrouped(s: seq<Row>, k: nat)
    requires forall x | x in s :: Rank(x) == k
    ensures Grouped(s)
  {
    forall i, j | 0 <= i < j < |s| ensures Rank(s[i]) <= Rank(s[j]) {
      assert s[i] in s && s[j] in s;
    }
  }

  /** The categories of `a + b`, where `b` holds none, are those of `a`. */
  lemma DescendingAppend(a: seq<Row>, b: seq<Row>, width: nat)
    requires SortedBy(a, Negated(CurrentOf(width)))
    requires forall x | x in b :: Rank(x) > 0
    ensures CategoriesDescending(a + b, width)
  {
    var r := a + b;
    forall i, j | 0 <= i < j < |r| && Rank(r[i]) == 0 && Rank(r[j]) == 0
      ensures CurrentOf(width)(r[i]) >= CurrentOf(width)(r[j])
    {
      if j < |a| {
        assert Negated(CurrentOf(width))(a[i]) <= Negated(CurrentOf(width))(a[j]);
      }
    }
  }

  /** Without its "Total" rows, a descending block of categories followed
      by a block of "Otros" rows is the categories, then the "Otros". */
  lemma FrontParts(cats: seq<Row>, otros: seq<Row>)
    requires forall x | x in otros :: x.name == "Otros"
    ensures WithoutLabel(cats + otros, "Total") == WithoutLabel(cats, "Total") + otros
  {
    WithoutLabelAppend(cats, otros, "Total");
    WithoutAbsentLabel(otros, "Total");
  }

  /** Moving the "Total" rows of such a block to its end groups it. */
  lemma TotalsLastGrouped(cats: seq<Row>, otros: seq<Row>)
    requires forall x | x in cats :: x.name != "Otros"
    requires forall x | x in otros :: x.name == "Otros"
    ensures Grouped(WithoutLabel(cats + otros, "Total") + WithLabel(cats + otros, "Total"))
  {
    var realCats := WithoutLabel(cats, "Total");
    var totals := WithLabel(cats + otros, "Total");
    SplitByLabel(cats + otros, "Total");
    SplitByLabel(cats, "Total");
    FrontParts(cats, otros);
    AllSameRankGrouped(totals, 2);
    AllSameRankGrouped(realCats, 0);
    AllSameRankGrouped(otros, 1);
    GroupedAppend(realCats, otros, 1);
    GroupedAppend(realCats + otros, totals, 2);
  }

  lemma {:induction false} WithLabelOnly(s: seq<Row>, tag: string)
    ensures forall x | x in WithLabel(s, tag) :: x.name == tag
  {
    if s != [] {
      WithLabelOnly(s[1..], tag);
    }
  }

  /** ... and keeps the categories in descending order. */
  lemma TotalsLastDescending(cats: seq<Row>, otros: seq<Row>, width: nat)
    requires SortedBy(cats, Negated(CurrentOf(width)))
    requires forall x | x in otros :: x.name == "Otros"
    ensures CategoriesDescending(WithoutLabel(cats + otros, "Total") + WithLabel(cats + otros, "Total"), width)
  {
    var realCats := WithoutLabel(cats, "Total");
    var totals := WithLabel(cats + otros, "Total");
    WithLabelOnly(cats + otros, "Total");
    WithoutLabelSorted(cats, "Total", Negated(CurrentOf(width)));
    FrontParts(cats, otros);
    var tail := otros + totals;
    forall x | x in tail ensures Rank(x) > 0 {
      if x !in otros {
        assert x in totals;
      }
    }
    assert (realCats + otros) + totals == realCats + tail;
    DescendingAppend(realCats, tail, width);
  }

  /** Lines 503-508 on a sorted block of categories followed by the
      "Otros" rows: moving the "Total" rows to the end loses nothing and
      leaves the rows grouped, the categories still descending. */
  lemma TotalsLast(cats: seq<Row>, otros: seq<Row>, width: nat)
    requires SortedBy(cats, Negated(CurrentOf(width)))
    requires forall x | x in cats :: x.name != "Otros"
    requires forall x | x in otros :: x.name == "Otros"
    ensures var r := WithoutLabel(cats + otros, "Total") + WithLabel(cats + otros, "Total");
            && multiset(r) == multiset(cats + otros)
            && Grouped(r)
            && CategoriesDescending(r, width)
  {
    TotalsLastGrouped(cats, otros);
    TotalsLastDescending(cats, otros, width);
    SplitByLabel(cats + otros, "Total");
  }

  /** Lines 500-508: the output rows are the input rows rearranged, with
      the categories first in descending order of the latest year, then
      the "Otros" rows, then the "Total" rows. */
  lemma OrderRowsSpec(rows: seq<Row>, width: nat)
    ensures multiset(OrderRows(rows, width)) == multiset(rows)
    ensures Grouped(OrderRows(rows, width))
    ensures CategoriesDescending(OrderRows(rows, width), width)
  {
    var key := Negated(CurrentOf(width));
    var sorted := SortBy(rows, key);
    SortByPermutes(rows, key);
    SortBySorted(rows, key);
    if "Otros" in RowNames(sorted) {
      var cats := WithoutLabel(sorted, "Otros");
      var otros := WithLabel(sorted, "Otros");
      SplitByLabel(sorted, "Otros");
      WithoutLabelSorted(sorted, "Otros", key);
      TotalsLast(cats, otros, width);
    } else {
      forall x | x in sorted ensures x.name != "Otros" {
        var i :| 0 <= i < |sorted| && sorted[i] == x;
        assert RowNames(sorted)[i] == x.name;
      }
      assert sorted + [] == sorted;
      TotalsLast(sorted, [], width);
    }
  }
}
