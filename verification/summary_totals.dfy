/** What the "Otros" and "Total" rows of the summary hold
    (datos_exportaciones.py, lines 471-485): the top-N selection loses no
    value, "Otros" is what the kept categories leave over, and "Total" is
    the sum of the measure over every row of the data for each year. */
module SummaryTotals {
  import opened Common
  import opened Ordering
  import opened Selection
  import opened YearLabels
  import opened Formatting
  import opened Pivot
  import opened Summary
  import opened SummaryOrder

  // -----------------------------------------------------------------------
  // Column sums of the pivot

  /** Year column `j` of the pivot sums the cells of that year over the
      category labels. */
  lemma {:induction false} PivotColumn(facts: seq<Fact<string>>, cats: seq<string>, years: seq<string>, j: nat)
    requires j < |years|
    ensures ColumnSum(PivotLines(facts, cats, years), j) == SumOverRows(facts, cats, years[j])
  {
    if cats != [] {
      var lines := PivotLines(facts, cats, years);
      assert lines[1..] == PivotLines(facts, cats[1..], years);
      PivotColumn(facts, cats[1..], years, j);
    }
  }

  /** The pivot has one line per distinct category. */
  lemma PivotDistinct(facts: seq<Fact<string>>, cats: seq<string>, years: seq<string>)
    requires Distinct(cats)
    ensures DistinctBy(PivotLines(facts, cats, years), LineName)
  {
  }

  // -----------------------------------------------------------------------
  // Top-N loses nothing

  /** Year column `j` of the lines whose label is among `names`. */
  function Masked(names: seq<string>, j: nat): Line -> int {
    (l: Line) => if l.name in names then ValueAt(j)(l) else 0
  }

  lemma {:induction false} SumByAgree(s: seq<Line>, f: Line -> int, g: Line -> int)
    requires forall x | x in s :: f(x) == g(x)
    ensures SumBy(s, f) == SumBy(s, g)
  {
    if s != [] {
      SumByAgree(s[1..], f, g);
    }
  }

  lemma {:induction false} SumByZero(s: seq<Line>, f: Line -> int)
    requires forall x | x in s :: f(x) == 0
    ensures SumBy(s, f) == 0
  {
    if s != [] {
      SumByZero(s[1..], f);
    }
  }

  /** Each line is either among the kept ones or dropped. */
  lemma {:induction false} DroppedSplit(lines: seq<Line>, kept: seq<Line>, j: nat)
    ensures ColumnSum(lines, j) == SumBy(lines, Masked(LineNames(kept), j)) + ColumnSum(Dropped(lines, kept), j)
  {
    if lines != [] {
      DroppedSplit(lines[1..], kept, j);
      var d := if lines[0].name in LineNames(kept) then [] else [lines[0]];
      SumByAppend(d, Dropped(lines[1..], kept), ValueAt(j));
    }
  }

  /** The mask keeps every line it names. */
  lemma MaskedKept(top: seq<Line>, j: nat)
    ensures SumBy(top, Masked(LineNames(top), j)) == ColumnSum(top, j)
  {
    var m := Masked(LineNames(top), j);
    forall x | x in top ensures m(x) == ValueAt(j)(x) {
      var i :| 0 <= i < |top| && top[i] == x;
      assert LineNames(top)[i] == x.name;
    }
    SumByAgree(top, m, ValueAt(j));
  }

  /** On distinct lines, the mask of a prefix drops everything after it. */
  lemma MaskedRest(s: seq<Line>, k: nat, j: nat)
    requires k <= |s| && DistinctBy(s, LineName)
    ensures SumBy(s[k..], Masked(LineNames(s[..k]), j)) == 0
  {
    var top, rest := s[..k], s[k..];
    var m := Masked(LineNames(top), j);
    forall x | x in rest ensures m(x) == 0 {
      var r :| 0 <= r < |rest| && rest[r] == x;
      assert s[k + r] == x;
      forall i | 0 <= i < |top| ensures LineNames(top)[i] != x.name {
        assert s[i] == top[i];
        assert LineName(s[i]) != LineName(s[k + r]);
      }
    }
    SumByZero(rest, m);
  }

  /** Over distinct lines, the masked sum for the `n` largest is the
      column sum of those `n` lines. */
  lemma MaskedLargest(lines: seq<Line>, n: nat, key: Line -> int, j: nat)
    requires DistinctBy(lines, LineName)
    ensures SumBy(lines, Masked(LineNames(Largest(lines, n, key)), j)) == ColumnSum(Largest(lines, n, key), j)
  {
    var top := Largest(lines, n, key);
    var s := SortBy(lines, Negated(key));
    var m := Masked(LineNames(top), j);
    LargestIsPrefix(lines, n, key);
    assert s == top + s[|top|..];
    SortBySum(lines, Negated(key), m);
    SumByAppend(top, s[|top|..], m);
    MaskedKept(top, j);
    SortByDistinctBy(lines, Negated(key), LineName);
    MaskedRest(s, |top|, j);
  }

  /** Lines 471-478: the top-N lines and "Otros" together hold the same
      column sums as all the lines, and "Otros" holds, per year, the sum
      of the lines not kept: the full column minus the kept lines. */
  lemma TopNColumns(lines: seq<Line>, n: nat, width: nat, j: nat)
    requires 0 < width && j < width && Width(lines, width) && DistinctBy(lines, LineName)
    ensures ColumnSum(TopN(lines, n, width), j) == ColumnSum(lines, j)
    ensures TopN(lines, n, width)[|TopN(lines, n, width)| - 1].values[j]
         == ColumnSum(lines, j) - ColumnSum(Largest(lines, n, ValueAt(width - 1)), j)
  {
    var top := Largest(lines, n, ValueAt(width - 1));
    var otros := SumLine("Otros", Dropped(lines, top), width);
    DroppedSplit(lines, top, j);
    MaskedLargest(lines, n, ValueAt(width - 1), j);
    SumByAppend(top, [otros], ValueAt(j));
    assert TopN(lines, n, width) == top + [otros];
  }

  /** Lines 471-478, what is kept: at most `n` lines, each one of the
      input, in descending order of the latest year, none smaller than a
      line that was left out, and the last line is "Otros" (ties keep
      their input order: `Selection.LargestKeepsFirst`). */
  lemma TopNKeeps(lines: seq<Line>, n: nat, width: nat)
    requires 0 < width && Width(lines, width)
    ensures |TopN(lines, n, width)| == Min(n, |lines|) + 1
    ensures TopN(lines, n, width)[|TopN(lines, n, width)| - 1].name == "Otros"
    ensures multiset(Largest(lines, n, ValueAt(width - 1))) <= multiset(lines)
    ensures TopN(lines, n, width)[..|TopN(lines, n, width)| - 1] == Largest(lines, n, ValueAt(width - 1))
    ensures forall i, k | 0 <= i < k < |TopN(lines, n, width)| - 1 ::
              TopN(lines, n, width)[i].values[width - 1] >= TopN(lines, n, width)[k].values[width - 1]
    ensures forall y, x | y in lines && x in Largest(lines, n, ValueAt(width - 1))
              && multiset(Largest(lines, n, ValueAt(width - 1)))[y] < multiset(lines)[y] ::
              y.values[width - 1] <= x.values[width - 1]
  {
    var key := ValueAt(width - 1);
    var top := Largest(lines, n, key);
    LargestOrdered(lines, n, key);
    LargestWidth(lines, n, width);
    var r := TopN(lines, n, width);
    assert r == top + [SumLine("Otros", Dropped(lines, top), width)];
    assert r[..|r| - 1] == top;
    forall i, k | 0 <= i < k < |r| - 1 ensures r[i].values[width - 1] >= r[k].values[width - 1] {
      assert r[i] == top[i] && r[k] == top[k];
      assert key(top[i]) >= key(top[k]);
    }
    forall y, x | y in lines && x in top && multiset(top)[y] < multiset(lines)[y]
      ensures y.values[width - 1] <= x.values[width - 1]
    {
      LargestDominates(lines, n, key, y, x);
      var a :| 0 <= a < |lines| && lines[a] == y;
      var b :| 0 <= b < |top| && top[b] == x;
      assert |y.values| == width && |x.values| == width;
    }
  }

  /** With nothing kept, every line is left out. */
  lemma {:induction false} DroppedNone(lines: seq<Line>)
    ensures Dropped(lines, []) == lines
  {
    if lines != [] {
      DroppedNone(lines[1..]);
      assert lines == [lines[0]] + lines[1..];
    }
  }

  /** Lines 471-478 with a negative `top_n`: the test `if top_n:` passes,
      `nlargest` keeps no category, and the table is the single "Otros"
      line holding every column sum. */
  lemma NegativeTopN(lines: seq<Line>, n: int, width: nat)
    requires n < 0 && 0 < width && Width(lines, width)
    ensures SelectTop(lines, Some(n), width) == Ok([SumLine("Otros", lines, width)])
  {
    assert Count(n) == 0;
    var top := Largest(lines, 0, ValueAt(width - 1));
    assert SelectTop(lines, Some(n), width) == Ok(TopN(lines, 0, width));
    assert top == [];
    assert TopN(lines, 0, width) == top + [SumLine("Otros", Dropped(lines, top), width)];
    DroppedNone(lines);
    assert TopN(lines, 0, width) == [SumLine("Otros", lines, width)];
  }


  // -----------------------------------------------------------------------
  // The "Total" row

  /** No fact carries the category "Total" when no row of the data does. */
  lemma {:induction false} FactsNotTotal(records: seq<Record>, categoria: string, valor: string)
    requires forall i | 0 <= i < |records| :: categoria in records[i].dims && valor in records[i].measures
    requires forall i | 0 <= i < |records| :: records[i].dims[categoria] != Some("Total")
    ensures forall f | f in FactsOf(records, categoria, valor) :: f.row != "Total"
  {
    if records != [] {
      FactsNotTotal(records[1..], categoria, valor);
    }
  }

  /** The pivot's labels are categories of the data. */
  lemma PivotNames(facts: seq<Fact<string>>, cats: seq<string>, years: seq<string>)
    requires forall f | f in facts :: f.row != "Total"
    requires forall c | c in cats :: c in RowLabels(facts)
    ensures forall l | l in PivotLines(facts, cats, years) :: l.name != "Total"
  {
    var lines := PivotLines(facts, cats, years);
    forall l | l in lines ensures l.name != "Total" {
      var i :| 0 <= i < |lines| && lines[i] == l;
      assert cats[i] in cats;
      var k :| 0 <= k < |facts| && RowLabels(facts)[k] == cats[i];
      assert facts[k] in facts;
    }
  }

  /** Top-N adds no "Total" label. */
  lemma TopNNames(lines: seq<Line>, n: nat, width: nat)
    requires 0 < width && Width(lines, width)
    requires forall l | l in lines :: l.name != "Total"
    ensures forall l | l in TopN(lines, n, width) :: l.name != "Total"
  {
    var top := Largest(lines, n, ValueAt(width - 1));
    LargestOrdered(lines, n, ValueAt(width - 1));
    assert TopN(lines, n, width) == top + [SumLine("Otros", Dropped(lines, top), width)];
    forall l | l in top ensures l in lines {
      assert l in multiset(lines);
    }
  }

  lemma MakeRowsAppend(kept: seq<Line>, total: Line, width: nat, t: int)
    requires 2 <= width && Width(kept, width) && |total.values| == width
    ensures Width(kept + [total], width)
    ensures MakeRows(kept + [total], width, t) == MakeRows(kept, width, t) + [MakeRow(total, width, t)]
  {
    assert Width(kept + [total], width) by {
      forall i | 0 <= i < |kept| + 1 ensures |(kept + [total])[i].values| == width {
        if i < |kept| {
          assert (kept + [total])[i] == kept[i];
        }
      }
    }
  }

  /** A value found at two places of a sequence occurs twice. */
  lemma Twice<T>(s: seq<T>, i: nat, k: nat)
    requires i < k < |s| && s[i] == s[k]
    ensures multiset(s)[s[k]] >= 2
  {
    assert s == s[..k] + [s[k]] + s[k + 1..];
    assert s[i] in s[..k];
  }

  /** A grouped permutation of rows holding one "Total" row ends with it. */
  lemma GroupedEndsWithTotal(rows: seq<Row>, input: seq<Row>, last: Row)
    requires multiset(rows) == multiset(input) && Grouped(rows)
    requires last.name == "Total" && last in input && multiset(input)[last] == 1
    requires forall x | x in input && x.name == "Total" :: x == last
    ensures |rows| == |input| && |rows| > 0
    ensures rows[|rows| - 1] == last
    ensures forall i | 0 <= i < |rows| - 1 :: rows[i].name != "Total"
  {
    assert |rows| == |input| by {
      assert |multiset(rows)| == |multiset(input)|;
    }
    forall x | x in rows && x.name == "Total" ensures x == last {
      assert x in multiset(input);
    }
    assert last in multiset(rows);
    var k :| 0 <= k < |rows| && rows[k] == last;
    assert Rank(rows[|rows| - 1]) >= Rank(rows[k]);
    forall i | 0 <= i < |rows| - 1 ensures rows[i].name != "Total" {
      if rows[i].name == "Total" {
        Twice(rows, i, |rows| - 1);
      }
    }
  }

  /** Rows made from lines without "Total", then the "Total" row: that row
      occurs once and is the only one with its label. */
  lemma TotalOnce(kept: seq<Line>, total: Line, width: nat, t: int)
    requires 2 <= width && Width(kept, width) && |total.values| == width && total.name == "Total"
    requires forall l | l in kept :: l.name != "Total"
    ensures var input := MakeRows(kept, width, t) + [MakeRow(total, width, t)];
            && multiset(input)[MakeRow(total, width, t)] == 1
            && forall x | x in input && x.name == "Total" :: x == MakeRow(total, width, t)
  {
    var before := MakeRows(kept, width, t);
    var last := MakeRow(total, width, t);
    forall x | x in before ensures x.name != "Total" {
      var i :| 0 <= i < |before| && before[i] == x;
      assert kept[i] in kept;
    }
    assert last !in before;
  }

  /** Lines 481-485 and 500-508: after ordering, the appended "Total" row
      is the last row and the only one with that label, whatever the
      order of the other rows. */
  lemma TotalLast(kept: seq<Line>, total: Line, width: nat, t: int)
    requires 2 <= width && Width(kept, width) && |total.values| == width && total.name == "Total"
    requires forall l | l in kept :: l.name != "Total"
    ensures Width(kept + [total], width)
    ensures var rows := OrderRows(MakeRows(kept + [total], width, t), width);
            && |rows| == |kept| + 1
            && rows[|rows| - 1] == MakeRow(total, width, t)
            && forall i | 0 <= i < |rows| - 1 :: rows[i].name != "Total"
  {
    MakeRowsAppend(kept, total, width, t);
    var input := MakeRows(kept + [total], width, t);
    var rows := OrderRows(input, width);
    OrderRowsSpec(input, width);
    TotalOnce(kept, total, width, t);
    GroupedEndsWithTotal(rows, input, MakeRow(total, width, t));
  }

  /** Lines 471-485: each column of the "Total" line is the sum of the
      measure over every fact of that year. */
  lemma TotalColumn(facts: seq<Fact<string>>, cats: seq<string>, years: seq<string>, topN: Option<int>, j: nat)
    requires Distinct(cats) && forall i | 0 <= i < |facts| :: facts[i].row in cats
    requires j < |years|
    requires SelectTop(PivotLines(facts, cats, years), topN, |years|).Ok?
    ensures ColumnSum(SelectTop(PivotLines(facts, cats, years), topN, |years|).value, j)
         == ColumnTotal(facts, years[j])
  {
    var lines := PivotLines(facts, cats, years);
    if topN.Some? && topN.value != 0 {
      PivotDistinct(facts, cats, years);
      TopNColumns(lines, Count(topN.value), |years|, j);
    }
    PivotColumn(facts, cats, years, j);
    SumOverRowsCovers(facts, cats, years[j]);
  }

  /** Lines 481-508 on the kept lines: the last row is the only "Total"
      row and carries the column sums of the kept lines. */
  lemma FinishTotalRow(kept: seq<Line>, years: seq<string>)
    requires |years| >= 2 && Width(kept, |years|)
    requires forall l | l in kept :: l.name != "Total"
    ensures var rep := Finish(kept, years).value;
            && |rep.rows| > 0
            && rep.rows[|rep.rows| - 1].name == "Total"
            && rep.rows[|rep.rows| - 1].values == SumLine("Total", kept, |years|).values
            && forall i | 0 <= i < |rep.rows| - 1 :: rep.rows[i].name != "Total"
  {
    var w := |years|;
    var total := SumLine("Total", kept, w);
    var t := total.values[w - 1];
    TotalLast(kept, total, w, t);
    FinishRows(kept, years, total, t);
  }

  lemma FinishRows(kept: seq<Line>, years: seq<string>, total: Line, t: int)
    requires |years| >= 2 && Width(kept, |years|)
    requires total == SumLine("Total", kept, |years|) && t == total.values[|years| - 1]
    ensures Width(kept + [total], |years|)
    ensures Finish(kept, years).value.rows == OrderRows(MakeRows(kept + [total], |years|, t), |years|)
  {
    MakeRowsAppend(kept, total, |years|, t);
  }

  /** The report's last row is its only "Total" row, and for every year
      column it holds the sum of the measure over every fact of that year. */
  predicate EndsWithTotal(rep: Report, facts: seq<Fact<string>>) {
    && |rep.rows| > 0
    && rep.rows[|rep.rows| - 1].name == "Total"
    && (forall i | 0 <= i < |rep.rows| - 1 :: rep.rows[i].name != "Total")
    && |rep.rows[|rep.rows| - 1].values| == |rep.years|
    && (forall j | 0 <= j < |rep.years| ::
          rep.rows[|rep.rows| - 1].values[j] == ColumnTotal(facts, rep.years[j]))
  }

  /** The kept lines have no "Total" label. */
  lemma KeptNotTotal(facts: seq<Fact<string>>, years: seq<string>, topN: Option<int>)
    requires forall f | f in facts :: f.row != "Total"
    requires SelectTop(PivotLines(facts, Categories(facts), years), topN, |years|).Ok?
    ensures forall l | l in SelectTop(PivotLines(facts, Categories(facts), years), topN, |years|).value ::
              l.name != "Total"
  {
    var cats := Categories(facts);
    LexLessIsStrictTotalOrder();
    SortUniqueSpec(RowLabels(facts), LexLess);
    var lines := PivotLines(facts, cats, years);
    PivotNames(facts, cats, years);
    if topN.Some? && topN.value != 0 {
      TopNNames(lines, Count(topN.value), |years|);
    }
  }

  /** Each column of the kept lines sums to that year's total. */
  lemma KeptColumnTotals(facts: seq<Fact<string>>, years: seq<string>, topN: Option<int>)
    requires SelectTop(PivotLines(facts, Categories(facts), years), topN, |years|).Ok?
    ensures var kept := SelectTop(PivotLines(facts, Categories(facts), years), topN, |years|).value;
            forall j | 0 <= j < |years| :: SumLine("Total", kept, |years|).values[j] == ColumnTotal(facts, years[j])
  {
    var cats := Categories(facts);
    LexLessIsStrictTotalOrder();
    SortUniqueSpec(RowLabels(facts), LexLess);
    forall i | 0 <= i < |facts| ensures facts[i].row in cats {
      assert RowLabels(facts)[i] == facts[i].row;
    }
    forall j | 0 <= j < |years| ensures ColumnSum(SelectTop(PivotLines(facts, cats, years), topN, |years|).value, j)
                                      == ColumnTotal(facts, years[j]) {
      TotalColumn(facts, cats, years, topN, j);
    }
  }

  /** Lines 471-508 on the facts: the last row is the only "Total" row
      and holds every year's column total. */
  lemma AssembleTotalRow(facts: seq<Fact<string>>, topN: Option<int>)
    requires forall f | f in facts :: f.row != "Total"
    requires Assemble(facts, topN).Ok?
    ensures EndsWithTotal(Assemble(facts, topN).value, facts)
  {
    var years := YearColumns(facts).value;
    var kept := SelectTop(PivotLines(facts, Categories(facts), years), topN, |years|).value;
    assert Assemble(facts, topN) == Finish(kept, years);
    KeptNotTotal(facts, years, topN);
    KeptColumnTotals(facts, years, topN);
    FinishTotalRow(kept, years);
  }

  /** Lines 466-485 and 500-508: whenever the summary is built, its last
      row is the only "Total" row, and for every year column it holds the
      sum of the measure over every data row of that year whose category
      is not null, with or without top-N. */
  lemma SummaryTotalRow(d: Data, categoria: string, valor: string, topN: Option<int>)
    requires WellFormed(d) && NoTotalCategory(d, categoria)
    requires BuildSummary(d, categoria, valor, topN).Ok?
    ensures EndsWithTotal(BuildSummary(d, categoria, valor, topN).value, FactsOf(d.records, categoria, valor))
  {
    var facts := FactsOf(d.records, categoria, valor);
    assert BuildSummary(d, categoria, valor, topN) == Assemble(facts, topN);
    FactsNotTotal(d.records, categoria, valor);
    AssembleTotalRow(facts, topN);
  }

  // -----------------------------------------------------------------------
  // Variation and share of every row

  /** Lines 487-493 for one row: the variation is `(curr - prev) / prev * 100`
      over its last two year values, with no guard against a zero `prev`,
      and the share is `curr / total_curr * 100`. */
  predicate Percentages(r: Row, w: nat, totalCurr: int) {
    && 2 <= w && |r.values| == w
    && r.variation == Ratio(r.values[w - 1] - r.values[w - 2], r.values[w - 2])
    && r.share == Ratio(r.values[w - 1], totalCurr)
  }

  predicate AllPercentages(rows: seq<Row>, w: nat, totalCurr: int) {
    forall i | 0 <= i < |rows| :: Percentages(rows[i], w, totalCurr)
  }

  /** Every row made from the kept lines and "Total", in whatever order,
      has its percentages over the latest value of "Total". */
  lemma FinishPercentages(kept: seq<Line>, years: seq<string>)
    requires |years| >= 2 && Width(kept, |years|)
    ensures var rows := Finish(kept, years).value.rows;
            var t := SumLine("Total", kept, |years|).values[|years| - 1];
            AllPercentages(rows, |years|, t)
  {
    var w := |years|;
    var total := SumLine("Total", kept, w);
    var t := total.values[w - 1];
    FinishRows(kept, years, total, t);
    var lines := kept + [total];
    var input := MakeRows(lines, w, t);
    forall r | r in input ensures Percentages(r, w, t) {
      var i :| 0 <= i < |input| && input[i] == r;
      assert r == MakeRow(lines[i], w, t);
    }
    OrderRowsSpec(input, w);
    var rows := OrderRows(input, w);
    forall i | 0 <= i < |rows| ensures Percentages(rows[i], w, t) {
      assert rows[i] in multiset(rows);
    }
  }

  /** Every row of the report has its percentages over the latest year's
      total of the facts. */
  predicate HasPercentages(rep: Report, facts: seq<Fact<string>>) {
    && |rep.years| >= 2
    && AllPercentages(rep.rows, |rep.years|, ColumnTotal(facts, rep.years[|rep.years| - 1]))
  }

  lemma FinishHasPercentages(kept: seq<Line>, years: seq<string>, facts: seq<Fact<string>>)
    requires |years| >= 2 && Width(kept, |years|)
    requires SumLine("Total", kept, |years|).values[|years| - 1] == ColumnTotal(facts, years[|years| - 1])
    ensures HasPercentages(Finish(kept, years).value, facts)
  {
    FinishPercentages(kept, years);
  }

  /** Lines 466-508 on the facts: the percentages of every row, over the
      latest year's total. */
  lemma AssemblePercentages(facts: seq<Fact<string>>, topN: Option<int>)
    requires Assemble(facts, topN).Ok?
    ensures HasPercentages(Assemble(facts, topN).value, facts)
  {
    var years := YearColumns(facts).value;
    var kept := SelectTop(PivotLines(facts, Categories(facts), years), topN, |years|).value;
    assert Assemble(facts, topN) == Finish(kept, years);
    KeptColumnTotals(facts, years, topN);
    FinishHasPercentages(kept, years, facts);
  }

  /** Lines 487-508: every row of the summary, "Otros" and "Total"
      included, has as variation the change between its last two year
      values over the earlier one (inf, -inf or nan when that is 0), and
      as share its latest value over the latest year's total of every
      data row, which `SummaryTotalRow` finds in the "Total" row. */
  lemma SummaryPercentages(d: Data, categoria: string, valor: string, topN: Option<int>)
    requires WellFormed(d) && NoTotalCategory(d, categoria)
    requires BuildSummary(d, categoria, valor, topN).Ok?
    ensures HasPercentages(BuildSummary(d, categoria, valor, topN).value, FactsOf(d.records, categoria, valor))
  {
    var facts := FactsOf(d.records, categoria, valor);
    assert BuildSummary(d, categoria, valor, topN) == Assemble(facts, topN);
    AssemblePercentages(facts, topN);
  }

  // -----------------------------------------------------------------------
  // Shares of the latest year

  /** The share as a numerator over the common denominator |total|. */
  function ShareNum(r: Row): int {
    if r.share.Finite? then r.share.num else 0
  }

  lemma {:induction false} ShareNumSum(kept: seq<Line>, w: nat, t: int)
    requires 2 <= w && Width(kept, w) && t != 0
    ensures SumBy(MakeRows(kept, w, t), ShareNum) == (if t > 0 then 100 else -100) * ColumnSum(kept, w - 1)
  {
    if kept != [] {
      assert MakeRows(kept, w, t)[1..] == MakeRows(kept[1..], w, t);
      ShareNumSum(kept[1..], w, t);
    }
  }

  /** Lines 489-493: with a non-zero total in the latest year, every
      share is a fraction of that total, the shares of the lines add up
      to 100 %, and the "Total" row's share is exactly 100 %; with a zero
      total every share is inf, -inf or nan. */
  lemma SharesAddUp(kept: seq<Line>, w: nat)
    requires 2 <= w && Width(kept, w)
    ensures var t := ColumnSum(kept, w - 1);
            var rows := MakeRows(kept, w, t);
            var totalRow := MakeRow(SumLine("Total", kept, w), w, t);
            && (t != 0 ==> forall i | 0 <= i < |rows| :: rows[i].share.Finite? && rows[i].share.den == Abs(t))
            && (t != 0 ==> SumBy(rows, ShareNum) == 100 * Abs(t))
            && (t != 0 ==> totalRow.share.Finite? && totalRow.share.num == 100 * totalRow.share.den)
            && (t == 0 ==> forall i | 0 <= i < |rows| :: !rows[i].share.Finite?)
            && (t == 0 ==> totalRow.share == NaN)
  {
    var t := ColumnSum(kept, w - 1);
    if t != 0 {
      ShareNumSum(kept, w, t);
    }
  }
}
