/** `generar_tabla_subsectores` (datos_exportaciones.py, lines 677-754):
    per subsector, the exports of `year1` and of `year2` summed over the
    destination countries, their difference and variation, and the five
    subsectors that grew most. */
module Subsectors {
  import opened Common
  import opened Text
  import opened Ordering
  import opened Selection
  import opened YearLabels
  import opened Formatting
  import opened Pivot
  import opened Frames

  /** A row of the export data as this table reads it: SUBSECTOR and
      PAIS_DESTINO (null allowed), YEAR and VALOR_USD. */
  datatype ExportRecord = ExportRecord(subsector: Option<string>, country: Option<string>, year: string, value: int)

  /** Lines 704-709: the rows of one year that reach its pivot (both keys
      non-null). The pivot is kept transposed: a fact's row is the
      country and its column the subsector, so that a subsector's sum
      over countries is `Pivot.SumOverRows`. */
  function YearFacts(records: seq<ExportRecord>, year: string): seq<Fact<string>> {
    if records == [] then []
    else
      var r := records[0];
      (if r.year == year && r.subsector.Some? && r.country.Some?
       then [Fact(r.country.value, r.subsector.value, r.value)]
       else [])
      + YearFacts(records[1..], year)
  }

  /** The pivot's columns: every country of that year once, sorted. */
  function Countries(facts: seq<Fact<string>>): seq<string> {
    SortUnique(RowLabels(facts), LexLess)
  }

  /** Lines 712-713: the name `f'{year}({col})'` of a country column. */
  function ColumnName(year: string, country: string): string {
    year + "(" + country + ")"
  }

  /** Line 716: `join(how='outer')` raises ValueError when the two pivots
      share a column name and no suffix is given. */
  predicate ColumnsOverlap(year1: string, countries1: seq<string>, year2: string, countries2: seq<string>) {
    exists c1, c2 | c1 in countries1 && c2 in countries2 :: ColumnName(year1, c1) == ColumnName(year2, c2)
  }

  /** The outer join's index: every subsector of either year once, sorted. */
  function JoinedSubsectors(facts1: seq<Fact<string>>, facts2: seq<Fact<string>>): seq<string> {
    SortUnique(ColLabels(facts1) + ColLabels(facts2), LexLess)
  }

  // -----------------------------------------------------------------------
  // The per-year totals, as written and as intended

  /** `filter(like=pattern).sum(axis=1)` over the country columns of one
      year: the cells of subsector `s` in every column whose name holds
      `pattern` anywhere. */
  function FilteredSum(facts: seq<Fact<string>>, countries: seq<string>, year: string, s: string, pattern: string): int {
    if countries == [] then 0
    else
      (if Contains(ColumnName(year, countries[0]), pattern) then CellSum(facts, countries[0], s) else 0)
      + FilteredSum(facts, countries[1..], year, s, pattern)
  }

  /** The cells of subsector `s` in the columns of one year named exactly
      `name`. */
  function NamedSum(facts: seq<Fact<string>>, countries: seq<string>, year: string, s: string, name: string): int {
    if countries == [] then 0
    else
      (if ColumnName(year, countries[0]) == name then CellSum(facts, countries[0], s) else 0)
      + NamedSum(facts, countries[1..], year, s, name)
  }

  /** Lines 720-721 as written. The `year1` total of subsector `s` sums
      every column whose name contains `year1 + "("`, in both years. Line
      720 then stores it under the label `year1`: a new column, or, when
      `year1` already names a `year2` column (`year2 + "(" + c + ")"`),
      that column overwritten. The `year2` total sums every column whose
      name contains `year2 + "("`, the `year1` column among them when its
      label matches, and the overwritten cell no longer counts. (A `year1`
      label equal to "SUBSECTOR" would overwrite the key column instead;
      no filter pattern matches that name, so the totals stay as here.) */
  function YearTotalsAsWritten(facts1: seq<Fact<string>>, facts2: seq<Fact<string>>,
                               year1: string, year2: string, s: string): (int, int) {
    var cs1, cs2 := Countries(facts1), Countries(facts2);
    var p1, p2 := year1 + "(", year2 + "(";
    var t1 := FilteredSum(facts1, cs1, year1, s, p1) + FilteredSum(facts2, cs2, year2, s, p1);
    var t2 := FilteredSum(facts1, cs1, year1, s, p2) + FilteredSum(facts2, cs2, year2, s, p2)
              - NamedSum(facts2, cs2, year2, s, year1)
              + (if Contains(year1, p2) then t1 else 0);
    (t1, t2)
  }

  /** The totals lines 720-721 are meant to compute: subsector `s` summed
      over the country columns of its own year only. */
  function YearTotals(facts1: seq<Fact<string>>, facts2: seq<Fact<string>>, s: string): (int, int) {
    (SumOverRows(facts1, Countries(facts1), s), SumOverRows(facts2, Countries(facts2), s))
  }

  /** The intended totals are the subsector's exports in each year, over
      every row with a destination country. */
  lemma YearTotalsAreExports(facts1: seq<Fact<string>>, facts2: seq<Fact<string>>, s: string)
    ensures YearTotals(facts1, facts2, s) == (ColumnTotal(facts1, s), ColumnTotal(facts2, s))
  {
    LexLessIsStrictTotalOrder();
    SortUniqueSpec(RowLabels(facts1), LexLess);
    SortUniqueSpec(RowLabels(facts2), LexLess);
    forall i | 0 <= i < |facts1| ensures facts1[i].row in Countries(facts1) {
      assert RowLabels(facts1)[i] == facts1[i].row;
    }
    forall i | 0 <= i < |facts2| ensures facts2[i].row in Countries(facts2) {
      assert RowLabels(facts2)[i] == facts2[i].row;
    }
    SumOverRowsCovers(facts1, Countries(facts1), s);
    SumOverRowsCovers(facts2, Countries(facts2), s);
  }

  lemma {:induction false} FilteredSumAll(facts: seq<Fact<string>>, countries: seq<string>, year: string, s: string, pattern: string)
    requires forall c | c in countries :: Contains(ColumnName(year, c), pattern)
    ensures FilteredSum(facts, countries, year, s, pattern) == SumOverRows(facts, countries, s)
  {
    if countries != [] {
      FilteredSumAll(facts, countries[1..], year, s, pattern);
    }
  }

  lemma {:induction false} FilteredSumNone(facts: seq<Fact<string>>, countries: seq<string>, year: string, s: string, pattern: string)
    requires forall c | c in countries :: !Contains(ColumnName(year, c), pattern)
    ensures FilteredSum(facts, countries, year, s, pattern) == 0
  {
    if countries != [] {
      FilteredSumNone(facts, countries[1..], year, s, pattern);
    }
  }

  lemma {:induction false} NamedSumNone(facts: seq<Fact<string>>, countries: seq<string>, year: string, s: string, name: string)
    requires forall c | c in countries :: ColumnName(year, c) != name
    ensures NamedSum(facts, countries, year, s, name) == 0
  {
    if countries != [] {
      NamedSumNone(facts, countries[1..], year, s, name);
    }
  }

  /** Every column of a year holds its own `year + "("` at its start. */
  lemma OwnPattern(year: string, countries: seq<string>)
    ensures forall c | c in countries :: Contains(ColumnName(year, c), year + "(")
  {
    forall c | c in countries ensures Contains(ColumnName(year, c), year + "(") {
      assert ColumnName(year, c) == (year + "(") + (c + ")");
    }
  }

  /** As long as no column name of one year contains the other year's
      pattern (and the `year1` label does not contain `year2 + "("`, so
      it names no `year2` column either), the code computes the intended
      totals. */
  lemma AsWrittenAgrees(facts1: seq<Fact<string>>, facts2: seq<Fact<string>>, year1: string, year2: string, s: string)
    requires forall c | c in Countries(facts2) :: !Contains(ColumnName(year2, c), year1 + "(")
    requires forall c | c in Countries(facts1) :: !Contains(ColumnName(year1, c), year2 + "(")
    requires !Contains(year1, year2 + "(")
    ensures YearTotalsAsWritten(facts1, facts2, year1, year2, s) == YearTotals(facts1, facts2, s)
  {
    OwnPattern(year1, Countries(facts1));
    OwnPattern(year2, Countries(facts2));
    FilteredSumAll(facts1, Countries(facts1), year1, s, year1 + "(");
    FilteredSumNone(facts2, Countries(facts2), year2, s, year1 + "(");
    FilteredSumNone(facts1, Countries(facts1), year1, s, year2 + "(");
    FilteredSumAll(facts2, Countries(facts2), year2, s, year2 + "(");
    NamedSumNone(facts2, Countries(facts2), year2, s, year1);
  }

  /** The one-record data set of the discrepancy, split by year. */
  lemma SingleRecordFacts(y: string, p: string, s: string, c: string, v: int)
    ensures var records := [ExportRecord(Some(s), Some(c), y + "(" + p, v)];
            && YearFacts(records, y) == []
            && YearFacts(records, y + "(" + p) == [Fact(c, s, v)]
  {
    var y2 := y + "(" + p;
    var records := [ExportRecord(Some(s), Some(c), y2, v)];
    assert y2 != y by {
      assert |y2| > |y|;
    }
    assert records[1..] == [];
  }

  /** A single fact: its country is the only column, and its cell is `v`. */
  lemma SingleFactSums(y: string, y2: string, s: string, c: string, v: int)
    requires Contains(ColumnName(y2, c), y + "(")
    ensures Countries([Fact(c, s, v)]) == [c]
    ensures FilteredSum([Fact(c, s, v)], [c], y2, s, y + "(") == v
    ensures SumOverRows([], Countries([]), s) == 0
  {
    var facts := [Fact(c, s, v)];
    var labels := RowLabels(facts);
    assert labels == [c];
    assert labels[1..] == [];
    assert Countries(facts) == InsertUnique(c, SortUnique([], LexLess), LexLess) == [c];
    assert facts[1..] == [];
    assert CellSum(facts, c, s) == v + CellSum([], c, s);
    assert FilteredSum(facts, [c], y2, s, y + "(") == v + FilteredSum(facts, [], y2, s, y + "(");
    assert Countries([]) == [];
  }

  /** The `year1` total as written, on its own. */
  lemma AsWrittenFirst(facts1: seq<Fact<string>>, facts2: seq<Fact<string>>, year1: string, year2: string, s: string)
    ensures YearTotalsAsWritten(facts1, facts2, year1, year2, s).0
         == FilteredSum(facts1, Countries(facts1), year1, s, year1 + "(")
          + FilteredSum(facts2, Countries(facts2), year2, s, year1 + "(")
  {
  }

  /** A text contains each of its prefixes. */
  lemma PrefixContains(a: string, b: string)
    ensures Contains(a + b, a)
  {
    assert a <= a + b;
  }

  /** The discrepancy: with `year1` = Y and `year2` = Y(P), a single
      `year2` row (subsector S, country C, value v) has no `year1` data,
      yet the code's `year1` total for S is v, because "Y(P)(C)" contains
      "Y(". The intended `year1` total is 0. */
  lemma SubperiodCountedTwice(y: string, p: string, s: string, c: string, v: int)
    requires v != 0
    ensures var records := [ExportRecord(Some(s), Some(c), y + "(" + p, v)];
            && YearFacts(records, y) == []
            && YearFacts(records, y + "(" + p) == [Fact(c, s, v)]
    ensures YearTotalsAsWritten([], [Fact(c, s, v)], y, y + "(" + p, s).0 == v
    ensures YearTotals([], [Fact(c, s, v)], s).0 == 0
  {
    var y2 := y + "(" + p;
    SingleRecordFacts(y, p, s, c, v);
    var facts1: seq<Fact<string>>, facts2 := [], [Fact(c, s, v)];
    assert ColumnName(y2, c) == (y + "(") + (p + "(" + c + ")");
    PrefixContains(y + "(", p + "(" + c + ")");
    SingleFactSums(y, y2, s, c, v);
    AsWrittenFirst(facts1, facts2, y, y2, s);
    assert Countries(facts1) == [];
    assert FilteredSum(facts1, [], y, s, y + "(") == 0;
  }

  // -----------------------------------------------------------------------
  // The table

  /** A row of the table before it is written out. */
  datatype SubsectorRow = SubsectorRow(subsector: string, v1: int, v2: int, diff: int, variation: Pct)

  function DiffOf(r: SubsectorRow): int {
    r.diff
  }

  /** Lines 724-725: difference, and variation over a base of 0 is nan. */
  function SubsectorRowOf(facts1: seq<Fact<string>>, facts2: seq<Fact<string>>, s: string): SubsectorRow {
    var t := YearTotals(facts1, facts2, s);
    SubsectorRow(s, t.0, t.1, t.1 - t.0, NullSafeRatio(t.1 - t.0, t.0))
  }

  function JoinedRows(facts1: seq<Fact<string>>, facts2: seq<Fact<string>>, subs: seq<string>): (r: seq<SubsectorRow>)
    ensures |r| == |subs|
  {
    seq(|subs|, i requires 0 <= i < |subs| => SubsectorRowOf(facts1, facts2, subs[i]))
  }

  /** Lines 704-731 with the intended totals: the five subsectors with
      the largest difference, or a ValueError when the two pivots share
      a column name. */
  function BuildSubsectors(records: seq<ExportRecord>, year1: string, year2: string): (r: Result<seq<SubsectorRow>>)
    ensures r.Err? <==> ColumnsOverlap(year1, Countries(YearFacts(records, year1)),
                                       year2, Countries(YearFacts(records, year2)))
    ensures r.Ok? ==> |r.value| == Min(5, |JoinedSubsectors(YearFacts(records, year1), YearFacts(records, year2))|)
  {
    var facts1, facts2 := YearFacts(records, year1), YearFacts(records, year2);
    var all := JoinedRows(facts1, facts2, JoinedSubsectors(facts1, facts2));
    LargestOrdered(all, 5, DiffOf);
    if ColumnsOverlap(year1, Countries(facts1), year2, Countries(facts2)) then Err(ValueError)
    else Ok(Largest(all, 5, DiffOf))
  }

  /** Each joined row is a subsector of either year with its exports of
      each year and their difference. */
  lemma JoinedRowsTotals(facts1: seq<Fact<string>>, facts2: seq<Fact<string>>, x: SubsectorRow)
    requires x in JoinedRows(facts1, facts2, JoinedSubsectors(facts1, facts2))
    ensures x.subsector in ColLabels(facts1) || x.subsector in ColLabels(facts2)
    ensures x.v1 == ColumnTotal(facts1, x.subsector) && x.v2 == ColumnTotal(facts2, x.subsector)
    ensures x.diff == x.v2 - x.v1
    ensures x.variation == NullSafeRatio(x.diff, x.v1)
  {
    var subs := JoinedSubsectors(facts1, facts2);
    var all := JoinedRows(facts1, facts2, subs);
    LexLessIsStrictTotalOrder();
    SortUniqueSpec(ColLabels(facts1) + ColLabels(facts2), LexLess);
    var k :| 0 <= k < |all| && all[k] == x;
    assert subs[k] in ColLabels(facts1) + ColLabels(facts2);
    YearTotalsAreExports(facts1, facts2, subs[k]);
  }

  /** Lines 704-731: every row is a subsector of either year, with its
      exports of each year and their difference; at most five rows,
      largest difference first, none smaller than a subsector left out. */
  lemma SubsectorsRanked(records: seq<ExportRecord>, year1: string, year2: string)
    requires BuildSubsectors(records, year1, year2).Ok?
    ensures var rows := BuildSubsectors(records, year1, year2).value;
            var facts1, facts2 := YearFacts(records, year1), YearFacts(records, year2);
            var all := JoinedRows(facts1, facts2, JoinedSubsectors(facts1, facts2));
            && multiset(rows) <= multiset(all)
            && (forall i, k | 0 <= i < k < |rows| :: rows[i].diff >= rows[k].diff)
            && (forall y, x | y in all && x in rows && multiset(rows)[y] < multiset(all)[y] :: y.diff <= x.diff)
            && (forall x | x in rows ::
                  && (x.subsector in ColLabels(facts1) || x.subsector in ColLabels(facts2))
                  && x.v1 == ColumnTotal(facts1, x.subsector)
                  && x.v2 == ColumnTotal(facts2, x.subsector)
                  && x.diff == x.v2 - x.v1
                  && x.variation == NullSafeRatio(x.diff, x.v1))
  {
    var facts1, facts2 := YearFacts(records, year1), YearFacts(records, year2);
    var all := JoinedRows(facts1, facts2, JoinedSubsectors(facts1, facts2));
    var rows := Largest(all, 5, DiffOf);
    LargestOrdered(all, 5, DiffOf);
    forall y, x | y in all && x in rows && multiset(rows)[y] < multiset(all)[y] ensures y.diff <= x.diff {
      LargestDominates(all, 5, DiffOf, y, x);
    }
    forall x | x in rows
      ensures x.subsector in ColLabels(facts1) || x.subsector in ColLabels(facts2)
      ensures x.v1 == ColumnTotal(facts1, x.subsector) && x.v2 == ColumnTotal(facts2, x.subsector)
      ensures x.diff == x.v2 - x.v1
      ensures x.variation == NullSafeRatio(x.diff, x.v1)
    {
      assert x in multiset(all);
      JoinedRowsTotals(facts1, facts2, x);
    }
  }

  /** Lines 704-731 as written: whenever no column of one year matches the
      other year's `filter(like=...)` pattern, every row of the table holds
      exactly the totals the code's substring filter computes. */
  lemma SubsectorsAsWritten(records: seq<ExportRecord>, year1: string, year2: string)
    requires BuildSubsectors(records, year1, year2).Ok?
    requires forall c | c in Countries(YearFacts(records, year2)) :: !Contains(ColumnName(year2, c), year1 + "(")
    requires forall c | c in Countries(YearFacts(records, year1)) :: !Contains(ColumnName(year1, c), year2 + "(")
    requires !Contains(year1, year2 + "(")
    ensures var facts1, facts2 := YearFacts(records, year1), YearFacts(records, year2);
            forall x | x in BuildSubsectors(records, year1, year2).value ::
              (x.v1, x.v2) == YearTotalsAsWritten(facts1, facts2, year1, year2, x.subsector)
  {
    var facts1, facts2 := YearFacts(records, year1), YearFacts(records, year2);
    var all := JoinedRows(facts1, facts2, JoinedSubsectors(facts1, facts2));
    var rows := BuildSubsectors(records, year1, year2).value;
    LargestOrdered(all, 5, DiffOf);
    forall x | x in rows ensures (x.v1, x.v2) == YearTotalsAsWritten(facts1, facts2, year1, year2, x.subsector) {
      assert x in multiset(all);
      var k :| 0 <= k < |all| && all[k] == x;
      AsWrittenAgrees(facts1, facts2, year1, year2, x.subsector);
    }
  }

  // -----------------------------------------------------------------------
  // Writing the table out

  /** Lines 734-741, the `rename` dictionary in its written order. */
  function SubsectorRenames(year1: string, year2: string): (r: Result<map<string, string>>)
    ensures r.Ok? <==> TransformYearColumnName(year1).Ok? && TransformYearColumnName(year2).Ok?
  {
    var a :- TransformYearColumnName(year1);
    var b :- TransformYearColumnName(year2);
    Ok(map["SUBSECTOR" := "Subsector"][year1 := a + " (USD FOB)"][year2 := b + " (USD FOB)"]
          ["Diferencia" := "Diferencia (USD FOB)"]["Variación (%)" := "Variación (%)"])
  }

  /** Line 728: the columns before renaming. */
  function SubsectorColumns(year1: string, year2: string): seq<string> {
    ["SUBSECTOR", year1, year2, "Diferencia", "Variación (%)"]
  }

  /** Lines 744-747: a row's cells before the separator swap. */
  function SubsectorCells(r: SubsectorRow): (c: seq<string>)
    ensures |c| == 5
  {
    [r.subsector, FormatThousands(r.v1), FormatThousands(r.v2), FormatThousands(r.diff), FormatPercent(r.variation)]
  }

  function SubsectorRawCells(rows: seq<SubsectorRow>): (r: seq<seq<string>>)
    ensures |r| == |rows| && forall i | 0 <= i < |r| :: |r[i]| == 5
  {
    seq(|rows|, i requires 0 <= i < |rows| => SubsectorCells(rows[i]))
  }

  /** `generar_tabla_subsectores` as a value. */
  function SubsectorTable(records: seq<ExportRecord>, year1: string, year2: string): (r: Result<Table>)
    ensures r.Ok? <==> && !ColumnsOverlap(year1, Countries(YearFacts(records, year1)),
                                          year2, Countries(YearFacts(records, year2)))
                       && TransformYearColumnName(year1).Ok?
                       && TransformYearColumnName(year2).Ok?
    ensures r.Err? ==> r == Err(ValueError)
  {
    var rows :- BuildSubsectors(records, year1, year2);
    var m :- SubsectorRenames(year1, year2);
    Ok(Table(Renamed(SubsectorColumns(year1, year2), m), SwappedFrom(SubsectorRawCells(rows), 1)))
  }

  /** The fixed columns of `SubsectorColumns` under the renaming. */
  lemma SubsectorRenameFixed(year1: string, year2: string)
    requires SubsectorRenames(year1, year2).Ok?
    requires year1 !in {"SUBSECTOR", "Diferencia", "Variación (%)"}
    requires year2 !in {"SUBSECTOR", "Diferencia", "Variación (%)"}
    ensures var m := SubsectorRenames(year1, year2).value;
            && RenameOf("SUBSECTOR", m) == "Subsector"
            && RenameOf("Diferencia", m) == "Diferencia (USD FOB)"
            && RenameOf("Variación (%)", m) == "Variación (%)"
  {
    assert |"SUBSECTOR"| == 9 && |"Diferencia"| == 10 && |"Variación (%)"| == 13;
  }

  /** The two year columns under the renaming. */
  lemma SubsectorRenameYears(year1: string, year2: string)
    requires SubsectorRenames(year1, year2).Ok?
    requires year1 != year2
    requires year1 !in {"Diferencia", "Variación (%)"}
    requires year2 !in {"Diferencia", "Variación (%)"}
    ensures var m := SubsectorRenames(year1, year2).value;
            && RenameOf(year1, m) == TransformYearColumnName(year1).value + " (USD FOB)"
            && RenameOf(year2, m) == TransformYearColumnName(year2).value + " (USD FOB)"
  {
  }

  /** On distinct year labels other than the fixed column names, the
      header reads Subsector, the two years as "P Y (USD FOB)", the
      difference and the variation. */
  lemma SubsectorHeader(year1: string, year2: string)
    requires SubsectorRenames(year1, year2).Ok?
    requires year1 != year2
    requires year1 !in {"SUBSECTOR", "Diferencia", "Variación (%)"}
    requires year2 !in {"SUBSECTOR", "Diferencia", "Variación (%)"}
    ensures Renamed(SubsectorColumns(year1, year2), SubsectorRenames(year1, year2).value)
         == ["Subsector",
             TransformYearColumnName(year1).value + " (USD FOB)",
             TransformYearColumnName(year2).value + " (USD FOB)",
             "Diferencia (USD FOB)",
             "Variación (%)"]
  {
    SubsectorRenameFixed(year1, year2);
    SubsectorRenameYears(year1, year2);
    var m := SubsectorRenames(year1, year2).value;
    var cols := SubsectorColumns(year1, year2);
    var r := Renamed(cols, m);
    assert r[0] == RenameOf(cols[0], m) && r[1] == RenameOf(cols[1], m) && r[2] == RenameOf(cols[2], m);
    assert r[3] == RenameOf(cols[3], m) && r[4] == RenameOf(cols[4], m);
  }

  lemma AmountReadBack(n: int, cell: string)
    requires cell == SwapSeparators(FormatThousands(n))
    ensures IsGroupedNumber(cell, '.') && ReadGroupedNumber(cell, '.') == n
  {
    SpanishThousands(n);
  }

  lemma RowAmountsReadBack(r: SubsectorRow, t: seq<string>)
    requires t == SwapRange(SubsectorCells(r), 1, 5)
    ensures t[0] == r.subsector
    ensures IsGroupedNumber(t[1], '.') && ReadGroupedNumber(t[1], '.') == r.v1
    ensures IsGroupedNumber(t[2], '.') && ReadGroupedNumber(t[2], '.') == r.v2
    ensures IsGroupedNumber(t[3], '.') && ReadGroupedNumber(t[3], '.') == r.diff
  {
    var cells := SubsectorCells(r);
    assert cells[1] == FormatThousands(r.v1) && cells[2] == FormatThousands(r.v2) && cells[3] == FormatThousands(r.diff);
    AmountReadBack(r.v1, t[1]);
    AmountReadBack(r.v2, t[2]);
    AmountReadBack(r.diff, t[3]);
  }

  /** Lines 744-752: the subsector cell is left as it is and the three
      amounts read back with '.' between thousands. */
  lemma SubsectorAmountsReadBack(rows: seq<SubsectorRow>)
    ensures var t := SwappedFrom(SubsectorRawCells(rows), 1);
            && |t| == |rows|
            && (forall i | 0 <= i < |rows| :: t[i][0] == rows[i].subsector)
            && (forall i | 0 <= i < |rows| ::
                  && IsGroupedNumber(t[i][1], '.') && ReadGroupedNumber(t[i][1], '.') == rows[i].v1
                  && IsGroupedNumber(t[i][2], '.') && ReadGroupedNumber(t[i][2], '.') == rows[i].v2
                  && IsGroupedNumber(t[i][3], '.') && ReadGroupedNumber(t[i][3], '.') == rows[i].diff)
  {
    var t := SwappedFrom(SubsectorRawCells(rows), 1);
    forall i | 0 <= i < |rows|
      ensures t[i][0] == rows[i].subsector
      ensures IsGroupedNumber(t[i][1], '.') && ReadGroupedNumber(t[i][1], '.') == rows[i].v1
      ensures IsGroupedNumber(t[i][2], '.') && ReadGroupedNumber(t[i][2], '.') == rows[i].v2
      ensures IsGroupedNumber(t[i][3], '.') && ReadGroupedNumber(t[i][3], '.') == rows[i].diff
    {
      var raw := SubsectorRawCells(rows);
      assert raw[i] == SubsectorCells(rows[i]);
      assert t[i] == SwapRange(raw[i], 1, 5);
      RowAmountsReadBack(rows[i], t[i]);
    }
  }

  /** Lines 747 and 752: a finite variation reads back with ',' as
      decimal mark; nan and inf are left as they are. */
  lemma SubsectorVariationReadBack(rows: seq<SubsectorRow>)
    ensures var t := SwappedFrom(SubsectorRawCells(rows), 1);
            && |t| == |rows|
            && (forall i | 0 <= i < |rows| && rows[i].variation.Finite? ::
                  IsDecimalPercent(t[i][4], ',') && ReadTenths(t[i][4], ',') == Tenths(rows[i].variation))
            && (forall i | 0 <= i < |rows| && !rows[i].variation.Finite? ::
                  t[i][4] == FormatPercent(rows[i].variation))
  {
    var t := SwappedFrom(SubsectorRawCells(rows), 1);
    forall i | 0 <= i < |rows|
      ensures rows[i].variation.Finite? ==>
                IsDecimalPercent(t[i][4], ',') && ReadTenths(t[i][4], ',') == Tenths(rows[i].variation)
      ensures !rows[i].variation.Finite? ==> t[i][4] == FormatPercent(rows[i].variation)
    {
      SpanishPercent(rows[i].variation);
      assert t[i][4] == SwapSeparators(FormatPercent(rows[i].variation));
    }
  }

  /** `generar_tabla_subsectores` on a frame: the rows are built, the frame
      is renamed in place and its columns from the second on are rewritten
      with the separator swap (lines 750-752). */
  method GenerateSubsectors(records: seq<ExportRecord>, year1: string, year2: string) returns (r: Result<Frame>)
    ensures r.Ok? <==> SubsectorTable(records, year1, year2).Ok?
    ensures r.Err? ==> SubsectorTable(records, year1, year2) == Err(r.error)
    ensures r.Ok? ==> r.value.Valid() && SubsectorTable(records, year1, year2) == Ok(r.value.View())
  {
    var built := BuildSubsectors(records, year1, year2);
    if built.Err? {
      return Err(built.error);
    }
    var renames := SubsectorRenames(year1, year2);
    if renames.Err? {
      return Err(renames.error);
    }
    var frame := new Frame(SubsectorColumns(year1, year2), SubsectorRawCells(built.value));
    frame.Rename(renames.value);
    frame.ConvertSeparators(1);
    return Ok(frame);
  }
}
