/** `generar_tabla_empresas` (datos_exportaciones.py, lines 562-674): the
    five companies exporting most in `year2`, an "Otros" row with what the
    per-year totals leave after them, and a "Total" row taken from those
    totals; values in USD FOB with Spanish separators. */
module Companies {
  import opened Common
  import opened Ordering
  import opened Selection
  import opened YearLabels
  import opened Formatting
  import opened Pivot
  import opened Frames

  /** A row of the company data: the three key columns (null allowed),
      the YEAR label and VALOR_USD. */
  datatype CompanyRecord = CompanyRecord(nit: Option<string>, name: Option<string>, sector: Option<string>,
                                         year: string, value: int)

  /** The pivot's input: rows with a null key column are dropped. */
  function CompanyFacts(records: seq<CompanyRecord>): seq<Fact<Entity>> {
    if records == [] then []
    else
      var r := records[0];
      (if r.nit.Some? && r.name.Some? && r.sector.Some?
       then [Fact(Entity(r.nit.value, r.name.value, r.sector.value), r.year, r.value)]
       else [])
      + CompanyFacts(records[1..])
  }

  /** The pivot index: every company once, sorted by NIT, name, sector. */
  function Companies(facts: seq<Fact<Entity>>): seq<Entity> {
    SortUnique(RowLabels(facts), EntityLess)
  }

  /** A row of the table before it is written out. */
  datatype CompanyRow = CompanyRow(nit: string, name: string, sector: string,
                                   v1: int, v2: int, variation: Pct, share: Pct)

  function V1Of(r: CompanyRow): int {
    r.v1
  }

  function V2Of(r: CompanyRow): int {
    r.v2
  }

  /** Lines 592-605: the row of company `e`; a year with no data is 0
      (lines 595-598); share of the companies' total in `year2` with no
      guard against zero (lines 601-602); variation over a base of 0 is
      nan (line 605). */
  function CompanyRowOf(facts: seq<Fact<Entity>>, e: Entity, year1: string, year2: string, total2: int): CompanyRow {
    var v1, v2 := CellSum(facts, e, year1), CellSum(facts, e, year2);
    CompanyRow(e.nit, e.name, e.sector, v1, v2, NullSafeRatio(v2 - v1, v1), Ratio(v2, total2))
  }

  function RowsOf(facts: seq<Fact<Entity>>, ents: seq<Entity>, year1: string, year2: string, total2: int)
    : (r: seq<CompanyRow>)
    ensures |r| == |ents|
  {
    seq(|ents|, i requires 0 <= i < |ents| => CompanyRowOf(facts, ents[i], year1, year2, total2))
  }

  /** Lines 592-611: one row per company, shares of the companies' total. */
  function PivotRows(facts: seq<Fact<Entity>>, ents: seq<Entity>, year1: string, year2: string): (r: seq<CompanyRow>)
    ensures |r| == |ents|
  {
    RowsOf(facts, ents, year1, year2, SumOverRows(facts, ents, year2))
  }

  /** Line 614: `nlargest(5, year2)`. */
  function TopFive(rows: seq<CompanyRow>): seq<CompanyRow> {
    Largest(rows, 5, V2Of)
  }

  /** Lines 617-649. The totals table must hold `year2` (`.values[0]` of an
      empty selection is an IndexError); a missing `year1` counts as 0.
      "Otros" is the totals minus the five companies; "Total" carries the
      totals and a fixed 100.0 in both percentage columns. */
  function BuildCompanies(records: seq<CompanyRecord>, totals: map<string, int>, year1: string, year2: string)
    : (r: Result<seq<CompanyRow>>)
    ensures r.Err? <==> year2 !in totals
    ensures r.Ok? ==> |r.value| == Min(5, |Companies(CompanyFacts(records))|) + 2
  {
    var facts := CompanyFacts(records);
    var top := TopFive(PivotRows(facts, Companies(facts), year1, year2));
    LargestOrdered(PivotRows(facts, Companies(facts), year1, year2), 5, V2Of);
    if year2 !in totals then Err(IndexError)
    else
      var t1 := if year1 in totals then totals[year1] else 0;
      var t2 := totals[year2];
      var o1, o2 := t1 - SumBy(top, V1Of), t2 - SumBy(top, V2Of);
      var otros := CompanyRow("Otros", "", "", o1, o2, NullSafeRatio(o2 - o1, o1), Ratio(o2, t2));
      var total := CompanyRow("Total", "", "", t1, t2, Finite(100, 1), Finite(100, 1));
      Ok(top + [otros, total])
  }

  // -----------------------------------------------------------------------
  // Properties

  /** Lines 614 and 649: at most five companies, each a row of the
      pivot, largest `year2` first, none smaller than a company left out;
      then "Otros", then "Total". */
  lemma CompaniesRanked(records: seq<CompanyRecord>, totals: map<string, int>, year1: string, year2: string)
    requires BuildCompanies(records, totals, year1, year2).Ok?
    ensures var rows := BuildCompanies(records, totals, year1, year2).value;
            var facts := CompanyFacts(records);
            var all := PivotRows(facts, Companies(facts), year1, year2);
            var n := |rows| - 2;
            && rows[..n] == TopFive(all)
            && multiset(rows[..n]) <= multiset(all)
            && (forall i, k | 0 <= i < k < n :: rows[i].v2 >= rows[k].v2)
            && (forall y, x | y in all && x in rows[..n] && multiset(rows[..n])[y] < multiset(all)[y] :: y.v2 <= x.v2)
            && rows[n].nit == "Otros" && rows[n + 1].nit == "Total"
  {
    var facts := CompanyFacts(records);
    var all := PivotRows(facts, Companies(facts), year1, year2);
    var rows := BuildCompanies(records, totals, year1, year2).value;
    var top := TopFive(all);
    LargestOrdered(all, 5, V2Of);
    assert rows[..|rows| - 2] == top;
    forall y, x | y in all && x in top && multiset(top)[y] < multiset(all)[y] ensures y.v2 <= x.v2 {
      LargestDominates(all, 5, V2Of, y, x);
    }
  }

  /** Lines 639-641: the five companies and "Otros" add up to "Total" in
      both years. */
  lemma OtrosCompletesTotal(records: seq<CompanyRecord>, totals: map<string, int>, year1: string, year2: string)
    requires BuildCompanies(records, totals, year1, year2).Ok?
    ensures var rows := BuildCompanies(records, totals, year1, year2).value;
            var n := |rows| - 2;
            && SumBy(rows[..n + 1], V1Of) == rows[n + 1].v1
            && SumBy(rows[..n + 1], V2Of) == rows[n + 1].v2
            && rows[n + 1].v1 == (if year1 in totals then totals[year1] else 0)
            && rows[n + 1].v2 == totals[year2]
  {
    var rows := BuildCompanies(records, totals, year1, year2).value;
    var n := |rows| - 2;
    assert rows[..n + 1] == rows[..n] + [rows[n]];
    SumByAppend(rows[..n], [rows[n]], V1Of);
    SumByAppend(rows[..n], [rows[n]], V2Of);
  }

  /** The companies' column in `year2` sums to the pivot's grand total. */
  lemma {:induction false} PivotRowsSum(facts: seq<Fact<Entity>>, ents: seq<Entity>, year1: string, year2: string, total2: int)
    ensures SumBy(RowsOf(facts, ents, year1, year2, total2), V2Of) == SumOverRows(facts, ents, year2)
  {
    if ents != [] {
      PivotRowsSum(facts, ents[1..], year1, year2, total2);
      assert RowsOf(facts, ents, year1, year2, total2)[1..] == RowsOf(facts, ents[1..], year1, year2, total2);
    }
  }

  /** When the totals table agrees with the company data in `year2`,
      "Otros" in `year2` is exactly what the companies outside the top
      five export. */
  lemma OtrosIsTheRest(records: seq<CompanyRecord>, totals: map<string, int>, year1: string, year2: string)
    requires BuildCompanies(records, totals, year1, year2).Ok?
    requires totals[year2] == ColumnTotal(CompanyFacts(records), year2)
    ensures var rows := BuildCompanies(records, totals, year1, year2).value;
            var facts := CompanyFacts(records);
            var all := PivotRows(facts, Companies(facts), year1, year2);
            rows[|rows| - 2].v2 == SumBy(all, V2Of) - SumBy(TopFive(all), V2Of)
  {
    var facts := CompanyFacts(records);
    var ents := Companies(facts);
    EntityLessIsStrictTotalOrder();
    SortUniqueSpec(RowLabels(facts), EntityLess);
    forall i | 0 <= i < |facts| ensures facts[i].row in ents {
      assert RowLabels(facts)[i] == facts[i].row;
    }
    SumOverRowsCovers(facts, ents, year2);
    PivotRowsSum(facts, ents, year1, year2, SumOverRows(facts, ents, year2));
  }

  /** Lines 601-605 for one row: the variation is the change over `year1`,
      nan when `year1` is 0, and the share is the `year2` value over
      `total2`. */
  predicate CompanyPercentagesOf(r: CompanyRow, total2: int) {
    && r.variation == NullSafeRatio(r.v2 - r.v1, r.v1)
    && r.share == Ratio(r.v2, total2)
  }

  /** The pivot rows of the top five keep the percentages lines 601-605
      gave them, over the pivot's grand total in `year2`. */
  lemma TopFivePercentages(facts: seq<Fact<Entity>>, ents: seq<Entity>, year1: string, year2: string)
    ensures var top := TopFive(PivotRows(facts, ents, year1, year2));
            forall i | 0 <= i < |top| :: CompanyPercentagesOf(top[i], SumOverRows(facts, ents, year2))
  {
    var total2 := SumOverRows(facts, ents, year2);
    var all := PivotRows(facts, ents, year1, year2);
    var top := TopFive(all);
    LargestOrdered(all, 5, V2Of);
    forall i | 0 <= i < |top| ensures CompanyPercentagesOf(top[i], total2) {
      assert top[i] in multiset(all);
      var k :| 0 <= k < |all| && all[k] == top[i];
      assert all[k] == CompanyRowOf(facts, ents[k], year1, year2, total2);
    }
  }

  /** Lines 601-605, 621-622 and 645-646: each of the five companies has
      its variation over `year1` (nan on a base of 0) and its share of the
      companies' total exports in `year2`; "Otros" has its own variation
      and its share of the "Total" row's `year2` value; "Total" has a fixed
      100.0 in both columns, whatever the shares add up to. */
  lemma CompanyPercentages(records: seq<CompanyRecord>, totals: map<string, int>, year1: string, year2: string)
    requires BuildCompanies(records, totals, year1, year2).Ok?
    ensures var rows := BuildCompanies(records, totals, year1, year2).value;
            var n := |rows| - 2;
            && (forall i | 0 <= i < n :: CompanyPercentagesOf(rows[i], ColumnTotal(CompanyFacts(records), year2)))
            && CompanyPercentagesOf(rows[n], rows[n + 1].v2)
            && rows[n + 1].variation == Finite(100, 1)
            && rows[n + 1].share == Finite(100, 1)
  {
    var facts := CompanyFacts(records);
    var ents := Companies(facts);
    EntityLessIsStrictTotalOrder();
    SortUniqueSpec(RowLabels(facts), EntityLess);
    forall i | 0 <= i < |facts| ensures facts[i].row in ents {
      assert RowLabels(facts)[i] == facts[i].row;
    }
    SumOverRowsCovers(facts, ents, year2);
    TopFivePercentages(facts, ents, year1, year2);
    var rows := BuildCompanies(records, totals, year1, year2).value;
    assert rows[..|rows| - 2] == TopFive(PivotRows(facts, ents, year1, year2));
  }

  // -----------------------------------------------------------------------
  // Writing the table out

  /** Lines 652-661, the `rename` dictionary in its written order (a later
      key replaces an earlier equal one). The helpers are called while the
      dictionary is built, so a malformed year label is a ValueError. */
  function CompanyRenames(year1: string, year2: string): (r: Result<map<string, string>>)
    ensures r.Ok? <==> TransformYearColumnName(year1).Ok? && TransformYearColumnName(year2).Ok?
  {
    var a :- TransformYearColumnName(year1);
    var b :- TransformYearColumnName(year2);
    TransformsAgree(year2);
    var c := TransformYear(year2).value;
    Ok(map["NIT_EXPORTADOR" := "NIT"]["RAZON_SOCIAL" := "Empresa"]["SECTOR_ESTRELLA" := "Sector"]
          [year1 := a + " (USD FOB)"][year2 := b + " (USD FOB)"]
          ["Variación (%)" := "Variación (%)"]["Participación (%)" := "Participación " + c + " (%)"])
  }

  /** Line 611: the columns before renaming. */
  function CompanyColumns(year1: string, year2: string): seq<string> {
    ["NIT_EXPORTADOR", "RAZON_SOCIAL", "SECTOR_ESTRELLA", year1, year2, "Variación (%)", "Participación (%)"]
  }

  /** Lines 664-667: a row's cells before the separator swap. */
  function CompanyCells(r: CompanyRow): (c: seq<string>)
    ensures |c| == 7
  {
    [r.nit, r.name, r.sector, FormatThousands(r.v1), FormatThousands(r.v2),
     FormatPercent(r.variation), FormatPercent(r.share)]
  }

  function CompanyRawCells(rows: seq<CompanyRow>): (r: seq<seq<string>>)
    ensures |r| == |rows| && forall i | 0 <= i < |r| :: |r[i]| == 7
  {
    seq(|rows|, i requires 0 <= i < |rows| => CompanyCells(rows[i]))
  }

  /** `generar_tabla_empresas` as a value. */
  function CompanyTable(records: seq<CompanyRecord>, totals: map<string, int>, year1: string, year2: string)
    : (r: Result<Table>)
    ensures r.Ok? <==> year2 in totals && TransformYearColumnName(year1).Ok? && TransformYearColumnName(year2).Ok?
  {
    var rows :- BuildCompanies(records, totals, year1, year2);
    var m :- CompanyRenames(year1, year2);
    Ok(Table(Renamed(CompanyColumns(year1, year2), m), SwappedFrom(CompanyRawCells(rows), 3)))
  }

  /** The renaming as a map display. */
  lemma CompanyRenamesMap(year1: string, year2: string)
    requires CompanyRenames(year1, year2).Ok?
    ensures TransformYear(year2).Ok?
    ensures CompanyRenames(year1, year2).value
         == map["NIT_EXPORTADOR" := "NIT"]["RAZON_SOCIAL" := "Empresa"]["SECTOR_ESTRELLA" := "Sector"]
               [year1 := TransformYearColumnName(year1).value + " (USD FOB)"]
               [year2 := TransformYearColumnName(year2).value + " (USD FOB)"]
               ["Variación (%)" := "Variación (%)"]
               ["Participación (%)" := "Participación " + TransformYear(year2).value + " (%)"]
  {
    TransformsAgree(year2);
  }

  /** The fixed columns of `CompanyColumns` under the renaming. */
  lemma CompanyRenameFixed(year1: string, year2: string)
    requires CompanyRenames(year1, year2).Ok?
    requires year1 !in {"NIT_EXPORTADOR", "RAZON_SOCIAL", "SECTOR_ESTRELLA", "Variación (%)", "Participación (%)"}
    requires year2 !in {"NIT_EXPORTADOR", "RAZON_SOCIAL", "SECTOR_ESTRELLA", "Variación (%)", "Participación (%)"}
    ensures TransformYear(year2).Ok?
    ensures var m := CompanyRenames(year1, year2).value;
            && RenameOf("NIT_EXPORTADOR", m) == "NIT"
            && RenameOf("RAZON_SOCIAL", m) == "Empresa"
            && RenameOf("SECTOR_ESTRELLA", m) == "Sector"
            && RenameOf("Variación (%)", m) == "Variación (%)"
            && RenameOf("Participación (%)", m) == "Participación " + TransformYear(year2).value + " (%)"
  {
    CompanyRenamesMap(year1, year2);
    assert |"NIT_EXPORTADOR"| == 14 && |"RAZON_SOCIAL"| == 12 && |"SECTOR_ESTRELLA"| == 15;
    assert |"Variación (%)"| == 13 && |"Participación (%)"| == 17;
  }

  /** The two year columns under the renaming. */
  lemma CompanyRenameYears(year1: string, year2: string)
    requires CompanyRenames(year1, year2).Ok?
    requires year1 != year2
    requires year1 !in {"Variación (%)", "Participación (%)"}
    requires year2 !in {"Variación (%)", "Participación (%)"}
    ensures var m := CompanyRenames(year1, year2).value;
            && RenameOf(year1, m) == TransformYearColumnName(year1).value + " (USD FOB)"
            && RenameOf(year2, m) == TransformYearColumnName(year2).value + " (USD FOB)"
  {
    CompanyRenamesMap(year1, year2);
  }

  /** On distinct year labels the header reads NIT, Empresa, Sector, the
      two years as "P Y (USD FOB)", the variation and the share of the
      bare `year2`. */
  lemma CompanyHeader(year1: string, year2: string)
    requires CompanyRenames(year1, year2).Ok?
    requires year1 != year2
    requires year1 !in {"NIT_EXPORTADOR", "RAZON_SOCIAL", "SECTOR_ESTRELLA", "Variación (%)", "Participación (%)"}
    requires year2 !in {"NIT_EXPORTADOR", "RAZON_SOCIAL", "SECTOR_ESTRELLA", "Variación (%)", "Participación (%)"}
    ensures Renamed(CompanyColumns(year1, year2), CompanyRenames(year1, year2).value)
         == ["NIT", "Empresa", "Sector",
             TransformYearColumnName(year1).value + " (USD FOB)",
             TransformYearColumnName(year2).value + " (USD FOB)",
             "Variación (%)",
             "Participación " + TransformYear(year2).value + " (%)"]
  {
    CompanyRenameFixed(year1, year2);
    CompanyRenameYears(year1, year2);
    var m := CompanyRenames(year1, year2).value;
    var cols := CompanyColumns(year1, year2);
    var r := Renamed(cols, m);
    assert r[0] == RenameOf(cols[0], m) && r[1] == RenameOf(cols[1], m) && r[2] == RenameOf(cols[2], m);
    assert r[3] == RenameOf(cols[3], m) && r[4] == RenameOf(cols[4], m);
    assert r[5] == RenameOf(cols[5], m) && r[6] == RenameOf(cols[6], m);
  }

  /** One company row after the swap: keys as they were, amounts read back. */
  lemma CompanyRowReadBack(r: CompanyRow, c: seq<string>)
    requires c == SwapRange(CompanyCells(r), 3, 7)
    ensures |c| == 7 && c[..3] == [r.nit, r.name, r.sector]
    ensures IsGroupedNumber(c[3], '.') && ReadGroupedNumber(c[3], '.') == r.v1
    ensures IsGroupedNumber(c[4], '.') && ReadGroupedNumber(c[4], '.') == r.v2
  {
    var raw := CompanyCells(r);
    assert c[0] == r.nit && c[1] == r.name && c[2] == r.sector;
    assert c[..3] == [r.nit, r.name, r.sector];
    assert c[3] == SwapSeparators(raw[3]) && raw[3] == FormatThousands(r.v1);
    assert c[4] == SwapSeparators(raw[4]) && raw[4] == FormatThousands(r.v2);
    SpanishThousands(r.v1);
    SpanishThousands(r.v2);
  }

  /** A percentage cell after the swap: a finite value reads back to its
      tenths with ',' as decimal mark; inf and nan print as they are. */
  predicate PercentCell(cell: string, p: Pct) {
    && (p.Finite? ==> IsDecimalPercent(cell, ',') && ReadTenths(cell, ',') == Tenths(p))
    && (!p.Finite? ==> cell == FormatPercent(p))
  }

  /** One company row after the swap: the variation and share cells. */
  lemma CompanyRowPercents(r: CompanyRow, c: seq<string>)
    requires c == SwapRange(CompanyCells(r), 3, 7)
    ensures |c| == 7 && PercentCell(c[5], r.variation) && PercentCell(c[6], r.share)
  {
    var raw := CompanyCells(r);
    assert c[5] == SwapSeparators(raw[5]) && raw[5] == FormatPercent(r.variation);
    assert c[6] == SwapSeparators(raw[6]) && raw[6] == FormatPercent(r.share);
    SpanishPercent(r.variation);
    SpanishPercent(r.share);
  }

  /** Lines 664-672: the key cells are left as they are, the two value
      cells read back with '.' between thousands, and the variation and
      share cells read back with ',' as decimal mark (or print inf and
      nan as they are). */
  lemma CompanyCellsReadBack(rows: seq<CompanyRow>)
    ensures var t := SwappedFrom(CompanyRawCells(rows), 3);
            && |t| == |rows|
            && (forall i | 0 <= i < |rows| :: t[i][..3] == [rows[i].nit, rows[i].name, rows[i].sector])
            && (forall i | 0 <= i < |rows| ::
                  IsGroupedNumber(t[i][3], '.') && ReadGroupedNumber(t[i][3], '.') == rows[i].v1
                  && IsGroupedNumber(t[i][4], '.') && ReadGroupedNumber(t[i][4], '.') == rows[i].v2)
            && (forall i | 0 <= i < |rows| ::
                  PercentCell(t[i][5], rows[i].variation) && PercentCell(t[i][6], rows[i].share))
  {
    var t := SwappedFrom(CompanyRawCells(rows), 3);
    forall i | 0 <= i < |rows|
      ensures t[i][..3] == [rows[i].nit, rows[i].name, rows[i].sector]
      ensures IsGroupedNumber(t[i][3], '.') && ReadGroupedNumber(t[i][3], '.') == rows[i].v1
      ensures IsGroupedNumber(t[i][4], '.') && ReadGroupedNumber(t[i][4], '.') == rows[i].v2
      ensures PercentCell(t[i][5], rows[i].variation) && PercentCell(t[i][6], rows[i].share)
    {
      assert t[i] == SwapRange(CompanyRawCells(rows)[i], 3, 7);
      CompanyRowReadBack(rows[i], t[i]);
      CompanyRowPercents(rows[i], t[i]);
    }
  }

  /** Lines 621-622 written out: the "Total" row shows "100,0%" as its
      variation and as its share. */
  lemma CompanyTotalCells(records: seq<CompanyRecord>, totals: map<string, int>, year1: string, year2: string)
    requires BuildCompanies(records, totals, year1, year2).Ok?
    ensures var rows := BuildCompanies(records, totals, year1, year2).value;
            var t := SwappedFrom(CompanyRawCells(rows), 3);
            && |t| == |rows|
            && t[|t| - 1][5] == "100,0%" && t[|t| - 1][6] == "100,0%"
  {
    var rows := BuildCompanies(records, totals, year1, year2).value;
    var t := SwappedFrom(CompanyRawCells(rows), 3);
    var last := rows[|rows| - 1];
    CompanyPercentages(records, totals, year1, year2);
    assert last.variation == Finite(100, 1) && last.share == Finite(100, 1);
    assert t[|t| - 1] == SwapRange(CompanyCells(last), 3, 7);
    assert t[|t| - 1][5] == SwapSeparators(FormatPercent(last.variation));
    assert t[|t| - 1][6] == SwapSeparators(FormatPercent(last.share));
    HundredPercent();
  }

  /** `generar_tabla_empresas` on a frame: the rows are built, the frame
      is renamed in place and its columns from the fourth on are rewritten
      with the separator swap (lines 670-672). */
  method GenerateCompanies(records: seq<CompanyRecord>, totals: map<string, int>, year1: string, year2: string)
    returns (r: Result<Frame>)
    ensures r.Ok? <==> CompanyTable(records, totals, year1, year2).Ok?
    ensures r.Err? ==> CompanyTable(records, totals, year1, year2) == Err(r.error)
    ensures r.Ok? ==> r.value.Valid() && CompanyTable(records, totals, year1, year2) == Ok(r.value.View())
  {
    var built := BuildCompanies(records, totals, year1, year2);
    if built.Err? {
      return Err(built.error);
    }
    var renames := CompanyRenames(year1, year2);
    if renames.Err? {
      return Err(renames.error);
    }
    var frame := new Frame(CompanyColumns(year1, year2), CompanyRawCells(built.value));
    frame.Rename(renames.value);
    frame.ConvertSeparators(3);
    return Ok(frame);
  }
}
