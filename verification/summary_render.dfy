/** How `generar_tabla_resumen` writes the summary out
    (datos_exportaciones.py, lines 511-559): whole numbers with thousands
    separators, percentages with one decimal, the category column renamed
    to its display name, the share header given the bare year, the unit
    appended to the first two year headers, and ',' and '.' swapped in
    every cell after the first column. */
module SummaryRender {
  import opened Common
  import opened Text
  import opened YearLabels
  import opened Formatting
  import opened Frames
  import opened Pivot
  import opened Summary
  import opened SummaryOrder
  import opened SummaryTotals

  /** Lines 520-532: display names of the category columns. */
  const ColumnNames: map<string, string> := map[
    "TIPO" := "Tipo de exportación",
    "CADENA" := "Cadena",
    "SECTOR" := "Sector",
    "SUBSECTOR" := "Subsector",
    "PAIS_DESTINO" := "País destino",
    "HUB" := "HUB",
    "CONTINENTE" := "Continente",
    "ZONA_GEOGRAFICA" := "Zona geográfica",
    "TLCS" := "Tratados de Libre Comercio",
    "DEPARTAMENTO_ORIGEN" := "Departamento de origen",
    "MEDIO_TRANSPORTE" := "Medio de transporte",
    "YEAR" := "Año"]

  function ShareHeader(year: string): string {
    "Participación " + year + " (%)"
  }

  /** Line 496 and `reset_index`: the category column, the years in
      order, the variation and the share. */
  function SummaryHeader(categoria: string, years: seq<string>): (h: seq<string>)
    requires |years| >= 2
    ensures |h| == |years| + 3
  {
    [categoria] + years + ["Variación (%)", ShareHeader(years[|years| - 1])]
  }

  /** Lines 512-513: a row's cells before the separator swap. */
  function RowCells(r: Row, w: nat): (c: seq<string>)
    requires |r.values| == w
    ensures |c| == w + 3
  {
    [r.name] + seq(w, j requires 0 <= j < w => FormatThousands(r.values[j]))
    + [FormatPercent(r.variation), FormatPercent(r.share)]
  }

  /** Lines 538-543: the name the loop gives column `c`. */
  function ShareName(c: string, share: string): string {
    if Contains(c, "Participación") then share else c
  }

  function ShareRenamed(columns: seq<string>, share: string): (r: seq<string>)
    ensures |r| == |columns|
  {
    seq(|columns|, j requires 0 <= j < |columns| => ShareName(columns[j], share))
  }

  /** Lines 546-551: the unit of the measure, if it has one. */
  function UnitOf(valor: string): Option<string> {
    if valor == "VALOR_USD" then Some(" (USD FOB)")
    else if valor == "PESO_KG_NETO" then Some(" (KG NETO)")
    else None
  }

  /** Lines 547-548 (or 550-551): columns 1 and 2, one after the other,
      get `transform_year_column_name` and the unit; each `rename` renames
      every column equal to the one at that position. */
  function UnitRenamed(columns: seq<string>, unit: string): (r: Result<seq<string>>)
    requires |columns| >= 3
    ensures r.Ok? ==> |r.value| == |columns|
  {
    var a :- TransformYearColumnName(columns[1]);
    var once := Renamed(columns, map[columns[1] := a + unit]);
    var b :- TransformYearColumnName(once[2]);
    Ok(Renamed(once, map[once[2] := b + unit]))
  }

  /** Lines 518-536: the header with the category column given its
      display name, when it has one. */
  function NamedHeader(categoria: string, years: seq<string>): (h: seq<string>)
    requires |years| >= 2
    ensures |h| == |years| + 3
  {
    var h0 := SummaryHeader(categoria, years);
    if categoria in ColumnNames then Renamed(h0, map[categoria := ColumnNames[categoria]]) else h0
  }

  /** The header as lines 518-551 leave it. */
  function FinalHeader(categoria: string, valor: string, years: seq<string>): (r: Result<seq<string>>)
    requires |years| >= 2
    ensures r.Ok? ==> |r.value| == |years| + 3
  {
    var h1 := NamedHeader(categoria, years);
    var ty :- TransformYear(years[|years| - 1]);
    var h2 := ShareRenamed(h1, ShareHeader(ty));
    match UnitOf(valor)
    case None => Ok(h2)
    case Some(unit) => UnitRenamed(h2, unit)
  }

  /** Every row has a value for each year column. */
  predicate RowsWidth(rows: seq<Row>, w: nat) {
    forall i | 0 <= i < |rows| :: |rows[i].values| == w
  }

  /** The summary as a table of text cells. */
  function RenderSummary(rep: Report, categoria: string, valor: string): (r: Result<Table>)
    requires |rep.years| >= 2 && RowsWidth(rep.rows, |rep.years|)
    ensures r.Ok? ==> Rectangular(r.value.columns, r.value.rows) && |r.value.rows| == |rep.rows|
  {
    var w := |rep.years|;
    var header :- FinalHeader(categoria, valor, rep.years);
    Ok(Table(header, SummaryCells(rep.rows, w)))
  }

  /** Lines 512-513: the cells of every row. */
  function RawCells(rows: seq<Row>, w: nat): (r: seq<seq<string>>)
    requires RowsWidth(rows, w)
    ensures |r| == |rows| && forall i | 0 <= i < |r| :: |r[i]| == w + 3
  {
    seq(|rows|, i requires 0 <= i < |rows| => RowCells(rows[i], w))
  }

  /** Lines 553-556: ... with ',' and '.' swapped from column 1 on. */
  function SummaryCells(rows: seq<Row>, w: nat): (r: seq<seq<string>>)
    requires RowsWidth(rows, w)
    ensures |r| == |rows| && forall i | 0 <= i < |r| :: |r[i]| == w + 3
  {
    SwappedFrom(RawCells(rows, w), 1)
  }

  /** Rearranging rows keeps their widths. */
  lemma PermutedWidth(rows: seq<Row>, input: seq<Row>, w: nat)
    requires multiset(rows) == multiset(input) && RowsWidth(input, w)
    ensures RowsWidth(rows, w)
  {
    forall i | 0 <= i < |rows| ensures |rows[i].values| == w {
      assert rows[i] in multiset(input);
      var k :| 0 <= k < |input| && input[k] == rows[i];
    }
  }

  /** Every row made from the kept lines has one value per year column. */
  lemma FinishWidth(kept: seq<Line>, years: seq<string>)
    requires |years| >= 2 && Width(kept, |years|)
    ensures RowsWidth(Finish(kept, years).value.rows, |years|)
  {
    var w := |years|;
    var total := SumLine("Total", kept, w);
    var t := total.values[w - 1];
    FinishRows(kept, years, total, t);
    var lines := kept + [total];
    var input := MakeRows(lines, w, t);
    assert RowsWidth(input, w) by {
      forall i | 0 <= i < |input| ensures |input[i].values| == w {
        assert input[i] == MakeRow(lines[i], w, t);
      }
    }
    OrderRowsSpec(input, w);
    PermutedWidth(OrderRows(input, w), input, w);
  }

  /** Every summary row has one value per year column. */
  lemma AssembleWidth(facts: seq<Fact<string>>, topN: Option<int>)
    requires Assemble(facts, topN).Ok?
    ensures RowsWidth(Assemble(facts, topN).value.rows, |Assemble(facts, topN).value.years|)
  {
    var years := YearColumns(facts).value;
    var kept := SelectTop(PivotLines(facts, Categories(facts), years), topN, |years|).value;
    assert Assemble(facts, topN) == Finish(kept, years);
    FinishWidth(kept, years);
  }

  lemma ReportWidth(d: Data, categoria: string, valor: string, topN: Option<int>)
    requires WellFormed(d) && NoTotalCategory(d, categoria)
    requires BuildSummary(d, categoria, valor, topN).Ok?
    ensures RowsWidth(BuildSummary(d, categoria, valor, topN).value.rows,
                      |BuildSummary(d, categoria, valor, topN).value.years|)
  {
    AssembleWidth(FactsOf(d.records, categoria, valor), topN);
  }

  /** `generar_tabla_resumen` as a value: the summary, then its text. */
  function SummaryTable(d: Data, categoria: string, valor: string, topN: Option<int>): (r: Result<Table>)
    requires WellFormed(d) && NoTotalCategory(d, categoria)
    ensures BuildSummary(d, categoria, valor, topN).Err? ==> r == Err(BuildSummary(d, categoria, valor, topN).error)
    ensures r.Ok? <==> && BuildSummary(d, categoria, valor, topN).Ok?
                       && FinalHeader(categoria, valor, BuildSummary(d, categoria, valor, topN).value.years).Ok?
    ensures BuildSummary(d, categoria, valor, topN).Ok? ==>
              var rep := BuildSummary(d, categoria, valor, topN).value;
              && RowsWidth(rep.rows, |rep.years|)
              && (r.Ok? ==> && r.value.columns == FinalHeader(categoria, valor, rep.years).value
                            && r.value.rows == SummaryCells(rep.rows, |rep.years|))
              && (r.Err? ==> r == Err(FinalHeader(categoria, valor, rep.years).error))
    ensures r.Ok? ==> Rectangular(r.value.columns, r.value.rows)
  {
    var rep :- BuildSummary(d, categoria, valor, topN);
    ReportWidth(d, categoria, valor, topN);
    RenderSummary(rep, categoria, valor)
  }

  /** One rendered row: its label, its year cells read back to its
      values, and its two percentages read back to their tenths. */
  lemma RowCellsReadBack(r: Row, w: nat, c: seq<string>)
    requires |r.values| == w && c == SwapRange(RowCells(r, w), 1, w + 3)
    ensures |c| == w + 3 && c[0] == r.name
    ensures forall j | 1 <= j <= w :: IsGroupedNumber(c[j], '.') && ReadGroupedNumber(c[j], '.') == r.values[j - 1]
    ensures r.variation.Finite? ==> IsDecimalPercent(c[w + 1], ',') && ReadTenths(c[w + 1], ',') == Tenths(r.variation)
    ensures !r.variation.Finite? ==> c[w + 1] == FormatPercent(r.variation)
    ensures r.share.Finite? ==> IsDecimalPercent(c[w + 2], ',') && ReadTenths(c[w + 2], ',') == Tenths(r.share)
    ensures !r.share.Finite? ==> c[w + 2] == FormatPercent(r.share)
  {
    var raw := RowCells(r, w);
    forall j | 1 <= j <= w
      ensures IsGroupedNumber(c[j], '.') && ReadGroupedNumber(c[j], '.') == r.values[j - 1]
    {
      assert raw[j] == FormatThousands(r.values[j - 1]);
      SpanishThousands(r.values[j - 1]);
    }
    assert c[w + 1] == SwapSeparators(FormatPercent(r.variation));
    assert c[w + 2] == SwapSeparators(FormatPercent(r.share));
    SpanishPercent(r.variation);
    SpanishPercent(r.share);
  }

  /** Lines 512-513 and 553-556: the rendered cells lose nothing. Column 0
      is the row's label; each year cell is the value with '.' between
      thousands and reads back to it; a finite variation or share reads
      back, with ',' as decimal mark, to the value rounded to tenths; a
      non-finite one is "inf%", "-inf%" or "nan%". */
  lemma CellsReadBack(rows: seq<Row>, w: nat)
    requires RowsWidth(rows, w)
    ensures var t := SummaryCells(rows, w);
            && (forall i | 0 <= i < |t| :: t[i][0] == rows[i].name)
            && (forall i, j | 0 <= i < |t| && 1 <= j <= w ::
                  IsGroupedNumber(t[i][j], '.') && ReadGroupedNumber(t[i][j], '.') == rows[i].values[j - 1])
            && (forall i | 0 <= i < |t| && rows[i].variation.Finite? ::
                  IsDecimalPercent(t[i][w + 1], ',') && ReadTenths(t[i][w + 1], ',') == Tenths(rows[i].variation))
            && (forall i | 0 <= i < |t| && !rows[i].variation.Finite? ::
                  t[i][w + 1] == FormatPercent(rows[i].variation))
            && (forall i | 0 <= i < |t| && rows[i].share.Finite? ::
                  IsDecimalPercent(t[i][w + 2], ',') && ReadTenths(t[i][w + 2], ',') == Tenths(rows[i].share))
            && (forall i | 0 <= i < |t| && !rows[i].share.Finite? ::
                  t[i][w + 2] == FormatPercent(rows[i].share))
  {
    var t := SummaryCells(rows, w);
    forall i | 0 <= i < |t|
      ensures t[i][0] == rows[i].name
      ensures forall j | 1 <= j <= w ::
                IsGroupedNumber(t[i][j], '.') && ReadGroupedNumber(t[i][j], '.') == rows[i].values[j - 1]
      ensures rows[i].variation.Finite? ==>
                IsDecimalPercent(t[i][w + 1], ',') && ReadTenths(t[i][w + 1], ',') == Tenths(rows[i].variation)
      ensures !rows[i].variation.Finite? ==> t[i][w + 1] == FormatPercent(rows[i].variation)
      ensures rows[i].share.Finite? ==>
                IsDecimalPercent(t[i][w + 2], ',') && ReadTenths(t[i][w + 2], ',') == Tenths(rows[i].share)
      ensures !rows[i].share.Finite? ==> t[i][w + 2] == FormatPercent(rows[i].share)
    {
      assert t[i] == SwapRange(RawCells(rows, w)[i], 1, w + 3);
      RowCellsReadBack(rows[i], w, t[i]);
    }
  }

  /** Lines 546-551 on distinct headers: the first two year columns get
      the unit, whatever the number of years, and nothing else changes
      unless the new name of column 1 equals the old name of column 2. */
  lemma UnitRenamedColumns(columns: seq<string>, unit: string)
    requires |columns| >= 3 && Distinct(columns)
    requires TransformYearColumnName(columns[1]).Ok?
    requires TransformYearColumnName(columns[1]).value + unit != columns[2]
    ensures UnitRenamed(columns, unit).Ok? <==> TransformYearColumnName(columns[2]).Ok?
    ensures UnitRenamed(columns, unit).Ok? ==>
              UnitRenamed(columns, unit).value
              == columns[1 := TransformYearColumnName(columns[1]).value + unit]
                        [2 := TransformYearColumnName(columns[2]).value + unit]
  {
    var a := TransformYearColumnName(columns[1]).value + unit;
    RenameSingle(columns, 1, a);
    var once := columns[1 := a];
    if TransformYearColumnName(columns[2]).Ok? {
      RenameSingle(once, 2, TransformYearColumnName(columns[2]).value + unit);
    }
  }

  /** Lines 538-544: a dictionary sending each column to its new name is
      built in a loop, then applied with `rename`. */
  method RenameShareColumn(frame: Frame, share: string)
    requires frame.Valid()
    modifies frame
    ensures frame.Valid() && frame.rows == old(frame.rows)
    ensures frame.columns == ShareRenamed(old(frame.columns), share)
  {
    var newColumns: map<string, string> := map[];
    var k := 0;
    while k < |frame.columns|
      invariant 0 <= k <= |frame.columns|
      invariant forall c | c in newColumns :: newColumns[c] == ShareName(c, share)
      invariant forall i | 0 <= i < k :: frame.columns[i] in newColumns
    {
      var col := frame.columns[k];
      newColumns := newColumns[col := if Contains(col, "Participación") then share else col];
      k := k + 1;
    }
    assert Renamed(frame.columns, newColumns) == ShareRenamed(frame.columns, share);
    frame.Rename(newColumns);
  }

  /** Lines 546-551 on a frame: both renames, or the first error. */
  method RenameUnitColumns(frame: Frame, unit: string) returns (r: Result<()>)
    requires frame.Valid() && |frame.columns| >= 3
    modifies frame
    ensures frame.Valid() && frame.rows == old(frame.rows)
    ensures r.Ok? <==> UnitRenamed(old(frame.columns), unit).Ok?
    ensures r.Err? ==> UnitRenamed(old(frame.columns), unit) == Err(r.error)
    ensures r.Ok? ==> frame.columns == UnitRenamed(old(frame.columns), unit).value
  {
    var a := TransformYearColumnName(frame.columns[1]);
    if a.Err? {
      return Err(a.error);
    }
    frame.Rename(map[frame.columns[1] := a.value + unit]);
    var b := TransformYearColumnName(frame.columns[2]);
    if b.Err? {
      return Err(b.error);
    }
    frame.Rename(map[frame.columns[2] := b.value + unit]);
    return Ok(());
  }

  /** The three renaming steps of the header, one at a time. */
  lemma FinalHeaderSteps(categoria: string, valor: string, years: seq<string>)
    requires |years| >= 2
    ensures TransformYear(years[|years| - 1]).Err? ==>
              FinalHeader(categoria, valor, years) == Err(TransformYear(years[|years| - 1]).error)
    ensures TransformYear(years[|years| - 1]).Ok? && UnitOf(valor).None? ==>
              FinalHeader(categoria, valor, years)
              == Ok(ShareRenamed(NamedHeader(categoria, years), ShareHeader(TransformYear(years[|years| - 1]).value)))
    ensures TransformYear(years[|years| - 1]).Ok? && UnitOf(valor).Some? ==>
              FinalHeader(categoria, valor, years)
              == UnitRenamed(ShareRenamed(NamedHeader(categoria, years), ShareHeader(TransformYear(years[|years| - 1]).value)),
                             UnitOf(valor).value)
  {
  }

  /** The table of a built summary is that summary rendered. */
  lemma SummaryTableOf(d: Data, categoria: string, valor: string, topN: Option<int>, rep: Report)
    requires WellFormed(d) && NoTotalCategory(d, categoria)
    requires BuildSummary(d, categoria, valor, topN) == Ok(rep)
    ensures |rep.years| >= 2 && RowsWidth(rep.rows, |rep.years|)
    ensures SummaryTable(d, categoria, valor, topN) == RenderSummary(rep, categoria, valor)
  {
    ReportWidth(d, categoria, valor, topN);
  }

  /** The rendered table is the final header over the swapped cells, or
      the header's error. */
  lemma RenderSummaryOf(rep: Report, categoria: string, valor: string)
    requires |rep.years| >= 2 && RowsWidth(rep.rows, |rep.years|)
    ensures FinalHeader(categoria, valor, rep.years).Err? ==>
              RenderSummary(rep, categoria, valor) == Err(FinalHeader(categoria, valor, rep.years).error)
    ensures FinalHeader(categoria, valor, rep.years).Ok? ==>
              RenderSummary(rep, categoria, valor)
              == Ok(Table(FinalHeader(categoria, valor, rep.years).value, SummaryCells(rep.rows, |rep.years|)))
  {
  }

  /** Lines 512-556 on a frame: the frame is created from the summary's
      cells, renamed in place three times and its numeric columns
      rewritten with the separator swap. */
  method RenderFrame(rep: Report, categoria: string, valor: string) returns (r: Result<Frame>)
    requires |rep.years| >= 2 && RowsWidth(rep.rows, |rep.years|)
    ensures r.Ok? <==> RenderSummary(rep, categoria, valor).Ok?
    ensures r.Err? ==> RenderSummary(rep, categoria, valor) == Err(r.error)
    ensures r.Ok? ==> r.value.Valid() && RenderSummary(rep, categoria, valor) == Ok(r.value.View())
  {
    var w := |rep.years|;
    ghost var final := FinalHeader(categoria, valor, rep.years);
    FinalHeaderSteps(categoria, valor, rep.years);
    RenderSummaryOf(rep, categoria, valor);
    var h0 := SummaryHeader(categoria, rep.years);
    var frame := new Frame(h0, RawCells(rep.rows, w));
    if categoria in ColumnNames {
      frame.Rename(map[categoria := ColumnNames[categoria]]);
    }
    assert frame.columns == NamedHeader(categoria, rep.years);
    var ty := TransformYear(rep.years[w - 1]);
    if ty.Err? {
      r := Err(ty.error);
    } else {
      RenameShareColumn(frame, ShareHeader(ty.value));
      var done: Result<()> := Ok(());
      if UnitOf(valor).Some? {
        done := RenameUnitColumns(frame, UnitOf(valor).value);
      }
      if done.Err? {
        assert final == Err(done.error);
        r := Err(done.error);
      } else {
        assert final.Ok? && frame.columns == final.value;
        frame.ConvertSeparators(1);
        assert frame.rows == SummaryCells(rep.rows, w);
        r := Ok(frame);
      }
    }
  }

  /** `generar_tabla_resumen` (lines 434-559), step by step: the summary
      is built, then rendered on a frame. Errors escape as the exceptions
      would. */
  method GenerateSummary(d: Data, categoria: string, valor: string, topN: Option<int>) returns (r: Result<Frame>)
    requires WellFormed(d) && NoTotalCategory(d, categoria)
    ensures r.Ok? <==> SummaryTable(d, categoria, valor, topN).Ok?
    ensures r.Err? ==> SummaryTable(d, categoria, valor, topN) == Err(r.error)
    ensures r.Ok? ==> r.value.Valid() && SummaryTable(d, categoria, valor, topN) == Ok(r.value.View())
  {
    var built := BuildSummary(d, categoria, valor, topN);
    if built.Err? {
      return Err(built.error);
    }
    SummaryTableOf(d, categoria, valor, topN, built.value);
    r := RenderFrame(built.value, categoria, valor);
  }
}
