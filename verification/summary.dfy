/** `generar_tabla_resumen`: the summary of one measure by one category
    over the year columns. A pivot sums the measure per category and year;
    an optional top-N by the latest year keeps the largest categories and
    folds the rest into an "Otros" row; a "Total" row sums the columns;
    each row gets its variation between the last two years and its share
    of the latest year's total; rows are ordered by the latest year with
    "Otros" and "Total" moved to the end; and the numbers are written out
    with Spanish separators under renamed headers. */
module Summary {
  import opened Common
  import opened Text
  import opened Ordering
  import opened Selection
  import opened YearLabels
  import opened Formatting
  import opened Pivot
  import opened Frames

  // -----------------------------------------------------------------------
  // The input frame

  /** One row of the export data: its text columns (null allowed), its
      YEAR label and its numeric columns. */
  datatype Record = Record(dims: map<string, Option<string>>, year: string, measures: map<string, int>)

  /** The export data frame: the names of its text and numeric columns
      (besides YEAR) and its rows. */
  datatype Data = Data(dimColumns: set<string>, measureColumns: set<string>, records: seq<Record>)

  /** Every row has exactly the frame's columns. */
  predicate WellFormed(d: Data) {
    && "YEAR" !in d.dimColumns && "YEAR" !in d.measureColumns && d.dimColumns !! d.measureColumns
    && forall i | 0 <= i < |d.records| ::
         d.records[i].dims.Keys == d.dimColumns && d.records[i].measures.Keys == d.measureColumns
  }

  /** What the pivot reads from the rows: (category, year, value) for
      every row whose category is not null. */
  function FactsOf(records: seq<Record>, categoria: string, valor: string): seq<Fact<string>>
    requires forall i | 0 <= i < |records| :: categoria in records[i].dims && valor in records[i].measures
  {
    if records == [] then []
    else
      var r := records[0];
      (match r.dims[categoria]
       case Some(c) => [Fact(c, r.year, r.measures[valor])]
       case None => [])
      + FactsOf(records[1..], categoria, valor)
  }

  // -----------------------------------------------------------------------
  // Lines of the pivot table

  /** A row of the pivot table: its label and one value per year column. */
  datatype Line = Line(name: string, values: seq<int>)

  function LineName(l: Line): string {
    l.name
  }

  /** The value in year column `j` (0 for a line too short to have one). */
  function ValueAt(j: nat): Line -> int {
    (l: Line) => if j < |l.values| then l.values[j] else 0
  }

  function LineNames(lines: seq<Line>): (r: seq<string>)
    ensures |r| == |lines| && forall i | 0 <= i < |lines| :: r[i] == lines[i].name
  {
    seq(|lines|, i requires 0 <= i < |lines| => lines[i].name)
  }

  /** The pivot table: one line per category, one value per year. */
  function PivotLines(facts: seq<Fact<string>>, cats: seq<string>, years: seq<string>): (r: seq<Line>)
    ensures |r| == |cats| && Width(r, |years|)
  {
    seq(|cats|, i requires 0 <= i < |cats| =>
      Line(cats[i], seq(|years|, j requires 0 <= j < |years| => CellSum(facts, cats[i], years[j]))))
  }

  /** Every line has a value for each of the `w` year columns. */
  predicate Width(lines: seq<Line>, w: nat) {
    forall i | 0 <= i < |lines| :: |lines[i].values| == w
  }

  /** `sum()` of year column `j` over `lines`. */
  function ColumnSum(lines: seq<Line>, j: nat): int {
    SumBy(lines, ValueAt(j))
  }

  /** A line labelled `tag` holding the column sums of `lines`. */
  function SumLine(tag: string, lines: seq<Line>, width: nat): (r: Line)
    ensures |r.values| == width
  {
    Line(tag, seq(width, j requires 0 <= j < width => ColumnSum(lines, j)))
  }

  /** `pivot_table.drop(topn.index)`: the lines whose label is not kept,
      in their order. */
  function Dropped(lines: seq<Line>, kept: seq<Line>): seq<Line> {
    if lines == [] then []
    else (if lines[0].name in LineNames(kept) then [] else [lines[0]]) + Dropped(lines[1..], kept)
  }

  /** Lines 471-478: the `n` lines largest in the latest year, then an
      "Otros" line with the column sums of all the others. */
  function TopN(lines: seq<Line>, n: nat, width: nat): (r: seq<Line>)
    requires width > 0 && Width(lines, width)
    ensures Width(r, width)
  {
    var top := Largest(lines, n, ValueAt(width - 1));
    LargestWidth(lines, n, width);
    top + [SumLine("Otros", Dropped(lines, top), width)]
  }

  lemma LargestWidth(lines: seq<Line>, n: nat, width: nat)
    requires width > 0 && Width(lines, width)
    ensures Width(Largest(lines, n, ValueAt(width - 1)), width)
  {
    var top := Largest(lines, n, ValueAt(width - 1));
    LargestOrdered(lines, n, ValueAt(width - 1));
    forall i | 0 <= i < |top| ensures |top[i].values| == width {
      assert top[i] in multiset(lines);
    }
  }

  /** Lines 471-478 as a whole: `if top_n:` is true for any non-zero
      `top_n`, and then the latest year column must exist
      (`ordered_years[-1]`). `nlargest` with a negative count keeps no
      line, so every category goes into "Otros". */
  function SelectTop(lines: seq<Line>, topN: Option<int>, width: nat): (r: Result<seq<Line>>)
    requires Width(lines, width)
    ensures r.Ok? ==> Width(r.value, width)
  {
    if topN.Some? && topN.value != 0 then
      if width == 0 then Err(IndexError) else Ok(TopN(lines, Count(topN.value), width))
    else Ok(lines)
  }

  /** The number of rows `nlargest(n)` keeps at most: none when `n` is
      negative. */
  function Count(n: int): nat {
    if n >= 0 then n else 0
  }

  // -----------------------------------------------------------------------
  // Summary rows

  /** A row of the summary: tag, year values, variation and share. */
  datatype Row = Row(name: string, values: seq<int>, variation: Pct, share: Pct)

  function RowName(r: Row): string {
    r.name
  }

  /** The row's value in the latest year, the key of `sort_values`. */
  function CurrentOf(width: nat): Row -> int {
    (r: Row) => if 0 < width <= |r.values| then r.values[width - 1] else 0
  }

  /** Lines 487-493: variation `(curr - prev) / prev * 100` with no guard
      against a zero base, and share `curr / total_curr * 100`. */
  function MakeRow(l: Line, width: nat, totalCurr: int): Row
    requires 2 <= width <= |l.values|
  {
    var prev, curr := l.values[width - 2], l.values[width - 1];
    Row(l.name, l.values, Ratio(curr - prev, prev), Ratio(curr, totalCurr))
  }

  function MakeRows(lines: seq<Line>, width: nat, totalCurr: int): (r: seq<Row>)
    requires 2 <= width && Width(lines, width)
    ensures |r| == |lines|
  {
    seq(|lines|, i requires 0 <= i < |lines| => MakeRow(lines[i], width, totalCurr))
  }

  /** The rows labelled `tag`, in order. */
  function WithLabel(rows: seq<Row>, tag: string): seq<Row> {
    if rows == [] then []
    else (if rows[0].name == tag then [rows[0]] else []) + WithLabel(rows[1..], tag)
  }

  /** The rows not labelled `tag`, in order. */
  function WithoutLabel(rows: seq<Row>, tag: string): seq<Row> {
    if rows == [] then []
    else (if rows[0].name != tag then [rows[0]] else []) + WithoutLabel(rows[1..], tag)
  }

  /** Lines 500-508: sort by the latest year, largest first, then move the
      "Otros" rows and after them the "Total" rows to the end. */
  function OrderRows(rows: seq<Row>, width: nat): seq<Row> {
    var sorted := SortBy(rows, Negated(CurrentOf(width)));
    var withOtros :=
      if "Otros" in RowNames(sorted) then WithoutLabel(sorted, "Otros") + WithLabel(sorted, "Otros")
      else sorted;
    WithoutLabel(withOtros, "Total") + WithLabel(withOtros, "Total")
  }

  function RowNames(rows: seq<Row>): (r: seq<string>)
    ensures |r| == |rows| && forall i | 0 <= i < |rows| :: r[i] == rows[i].name
  {
    seq(|rows|, i requires 0 <= i < |rows| => rows[i].name)
  }

  /** The summary before it is written out: the year columns in order and
      the rows. */
  datatype Report = Report(years: seq<string>, rows: seq<Row>)

  /** No row of the data has the category "Total": `.loc['Total', ...]`
      must find the appended row alone. */
  predicate NoTotalCategory(d: Data, categoria: string) {
    forall i | 0 <= i < |d.records| ::
      categoria in d.records[i].dims ==> d.records[i].dims[categoria] != Some("Total")
  }

  /** Lines 481-509 on the kept lines: append "Total", compute variation
      and share (needs two year columns), and order the rows. */
  function Finish(kept: seq<Line>, years: seq<string>): (r: Result<Report>)
    requires Width(kept, |years|)
    ensures r.Ok? <==> |years| >= 2
    ensures r.Ok? ==> r.value.years == years
  {
    var w := |years|;
    var total := SumLine("Total", kept, w);
    if w < 2 then Err(IndexError)
    else Ok(Report(years, OrderRows(MakeRows(kept + [total], w, total.values[w - 1]), w)))
  }

  /** The category labels of the pivot index: every non-null category,
      once each, in ascending order. */
  function Categories(facts: seq<Fact<string>>): seq<string> {
    SortUnique(RowLabels(facts), LexLess)
  }

  /** Lines 466-468: the year columns of the pivot, in chronological order. */
  function YearColumns(facts: seq<Fact<string>>): Result<seq<string>> {
    SortYears(SortUnique(ColLabels(facts), LexLess))
  }

  /** Lines 466-509 on the facts. */
  function Assemble(facts: seq<Fact<string>>, topN: Option<int>): (r: Result<Report>)
    ensures r.Ok? ==> |r.value.years| >= 2
  {
    var cats := Categories(facts);
    var years :- YearColumns(facts);
    var kept :- SelectTop(PivotLines(facts, cats, years), topN, |years|);
    Finish(kept, years)
  }

  /** Lines 466-509. A `valor` or `categoria` that is not a column is a
      KeyError; a year label without an integer before '(' a ValueError;
      fewer than two year columns (or none at all with top-N) an
      IndexError. `top_n` of None or 0 keeps every category. */
  function BuildSummary(d: Data, categoria: string, valor: string, topN: Option<int>): (r: Result<Report>)
    requires WellFormed(d) && NoTotalCategory(d, categoria)
    ensures r.Ok? ==> |r.value.years| >= 2
    ensures valor !in d.measureColumns ==> r == Err(KeyError(valor))
    ensures valor in d.measureColumns && categoria !in d.dimColumns ==> r == Err(KeyError(categoria))
  {
    if valor !in d.measureColumns then Err(KeyError(valor))
    else if categoria !in d.dimColumns then Err(KeyError(categoria))
    else Assemble(FactsOf(d.records, categoria, valor), topN)
  }
}
