# Export summary tables, modelled in Dafny

This project models the table-building engine of `datos_exportaciones.py`.
The engine turns rows of export data into the Spanish-formatted tables of a
trade report:

- the summary table per category (`generar_tabla_resumen`);
- the top-companies table (`generar_tabla_empresas`);
- the top-subsectors table (`generar_tabla_subsectores`);
- the year-label helpers `transform_year_column_name` and `transform_year`;
- the driver that builds every summary (`generar_todas_tablas_resumen`).

The model keeps the source's own form:

- The year helpers, the year-sort key, the pivot sums, the top-N selection,
  the number formats and the separator-swap lambda are pure functions,
  proved against reference definitions.
- The rendered data frame is a class, `Frames.Frame`. Its `Rename` method
  is the in-place `rename`. Its `ConvertSeparators` method is the final
  loop over the columns that swaps ',' and '.' in every cell.
- Each builder is a method that runs the source's steps on a frame. It is
  proved equal to a function that gives the table as a value.
- The driver is a method with the source's two nested loops. It is proved
  equal to a function over the visited (category, value column) pairs.

Values are whole numbers (`int`). A percentage is an exact rational or one
of inf, -inf and nan, as float64 division by zero gives. Text is
`seq<char>`. pandas' `pivot_table` is a list of facts `(row, column,
value)`. Its index is the distinct labels in ascending code-point order,
with null keys dropped. `nlargest` is a stable descending sort followed by
taking `n` rows, so ties keep the first row.

The summary's final `sort_values` (line 501) uses pandas' default
quicksort, which is not stable. The model claims only what any such sort
gives: the descending order and the permutation.

## Model

| member | source | states |
|---|---|---|
| YearLabels.PeriodLabelTransforms | datos_exportaciones.py:395-431 | "Y(P)" with no other parenthesis becomes "P Y" in a header and "Y" as a year, with Y stripped |
| YearLabels.TransformsAgree | datos_exportaciones.py:395-431 | the two helpers fail on the same labels: bracketed ones with more than one '(' (the two-way `split` unpacking fails). Unbracketed labels pass unchanged through both. A header is the period without ')', a space, and the helper's year |
| YearLabels.SortYearsPermutes | datos_exportaciones.py:467 | sorting the year columns succeeds exactly when every label has an integer key, and it rearranges the labels without loss |
| YearLabels.SortYearsAscending | datos_exportaciones.py:467 | the sorted year columns are in ascending order of their year key |
| YearLabels.SortYearsStable | datos_exportaciones.py:467 | labels with equal keys keep their input order (`sorted` is stable) |
| YearLabels.YearKeyOfYear | datos_exportaciones.py:467 | a bare year and the same year with a sub-period share one key |
| YearLabels.YearKeyNeedsDigits | datos_exportaciones.py:467 | a label with no digit before its parenthesis has no key, so the sort fails |
| Formatting.Ratio | datos_exportaciones.py:489 | `a / b * 100` is finite exactly when b != 0 and then equals 100a/b; x/0 is inf, -inf or nan by the sign of x |
| Formatting.NullSafeRatio | datos_exportaciones.py:605 | with `replace(0, np.nan)` a zero base gives nan, any other base the exact ratio |
| Formatting.FormatThousandsReadsBack | datos_exportaciones.py:512 | `'{:,.0f}'` text reads back to the number it printed |
| Formatting.FormatPercentReadsBack | datos_exportaciones.py:513 | `'{:.1f}%'` text of a finite value reads back to its tenths, rounded half to even within half a tenth, with the sign kept |
| Formatting.SwapSeparatorsInvolution | datos_exportaciones.py:556 | on text without 'X' the separator swap undoes itself |
| Formatting.SwapSeparatorsLosesX | datos_exportaciones.py:556 | an 'X' in a cell comes back as ',' after two swaps |
| Formatting.SpanishThousands | datos_exportaciones.py:512-556 | a swapped whole number has '.' between thousands and reads back to the number |
| Formatting.SpanishPercent | datos_exportaciones.py:513-556 | a swapped finite percentage has ',' as decimal mark and reads back to its tenths; inf and nan are left as they are |
| Pivot.SumOverRowsCovers | datos_exportaciones.py:464 | summing a pivot column over its distinct row labels gives every fact of that column once |
| Frames.RenameSingle | datos_exportaciones.py:534 | renaming a column that occurs once changes that position only |
| Frames.Frame.Rename | datos_exportaciones.py:534 | `rename(columns=m, inplace=True)`: every header entry becomes its image under m, and the cells stay |
| Frames.Frame.SwapColumn | datos_exportaciones.py:556 | one column's cells are swapped and every other cell stays |
| Frames.Frame.ConvertSeparators | datos_exportaciones.py:555-556 | the loop swaps every cell from column `start` on; the header and the earlier cells stay |
| Frames.SwappedFromTwice | datos_exportaciones.py:555-556 | converting twice gives the cells back when none holds an 'X' |
| Summary.Finish | datos_exportaciones.py:481-509 | the report exists exactly when there are at least two year columns (`ordered_years[-2]`), and it keeps the year columns |
| Summary.BuildSummary | datos_exportaciones.py:463-487 | a missing value column or category column is a KeyError (value column checked first); a success has at least two year columns (`ordered_years[-2]`). Its rows' sums, percentages and order are stated by `SummaryTotals.SummaryTotalRow`, `SummaryTotals.SummaryPercentages` and `SummaryOrder.OrderRowsSpec` |
| SummaryTotals.PivotColumn | datos_exportaciones.py:464 | each pivot column sums to the facts of that year over the category labels |
| SummaryTotals.TopNColumns | datos_exportaciones.py:471-478 | the top lines plus "Otros" keep every column's sum; "Otros" holds the sum minus the kept lines |
| SummaryTotals.TopNKeeps | datos_exportaciones.py:471-478 | `nlargest`: min(n, lines) lines taken from the pivot, largest latest year first, none smaller than a line left out; then "Otros" |
| SummaryTotals.NegativeTopN | datos_exportaciones.py:471-478 | a negative `top_n` passes `if top_n:`, `nlargest` keeps nothing, and the table is the single "Otros" line with every column sum |
| SummaryTotals.AssembleTotalRow | datos_exportaciones.py:464-508 | the last row is the only "Total" row and holds, per year, the sum of every fact of that year |
| SummaryTotals.SummaryTotalRow | datos_exportaciones.py:463-508 | the same for the whole summary built from the data rows |
| SummaryTotals.SummaryPercentages | datos_exportaciones.py:487-493 | every row, "Otros" and "Total" included, has variation (curr − prev)/prev·100 of its last two years with no zero guard (inf, -inf or nan), and share curr/total·100 over the latest year's total of every data row |
| SummaryTotals.SharesAddUp | datos_exportaciones.py:492-493 | with a non-zero latest total every share is finite, the shares add up to 100% of the total, and "Total" is 100%; with a zero total every share is inf or nan and "Total" is nan |
| SummaryOrder.OrderRowsSpec | datos_exportaciones.py:500-508 | the rows are rearranged without loss: categories first in descending latest-year order, then "Otros", then "Total" |
| SummaryRender.SummaryTable | datos_exportaciones.py:434-559 | the table exists exactly when the report is built and its header renames succeed; a report failure or a rename ValueError is the table's failure; the rows are the report's rows written out and swapped, so `CellsReadBack` reads them back |
| SummaryRender.CellsReadBack | datos_exportaciones.py:511-556 | column 0 is the category; year cells read back with '.' between thousands; finite variation and share cells read back with ',' as decimal mark; non-finite ones print as "inf%", "-inf%" or "nan%" |
| SummaryRender.UnitRenamedColumns | datos_exportaciones.py:546-551 | on distinct headers, when column 1's label transforms and its new name is not column 2's name, the two in-place renames succeed exactly when column 2's label transforms, and they change those two positions only |
| SummaryRender.RenameShareColumn | datos_exportaciones.py:537-543 | the loop-built dictionary renames every share column to "Participación <year> (%)" and leaves the other columns |
| SummaryRender.RenameUnitColumns | datos_exportaciones.py:546-551 | the frame is renamed exactly as the pure two-step rename says, or the first error is returned |
| SummaryRender.RenderFrame | datos_exportaciones.py:511-556 | building, renaming and converting the frame fails exactly when the pure rendering does, with the same error; otherwise the frame shows exactly the rendered table |
| SummaryRender.GenerateSummary | datos_exportaciones.py:434-559 | the method succeeds exactly when the table function does; it returns that error or a frame showing exactly that table |
| Companies.BuildCompanies | datos_exportaciones.py:592-649 | an absent `year2` in the totals is an IndexError; otherwise up to five companies, then "Otros", then "Total". Their amounts and percentages are stated by `Companies.OtrosCompletesTotal`, `Companies.OtrosIsTheRest` and `Companies.CompanyPercentages` |
| Companies.CompaniesRanked | datos_exportaciones.py:614 | the companies are the first `nlargest(5, year2)` pivot rows: a sub-multiset, descending, none smaller than one left out |
| Companies.OtrosCompletesTotal | datos_exportaciones.py:625-641 | the five companies and "Otros" add up to "Total" in both years; "Total" holds the totals of `year2` and of `year1` (0 when `year1` has none) |
| Companies.PivotRowsSum | datos_exportaciones.py:592-601 | the pivot rows' `year2` column sums to the companies' total |
| Companies.OtrosIsTheRest | datos_exportaciones.py:628-641 | when the totals agree with the company rows, "Otros" holds exactly the companies outside the top five |
| Companies.CompanyPercentages | datos_exportaciones.py:601-646 | each of the top five has variation (v2 − v1)/v1·100, nan when v1 is 0, and share v2 over the companies' total of `year2`; "Otros" has its own variation and its share of the "Total" row's `year2`; "Total" has a fixed 100.0 in both |
| Companies.CompanyTable | datos_exportaciones.py:562-674 | the table exists exactly when `year2` has a total and both year labels transform |
| Companies.CompanyHeader | datos_exportaciones.py:652-661 | the renamed header reads NIT, Empresa, Sector, both years as "P Y (USD FOB)", Variación, "Participación Y (%)" |
| Companies.CompanyCellsReadBack | datos_exportaciones.py:664-672 | the key cells stay; both year cells read back with '.' between thousands; finite variation and share cells read back with ',' as decimal mark, non-finite ones print as they are |
| Companies.CompanyTotalCells | datos_exportaciones.py:621-622 | the "Total" row shows "100,0%" as its variation and as its share |
| Companies.GenerateCompanies | datos_exportaciones.py:562-674 | the frame method agrees with the table function, error for error |
| Subsectors.YearTotalsAreExports | datos_exportaciones.py:720-721 | the intended per-year total of a subsector is its exports over every row with a country |
| Subsectors.AsWrittenAgrees | datos_exportaciones.py:720-721 | the substring filter computes the intended totals whenever no column of one year matches the other year's pattern and the `year1` label does not contain `year2 + "("`; such a label is neither caught by line 721's filter nor overwrites a `year2` column at line 720 |
| Subsectors.SubperiodCountedTwice | datos_exportaciones.py:720-721 | with `year1` = Y and `year2` = Y(P), a single row of `year2` with value v gives `year1` no facts, yet the substring filter makes its `year1` total v where the intended total is 0 |
| Subsectors.BuildSubsectors | datos_exportaciones.py:704-731 | the outer join fails with ValueError exactly when the two pivots share a column name; otherwise min(5, subsectors) rows |
| Subsectors.SubsectorsRanked | datos_exportaciones.py:704-731 | each row is a subsector of either year with its two totals, their difference and the variation diff/v1·100 (nan when v1 is 0); rows come largest difference first, and none is smaller than one left out |
| Subsectors.SubsectorsAsWritten | datos_exportaciones.py:720-721 | when no column of one year matches the other year's filter pattern, every row holds exactly the totals the substring filter computes |
| Subsectors.SubsectorTable | datos_exportaciones.py:677-754 | the table exists exactly when the two pivots share no column name and both year labels transform; every failure is a ValueError |
| Subsectors.SubsectorHeader | datos_exportaciones.py:734-741 | the renamed header reads Subsector, both years as "P Y (USD FOB)", Diferencia (USD FOB), Variación (%) |
| Subsectors.SubsectorAmountsReadBack | datos_exportaciones.py:744-752 | the subsector cell stays; the three amounts read back with '.' between thousands |
| Subsectors.SubsectorVariationReadBack | datos_exportaciones.py:747-752 | a finite variation reads back with ',' as decimal mark; nan and inf stay |
| Subsectors.GenerateSubsectors | datos_exportaciones.py:677-754 | the frame method agrees with the table function, error for error |
| Driver.TableName | datos_exportaciones.py:831 | the name is "RESUMEN_", the category, "_", the value column |
| Driver.PairsOrder | datos_exportaciones.py:825-826 | pair i·|valores|+j is the i-th category with the j-th value column |
| Driver.CollectLists | datos_exportaciones.py:825-836 | on success the USD list holds, in visiting order, one named table per "VALOR_USD" pair, equal to that pair's summary; likewise the KG list for "PESO_KG_NETO" |
| Driver.CollectFails | datos_exportaciones.py:825-836 | the call fails exactly when some pair's table fails, and then with the error of the first pair that fails |
| Driver.CollectExtends | datos_exportaciones.py:825-836 | once a table fails, later pairs change nothing |
| Driver.AddSummary | datos_exportaciones.py:827-836 | one pass of the inner loop: the table's error is the error of the pairs so far plus this one; otherwise the two lists still show exactly the tables of those pairs |
| Driver.AddCategory | datos_exportaciones.py:825-836 | the inner loop over the value columns: an error is the error of the whole call; otherwise the lists show the tables of every pair up to this category |
| Driver.GenerateAllSummaries | datos_exportaciones.py:821-840 | the nested loops return the error of the first failing table, or two lists whose frames show exactly the tables of the spec function, under the same names |

## Left out

- SQL and Snowflake I/O, `get_data_*`, and the sessions that produce the
  data frames. The builders take the rows as parameters.
- `documentos.py`, `main.py` and `selectores.py` are not part of this model.
- Floating point: amounts are exact integers, percentages exact rationals.
  Rounding of float sums and the printing of huge floats are not modelled.
- pandas internals beyond what the tables show: dtypes, the index object,
  `astype(str)` of values that are already text.
- Summary.BuildSummary: requires that no category value is literally
  "Total". With such a value, `pivot_table.loc['Total', year_curr]` selects
  several rows, and the table depends on pandas alignment rules that are
  not modelled.
- Summary.BuildSummary: the final `sort_values` is quicksort (not stable).
  The model sorts stably, and the properties claim only the descending
  order and the permutation, which hold for any such sort.
- Subsectors.BuildSubsectors, Subsectors.SubsectorsRanked, Subsectors.SubsectorTable,
  Subsectors.GenerateSubsectors: these use the intended per-year totals
  (`YearTotals`), not the substring filter of lines 720-721 (see
  "## Findings"). They agree with the code exactly when no column of one
  year matches the other year's pattern: `Subsectors.SubsectorsAsWritten`.
- Formatting.Ratio: float64 has a signed zero and the model does not.
  `0 / b * 100` with `b < 0` is -0.0 in Python and prints "-0.0%"; the
  model's exact 0 prints "0.0%". This affects the summary variation when
  the two latest years are equal and negative (line 489), and the shares
  of a zero value over a negative total (lines 493, 602, 645).
- YearLabels.YearKeyNeedsDigits: `int()` at line 467 accepts any Unicode
  decimal digit (Arabic-Indic, full-width, ...). The model's `ParseInt`
  reads the ASCII digits 0-9 only, with sign, underscores and white space
  as Python takes them, so a year written in other digits has no key here
  but one in Python.
- Companies.BuildCompanies: `df_totales` is modelled as a map with one
  total per year. A totals table with several rows for one year (only the
  first, `.values[0]`, is used) is not modelled.
- Companies.BuildCompanies, Subsectors.BuildSubsectors: `year1 == year2`
  gives pandas duplicate-column behaviour. The header lemmas require
  distinct labels, and the value functions do not model the duplicated
  columns.
- Summary.BuildSummary: the only errors modelled are the KeyError of a
  missing column, the failure of the year sort, and the failure of
  `ordered_years[-2]` with fewer than two years. Other pandas errors (an
  empty pivot in `nlargest`, wrong dtypes) are not modelled.
- Companies.BuildCompanies, Subsectors.BuildSubsectors: a KeyError for a
  missing column is not modelled; the rows are typed records.

## Findings

| source | as written | input that shows it | evidently intended | confidence | as-written member | corrected member |
|---|---|---|---|---|---|---|
| datos_exportaciones.py:720-721 | `filter(like=f'{year1}(')` selects every column whose name contains "year1(" anywhere, including the other year's columns; line 721's `year2` filter can also catch the `year1` column that line 720 has just added | `year1` = "2024", `year2` = "2024(Ene-Mar)", one row (subsector S, country C, value v) in `year2` only: the `year1` total of S is v, though `year1` has no data | each year's total sums only that year's country columns | not executed | Subsectors.YearTotalsAsWritten, Subsectors.SubperiodCountedTwice | Subsectors.YearTotals, Subsectors.YearTotalsAreExports |
