/** `pivot_table(values=v, index=r, columns=c, aggfunc='sum',
    fill_value=0)`: each input row contributes its value to the cell of
    its (index label, column label) pair; a pair with no rows holds 0. */
module Pivot {
  import opened Common

  /** An input row as the pivot reads it: index label, column label
      (the YEAR) and the value to be summed. Rows whose index or column
      label is null never become facts: pandas drops them. */
  datatype Fact<R> = Fact(row: R, col: string, value: int)

  /** The cell (r, c). */
  function CellSum<R(==)>(facts: seq<Fact<R>>, r: R, c: string): int {
    if facts == [] then 0
    else (if facts[0].row == r && facts[0].col == c then facts[0].value else 0) + CellSum(facts[1..], r, c)
  }

  /** The sum of every fact in column c, whatever its row. */
  function ColumnTotal<R>(facts: seq<Fact<R>>, c: string): int {
    if facts == [] then 0
    else (if facts[0].col == c then facts[0].value else 0) + ColumnTotal(facts[1..], c)
  }

  /** The index labels of the facts, in input order, repeats included. */
  function RowLabels<R>(facts: seq<Fact<R>>): (r: seq<R>)
    ensures |r| == |facts| && forall i | 0 <= i < |facts| :: r[i] == facts[i].row
  {
    seq(|facts|, i requires 0 <= i < |facts| => facts[i].row)
  }

  /** The column labels of the facts, in input order, repeats included. */
  function ColLabels<R>(facts: seq<Fact<R>>): (r: seq<string>)
    ensures |r| == |facts| && forall i | 0 <= i < |facts| :: r[i] == facts[i].col
  {
    seq(|facts|, i requires 0 <= i < |facts| => facts[i].col)
  }

  /** The sum of column c over the rows `labels`. */
  function SumOverRows<R(==)>(facts: seq<Fact<R>>, labels: seq<R>, c: string): int {
    if labels == [] then 0 else CellSum(facts, labels[0], c) + SumOverRows(facts, labels[1..], c)
  }

  lemma {:induction false} SumOverRowsStep<R>(facts: seq<Fact<R>>, labels: seq<R>, c: string)
    requires facts != [] && Distinct(labels)
    ensures SumOverRows(facts, labels, c)
         == SumOverRows(facts[1..], labels, c)
            + (if facts[0].col == c && facts[0].row in labels then facts[0].value else 0)
  {
    if labels != [] {
      SumOverRowsStep(facts, labels[1..], c);
      assert facts[0].row in labels <==> facts[0].row == labels[0] || facts[0].row in labels[1..];
      if facts[0].row == labels[0] {
        assert facts[0].row !in labels[1..];
      }
    }
  }

  /** A pivot loses nothing: when every fact's label is among the
      distinct `labels`, the column over those rows sums to the total of
      that column in the input. */
  lemma {:induction false} SumOverRowsCovers<R>(facts: seq<Fact<R>>, labels: seq<R>, c: string)
    requires Distinct(labels)
    requires forall i | 0 <= i < |facts| :: facts[i].row in labels
    ensures SumOverRows(facts, labels, c) == ColumnTotal(facts, c)
  {
    if facts == [] {
      SumOverRowsEmpty(labels, c);
    } else {
      SumOverRowsStep(facts, labels, c);
      SumOverRowsCovers(facts[1..], labels, c);
    }
  }

  lemma {:induction false} SumOverRowsEmpty<R>(labels: seq<R>, c: string)
    ensures SumOverRows([], labels, c) == 0
  {
    if labels != [] {
      SumOverRowsEmpty(labels[1..], c);
    }
  }

  /** A label that never occurs in the input has an all-zero row. */
  lemma {:induction false} CellSumAbsent<R>(facts: seq<Fact<R>>, r: R, c: string)
    requires r !in RowLabels(facts) || c !in ColLabels(facts)
    ensures CellSum(facts, r, c) == 0
  {
    if facts != [] {
      assert RowLabels(facts[1..]) == RowLabels(facts)[1..];
      assert ColLabels(facts[1..]) == ColLabels(facts)[1..];
      CellSumAbsent(facts[1..], r, c);
    }
  }
}
