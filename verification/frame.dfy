/** The rendered data frame the builders hand back: a header and rows of
    text cells, changed in place by `rename(columns=..., inplace=True)`
    and by the loop that rewrites each numeric column with the separator
    swap. */
module Frames {
  import opened Formatting

  /** A snapshot of a frame: its header and its rows. */
  datatype Table = Table(columns: seq<string>, rows: seq<seq<string>>)

  /** Every row has one cell per column. */
  predicate Rectangular(columns: seq<string>, rows: seq<seq<string>>) {
    forall i | 0 <= i < |rows| :: |rows[i]| == |columns|
  }

  /** The name `rename` gives column `c` under the mapping `m`. */
  function RenameOf(c: string, m: map<string, string>): string {
    if c in m then m[c] else c
  }

  /** The header after `rename(columns=m)`. */
  function Renamed(columns: seq<string>, m: map<string, string>): (r: seq<string>)
    ensures |r| == |columns|
  {
    seq(|columns|, j requires 0 <= j < |columns| => RenameOf(columns[j], m))
  }

  /** Renaming one column that occurs once changes that position only. */
  lemma RenameSingle(columns: seq<string>, j: nat, name: string)
    requires j < |columns|
    requires forall k | 0 <= k < |columns| && k != j :: columns[k] != columns[j]
    ensures Renamed(columns, map[columns[j] := name]) == columns[j := name]
  {
  }

  /** A mapping that sends every column to itself changes nothing. */
  lemma RenameIdentity(columns: seq<string>, m: map<string, string>)
    requires forall c | c in m :: m[c] == c
    ensures Renamed(columns, m) == columns
  {
  }

  /** Cells `lo` up to `hi` of a row with ',' and '.' swapped. */
  function SwapRange(row: seq<string>, lo: nat, hi: nat): (r: seq<string>)
    ensures |r| == |row|
  {
    seq(|row|, k requires 0 <= k < |row| => if lo <= k < hi then SwapSeparators(row[k]) else row[k])
  }

  /** Every row with its cells from column `start` on swapped. */
  function SwappedFrom(rows: seq<seq<string>>, start: nat): (r: seq<seq<string>>)
    ensures |r| == |rows|
  {
    seq(|rows|, i requires 0 <= i < |rows| => SwapRange(rows[i], start, |rows[i]|))
  }

  /** Swapping twice gives the rows back when no cell holds an 'X'; the
      cells before `start` are never touched. */
  lemma SwappedFromTwice(rows: seq<seq<string>>, start: nat)
    requires forall i, k | 0 <= i < |rows| && 0 <= k < |rows[i]| :: 'X' !in rows[i][k]
    ensures SwappedFrom(SwappedFrom(rows, start), start) == rows
  {
    forall i, k | 0 <= i < |rows| && start <= k < |rows[i]|
      ensures SwappedFrom(SwappedFrom(rows, start), start)[i][k] == rows[i][k]
    {
      SwapSeparatorsInvolution(rows[i][k]);
    }
    forall i | 0 <= i < |rows| ensures SwappedFrom(SwappedFrom(rows, start), start)[i] == rows[i] {
    }
  }

  class Frame {
    var columns: seq<string>
    var rows: seq<seq<string>>

    predicate Valid()
      reads this
    {
      Rectangular(columns, rows)
    }

    function View(): Table
      reads this
    {
      Table(columns, rows)
    }

    constructor (columns: seq<string>, rows: seq<seq<string>>)
      requires Rectangular(columns, rows)
      ensures Valid() && View() == Table(columns, rows)
    {
      this.columns := columns;
      this.rows := rows;
    }

    /** `rename(columns=m, inplace=True)`: the cells stay as they are. */
    method Rename(m: map<string, string>)
      requires Valid()
      modifies this
      ensures Valid()
      ensures columns == Renamed(old(columns), m) && rows == old(rows)
    {
      columns := Renamed(columns, m);
    }

    /** `df[col] = df[col].apply(lambda x: x.replace(',', 'X')
        .replace('.', ',').replace('X', '.'))` for the column at `j`. */
    method SwapColumn(j: nat)
      requires Valid() && j < |columns|
      modifies this
      ensures Valid() && columns == old(columns) && |rows| == |old(rows)|
      ensures forall i | 0 <= i < |rows| :: rows[i] == old(rows[i])[j := SwapSeparators(old(rows[i])[j])]
    {
      var cells := rows;
      rows := seq(|cells|, i requires 0 <= i < |cells| => cells[i][j := SwapSeparators(cells[i][j])]);
    }

    /** `for col in df.columns[start:]: df[col] = df[col].apply(...)`:
        every cell from column `start` on is swapped once, the rest
        and the header are left alone. */
    method ConvertSeparators(start: nat)
      requires Valid()
      modifies this
      ensures Valid() && columns == old(columns)
      ensures rows == SwappedFrom(old(rows), start)
    {
      var j := start;
      while j < |columns|
        invariant Valid() && columns == old(columns) && |rows| == |old(rows)|
        invariant forall i | 0 <= i < |rows| :: rows[i] == SwapRange(old(rows[i]), start, j)
      {
        SwapColumn(j);
        j := j + 1;
      }
      forall i | 0 <= i < |rows| ensures rows[i] == SwapRange(old(rows[i]), start, |old(rows[i])|) {
        assert SwapRange(old(rows[i]), start, j) == SwapRange(old(rows[i]), start, |old(rows[i])|);
      }
    }
  }
}
