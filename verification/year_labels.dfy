/** Year labels of the export tables. A label is a bare year ("2023") or
    a year followed by a parenthesised sub-period ("2024(Ene-Mar)").
    Headers show the sub-period first ("Ene-Mar 2024"), and year columns
    are put in chronological order by the integer before the parenthesis
    (datos_exportaciones.py, transform_year_column_name, transform_year and
    the sort key of generar_tabla_resumen). */
module YearLabels {
  import opened Common
  import opened Text
  import opened Selection

  // -----------------------------------------------------------------------
  // transform_year_column_name and transform_year

  /** Both helpers act only on a label holding both '(' and ')'. */
  predicate Bracketed(name: string) {
    '(' in name && ')' in name
  }

  /** `transform_year_column_name`: "Y(P)" becomes "P Y" with Y stripped
      and every ')' removed from P. `year, period = name.split('(')`
      raises ValueError unless the label has exactly one '('. */
  function TransformYearColumnName(name: string): Result<string> {
    if Bracketed(name) then
      if CountChar(name, '(') != 1 then Err(ValueError)
      else
        var i := IndexOf(name, '(');
        Ok(RemoveChar(name[i + 1..], ')') + " " + Strip(name[..i]))
    else Ok(name)
  }

  /** `transform_year`: the stripped text before '(' of a bracketed label. */
  function TransformYear(name: string): Result<string> {
    if Bracketed(name) then
      if CountChar(name, '(') != 1 then Err(ValueError)
      else Ok(Strip(name[..IndexOf(name, '(')]))
    else Ok(name)
  }

  lemma IndexOfFirst(s: string, c: char, i: nat)
    requires i < |s| && s[i] == c && c !in s[..i]
    ensures IndexOf(s, c) == i
  {
    var j := IndexOf(s, c);
    assert s[..j] == s[..j];
    assert s[..i] == s[..i];
  }

  /** "Y(P)" with no other parenthesis becomes "P Y" in a header, and "Y"
      (stripped) where only the year is wanted. */
  lemma PeriodLabelParts(year: string, period: string)
    requires '(' !in year && '(' !in period
    ensures var name := year + "(" + period + ")";
      && Bracketed(name) && CountChar(name, '(') == 1 && IndexOf(name, '(') == |year|
      && name[..|year|] == year && name[|year| + 1..] == period + ")"
  {
    var name := year + "(" + period + ")";
    var i := |year|;
    assert name[i] == '(' && name[..i] == year;
    assert name[|name| - 1] == ')';
    IndexOfFirst(name, '(', i);
    CountCharAppend(year + "(", period + ")", '(');
    CountCharAppend(year, "(", '(');
    CountCharAppend(period, ")", '(');
    assert name == (year + "(") + (period + ")");
    assert name[i + 1..] == period + ")";
  }

  lemma RemoveClosing(period: string)
    requires ')' !in period
    ensures RemoveChar(period + ")", ')') == period
  {
    RemoveCharAppend(period, ")", ')');
    RemoveAbsentChar(period, ')');
    assert RemoveChar(")", ')') == [];
  }

  lemma PeriodLabelTransforms(year: string, period: string)
    requires '(' !in year && ')' !in year && '(' !in period && ')' !in period
    ensures TransformYearColumnName(year + "(" + period + ")") == Ok(period + " " + Strip(year))
    ensures TransformYear(year + "(" + period + ")") == Ok(Strip(year))
  {
    PeriodLabelParts(year, period);
    RemoveClosing(period);
  }

  /** The two helpers agree: a header is the cleaned period, a space, and
      the year `transform_year` returns; a name without both parentheses
      comes back unchanged from both; and both fail exactly on a bracketed
      label with more than one '('. */
  lemma TransformsAgree(name: string)
    ensures TransformYearColumnName(name).Err? <==> TransformYear(name).Err?
    ensures TransformYear(name).Err? <==> Bracketed(name) && CountChar(name, '(') > 1
    ensures !Bracketed(name) ==> TransformYearColumnName(name) == Ok(name) == TransformYear(name)
    ensures Bracketed(name) && TransformYear(name).Ok? ==>
      TransformYearColumnName(name).value
        == RemoveChar(name[IndexOf(name, '(') + 1..], ')') + " " + TransformYear(name).value
  {
  }

  // -----------------------------------------------------------------------
  // The chronological sort key

  /** What Python's `int()` accepts after the sign: decimal digits with
      single underscores between them. */
  predicate IsNumeral(b: string) {
    && |b| > 0 && IsDigit(b[0]) && IsDigit(b[|b| - 1])
    && (forall i | 0 <= i < |b| :: IsDigit(b[i]) || b[i] == '_')
    && (forall i, j | 0 <= i < |b| && 0 <= j < |b| && j == i + 1 :: IsDigit(b[i]) || IsDigit(b[j]))
  }

  /** Python's `int(s)`: white space around an optionally signed numeral. */
  function ParseInt(s: string): Result<int> {
    var t := Strip(s);
    var signed := |t| > 0 && (t[0] == '+' || t[0] == '-');
    var body := if signed then t[1..] else t;
    if IsNumeral(body) then
      RemoveSeparator(body, '_');
      var v: int := DigitsValue(RemoveChar(body, '_'));
      Ok(if signed && t[0] == '-' then -v else v)
    else Err(ValueError)
  }

  /** The key `int(x.split('(')[0]) if '(' in x else int(x)`. */
  function YearKey(name: string): Result<int> {
    if '(' in name then ParseInt(name[..IndexOf(name, '(')]) else ParseInt(name)
  }

  lemma ParseIntOfDigits(d: string)
    requires |d| > 0 && AllDigits(d)
    ensures ParseInt(d) == Ok(DigitsValue(d))
  {
    StripDigits(d);
    NumeralOfDigits(d);
  }

  lemma NumeralOfDigits(d: string)
    requires |d| > 0 && AllDigits(d)
    ensures IsNumeral(d) && RemoveChar(d, '_') == d
  {
    assert '_' !in d;
    RemoveAbsentChar(d, '_');
  }

  lemma ParseIntDigits(n: nat)
    ensures ParseInt(Digits(n)) == Ok(n)
  {
    ParseIntOfDigits(Digits(n));
    DigitsValueOfDigits(n);
  }

  /** The key of a label with a parenthesis comes from the text before it. */
  lemma YearKeyOfPrefix(head: string, rest: string)
    requires '(' !in head
    ensures YearKey(head + "(" + rest) == ParseInt(head)
  {
    var name := head + "(" + rest;
    assert name[|head|] == '(' && name[..|head|] == head;
    IndexOfFirst(name, '(', |head|);
  }

  /** A bare year and a year with a sub-period both sort by that year. */
  lemma YearKeyOfYear(n: nat, period: string)
    ensures YearKey(Digits(n)) == Ok(n)
    ensures YearKey(Digits(n) + "(" + period) == Ok(n)
  {
    var d := Digits(n);
    ParseIntDigits(n);
    assert '(' !in d;
    YearKeyOfPrefix(d, period);
  }

  /** Text without a digit is no integer. */
  lemma ParseIntNeedsDigits(s: string)
    requires forall i | 0 <= i < |s| :: !IsDigit(s[i])
    ensures ParseInt(s).Err?
  {
    var t := Strip(s);
    var l := StripLeft(s);
    assert t == l[..|t|] && l == s[|s| - |l|..];
    if |t| > 0 {
      assert !IsDigit(s[|s| - |l|]);
    }
    if |t| > 1 {
      assert !IsDigit(s[|s| - |l| + 1]);
    }
  }

  /** A label with no digit before its parenthesis has no key: `int()`
      raises ValueError. */
  lemma YearKeyNeedsDigits(name: string)
    requires forall i | 0 <= i < |name| :: !IsDigit(name[i])
    ensures YearKey(name).Err?
  {
    if '(' in name {
      var head := name[..IndexOf(name, '(')];
      assert forall i | 0 <= i < |head| :: head[i] == name[i];
      ParseIntNeedsDigits(head);
    } else {
      ParseIntNeedsDigits(name);
    }
  }

  /** The key used once every label has one; it orders the year columns. */
  function LabelKey(name: string): int {
    match YearKey(name)
    case Ok(k) => k
    case Err(_) => 0
  }

  /** Every label has a key. */
  predicate AllKeyed(labels: seq<string>) {
    forall i | 0 <= i < |labels| :: YearKey(labels[i]).Ok?
  }

  /** `sorted(columns, key=...)`: stable ascending order by year key; any
      label whose key fails to parse makes the whole sort fail. */
  function SortYears(labels: seq<string>): Result<seq<string>> {
    if AllKeyed(labels) then Ok(SortBy(labels, LabelKey)) else Err(ValueError)
  }

  /** The year columns are the input's labels, rearranged; the sort fails
      exactly when some label has no key. */
  lemma SortYearsPermutes(labels: seq<string>)
    ensures SortYears(labels).Ok? <==> AllKeyed(labels)
    ensures SortYears(labels).Ok? ==> multiset(SortYears(labels).value) == multiset(labels)
  {
    SortByPermutes(labels, LabelKey);
  }

  /** Every year column has a key, and the columns come in ascending order
      of that key, the integer before '(' (not in string order); so the
      previous and current years are the last two. */
  lemma SortYearsAscending(labels: seq<string>)
    requires AllKeyed(labels)
    ensures AllKeyed(SortYears(labels).value)
    ensures var r := SortYears(labels).value;
      forall i, j | 0 <= i < j < |r| :: LabelKey(r[i]) <= LabelKey(r[j])
  {
    var r := SortYears(labels).value;
    SortByPermutes(labels, LabelKey);
    SortBySorted(labels, LabelKey);
    AllKeyedPermutation(r, labels);
  }

  lemma AllKeyedPermutation(a: seq<string>, b: seq<string>)
    requires multiset(a) == multiset(b) && AllKeyed(b)
    ensures AllKeyed(a)
  {
    forall i | 0 <= i < |a| ensures YearKey(a[i]).Ok? {
      assert a[i] in multiset(b);
      var j :| 0 <= j < |b| && b[j] == a[i];
    }
  }

  /** Labels with equal keys keep their input order (`sorted` is stable). */
  lemma SortYearsStable(labels: seq<string>, k: int)
    requires AllKeyed(labels)
    ensures FilterKey(SortYears(labels).value, LabelKey, k) == FilterKey(labels, LabelKey, k)
  {
    SortByStable(labels, LabelKey, k);
  }
}
