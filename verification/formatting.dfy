/** How the table builders turn numbers into text: float percentages
    (with IEEE's non-finite results of a division by zero), the
    `'{:,.0f}'` thousands format, the `'{:.1f}%'` percent format, and the
    lambda that turns English separators into Spanish ones. */
module Formatting {
  import opened Text

  type Positive = x: int | x > 0 witness 1

  function Abs(x: int): nat {
    if x < 0 then -x else x
  }

  /** A percentage as pandas computes it in float64: a finite value,
      kept here as the exact quotient `num / den`, or one of IEEE's three
      non-finite values. */
  datatype Pct = Finite(num: int, den: Positive) | PosInf | NegInf | NaN

  /** `a / b * 100` on floats: dividing by zero raises nothing; it gives
      inf, -inf or nan according to the sign of `a`. */
  function Ratio(a: int, b: int): (p: Pct)
    ensures p.Finite? <==> b != 0
    ensures p.Finite? ==> p.num * b == 100 * a * p.den
    ensures b == 0 ==> (p == PosInf <==> a > 0) && (p == NegInf <==> a < 0) && (p == NaN <==> a == 0)
  {
    if b > 0 then Finite(100 * a, b)
    else if b < 0 then Finite(-100 * a, -b)
    else if a > 0 then PosInf
    else if a < 0 then NegInf
    else NaN
  }

  /** `a / b.replace(0, np.nan) * 100`: a zero base becomes nan before the
      division, so the result is nan whatever `a` is. */
  function NullSafeRatio(a: int, b: int): (p: Pct)
    ensures b == 0 ==> p == NaN
    ensures b != 0 ==> p.Finite? && p.num * b == 100 * a * p.den
  {
    if b == 0 then NaN else Ratio(a, b)
  }

  // -----------------------------------------------------------------------
  // '{:,.0f}'.format on a whole number

  /** Digits grouped in threes from the right, with ',' between groups. */
  function Group(s: string): (r: string)
    requires |s| > 0 && AllDigits(s)
    ensures |r| == |s| + (|s| - 1) / 3
    ensures forall i | 0 <= i < |r| :: r[i] == ',' || IsDigit(r[i])
    decreases |s|
  {
    if |s| <= 3 then s else Group(s[..|s| - 3]) + "," + s[|s| - 3..]
  }

  /** One more group of three digits keeps the commas four places apart. */
  lemma CommasStep(g: string, t: string)
    requires |t| == 3 && ',' !in t
    requires forall i | 0 <= i < |g| :: g[i] == ',' <==> (|g| - i) % 4 == 0
    ensures var r := g + "," + t;
            forall i | 0 <= i < |r| :: r[i] == ',' <==> (|r| - i) % 4 == 0
  {
    var r := g + "," + t;
    assert |r| == |g| + 4;
    forall i | 0 <= i < |r| ensures r[i] == ',' <==> (|r| - i) % 4 == 0 {
      if i < |g| {
        assert r[i] == g[i];
        assert (|g| - i + 4) % 4 == (|g| - i) % 4;
      } else if i == |g| {
        assert r[i] == ',' && |r| - i == 4;
      } else {
        assert r[i] == t[i - |g| - 1];
        assert 0 < |r| - i < 4;
      }
    }
  }

  /** The commas sit exactly every four places counted from the end: each
      group after the first has three digits, the first one to three. */
  lemma {:induction false} GroupCommas(s: string)
    requires |s| > 0 && AllDigits(s)
    ensures forall i | 0 <= i < |Group(s)| :: Group(s)[i] == ',' <==> (|Group(s)| - i) % 4 == 0
    decreases |s|
  {
    if |s| > 3 {
      var h, t := s[..|s| - 3], s[|s| - 3..];
      GroupCommas(h);
      assert Group(s) == Group(h) + "," + t;
      assert forall k | 0 <= k < |t| :: t[k] == s[|s| - 3 + k];
      CommasStep(Group(h), t);
    }
  }

  lemma UngroupStep(g: string, h: string, t: string)
    requires RemoveChar(g, ',') == h && ',' !in t
    ensures RemoveChar(g + "," + t, ',') == h + t
  {
    var comma := ",";
    RemoveCharAppend(g, comma, ',');
    assert RemoveChar(comma[1..], ',') == [];
    assert RemoveChar(comma, ',') == [];
    assert RemoveChar(g + comma, ',') == h;
    RemoveAbsentChar(t, ',');
    RemoveCharAppend(g + comma, t, ',');
  }

  /** Removing the commas gives the digits back. */
  lemma {:induction false} GroupUngroup(s: string)
    requires |s| > 0 && AllDigits(s)
    ensures RemoveChar(Group(s), ',') == s
    decreases |s|
  {
    if |s| > 3 {
      var h, t := s[..|s| - 3], s[|s| - 3..];
      assert Group(s) == Group(h) + "," + t;
      GroupUngroup(h);
      assert ',' !in t;
      UngroupStep(Group(h), h, t);
      assert h + t == s;
    } else {
      assert ',' !in s;
      RemoveAbsentChar(s, ',');
    }
  }

  /** `'{:,.0f}'.format(n)`: a '-' for negatives, then the grouped digits. */
  function FormatThousands(n: int): (r: string)
    ensures forall i | 0 <= i < |r| :: r[i] == ',' || IsDigit(r[i]) || (i == 0 && r[i] == '-')
  {
    var g := Group(Digits(if n < 0 then -n else n));
    if n < 0 then
      assert forall i | 1 <= i < |g| + 1 :: ("-" + g)[i] == g[i - 1];
      "-" + g
    else g
  }

  /** Whole numbers as written in a table: an optional '-', then digits
      split into groups by `sep`. */
  predicate IsGroupedNumber(s: string, sep: char) {
    forall i | 0 <= i < |s| :: s[i] == sep || IsDigit(s[i]) || (i == 0 && s[i] == '-')
  }

  /** Reads a grouped whole number back. */
  function ReadGroupedNumber(s: string, sep: char): int
    requires IsGroupedNumber(s, sep)
  {
    var negative := |s| > 0 && s[0] == '-';
    var body := if negative then s[1..] else s;
    RemoveSeparator(body, sep);
    var v: int := DigitsValue(RemoveChar(body, sep));
    if negative then -v else v
  }

  /** The thousands format loses nothing: reading it back gives `n`. */
  lemma FormatThousandsReadsBack(n: int)
    ensures IsGroupedNumber(FormatThousands(n), ',')
    ensures ReadGroupedNumber(FormatThousands(n), ',') == n
  {
    var m := if n < 0 then -n else n;
    var g := Group(Digits(m));
    GroupUngroup(Digits(m));
    DigitsValueOfDigits(m);
    if n < 0 {
      assert FormatThousands(n)[1..] == g;
    } else {
      assert g[0] != '-';
    }
  }

  // -----------------------------------------------------------------------
  // '{:.1f}%'.format on a float

  /** `n / d` rounded to a whole number, ties to even, as Python rounds a
      value it prints with a fixed number of decimals. */
  function RoundHalfEven(n: int, d: Positive): (q: int)
    ensures Abs(2 * (n - q * d)) <= d
    ensures Abs(2 * (n - q * d)) == d ==> q % 2 == 0
  {
    var f, r := n / d, n % d;
    assert n == f * d + r && 0 <= r < d;
    if 2 * r > d || (2 * r == d && f % 2 == 1) then
      assert (f + 1) * d == f * d + d;
      f + 1
    else f
  }

  /** The percentage in tenths, as `'{:.1f}'` rounds it. */
  function Tenths(p: Pct): int
    requires p.Finite?
  {
    RoundHalfEven(10 * p.num, p.den)
  }

  /** `a` tenths without a sign: the whole part, the decimal mark `sep`,
      one digit, '%'. */
  function TenthsText(a: nat, sep: char): string {
    Digits(a / 10) + [sep, DigitChar(a % 10), '%']
  }

  /** `'{:.1f}%'.format(x)`: the value with one decimal, or "inf%",
      "-inf%", "nan%". A negative value that rounds to zero keeps its
      sign ("-0.0%"). */
  function FormatPercent(p: Pct): (r: string)
    ensures |r| >= 4 && r[|r| - 1] == '%'
    ensures !p.Finite? ==> '.' !in r && ',' !in r && 'X' !in r
  {
    match p
    case Finite(num, den) =>
      var t := Tenths(p);
      var a := if t < 0 then -t else t;
      (if num < 0 then "-" else "") + TenthsText(a, '.')
    case PosInf => "inf%"
    case NegInf => "-inf%"
    case NaN => "nan%"
  }

  /** A finite percentage as written in a table: an optional '-', the
      whole part, the decimal separator `sep`, one digit, and '%'. */
  predicate IsDecimalPercent(s: string, sep: char) {
    && |s| >= 4 && s[|s| - 1] == '%' && s[|s| - 3] == sep && IsDigit(s[|s| - 2])
    && var whole := if s[0] == '-' then s[1..|s| - 3] else s[..|s| - 3];
       |whole| > 0 && AllDigits(whole)
  }

  /** The tenths a finite percentage shows. */
  function ReadTenths(s: string, sep: char): int
    requires IsDecimalPercent(s, sep)
  {
    var whole := if s[0] == '-' then s[1..|s| - 3] else s[..|s| - 3];
    var v: int := DigitsValue(whole) * 10 + DigitValue(s[|s| - 2]);
    if s[0] == '-' then -v else v
  }

  /** Rounding keeps the sign: a negative value shows at most zero
      tenths and any other value at least zero. */
  lemma TenthsSign(p: Pct)
    requires p.Finite?
    ensures p.num < 0 ==> Tenths(p) <= 0
    ensures p.num >= 0 ==> Tenths(p) >= 0
  {
    var t := Tenths(p);
    assert Abs(2 * (10 * p.num - t * p.den)) <= p.den;
  }

  lemma UnsignedDecimal(a: nat, sep: char)
    ensures var u := TenthsText(a, sep);
      IsDecimalPercent(u, sep) && ReadTenths(u, sep) == a && u[0] != '-'
  {
    var w, c := Digits(a / 10), DigitChar(a % 10);
    DigitsValueOfDigits(a / 10);
    assert DigitValue(c) == a % 10;
    var u := TenthsText(a, sep);
    assert u[..|u| - 3] == w && u[|u| - 2] == c && u[|u| - 3] == sep && u[|u| - 1] == '%';
    assert u[0] == w[0];
  }

  lemma SignedDecimal(a: nat, sep: char)
    ensures var s := "-" + TenthsText(a, sep);
      IsDecimalPercent(s, sep) && ReadTenths(s, sep) == -(a as int) && s[0] == '-'
  {
    var u := TenthsText(a, sep);
    UnsignedDecimal(a, sep);
    var s := "-" + u;
    assert s[1..] == u;
    assert s[|s| - 1] == u[|u| - 1] && s[|s| - 2] == u[|u| - 2] && s[|s| - 3] == u[|u| - 3];
    assert s[1..|s| - 3] == u[..|u| - 3];
  }

  /** The layout `'{:.1f}%'` gives a finite value. */
  lemma DecimalText(negative: bool, a: nat, sep: char)
    ensures var s := (if negative then "-" else "") + TenthsText(a, sep);
      && IsDecimalPercent(s, sep)
      && ReadTenths(s, sep) == (if negative then -(a as int) else a as int)
      && (s[0] == '-' <==> negative)
  {
    if negative {
      SignedDecimal(a, sep);
    } else {
      UnsignedDecimal(a, sep);
      assert "" + TenthsText(a, sep) == TenthsText(a, sep);
    }
  }

  /** A finite percentage is printed as its value rounded to one decimal,
      ties to even: within half a tenth of `num / den`, and with a '-'
      exactly when the value is negative. */
  lemma FormatPercentReadsBack(p: Pct)
    requires p.Finite?
    ensures IsDecimalPercent(FormatPercent(p), '.')
    ensures ReadTenths(FormatPercent(p), '.') == Tenths(p)
    ensures Abs(2 * (10 * p.num - Tenths(p) * p.den)) <= p.den
    ensures FormatPercent(p)[0] == '-' <==> p.num < 0
  {
    var t := Tenths(p);
    TenthsSign(p);
    DecimalText(p.num < 0, if t < 0 then -t else t, '.');
  }

  // -----------------------------------------------------------------------
  // The separator swap

  /** The lambda `x.replace(',', 'X').replace('.', ',').replace('X', '.')`,
      applied to every rendered cell: ',' and '.' trade places, and an 'X'
      already in the text becomes '.' too. */
  function SwapSeparators(s: string): (r: string)
    ensures |r| == |s|
    ensures forall i | 0 <= i < |s| ::
      r[i] == (if s[i] == ',' || s[i] == 'X' then '.' else if s[i] == '.' then ',' else s[i])
  {
    ReplaceChar(ReplaceChar(ReplaceChar(s, ',', 'X'), '.', ','), 'X', '.')
  }

  /** On text without 'X' the swap undoes itself. */
  lemma SwapSeparatorsInvolution(s: string)
    requires 'X' !in s
    ensures SwapSeparators(SwapSeparators(s)) == s
  {
    var r := SwapSeparators(s);
    assert forall i | 0 <= i < |s| :: r[i] != 'X';
  }

  /** An 'X' in a cell does not survive a round trip: it comes back as ','. */
  lemma SwapSeparatorsLosesX(s: string, i: nat)
    requires i < |s| && s[i] == 'X'
    ensures SwapSeparators(SwapSeparators(s))[i] == ','
  {
  }

  /** A whole number in Spanish: '.' between groups of thousands where the
      English format has ','; reading it back with '.' gives `n`. */
  lemma SpanishThousands(n: int)
    ensures SwapSeparators(FormatThousands(n)) == ReplaceChar(FormatThousands(n), ',', '.')
    ensures IsGroupedNumber(SwapSeparators(FormatThousands(n)), '.')
    ensures ReadGroupedNumber(SwapSeparators(FormatThousands(n)), '.') == n
  {
    var e := FormatThousands(n);
    var s := SwapSeparators(e);
    FormatThousandsReadsBack(n);
    SwapPlainNumber(e);
    var negative := |e| > 0 && e[0] == '-';
    var eb := if negative then e[1..] else e;
    var sb := if negative then s[1..] else s;
    assert sb == SwapSeparators(eb);
    RemoveSeparator(eb, ',');
    RemoveSeparator(sb, '.');
    SpanishUngroup(eb);
  }

  lemma SwapPlainNumber(e: string)
    requires IsGroupedNumber(e, ',')
    ensures SwapSeparators(e) == ReplaceChar(e, ',', '.')
    ensures IsGroupedNumber(SwapSeparators(e), '.')
  {
  }

  lemma {:induction false} SpanishUngroup(s: string)
    requires forall i | 0 <= i < |s| :: s[i] == ',' || IsDigit(s[i])
    ensures RemoveChar(SwapSeparators(s), '.') == RemoveChar(s, ',')
  {
    if s != [] {
      SpanishUngroup(s[1..]);
      assert SwapSeparators(s)[1..] == SwapSeparators(s[1..]);
    }
  }

  lemma SwapAppend(a: string, b: string)
    ensures SwapSeparators(a + b) == SwapSeparators(a) + SwapSeparators(b)
  {
    var ab := a + b;
    var sa, sb := SwapSeparators(a), SwapSeparators(b);
    var r, t := SwapSeparators(ab), sa + sb;
    assert |r| == |t|;
    forall i | 0 <= i < |ab| ensures r[i] == t[i] {
      if i < |a| {
        assert ab[i] == a[i] && t[i] == sa[i];
      } else {
        assert ab[i] == b[i - |a|] && t[i] == sb[i - |a|];
      }
    }
  }

  /** Text without separators or 'X' is left as it is. */
  lemma SwapPlain(s: string)
    requires forall i | 0 <= i < |s| :: s[i] != ',' && s[i] != '.' && s[i] != 'X'
    ensures SwapSeparators(s) == s
  {
  }

  /** The swap turns the '.' decimal mark of a percentage into ','. */
  lemma SwapTenths(sign: string, a: nat)
    requires sign == "" || sign == "-"
    ensures SwapSeparators(sign + TenthsText(a, '.')) == sign + TenthsText(a, ',')
  {
    var w, c := Digits(a / 10), DigitChar(a % 10);
    SwapAppend(sign, TenthsText(a, '.'));
    SwapAppend(w, ['.', c, '%']);
    SwapPlain(sign);
    SwapPlain(w);
    assert SwapSeparators(['.', c, '%']) == [',', c, '%'];
  }

  /** A finite percentage in Spanish: ',' before the decimal digit, and it
      reads back to the same tenths. */
  lemma SpanishFinitePercent(p: Pct)
    requires p.Finite?
    ensures IsDecimalPercent(SwapSeparators(FormatPercent(p)), ',')
    ensures ReadTenths(SwapSeparators(FormatPercent(p)), ',') == Tenths(p)
  {
    var t := Tenths(p);
    var a: nat := if t < 0 then -t else t;
    var sign := if p.num < 0 then "-" else "";
    assert FormatPercent(p) == sign + TenthsText(a, '.');
    TenthsSign(p);
    SwapTenths(sign, a);
    DecimalText(p.num < 0, a, ',');
    assert (if p.num < 0 then -(a as int) else a as int) == t;
  }

  /** `'{:.1f}%'.format(100.0)`. */
  lemma HundredText()
    ensures FormatPercent(Finite(100, 1)) == "100.0%"
  {
    assert Tenths(Finite(100, 1)) == 1000;
    assert Digits(1) == "1";
    assert Digits(10) == Digits(1) + "0";
    assert Digits(100) == Digits(10) + "0";
    assert TenthsText(1000, '.') == "100.0%";
  }

  /** The fixed 100.0 of a "Total" row, written out and swapped. */
  lemma HundredPercent()
    ensures FormatPercent(Finite(100, 1)) == "100.0%"
    ensures SwapSeparators(FormatPercent(Finite(100, 1))) == "100,0%"
  {
    HundredText();
    SwapHundred();
  }

  lemma SwapHundred()
    ensures SwapSeparators("100.0%") == "100,0%"
  {
    var y := SwapSeparators("100.0%");
    assert y[0] == '1' && y[1] == '0' && y[2] == '0';
    assert y[3] == ',' && y[4] == '0' && y[5] == '%';
  }

  /** The non-finite texts have no separator, so the swap leaves them be. */
  lemma SpanishPercent(p: Pct)
    ensures p.Finite? ==> IsDecimalPercent(SwapSeparators(FormatPercent(p)), ',')
    ensures p.Finite? ==> ReadTenths(SwapSeparators(FormatPercent(p)), ',') == Tenths(p)
    ensures !p.Finite? ==> SwapSeparators(FormatPercent(p)) == FormatPercent(p)
  {
    if p.Finite? {
      SpanishFinitePercent(p);
    } else {
      var e := FormatPercent(p);
      var s := SwapSeparators(e);
      forall i | 0 <= i < |e| ensures s[i] == e[i] {
        assert e[i] in e;
      }
    }
  }
}
