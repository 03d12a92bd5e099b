/** The monthly archives name each member after the month it covers, as an
    English month abbreviation and a two-digit year (`Mar_23`). The loader turns
    that token into a timestamp with `pd.to_datetime(token, format="%b_%y")`:
    the month is matched without regard to case, and the two-digit year is
    placed in a century by the POSIX `strptime` rule (00-68 is 2000-2068, 69-99
    is 1969-1999). The day is the first of the month. Before matching the
    format, pandas reads the empty token and the spellings of "not a time"
    (`NaT`, `nan` and their case variants below) as a missing timestamp. */
module Periods {
  import opened Wrappers
  import opened Frames

  /** `%b` in the C locale, as the archives spell it. */
  const MonthAbbreviations: seq<string> :=
    ["Jan", "Feb", "Mar", "Apr", "May", "Jun", "Jul", "Aug", "Sep", "Oct", "Nov", "Dec"]

  /** The same abbreviations, lower-cased: what a token is compared against. */
  const LowerMonthAbbreviations: seq<string> :=
    ["jan", "feb", "mar", "apr", "may", "jun", "jul", "aug", "sep", "oct", "nov", "dec"]

  function LowerAscii(c: char): char
  {
    if 'A' <= c <= 'Z' then (c as int - 'A' as int + 'a' as int) as char else c
  }

  function Lower(s: string): (r: string)
    ensures |r| == |s|
    ensures forall i :: 0 <= i < |s| ==> r[i] == LowerAscii(s[i])
  {
    seq(|s|, i requires 0 <= i < |s| => LowerAscii(s[i]))
  }

  function MonthFrom(lowered: string, i: nat): (m: Option<int>)
    decreases 12 - i
    ensures m.Some? ==> i < m.value <= 12 && LowerMonthAbbreviations[m.value - 1] == lowered
  {
    if i >= 12 then None
    else if LowerMonthAbbreviations[i] == lowered then Some(i + 1)
    else MonthFrom(lowered, i + 1)
  }

  /** The month number (1-12) of an abbreviation in any case, if it is one. */
  function MonthNumber(abbr: string): (m: Option<int>)
    ensures m.Some? ==> 1 <= m.value <= 12 && LowerMonthAbbreviations[m.value - 1] == Lower(abbr)
  {
    MonthFrom(Lower(abbr), 0)
  }

  predicate IsDigit(c: char)
  {
    '0' <= c <= '9'
  }

  function DigitValue(c: char): int
  {
    c as int - '0' as int
  }

  function DigitChar(d: int): char
    requires 0 <= d <= 9
  {
    (d + '0' as int) as char
  }

  /** The `%y` century rule. */
  function CenturyPivot(yy: int): int
  {
    if yy <= 68 then 2000 + yy else 1900 + yy
  }

  /** The `%b_%y` match, or `None` where it fails: the whole token must be
      three letters naming a month, `_`, and two digits. */
  function ParseMonthYear(token: string): (r: Option<Value>)
    ensures r.Some? ==> r.value.Timestamp? && r.value.day == 1
    ensures r.Some? ==> 1 <= r.value.month <= 12 && 1969 <= r.value.year <= 2068
  {
    if |token| != 6 || token[3] != '_' || !IsDigit(token[4]) || !IsDigit(token[5]) then None
    else
      match MonthNumber(token[..3])
      case None => None
      case Some(m) => Some(Timestamp(CenturyPivot(10 * DigitValue(token[4]) + DigitValue(token[5])), m, 1))
  }

  /** What `pd.to_datetime(token, format="%b_%y")` gives one token: a
      timestamp, a missing timestamp (`NaT`), or an error. */
  datatype Converted = Parsed(date: Value) | NotATime | Unparsable

  /** The strings pandas reads as `NaT` whatever the format. */
  const NotATimeSpellings: set<string> := {"NaT", "nat", "NAT", "nan", "NaN", "NAN"}

  /** `pd.to_datetime(token, format="%b_%y")`: the empty token and the `NaT`
      spellings are missing, anything else must match the format. */
  function ToDatetime(token: string): Converted
  {
    if token == "" || token in NotATimeSpellings then NotATime
    else
      match ParseMonthYear(token)
      case None => Unparsable
      case Some(v) => Parsed(v)
  }

  /** A token converts to a timestamp exactly when it matches the format, to
      `NaT` exactly when it is empty or a `NaT` spelling, and fails otherwise. */
  lemma ToDatetimeCases(token: string)
    ensures ToDatetime(token).Parsed? <==> ParseMonthYear(token).Some?
    ensures ToDatetime(token).Parsed? ==> ToDatetime(token).date == ParseMonthYear(token).value
    ensures ToDatetime(token) == NotATime <==> token == "" || token in NotATimeSpellings
  {
    if token in NotATimeSpellings {
      NotATimeLength(token);
    }
  }

  /** How the archives spell a month: `FormatMonthYear(3, 23) == "Mar_23"`. */
  function FormatMonthYear(month: int, yy: int): (s: string)
    requires 1 <= month <= 12 && 0 <= yy <= 99
    ensures |s| == 6
  {
    MonthAbbreviations[month - 1] + "_" + [DigitChar(yy / 10), DigitChar(yy % 10)]
  }

  lemma LowerAbbreviations()
    ensures forall i :: 0 <= i < 12 ==> Lower(MonthAbbreviations[i]) == LowerMonthAbbreviations[i]
  {
    forall i | 0 <= i < 12 ensures Lower(MonthAbbreviations[i]) == LowerMonthAbbreviations[i] {
      var a, b := MonthAbbreviations[i], LowerMonthAbbreviations[i];
      assert |a| == 3 && |b| == 3;
      assert Lower(a)[0] == b[0] && Lower(a)[1] == b[1] && Lower(a)[2] == b[2];
    }
  }

  lemma {:induction false} MonthFromFinds(i: nat, m: int)
    requires i < m <= 12
    ensures MonthFrom(LowerMonthAbbreviations[m - 1], i) == Some(m)
    decreases 12 - i
  {
    if i + 1 < m {
      assert LowerMonthAbbreviations[i] != LowerMonthAbbreviations[m - 1];
      MonthFromFinds(i + 1, m);
    }
  }

  /** Parsing what the archives write gives back the month, with the year
      placed by the century rule. */
  lemma ParseFormatRoundTrip(month: int, yy: int)
    requires 1 <= month <= 12 && 0 <= yy <= 99
    ensures ParseMonthYear(FormatMonthYear(month, yy)) == Some(Timestamp(CenturyPivot(yy), month, 1))
    ensures ToDatetime(FormatMonthYear(month, yy)) == Parsed(Timestamp(CenturyPivot(yy), month, 1))
  {
    var s := FormatMonthYear(month, yy);
    FormatParts(month, yy);
    MonthNumberOf(month);
    ToDatetimeCases(s);
  }

  lemma FormatParts(month: int, yy: int)
    requires 1 <= month <= 12 && 0 <= yy <= 99
    ensures var s := FormatMonthYear(month, yy);
      && s[..3] == MonthAbbreviations[month - 1] && s[3] == '_'
      && IsDigit(s[4]) && IsDigit(s[5]) && 10 * DigitValue(s[4]) + DigitValue(s[5]) == yy
  {
    var s := FormatMonthYear(month, yy);
    assert |MonthAbbreviations[month - 1]| == 3;
    assert s[4] == DigitChar(yy / 10) && s[5] == DigitChar(yy % 10);
  }

  lemma MonthNumberOf(month: int)
    requires 1 <= month <= 12
    ensures MonthNumber(MonthAbbreviations[month - 1]) == Some(month)
  {
    LowerAbbreviations();
    MonthFromFinds(0, month);
  }

  /** The converse: a token that parses is, up to letter case, the archives'
      spelling of the month and year it parses to. */
  lemma ParsedTokenIsFormatted(token: string)
    requires ParseMonthYear(token).Some?
    ensures var v := ParseMonthYear(token).value;
      var yy := if v.year >= 2000 then v.year - 2000 else v.year - 1900;
      0 <= yy <= 99 && Lower(token) == Lower(FormatMonthYear(v.month, yy))
  {
    var v := ParseMonthYear(token).value;
    var yy := if v.year >= 2000 then v.year - 2000 else v.year - 1900;
    var f := FormatMonthYear(v.month, yy);
    ParsedParts(token);
    TwoDigits(token[4], token[5]);
    FormatParts(v.month, yy);
    LowerAbbreviationAt(v.month - 1);
    assert f[3] == token[3] && f[4] == token[4] && f[5] == token[5];
    SameUpToCase(token, f);
  }

  /** Two six-character tokens that agree up to case on the month and
      exactly on the rest are equal up to case. */
  lemma SameUpToCase(token: string, f: string)
    requires |token| == 6 && |f| == 6
    requires Lower(token[..3]) == Lower(f[..3])
    requires token[3] == f[3] && token[4] == f[4] && token[5] == f[5]
    ensures Lower(token) == Lower(f)
  {
    var lt, lf := Lower(token[..3]), Lower(f[..3]);
    forall i | 0 <= i < 6 ensures Lower(token)[i] == Lower(f)[i] {
      if i < 3 {
        assert lt[i] == Lower(token)[i];
        assert lf[i] == Lower(f)[i];
      }
    }
  }

  /** What a successful parse has read from the token. */
  lemma ParsedParts(token: string)
    requires ParseMonthYear(token).Some?
    ensures var v := ParseMonthYear(token).value;
      && |token| == 6 && token[3] == '_' && IsDigit(token[4]) && IsDigit(token[5])
      && Lower(token[..3]) == LowerMonthAbbreviations[v.month - 1]
      && v.year == CenturyPivot(10 * DigitValue(token[4]) + DigitValue(token[5]))
  {
  }

  lemma TwoDigits(c: char, d: char)
    requires IsDigit(c) && IsDigit(d)
    ensures var n := 10 * DigitValue(c) + DigitValue(d);
      0 <= n <= 99 && DigitChar(n / 10) == c && DigitChar(n % 10) == d
  {
  }

  lemma LowerAbbreviationAt(i: nat)
    requires i < 12
    ensures Lower(MonthAbbreviations[i]) == LowerMonthAbbreviations[i]
  {
    LowerAbbreviations();
  }

  /** The months of the two archives the collector reads, and the first year
      the century rule sends to the 1900s. */
  lemma ParseExamples()
    ensures ParseMonthYear("Mar_23") == Some(Timestamp(2023, 3, 1))
    ensures ParseMonthYear("Sep_22") == Some(Timestamp(2022, 9, 1))
    ensures ParseMonthYear("Jan_69") == Some(Timestamp(1969, 1, 1))
  {
    ParseFormatRoundTrip(3, 23);
    assert FormatMonthYear(3, 23) == "Mar_23";
    ParseFormatRoundTrip(9, 22);
    assert FormatMonthYear(9, 22) == "Sep_22";
    ParseFormatRoundTrip(1, 69);
    assert FormatMonthYear(1, 69) == "Jan_69";
  }

  /** The empty token and `nan` convert to `NaT` instead of failing. */
  lemma NotATimeExamples()
    ensures ToDatetime("") == NotATime
    ensures ToDatetime("nan") == NotATime && ToDatetime("NaT") == NotATime
  {
  }

  lemma NotATimeLength(token: string)
    requires token in NotATimeSpellings
    ensures |token| == 3
  {
  }

  /** A well-formed token is never read as `NaT`. */
  lemma WellFormedIsNotMissing(token: string)
    requires |token| == 6
    ensures ToDatetime(token) == match ParseMonthYear(token) case None => Unparsable case Some(v) => Parsed(v)
  {
    if token in NotATimeSpellings {
      NotATimeLength(token);
    }
  }

  /** A token that is neither missing nor well formed fails. */
  lemma MalformedTokenFails()
    ensures ToDatetime("Sep-22") == Unparsable
  {
    WellFormedIsNotMissing("Sep-22");
    ParseCaseAndSeparator();
  }

  /** Case does not matter, and the separator must be an underscore. */
  lemma ParseCaseAndSeparator()
    ensures ParseMonthYear("sEP_22") == Some(Timestamp(2022, 9, 1))
    ensures ParseMonthYear("Sep-22") == None
  {
    assert ParseMonthYear("sEP_22") == Some(Timestamp(2022, 9, 1)) by {
      var t := "sEP_22";
      assert t[..3] == "sEP";
      var l := Lower(t[..3]);
      assert l[0] == 's' && l[1] == 'e' && l[2] == 'p';
      assert l == "sep";
      MonthFromFinds(0, 9);
      assert 10 * DigitValue(t[4]) + DigitValue(t[5]) == 22;
    }
    assert ParseMonthYear("Sep-22") == None by {
      var t := "Sep-22";
      assert t[3] == '-';
    }
  }
}
