/**
 * `antislaverypetitions.py`: the per-row rules that turn one row of the
 * Antislavery Petitions tsv into a study -- the date cleanup, the covered
 * period, the geographic unit, the cleaned signatory identifications, the
 * title and the local id -- and the column coverage report over all rows.
 */
module AntislaveryPetitions {
  import opened Results
  import opened Json
  import opened Text
  import opened Ordering
  import opened TsvFile
  import opened StudyBuilder

  /** `ignore_values`: cells the builder treats as missing. */
  const Ignore: seq<string> := ["not available", "na"]

  /** `curr.Has(row, key)` for a builder made with `ignore_values`. */
  predicate Has(row: Row, key: string) {
    HasValue(Ignore, row, key)
  }

  /** A string without capitals or surrounding whitespace is its own normal form. */
  lemma NormalOfClean(v: string)
    requires forall i :: 0 <= i < |v| ==> !('A' <= v[i] <= 'Z')
    requires v == [] || (!IsSpace(v[0]) && !IsSpace(v[|v| - 1]))
    ensures Strip(Lower(v)) == v
  {
    assert Lower(v) == v;
    StripOfClean(v, Whitespace);
  }

  /** The builder's normalisation leaves `ignore_values` as they are: lower case, nothing to strip. */
  lemma IgnoreNormalised()
    ensures Normalised(Ignore) == Ignore
  {
    NormalOfClean(Ignore[0]);
    NormalOfClean(Ignore[1]);
  }

  // ---------------------------------------------------------------------------
  // CustomDateParse

  /** What `ParseDate` gives: a checked `YYYY-MM-DD` date or a year `YYYY`. */
  predicate DateShaped(d: string) {
    IsIsoDate(d) || FourDigits(d)
  }

  /** The characters `strip('?[]')` removes. */
  const Marks: set<char> := {'?', '[', ']'}

  /** `input_string.replace('CHECK WITH INDEX', '').strip().strip('?[]')`. */
  function CleanDate(input: string): string {
    StripChars(Strip(ReplaceAll(input, "CHECK WITH INDEX", "")), Marks)
  }

  /**
   * `CustomDateParse(input_string)`: `ParseDate` of the cleaned string; when
   * that fails and the string ends in `0229`, `ParseDate` once more with the
   * day `28` in place of `29`, whose failure is then the one raised.
   */
  function CustomDateParse(input: string): (r: Result<string, PyError>)
    ensures r.Ok? ==> DateShaped(r.value)
    ensures ParseDate(CleanDate(input)).Ok? ==> r == ParseDate(CleanDate(input))
  {
    var stripped := CleanDate(input);
    match ParseDate(stripped)
    case Ok(d) => Ok(d)
    case Err(e) =>
      if EndsWith(stripped, "0229") then ParseDate(stripped[..|stripped| - 2] + "28")
      else Err(e)
  }

  /** A string of at most 15 characters has no `CHECK WITH INDEX` to remove. */
  lemma ReplaceShort(s: string)
    requires |s| < 16
    ensures ReplaceAll(s, "CHECK WITH INDEX", "") == s
  {
  }

  /** Removing occurrences of a pattern adds no character. */
  lemma {:induction false} ReplaceKeepsOut(s: string, pat: string, c: char)
    requires |pat| > 0 && c !in s
    ensures c !in ReplaceAll(s, pat, "")
    decreases |s|
  {
    if |s| >= |pat| {
      if s[..|pat|] == pat {
        assert forall i :: |pat| <= i < |s| ==> s[i] == s[|pat|..][i - |pat|];
        ReplaceKeepsOut(s[|pat|..], pat, c);
      } else {
        assert forall i :: 1 <= i < |s| ==> s[i] == s[1..][i - 1];
        ReplaceKeepsOut(s[1..], pat, c);
      }
    }
  }

  /**
   * `ParseDate` of a string that does not end in a newline gives a checked
   * `YYYY-MM-DD` date or a bare four-digit year.
   */
  lemma ParseDateShape(s: string)
    requires ParseDate(s).Ok? && (s == [] || s[|s| - 1] != '\n')
    ensures IsIsoDate(ParseDate(s).value) || (|ParseDate(s).value| == 4 && AllDigits(ParseDate(s).value))
  {
    if ',' in s {
      var parts := StripEach(Split(s, ","));
      var _ := ParseDatesOfParts(s);
      ParseDateEarliest(s);
      var i :| 0 <= i < |parts| && ParseDate(parts[i]) == ParseDate(s);
      assert parts[i] in parts;
      StrippedEnd(Split(s, ",")[i]);
      PartShape(parts[i], ParseDate(s));
    } else {
      PartShape(s, ParseDate(s));
    }
  }

  /** The shape of a date parsed from a string without a comma. */
  lemma PartShape(part: string, d: Result<string, PyError>)
    requires ',' !in part && ParseDate(part) == d && d.Ok? && (part == [] || part[|part| - 1] != '\n')
    ensures IsIsoDate(d.value) || (|d.value| == 4 && AllDigits(d.value))
  {
    if IsoPrefix(part) {
      assert d == CheckCanonical(part);
    } else if EightDigits(part) {
      assert d == CheckCanonical(Dashed(part));
    } else {
      assert FourDigits(part) && d == Ok(part);
      FourDigitsExact(part);
    }
  }

  lemma FourDigitsExact(s: string)
    requires FourDigits(s) && s[|s| - 1] != '\n'
    ensures |s| == 4 && AllDigits(s)
  {
    assert s[..4] == s;
  }

  /** A stripped string does not end in whitespace. */
  lemma StrippedEnd(s: string)
    ensures Strip(s) == [] || Strip(s)[|Strip(s)| - 1] != '\n'
  {
  }

  /** Without a newline in the cell, a parsed date is a checked `YYYY-MM-DD` date or a four-digit year. */
  lemma CustomDateShape(input: string)
    requires CustomDateParse(input).Ok? && '\n' !in input
    ensures var d := CustomDateParse(input).value; IsIsoDate(d) || (|d| == 4 && AllDigits(d))
  {
    var stripped := CleanDate(input);
    ReplaceKeepsOut(input, "CHECK WITH INDEX", '\n');
    StripCharsKeeps(ReplaceAll(input, "CHECK WITH INDEX", ""), Whitespace, '\n');
    StripCharsKeeps(Strip(ReplaceAll(input, "CHECK WITH INDEX", "")), Marks, '\n');
    if ParseDate(stripped).Ok? {
      if stripped != [] {
        assert stripped[|stripped| - 1] in stripped;
      }
      ParseDateShape(stripped);
    } else {
      var retry := stripped[..|stripped| - 2] + "28";
      assert retry[|retry| - 1] == '8';
      ParseDateShape(retry);
    }
  }

  /** A string whose ends are digits is left alone by both strips. */
  lemma CleanOfDigits(d: string)
    requires |d| > 0 && IsDigit(d[0]) && IsDigit(d[|d| - 1])
    ensures StripChars(d, Whitespace) == d && StripChars(d, Marks) == d
  {
    StripOfClean(d, Whitespace);
    StripOfClean(d, Marks);
  }

  /** A checked `YYYY-MM-DD` date comes back unchanged from `ParseDate`. */
  lemma ParseDateIso(d: string)
    requires IsIsoDate(d)
    ensures ParseDate(d) == Ok(d)
  {
    assert ',' !in d by {
      assert forall i :: 0 <= i < |d| ==> d[i] == '-' || IsDigit(d[i]);
    }
    var day := d[8..10];
    assert DigitsValue("00") == 0;
    assert day != "00";
    assert d[|d| - 2..] == day;
  }

  /** A date `CustomDateParse` gives is given back unchanged when parsed again. */
  lemma ParsedDateIsFixed(d: string)
    requires IsIsoDate(d) || (|d| == 4 && AllDigits(d))
    ensures CustomDateParse(d) == Ok(d)
  {
    assert CleanDate(d) == d by {
      assert IsDigit(d[0]) && IsDigit(d[|d| - 1]);
      ReplaceShort(d);
      CleanOfDigits(d);
    }
    assert ParseDate(d) == Ok(d) by {
      if IsIsoDate(d) {
        ParseDateIso(d);
      } else {
        ParseDateYear(d);
      }
    }
  }

  /**
   * Parsing a parsed date changes nothing: the action date columns, parsed
   * once when the row is cleaned up and again when the action dates are
   * collected, give the dates of the first parse.
   */
  lemma CustomDateParseTwice(input: string)
    requires CustomDateParse(input).Ok? && '\n' !in input
    ensures CustomDateParse(CustomDateParse(input).value) == CustomDateParse(input)
  {
    CustomDateShape(input);
    ParsedDateIsFixed(CustomDateParse(input).value);
  }

  // ---------------------------------------------------------------------------
  // the date columns, overwritten in place with their parsed dates

  const Creation := "Date of creation"

  /** `['dateaction%d' % i for i in range(1,7)]`. */
  const ActionFields: seq<string> := ["dateaction1", "dateaction2", "dateaction3", "dateaction4", "dateaction5", "dateaction6"]

  /** `date_fields`. */
  const DateFields: seq<string> := [Creation] + ActionFields

  /** `curr.Has` on the value of a cell that is present. */
  predicate HasCell(v: string) {
    Strip(v) != "" && Strip(Lower(v)) !in Ignore
  }

  lemma HasIsHasCell(row: Row, key: string)
    ensures Has(row, key) <==> key in row && HasCell(row[key])
  {
  }

  /** A date column's cell after the cleanup: its date, or the cell as it was when `Has` refuses it or it does not parse. */
  function CleanedCell(v: string): string {
    if HasCell(v) && CustomDateParse(v).Ok? then CustomDateParse(v).value else v
  }

  /** The row once the columns `fields` are cleaned up; the other cells and the keys are kept. */
  function CleanedDates(row: Row, fields: seq<string>): (r: Row)
    ensures r.Keys == row.Keys
    ensures forall k :: k in row && k !in fields ==> r[k] == row[k]
  {
    map k | k in row :: if k in fields then CleanedCell(row[k]) else row[k]
  }

  /** Cleaning one more column `f`, not already cleaned, of the partly cleaned row. */
  lemma CleanedDatesStep(row: Row, fields: seq<string>, f: string)
    requires f !in fields
    ensures var r := CleanedDates(row, fields);
      CleanedDates(row, fields + [f]) == if f in r then r[f := CleanedCell(r[f])] else r
  {
  }

  lemma DateFieldsDistinct()
    ensures forall i, j :: 0 <= i < j < |DateFields| ==> DateFields[i] != DateFields[j]
  {
    forall i, j | 0 <= i < j < |DateFields| ensures DateFields[i] != DateFields[j] {
      if i == 0 {
        assert |DateFields[i]| != |DateFields[j]|;
      } else {
        assert DateFields[i][10] != DateFields[j][10];
      }
    }
  }

  /** A cell `Has` refuses, or that does not parse, is kept. */
  lemma NotCleaned(row: Row, f: string)
    requires f in row && !(HasCell(row[f]) && CustomDateParse(row[f]).Ok?)
    ensures row[f := CleanedCell(row[f])] == row
  {
  }

  /** The cleanup of the cell `row[f]`. */
  method CleanCell(row: Row, f: string) returns (r: Row)
    ensures r == if f in row then row[f := CleanedCell(row[f])] else row
  {
    r := row;
    HasIsHasCell(row, f);
    if Has(row, f) {
      var d := CustomDateParse(row[f]);
      if d.Ok? {
        assert HasCell(row[f]);
        assert CleanedCell(row[f]) == d.value;
        r := row[f := d.value];
      } else {
        NotCleaned(row, f);
      }
    } else if f in row {
      NotCleaned(row, f);
    }
  }

  /**
   * The loop over `date_fields` for the row `rows[n]`: each column `Has`
   * accepts is overwritten, in the row itself, with its date when it parses.
   */
  method CleanDateColumns(rows: array<Row>, n: nat)
    requires n < rows.Length
    modifies rows
    ensures rows[n] == CleanedDates(old(rows[n]), DateFields)
    ensures forall i :: 0 <= i < rows.Length && i != n ==> rows[i] == old(rows[i])
  {
    DateFieldsDistinct();
    CleanColumns(rows, n, DateFields);
  }

  /** The loop over the columns `fields`, none named twice, of the row `rows[n]`. */
  method CleanColumns(rows: array<Row>, n: nat, fields: seq<string>)
    requires n < rows.Length
    requires forall i, j :: 0 <= i < j < |fields| ==> fields[i] != fields[j]
    modifies rows
    ensures rows[n] == CleanedDates(old(rows[n]), fields)
    ensures forall i :: 0 <= i < rows.Length && i != n ==> rows[i] == old(rows[i])
  {
    ghost var row := rows[n];
    for j := 0 to |fields|
      invariant rows[n] == CleanedDates(row, fields[..j])
      invariant forall i :: 0 <= i < rows.Length && i != n ==> rows[i] == old(rows[i])
    {
      var f := fields[j];
      NextColumn(fields, j);
      CleanedDatesStep(row, fields[..j], f);
      rows[n] := CleanCell(rows[n], f);
    }
    assert fields[..|fields|] == fields;
  }

  /** The next column of a list naming none twice is not among those before it. */
  lemma NextColumn(fields: seq<string>, j: nat)
    requires j < |fields| && forall i, k :: 0 <= i < k < |fields| ==> fields[i] != fields[k]
    ensures fields[j] !in fields[..j] && fields[..j + 1] == fields[..j] + [fields[j]]
  {
  }

  /** A cell cleaned once is left as it is by a second cleanup. */
  lemma CleanedCellTwice(v: string)
    requires '\n' !in v
    ensures CleanedCell(CleanedCell(v)) == CleanedCell(v)
  {
    var once := CleanedCell(v);
    if HasCell(v) && CustomDateParse(v).Ok? {
      assert once == CustomDateParse(v).value;
      assert IsIsoDate(once) || (|once| == 4 && AllDigits(once)) by {
        CustomDateShape(v);
      }
      assert CustomDateParse(once) == Ok(once) by {
        ParsedDateIsFixed(once);
      }
    } else {
      assert once == v;
    }
  }

  /**
   * Without a newline in any cell, cleaning the date columns of a cleaned row
   * changes nothing: each date already parsed parses to itself, and each cell
   * left as it was is refused again.
   */
  lemma CleanedDatesTwice(row: Row)
    requires forall k :: k in row ==> '\n' !in row[k]
    ensures CleanedDates(CleanedDates(row, DateFields), DateFields) == CleanedDates(row, DateFields)
  {
    var once := CleanedDates(row, DateFields);
    forall k | k in row && k in DateFields
      ensures CleanedCell(once[k]) == once[k]
    {
      CleanedCellTwice(row[k]);
    }
  }

  // ---------------------------------------------------------------------------
  // the covered period

  /** One action column's contribution: its date when `Has` accepts it and it parses. */
  function ActionDate(row: Row, f: string): (r: seq<string>)
    ensures |r| <= 1
  {
    if Has(row, f) then
      var d := CustomDateParse(row[f]);
      if d.Ok? then [d.value] else []
    else []
  }

  /** `action_dates` after the loop over the columns `fields`: a cell that does not parse is left out. */
  function ActionDatesOf(row: Row, fields: seq<string>): (r: seq<string>)
    ensures |r| <= |fields|
  {
    if fields == [] then [] else ActionDatesOf(row, fields[..|fields| - 1]) + ActionDate(row, fields[|fields| - 1])
  }

  /** The columns among `fields` that `Has` accepts. */
  function HadColumns(row: Row, fields: seq<string>): (r: set<string>)
    ensures r <= row.Keys
  {
    set f | f in fields && Has(row, f)
  }

  /** `action_dates` with the creation date appended: the dates the period spans. */
  function PeriodDates(row: Row): seq<string> {
    ActionDatesOf(row, ActionFields) + (if Has(row, Creation) then [row[Creation]] else [])
  }

  /** `if len(min_date) < 7: min_date += '-01'`, then the day `-01` when that leaves a dash and fewer than 10 characters. */
  function PadStart(earliest: string): string {
    var a := if |earliest| < 7 then earliest + "-01" else earliest;
    if |a| < 10 && '-' in a then a + "-01" else a
  }

  /** `if len(max_date) < 7: max_date += '-12'`. */
  function PadMonth(latest: string): string {
    if |latest| < 7 then latest + "-12" else latest
  }

  function Min(a: int, b: int): int {
    if a < b then a else b
  }

  /**
   * `calendar.monthrange(int(a[:4]), int(a[5:7]))[-1]`: the days of the month,
   * with Python's clamped slices; `int` of a slice that is not a number, a
   * month outside 1..12 and a year outside 1..9999 are `ValueError`.
   */
  function MonthDays(a: string): (r: Result<nat, PyError>)
    ensures r.Ok? ==> 28 <= r.value <= 31
    ensures r.Err? ==> r.error == ValueError
  {
    var year := PyInt(a[..Min(4, |a|)]);
    var month := PyInt(a[Min(5, |a|)..Min(7, |a|)]);
    if year.Some? && month.Some? && 1 <= month.value <= 12 && 1 <= year.value <= 9999 then
      Ok(DaysInMonth(year.value, month.value))
    else Err(ValueError)
  }

  /** The month-padded end `a` gets its last day when it is short and `dashTest` has a dash. */
  function PadEnd(a: string, dashTest: string): Result<string, PyError> {
    if |a| < 10 && '-' in dashTest then
      var days :- MonthDays(a);
      Ok(a + "-" + NatToString(days))
    else Ok(a)
  }

  /**
   * The period `(start, end)` as written: the day padding of the end is
   * decided by a dash in the padded start, `'-' in min_date`.
   */
  function PeriodAsWritten(dates: seq<string>): Result<(string, string), PyError>
    requires |dates| > 0
  {
    var start := PadStart(MinStr(dates));
    var end :- PadEnd(PadMonth(MaxStr(dates)), start);
    Ok((start, end))
  }

  /** The period `(start, end)`, the day padding of the end decided by a dash in the end itself. */
  function Period(dates: seq<string>): Result<(string, string), PyError>
    requires |dates| > 0
  {
    var start := PadStart(MinStr(dates));
    var a := PadMonth(MaxStr(dates));
    var end :- PadEnd(a, a);
    Ok((start, end))
  }

  /** A year `YYYY` from 1 on, as `ParseDate` gives it. */
  predicate IsYear(d: string) {
    |d| == 4 && AllDigits(d) && DigitsValue(d) >= 1
  }

  lemma DigitsOf(a: string, b: string)
    requires AllDigits(a) && AllDigits(b)
    ensures AllDigits(a + b)
  {
  }

  /** `int(d)` of a string of digits. */
  lemma PyIntDigits(d: string)
    requires |d| > 0 && AllDigits(d)
    ensures PyInt(d) == Some(DigitsValue(d))
  {
    assert IsDigit(d[0]) && IsDigit(d[|d| - 1]);
    StripOfClean(d, Whitespace);
  }

  lemma {:induction false} DigitsBound(d: string)
    requires AllDigits(d)
    ensures DigitsValue(d) < Pow10(|d|)
  {
    if d != [] {
      DigitsBound(d[..|d| - 1]);
    }
  }

  function Pow10(n: nat): nat {
    if n == 0 then 1 else 10 * Pow10(n - 1)
  }

  /** A year, a month and a day of two digits each that name a real day make a checked date. */
  lemma IsoOf(c: string, y: string, m: string, d: string)
    requires IsYear(y) && |m| == 2 && |d| == 2 && AllDigits(m) && AllDigits(d)
    requires 1 <= DigitsValue(m) <= 12 && 1 <= DigitsValue(d) <= DaysInMonth(DigitsValue(y), DigitsValue(m))
    requires c == y + "-" + m + "-" + d
    ensures IsIsoDate(c)
  {
    var head := y + "-" + m + "-";
    assert c == head + d && |head| == 8;
    assert c[..8] == head && c[8..10] == d;
    assert head[..4] == y && head[5..7] == m;
    assert c[..4] == y && c[5..7] == m;
  }

  /** A four-digit year is at most 9999. */
  lemma YearBound(y: string)
    requires IsYear(y)
    ensures DigitsValue(y) <= 9999
  {
    DigitsBound(y);
    assert Pow10(4) == 10000;
  }

  /** `int(a[:4])` and `int(a[5:7])` of `YYYY-MM`. */
  lemma MonthSlices(a: string, y: string, m: string)
    requires IsYear(y) && |m| == 2 && AllDigits(m)
    requires a == y + "-" + m
    ensures PyInt(a[..Min(4, |a|)]) == Some(DigitsValue(y))
    ensures PyInt(a[Min(5, |a|)..Min(7, |a|)]) == Some(DigitsValue(m))
  {
    assert a[..4] == y && a[5..7] == m;
    PyIntDigits(y);
    PyIntDigits(m);
  }

  /** The days of the month `YYYY-MM` of a year from 1 to 9999. */
  lemma MonthDaysOf(a: string, y: string, m: string)
    requires IsYear(y) && |m| == 2 && AllDigits(m) && 1 <= DigitsValue(m) <= 12
    requires a == y + "-" + m
    ensures MonthDays(a) == Ok(DaysInMonth(DigitsValue(y), DigitsValue(m)))
  {
    MonthSlices(a, y, m);
    YearBound(y);
  }

  /**
   * `monthrange(int('+ 12'), int('06'))`: Python 2's `int` reads `+ 12` as 12,
   * so the month of `+ 12-06` has 30 days.
   */
  lemma {:induction false} SpacedYearMonthDays()
    ensures MonthDays("+ 12-06") == Ok(30)
  {
    var a := "+ 12-06";
    assert a[..4] == "+ 12" && a[5..7] == "06";
    PyIntSigned("+ 12", '+', " ", "12");
    assert DigitsValue("12") == 12 by { assert "12"[..1] == "1"; assert "1"[..0] == ""; }
    PyIntDigits("06");
    assert DigitsValue("06") == 6 by { assert "06"[..1] == "0"; assert "0"[..0] == ""; }
  }

  /**
   * A lone date `+ 12-06` that `ParseDate` refused still gets a period, from
   * `+ 12-06-01` to `+ 12-06-30`.
   */
  lemma {:induction false} SpacedYearPeriod()
    ensures PeriodAsWritten(["+ 12-06"]) == Ok(("+ 12-06-01", "+ 12-06-30"))
  {
    var a := "+ 12-06";
    assert MinStr([a]) == a && MaxStr([a]) == a;
    SpacedYearStart();
    SpacedYearEnd();
  }

  lemma {:induction false} SpacedYearStart()
    ensures PadStart("+ 12-06") == "+ 12-06-01" && PadMonth("+ 12-06") == "+ 12-06"
  {
    var a := "+ 12-06";
    assert a[4] == '-';
    assert a + "-01" == "+ 12-06-01";
  }

  lemma {:induction false} SpacedYearEnd()
    ensures PadEnd("+ 12-06", "+ 12-06-01") == Ok("+ 12-06-30")
  {
    SpacedYearMonthDays();
    assert NatToString(30) == "30" by {
      assert NatToString(3) == "3";
      assert DigitChar(0) == '0';
    }
    assert "+ 12-06-01"[4] == '-';
    assert "+ 12-06" + "-" + "30" == "+ 12-06-30";
  }

  /** A year with `-01-01` added is its first day. */
  lemma StartOfYear(y: string)
    requires IsYear(y)
    ensures PadStart(y) == y + "-01-01" && IsIsoDate(y + "-01-01")
  {
    var one := "01";
    TwoDigits(one);
    var a := y + "-01";
    assert a == y + "-" + one;
    assert a[4] == '-';
    var c := a + "-01";
    assert c == y + "-01-01";
    IsoOf(c, y, one, one);
  }

  /** The value of two digits. */
  lemma TwoDigits(d: string)
    requires |d| == 2 && AllDigits(d)
    ensures DigitsValue(d) == (d[0] as int - '0' as int) * 10 + (d[1] as int - '0' as int)
  {
    var first := d[..1];
    assert first[..0] == [] && first[0] == d[0];
    assert DigitsValue(first) == d[0] as int - '0' as int;
  }

  /** `str(31)`. */
  lemma ThirtyOne(n: nat)
    requires n == 31
    ensures NatToString(n) == "31"
  {
    assert n / 10 == 3 && n % 10 == 1;
    assert NatToString(n / 10) == [DigitChar(3)];
    assert DigitChar(3) == '3' && DigitChar(1) == '1';
  }

  lemma EndPadding(y: string)
    requires IsYear(y)
    ensures PadMonth(y) == y + "-12" && PadEnd(y + "-12", y + "-12") == Ok(y + "-12-31")
  {
    var dec := "12";
    TwoDigits(dec);
    var a := y + "-12";
    assert a == y + "-" + dec;
    assert a[4] == '-';
    assert '-' in a;
    MonthDaysOf(a, y, dec);
    var days := MonthDays(a).value;
    assert days == 31;
    ThirtyOne(days);
    Suffix1231(y);
  }

  lemma Suffix1231(y: string)
    ensures y + "-12" + "-" + "31" == y + "-12-31"
  {
    var t := "-12-31";
    assert "-12" + "-" + "31" == t;
    assert y + "-12" + "-" + "31" == y + ("-12" + "-" + "31");
  }

  lemma EndIsIso(y: string)
    requires IsYear(y)
    ensures IsIsoDate(y + "-12-31")
  {
    var dec := "12";
    var last := "31";
    TwoDigits(dec);
    TwoDigits(last);
    IsoOf(y + "-12-31", y, dec, last);
  }

  /** A year with `-12` added gets `-31`, its last day. */
  lemma EndOfYear(y: string)
    requires IsYear(y)
    ensures var a := PadMonth(y); a == y + "-12" && PadEnd(a, a) == Ok(y + "-12-31") && IsIsoDate(y + "-12-31")
  {
    EndPadding(y);
    EndIsIso(y);
  }

  /**
   * When the latest date is a year, the period ends on its 31 December,
   * whatever the other dates are; when it is a checked date, on that day.
   */
  lemma PeriodEnd(dates: seq<string>)
    requires |dates| > 0
    requires IsYear(MaxStr(dates)) || IsIsoDate(MaxStr(dates))
    ensures Period(dates).Ok?
    ensures IsYear(MaxStr(dates)) ==> Period(dates).value.1 == MaxStr(dates) + "-12-31"
    ensures IsIsoDate(MaxStr(dates)) ==> Period(dates).value.1 == MaxStr(dates)
  {
    if IsYear(MaxStr(dates)) {
      EndOfYear(MaxStr(dates));
    }
  }

  /**
   * When every date is a checked date or a year, the period runs from the
   * first day of the earliest to the last day of the latest, both checked
   * `YYYY-MM-DD` dates.
   */
  lemma PeriodOfDates(dates: seq<string>)
    requires |dates| > 0
    requires forall i :: 0 <= i < |dates| ==> IsIsoDate(dates[i]) || IsYear(dates[i])
    ensures Period(dates).Ok?
    ensures var (start, end) := Period(dates).value;
      && IsIsoDate(start) && IsIsoDate(end)
      && start == (if IsYear(MinStr(dates)) then MinStr(dates) + "-01-01" else MinStr(dates))
      && end == (if IsYear(MaxStr(dates)) then MaxStr(dates) + "-12-31" else MaxStr(dates))
  {
    var lo := MinStr(dates);
    var hi := MaxStr(dates);
    PeriodEnd(dates);
    if IsYear(lo) {
      StartOfYear(lo);
    }
    if IsYear(hi) {
      EndOfYear(hi);
    }
  }

  /** The earliest and the latest of two dates in order. */
  lemma MinMaxOfTwo(hi: string, lo: string)
    requires StrLe(lo, hi) && !StrLe(hi, lo)
    ensures MinStr([hi, lo]) == lo && MaxStr([hi, lo]) == hi
  {
    assert [hi, lo][1..] == [lo];
  }

  /**
   * With a year as the latest date and, as the earliest, a string of seven
   * to nine characters without a dash (a creation date that did not parse),
   * the period as written ends in a month, as the padded start has no dash;
   * the end's own dash gives the year's last day.
   */
  lemma AsWrittenEndsInMonth(hi: string, lo: string)
    requires IsYear(hi) && StrLe(lo, hi) && !StrLe(hi, lo)
    requires 7 <= |lo| < 10 && '-' !in lo
    ensures PeriodAsWritten([hi, lo]) == Ok((lo, hi + "-12"))
    ensures Period([hi, lo]) == Ok((lo, hi + "-12-31"))
  {
    MinMaxOfTwo(hi, lo);
    EndOfYear(hi);
  }

  lemma Year1836()
    ensures IsYear("1836") && DigitsValue("1836") == 1836
  {
    var y := "1836";
    assert y[..1][..0] == [];
    assert DigitsValue(y[..1]) == 1;
    assert y[..2][..1] == y[..1];
    assert DigitsValue(y[..2]) == 18;
    assert y[..3][..2] == y[..2];
    assert DigitsValue(y[..3]) == 183;
    assert y[..3] == y[..|y| - 1];
  }

  lemma DigitsHaveNoDash(d: string)
    requires AllDigits(d)
    ensures '-' !in d
  {
    forall i | 0 <= i < |d| ensures d[i] != '-' {
      assert IsDigit(d[i]);
    }
  }

  /**
   * The action date `1836` and the creation date `1835041`, which does not
   * parse and is kept: as written the period is `1835041` to `1836-12`.
   */
  lemma AsWrittenCounterexample(hi: string, lo: string)
    requires hi == "1836" && lo == "1835041"
    ensures PeriodAsWritten([hi, lo]) == Ok((lo, hi + "-12"))
    ensures Period([hi, lo]) == Ok((lo, hi + "-12-31"))
  {
    Year1836();
    assert StrLe(lo, hi) && !StrLe(hi, lo);
    assert AllDigits(lo);
    DigitsHaveNoDash(lo);
    AsWrittenEndsInMonth(hi, lo);
  }

  /** A checked date has its dash after the year. */
  lemma IsoHasDash(d: string)
    requires IsIsoDate(d)
    ensures '-' in d
  {
    assert d[4] == '-';
  }

  /**
   * When every date is a checked date or a year, the padded start has a dash,
   * and the period as written is the period: the dash the code tests is
   * there, and the dash the end would need is there too.
   */
  lemma {:induction false} AsWrittenOfDates(dates: seq<string>)
    requires |dates| > 0
    requires forall i :: 0 <= i < |dates| ==> IsIsoDate(dates[i]) || IsYear(dates[i])
    ensures PeriodAsWritten(dates) == Period(dates)
  {
    var lo := MinStr(dates);
    var hi := MaxStr(dates);
    if IsYear(lo) {
      StartOfYear(lo);
      IsoHasDash(lo + "-01-01");
    } else {
      IsoHasDash(lo);
    }
    if IsYear(hi) {
      EndOfYear(hi);
      assert (hi + "-12")[4] == '-';
    }
  }

  /**
   * The action date `1836` and the creation date `c. 1840`, kept as text: the
   * padded start `1836-01-01` has a dash, so the code as written reads the
   * year of `c. 1840` as `int('c. 1')` and raises `ValueError`; the period
   * that tests the end's own dash is `1836-01-01` to `c. 1840`.
   */
  lemma AsWrittenCrash(action: string, creation: string)
    requires action == "1836" && creation == "c. 1840"
    ensures PeriodAsWritten([action, creation]) == Err(ValueError)
    ensures Period([action, creation]) == Ok((action + "-01-01", creation))
  {
    Year1836();
    assert StrLe(action, creation) && !StrLe(creation, action) by {
      assert action[0] == '1' && creation[0] == 'c';
    }
    OrderOfTwo(action, creation);
    StartOfYear(action);
    IsoHasDash(action + "-01-01");
    NoYearIn(creation);
  }

  /**
   * A latest date kept as text of seven characters or more without a dash
   * ends the period as it is, and an earliest year or checked date starts it
   * on a checked date: nothing is read as a month.
   */
  lemma PeriodKeepsText(dates: seq<string>)
    requires |dates| > 0 && (IsYear(MinStr(dates)) || IsIsoDate(MinStr(dates)))
    requires 7 <= |MaxStr(dates)| && '-' !in MaxStr(dates)
    ensures Period(dates).Ok? && Period(dates).value.1 == MaxStr(dates) && IsIsoDate(Period(dates).value.0)
  {
    if IsYear(MinStr(dates)) {
      StartOfYear(MinStr(dates));
    }
  }

  /** The lesser and the greater of two dates in order. */
  lemma OrderOfTwo(lo: string, hi: string)
    requires StrLe(lo, hi) && !StrLe(hi, lo)
    ensures MinStr([lo, hi]) == lo && MaxStr([lo, hi]) == hi
  {
    assert [lo, hi][1..] == [hi];
  }

  /** `c. 1840` has no dash, and `int('c. 1')` of its first four characters fails. */
  lemma NoYearIn(c: string)
    requires c == "c. 1840"
    ensures '-' !in c && PadMonth(c) == c && MonthDays(c) == Err(ValueError)
  {
    var year := c[..4];
    assert year == "c. 1";
    StripOfClean(year, Whitespace);
  }

  // ---------------------------------------------------------------------------
  // Geographic Unit

  const Location := "Location"

  const CoverageKey := "Geographic Coverage"
  const UnitKey := "Geographic Unit"

  /** `'State' if coverage == 'Massachusetts' else 'City/Town'`. */
  function GeoUnit(cover: string): (r: string)
    ensures r == "State" <==> cover == "Massachusetts"
    ensures r == "State" || r == "City/Town"
  {
    if cover == "Massachusetts" then "State" else "City/Town"
  }

  /**
   * `SingleAssign(row, 'Location', 'Geographic Coverage')` and then, when the
   * coverage is set and non-empty, `Geographic Unit` from it.
   */
  function GeoFields(row: Row): (r: map<string, string>)
    ensures CoverageKey in r <==> Has(row, Location)
    ensures UnitKey in r <==> CoverageKey in r
    ensures CoverageKey in r ==> r[CoverageKey] == Strip(row[Location]) && r[UnitKey] == GeoUnit(r[CoverageKey])
    ensures r.Keys <= {CoverageKey, UnitKey}
  {
    assert |CoverageKey| != |UnitKey|;
    if Has(row, Location) then
      var cover := Strip(row[Location]);
      map[CoverageKey := cover, UnitKey := GeoUnit(cover)]
    else map[]
  }

  // ---------------------------------------------------------------------------
  // Title

  const Citation := "Scholarly citation"
  const Signatures := "At least 3 signatures from the petition"
  const CitationPrefix := "Digital Archive of Massachusetts Anti-Slavery and Anti-Segregation Petitions"

  /** The literal part of the pattern after the group; each `.` in it is the regular-expression wildcard. */
  const CitationSuffix := " Massachusetts Archives. Boston, Mass."

  /** The characters `strip(' ;.,')` removes. */
  const ReferenceMarks: set<char> := {' ', ';', '.', ','}

  /** One character of the suffix pattern: `.` matches any character but a newline. */
  predicate PatternChar(p: char, c: char) {
    if p == '.' then c != '\n' else c == p
  }

  /** The suffix pattern matches `s` at `j`. */
  predicate SuffixAt(s: string, j: nat) {
    j + |CitationSuffix| <= |s| && forall k :: 0 <= k < |CitationSuffix| ==> PatternChar(CitationSuffix[k], s[j + k])
  }

  /** How far the group `(.*)` can reach from `i`: up to the first newline. */
  function RunEnd(s: string, i: nat): (e: nat)
    requires i <= |s|
    ensures i <= e <= |s| && (forall k :: i <= k < e ==> s[k] != '\n') && (e < |s| ==> s[e] == '\n')
    decreases |s| - i
  {
    if i == |s| || s[i] == '\n' then i else RunEnd(s, i + 1)
  }

  /** The greedy group gives back characters until the suffix matches: the last `j` in `lo..hi` where it does. */
  function LastSuffix(s: string, lo: nat, hi: nat): (r: Option<nat>)
    requires lo <= hi
    ensures r.Some? ==> lo <= r.value <= hi && SuffixAt(s, r.value) && forall j :: r.value < j <= hi ==> !SuffixAt(s, j)
    ensures r.None? ==> forall j :: lo <= j <= hi ==> !SuffixAt(s, j)
    decreases hi - lo
  {
    if SuffixAt(s, hi) then Some(hi) else if hi == lo then None else LastSuffix(s, lo, hi - 1)
  }

  /**
   * `re.match(prefix + '(.*)' + suffix, citation)` and then
   * `groups(1)[0].strip(' ;.,')`; `None` when the citation does not match.
   */
  function CitationReference(citation: string): (r: Option<string>)
    ensures r.Some? ==> StartsWith(citation, CitationPrefix)
  {
    if StartsWith(citation, CitationPrefix) then
      var lo := |CitationPrefix|;
      match LastSuffix(citation, lo, RunEnd(citation, lo))
      case Some(j) => Some(StripChars(citation[lo..j], ReferenceMarks))
      case None => None
    else None
  }

  lemma SuffixHasNoNewline()
    ensures forall k :: 0 <= k < |CitationSuffix| ==> CitationSuffix[k] != '\n'
  {
  }

  /** The last match is found when no later one fits in the string. */
  lemma LastSuffixFinds(s: string, lo: nat, hi: nat, j: nat)
    requires lo <= j <= hi && SuffixAt(s, j)
    requires forall j' :: j < j' <= hi ==> !SuffixAt(s, j')
    ensures LastSuffix(s, lo, hi) == Some(j)
  {
  }

  /**
   * A citation of the archive's form, the prefix, a reference without a
   * newline and the suffix, gives that reference with the marks stripped.
   */
  lemma CitationReferenceOf(ref: string)
    requires '\n' !in ref
    ensures CitationReference(CitationPrefix + ref + CitationSuffix) == Some(StripChars(ref, ReferenceMarks))
  {
    var s := CitationPrefix + ref + CitationSuffix;
    var lo := |CitationPrefix|;
    var j := lo + |ref|;
    assert s[..lo] == CitationPrefix;
    assert s[lo..j] == ref;
    assert forall k :: 0 <= k < |CitationSuffix| ==> s[j + k] == CitationSuffix[k];
    SuffixHasNoNewline();
    assert SuffixAt(s, j);
    assert forall k :: lo <= k < |s| ==> s[k] != '\n' by {
      forall k | lo <= k < |s| ensures s[k] != '\n' {
        if k < j {
          assert s[k] == ref[k - lo];
        } else {
          assert s[k] == CitationSuffix[k - j];
        }
      }
    }
    assert RunEnd(s, lo) == |s|;
    LastSuffixFinds(s, lo, |s|, j);
  }

  /** `ParseList(signatures)[0]`: the first signature, stripped. */
  function FirstSignature(v: string): string {
    StripEach(Split(v, ","))[0]
  }

  /** The reference the `Scholarly citation` column gives, when it is set and matches. */
  function RowReference(row: Row): Option<string> {
    if Has(row, Citation) then CitationReference(row[Citation]) else None
  }

  /** `Petition of` and the first signature, when the signatures column is set. */
  function RowPetitioner(row: Row): Option<string> {
    if Has(row, Signatures) then Some("Petition of " + FirstSignature(row[Signatures])) else None
  }

  /** A title part that may be missing, as a list of none or one. */
  function Part(p: Option<string>): (r: seq<string>)
    ensures |r| <= 1
  {
    if p.Some? then [p.value] else []
  }

  /** `Title` from its two optional parts: joined by `, `, `(untitled)` when there are none. */
  function TitleFrom(ref: Option<string>, petitioner: Option<string>): (r: string)
    ensures ref.None? && petitioner.None? ==> r == "(untitled)"
    ensures ref.Some? && petitioner.None? ==> r == ref.value
    ensures ref.None? && petitioner.Some? ==> r == petitioner.value
    ensures ref.Some? && petitioner.Some? ==> r == ref.value + ", " + petitioner.value
  {
    var parts := Part(ref) + Part(petitioner);
    if parts == [] then "(untitled)"
    else
      assert |parts| == 1 ==> parts[0] == if ref.Some? then ref.value else petitioner.value;
      assert |parts| == 2 ==> parts[0] == ref.value && parts[1..] == [petitioner.value];
      assert |parts| == 2 ==> Join(parts[1..], ", ") == petitioner.value;
      Join(parts, ", ")
  }

  /** The `Title` of a row. */
  function TitleOf(row: Row): string {
    TitleFrom(RowReference(row), RowPetitioner(row))
  }

  lemma RowReferenceOf(row: Row, ref: string)
    requires Has(row, Citation) && row[Citation] == CitationPrefix + ref + CitationSuffix && '\n' !in ref
    ensures RowReference(row) == Some(StripChars(ref, ReferenceMarks))
  {
    CitationReferenceOf(ref);
  }

  /** The title of a row whose citation has the archive's form and that has no signatures: the reference alone. */
  lemma TitleOfCitation(row: Row, ref: string)
    requires Has(row, Citation) && row[Citation] == CitationPrefix + ref + CitationSuffix && '\n' !in ref
    requires !Has(row, Signatures)
    ensures TitleOf(row) == StripChars(ref, ReferenceMarks)
  {
    RowReferenceOf(row, ref);
  }

  /**
   * The title of a row whose citation has the archive's form and that has
   * signatures: the reference, `, Petition of` and the first signature.
   */
  lemma TitleOfCitationSigned(row: Row, ref: string)
    requires Has(row, Citation) && row[Citation] == CitationPrefix + ref + CitationSuffix && '\n' !in ref
    requires Has(row, Signatures)
    ensures TitleOf(row) == StripChars(ref, ReferenceMarks) + ", " + ("Petition of " + FirstSignature(row[Signatures]))
  {
    RowReferenceOf(row, ref);
  }

  // ---------------------------------------------------------------------------
  // Local ID

  const IdFields: seq<string> := ["PDS link", "Subject", Location, Signatures]

  /** `row.get(key, '')`. */
  function Get(row: Row, key: string): string {
    if key in row then row[key] else ""
  }

  /** `row.get(key, '').replace(' ', '')[:50]`. */
  function IdPart(row: Row, key: string): (r: string)
    ensures |r| <= 50 && ' ' !in r
  {
    var squeezed := ReplaceAll(Get(row, key), " ", "");
    ReplaceCharByNothing(Get(row, key), ' ');
    var r := squeezed[..Min(50, |squeezed|)];
    assert forall i :: 0 <= i < |r| ==> r[i] == squeezed[i];
    r
  }

  /** `id_parts`. */
  function IdParts(row: Row): (r: seq<string>)
    ensures |r| == |IdFields| && forall i :: 0 <= i < |r| ==> r[i] == IdPart(row, IdFields[i])
  {
    seq(|IdFields|, i requires 0 <= i < |IdFields| => IdPart(row, IdFields[i]))
  }

  /** `Local ID`: `'|'.join(id_parts)`. */
  function LocalId(row: Row): string {
    Join(IdParts(row), "|")
  }

  /** A part has a `|` only when its column does. */
  lemma IdPartKeepsOut(row: Row, key: string, c: char)
    requires key !in row || c !in row[key]
    ensures c !in IdPart(row, key)
  {
    var v := Get(row, key);
    ReplaceKeepsOut(v, " ", c);
    var squeezed := ReplaceAll(v, " ", "");
    var r := squeezed[..Min(50, |squeezed|)];
    assert forall i :: 0 <= i < |r| ==> r[i] == squeezed[i];
  }

  /**
   * When no id column holds a `|`, the local id splits back, on `|`, into
   * its four parts: each id column without its spaces, cut to 50 characters.
   */
  lemma LocalIdSplits(row: Row)
    requires forall k :: k in IdFields && k in row ==> '|' !in row[k]
    ensures Split(LocalId(row), "|") == IdParts(row)
  {
    var parts := IdParts(row);
    forall i | 0 <= i < |parts| ensures '|' !in parts[i] {
      assert IdFields[i] in IdFields;
      IdPartKeepsOut(row, IdFields[i], '|');
    }
    SplitJoin(parts, '|');
  }

  /** Two such rows whose id parts differ get different local ids. */
  lemma LocalIdDistinguishes(a: Row, b: Row)
    requires forall k :: k in IdFields && k in a ==> '|' !in a[k]
    requires forall k :: k in IdFields && k in b ==> '|' !in b[k]
    requires IdParts(a) != IdParts(b)
    ensures LocalId(a) != LocalId(b)
  {
    LocalIdSplits(a);
    LocalIdSplits(b);
  }

  // ---------------------------------------------------------------------------
  // identification cleanup

  const IdentificationsColumn := "Identifications"

  /** `('[]', '()', '""')`. */
  const Pairs: seq<(char, char)> := [('[', ']'), ('(', ')'), ('"', '"')]

  /** `s` starts with `open` and ends with `close`. */
  predicate Wrapped(s: string, open: char, close: char) {
    |s| > 0 && s[0] == open && s[|s| - 1] == close
  }

  /** `s[1:-1]` of a wrapped string, otherwise `s`; a lone `"` is both ends and leaves `""`. */
  function StripPair(s: string, pair: (char, char)): (r: string)
    ensures Wrapped(s, pair.0, pair.1) ==> |r| < |s|
    ensures !Wrapped(s, pair.0, pair.1) ==> r == s
    ensures OccursAt(s, r, if |r| < |s| then 1 else 0)
  {
    if Wrapped(s, pair.0, pair.1) then (if |s| < 2 then "" else s[1..|s| - 1]) else s
  }

  /** The pairs `pairs`, tried in order on the string as it stands. */
  function StripPairs(s: string, pairs: seq<(char, char)>): (r: string)
    ensures |r| <= |s| && (|r| == |s| ==> r == s)
  {
    if pairs == [] then s else StripPairs(StripPair(s, pairs[0]), pairs[1..])
  }

  /** One pass of the `for charpair in ...` loop. */
  function Pass(s: string): (r: string)
    ensures |r| <= |s| && (|r| == |s| ==> r == s)
  {
    StripPairs(s, Pairs)
  }

  /** The passes repeated until one leaves the length as it was. */
  function Unwrap(s: string): string
    decreases |s|
  {
    var p := Pass(s);
    if |p| == |s| then s else Unwrap(p)
  }

  /** One pass, in the order of the pairs. */
  method StripOnce(s: string) returns (r: string)
    ensures r == Pass(s)
  {
    r := s;
    for j := 0 to |Pairs|
      invariant StripPairs(r, Pairs[j..]) == Pass(s)
    {
      var pair := Pairs[j];
      assert Pairs[j..][1..] == Pairs[j + 1..];
      if |r| > 0 && r[0] == pair.0 && r[|r| - 1] == pair.1 {
        r := if |r| < 2 then "" else r[1..|r| - 1];
      }
    }
  }

  /** The `while prev_ident_len != len(curr_ident)` loop. */
  method CleanIdentification(ident: string) returns (r: string)
    ensures r == Unwrap(ident)
  {
    r := ident;
    var prev := 0;
    while prev != |r|
      invariant Unwrap(r) == Unwrap(ident)
      invariant prev == |r| ==> Pass(r) == r
      decreases |r| + (if prev != |r| then 1 else 0)
    {
      prev := |r|;
      r := StripOnce(r);
    }
  }

  /** `clean_identifications`. */
  method CleanIdentifications(idents: seq<string>) returns (clean: seq<string>)
    ensures |clean| == |idents| && forall i :: 0 <= i < |idents| ==> clean[i] == Unwrap(idents[i])
  {
    clean := [];
    for i := 0 to |idents|
      invariant |clean| == i && forall k :: 0 <= k < i ==> clean[k] == Unwrap(idents[k])
    {
      var c := CleanIdentification(idents[i]);
      clean := clean + [c];
    }
  }

  /** A string no pass changes is wrapped by none of the pairs. */
  lemma {:induction false} StripPairsFixed(s: string, pairs: seq<(char, char)>)
    requires StripPairs(s, pairs) == s
    ensures forall i :: 0 <= i < |pairs| ==> !Wrapped(s, pairs[i].0, pairs[i].1)
  {
    if pairs != [] {
      var t := StripPair(s, pairs[0]);
      assert |StripPairs(t, pairs[1..])| <= |t| <= |s|;
      assert t == s;
      StripPairsFixed(s, pairs[1..]);
      forall i | 1 <= i < |pairs| ensures !Wrapped(s, pairs[i].0, pairs[i].1) {
        assert pairs[i] == pairs[1..][i - 1];
      }
    }
  }

  /** The cleaned identification is wrapped in no `[]`, `()` or `""` pair. */
  lemma {:induction false} UnwrapUnwrapped(s: string)
    ensures var r := Unwrap(s); !Wrapped(r, '[', ']') && !Wrapped(r, '(', ')') && !Wrapped(r, '"', '"')
    decreases |s|
  {
    var p := Pass(s);
    if |p| == |s| {
      StripPairsFixed(s, Pairs);
      assert Pairs[0] == ('[', ']') && Pairs[1] == ('(', ')') && Pairs[2] == ('"', '"');
    } else {
      UnwrapUnwrapped(p);
    }
  }

  /** An occurrence of an occurrence is an occurrence. */
  lemma OccursIn(a: string, b: string, c: string, i: int, j: int)
    requires OccursAt(a, b, i) && OccursAt(b, c, j)
    ensures OccursAt(a, c, i + j)
  {
    forall t | 0 <= t < |c| ensures a[i + j + t] == c[t] {
      assert c[t] == b[j + t] == a[i + j + t];
    }
  }

  lemma {:induction false} StripPairsInfix(s: string, pairs: seq<(char, char)>)
    ensures Contains(s, StripPairs(s, pairs))
  {
    if pairs == [] {
      assert OccursAt(s, s, 0);
    } else {
      var t := StripPair(s, pairs[0]);
      StripPairsInfix(t, pairs[1..]);
      var r := StripPairs(t, pairs[1..]);
      var j :| 0 <= j <= |t| - |r| && OccursAt(t, r, j);
      OccursIn(s, t, r, if |t| < |s| then 1 else 0, j);
    }
  }

  /** The cleaned identification is a piece of the original, as the cleanup only drops end characters. */
  lemma {:induction false} UnwrapInfix(s: string)
    ensures Contains(s, Unwrap(s))
    decreases |s|
  {
    var p := Pass(s);
    StripPairsInfix(s, Pairs);
    if |p| == |s| {
      assert OccursAt(s, s, 0);
    } else {
      UnwrapInfix(p);
      var i :| 0 <= i <= |s| - |p| && OccursAt(s, p, i);
      var j :| 0 <= j <= |p| - |Unwrap(p)| && OccursAt(p, Unwrap(p), j);
      OccursIn(s, p, Unwrap(p), i, j);
    }
  }

  // ---------------------------------------------------------------------------
  // ColumnCoverage

  /** `set(itertools.chain(*[x.keys() for x in input_rows]))`. */
  function InputColumns(rows: seq<Row>): set<string> {
    set i, k | 0 <= i < |rows| && k in rows[i] :: k
  }

  /** `set(itertools.chain(*[x.used_input_columns for x in output_studies]))`. */
  function UsedColumns(used: seq<set<string>>): set<string> {
    set i, k | 0 <= i < |used| && k in used[i] :: k
  }

  /**
   * `ColumnCoverage(input_rows, output_studies)`: a `RuntimeError` listing,
   * sorted, the used columns no row has; otherwise the used columns and the
   * input columns left unused.
   */
  function ColumnCoverage(rows: seq<Row>, used: seq<set<string>>): (r: Result<(set<string>, set<string>), PyError>)
    ensures r.Err? <==> exists k :: k in UsedColumns(used) && k !in InputColumns(rows)
    ensures r.Err? ==> r.error.RuntimeError?
    ensures r.Ok? ==> r.value.0 == UsedColumns(used) && r.value.0 <= InputColumns(rows)
    ensures r.Ok? ==> r.value.0 + r.value.1 == InputColumns(rows) && r.value.0 !! r.value.1
  {
    var inputCols := InputColumns(rows);
    var usedCols := UsedColumns(used);
    var bad := usedCols - inputCols;
    CoverageSets(usedCols, inputCols);
    if bad != {} then
      Err(RuntimeError("BUG bad column reports: " + Join(SortedSet(bad), ", ")))
    else
      Ok((usedCols, inputCols - usedCols))
  }

  /** The used columns outside the input columns are none exactly when the used are among the input, which they then split with the unused. */
  lemma CoverageSets(used: set<string>, input: set<string>)
    ensures used - input != {} <==> exists k :: k in used && k !in input
    ensures used - input == {} ==> used <= input && used + (input - used) == input && used !! (input - used)
  {
    if used - input != {} {
      var k :| k in used - input;
    } else {
      forall k | k in used ensures k in input {
        assert k !in used - input;
      }
    }
  }

  /** The report fails only for a column some study used and no row has. */
  lemma CoverageOfStudies(rows: seq<Row>, used: seq<set<string>>)
    requires |used| == |rows| && forall i :: 0 <= i < |rows| ==> used[i] <= rows[i].Keys
    ensures ColumnCoverage(rows, used).Ok?
  {
    forall k | k in UsedColumns(used) ensures k in InputColumns(rows) {
      var i :| 0 <= i < |used| && k in used[i];
      assert k in rows[i];
    }
  }

  // ---------------------------------------------------------------------------
  // one study per row

  const StartKey := "Time Period Covered Start"
  const EndKey := "Time Period Covered End"
  const ProductionKey := "Production Date"
  const TitleKey := "Title"
  const LocalIdKey := "Local ID"
  const SignatoryCategory := "signatory-category"

  /** The columns `Has` accepts among `key` alone. */
  function Used(row: Row, key: string): (r: set<string>)
    ensures r <= row.Keys && (key in r <==> Has(row, key))
  {
    if Has(row, key) then {key} else {}
  }

  /** `SingleAssign` of `Date of creation` into `Time Period Covered Start` and `Production Date`. */
  function CreationFields(row: Row): map<string, string> {
    if Has(row, Creation) then map[][StartKey := Strip(row[Creation])][ProductionKey := Strip(row[Creation])] else map[]
  }

  /** `Time Period Covered End` and `Start`, as written, from the dates of the row when it has any. */
  function PeriodFields(row: Row): (r: Result<map<string, string>, PyError>)
    ensures r.Err? ==> r.error == ValueError
  {
    var dates := PeriodDates(row);
    if dates == [] then Ok(map[])
    else
      var p :- PeriodAsWritten(dates);
      Ok(map[EndKey := p.1, StartKey := p.0])
  }

  /**
   * The output fields this model sets for a row, in the order the source sets
   * them, later ones replacing earlier; a `ValueError` of `int` or
   * `monthrange` ends the parse.
   */
  function RowOutput(row: Row): (r: Result<map<string, string>, PyError>)
    ensures r.Err? ==> r.error == ValueError
    ensures r.Ok? ==> TitleKey in r.value && r.value[TitleKey] == TitleOf(row)
    ensures r.Ok? ==> LocalIdKey in r.value && r.value[LocalIdKey] == LocalId(row)
    ensures r.Ok? ==> (StartKey in r.value <==> Has(row, Creation) || PeriodDates(row) != [])
  {
    assert StartKey != TitleKey && StartKey != LocalIdKey by {
      assert |StartKey| != |TitleKey| && |StartKey| != |LocalIdKey|;
    }
    var period :- PeriodFields(row);
    var fields := CreationFields(row) + period + GeoFields(row);
    assert StartKey in fields <==> Has(row, Creation) || PeriodDates(row) != [] by {
      StartNotGeo(row);
    }
    Ok(Stamp(fields, TitleOf(row), LocalId(row)))
  }

  /** The geography fields never hold the start of the period. */
  lemma StartNotGeo(row: Row)
    ensures StartKey !in GeoFields(row)
  {
    assert |StartKey| != |CoverageKey| && |StartKey| != |UnitKey|;
  }

  /** `Title` and `Local ID` set over the fields `m`; every other key is kept. */
  function Stamp(m: map<string, string>, title: string, id: string): (r: map<string, string>)
    ensures TitleKey in r && r[TitleKey] == title && LocalIdKey in r && r[LocalIdKey] == id
    ensures forall k :: k != TitleKey && k != LocalIdKey ==> (k in r <==> k in m) && (k in m ==> r[k] == m[k])
  {
    assert |TitleKey| != |LocalIdKey|;
    m[TitleKey := title][LocalIdKey := id]
  }

  /** `'<p>Actions taken on dates: %s </p>' % ','.join(action_dates)`, order 7, when there are action dates. */
  function ActionParts(row: Row): seq<(int, string)> {
    var dates := ActionDatesOf(row, ActionFields);
    if dates == [] then [] else [(7, "<p>Actions taken on dates: " + Join(dates, ",") + " </p>")]
  }

  /** `ParseList(row['Identifications'])`. */
  function Identifications(row: Row): seq<string>
    requires IdentificationsColumn in row
  {
    StripEach(Split(row[IdentificationsColumn], ","))
  }

  /** `'<p>Identifications of signatories: %s </p>' % ', '.join(identifications)`, order 18. */
  function IdentificationParts(row: Row): seq<(int, string)> {
    if Has(row, IdentificationsColumn) then
      [(18, "<p>Identifications of signatories: " + Join(Identifications(row), ", ") + " </p>")]
    else []
  }

  /** `signatory-category` keywords with the values `values` cleaned. */
  function CategoryKeywords(values: seq<string>): (r: seq<(string, string)>)
    ensures |r| == |values| && forall i :: 0 <= i < |values| ==> r[i] == (SignatoryCategory, Unwrap(values[i]))
  {
    seq(|values|, i requires 0 <= i < |values| => (SignatoryCategory, Unwrap(values[i])))
  }

  /** The keywords of a row: one `signatory-category` per identification, cleaned. */
  function RowKeywords(row: Row): seq<(string, string)> {
    if Has(row, IdentificationsColumn) then CategoryKeywords(Identifications(row)) else []
  }

  /** The description parts of a row, in the order they are added. */
  function RowParts(row: Row): seq<(int, string)> {
    ActionParts(row) + IdentificationParts(row)
  }

  /** The input columns a study of the row reports as used. */
  function RowColumns(row: Row): (r: set<string>)
    ensures r <= row.Keys
  {
    Used(row, Creation) + HadColumns(row, ActionFields) + Used(row, Location)
      + Used(row, IdentificationsColumn) + Used(row, Citation) + Used(row, Signatures)
  }

  /** The fields of a builder, as one value. */
  datatype StudyState = StudyState(
    dirty: bool,
    descriptionParts: seq<(int, string)>,
    keywords: seq<(string, string)>,
    usedInputColumns: set<string>,
    output: map<string, string>)

  function State(curr: Builder): StudyState
    reads curr
  {
    StudyState(curr.dirty, curr.descriptionParts, curr.keywords, curr.usedInputColumns, curr.output)
  }

  /** The finalized study of a row, when its period can be computed. */
  function StudyOf(row: Row): Option<StudyState> {
    if RowOutput(row).Ok? then
      Some(StudyState(false, RowParts(row), RowKeywords(row), RowColumns(row), Rendered(RowOutput(row).value, RowParts(row), RowKeywords(row))))
    else None
  }

  /** `curr` after `Finalize()` holds the study of `row`. */
  predicate Study(curr: Builder, row: Row)
    reads curr
  {
    && RowOutput(row).Ok?
    && !curr.dirty
    && curr.descriptionParts == RowParts(row)
    && curr.keywords == RowKeywords(row)
    && curr.usedInputColumns == RowColumns(row)
    && curr.output == Rendered(RowOutput(row).value, RowParts(row), RowKeywords(row))
  }

  /** The study of a row, as a value. */
  lemma StudyAsState(curr: Builder, row: Row)
    requires Study(curr, row)
    ensures StudyOf(row) == Some(State(curr))
  {
  }

  lemma ActionDatesStep(row: Row, fields: seq<string>, j: nat)
    requires j < |fields|
    ensures ActionDatesOf(row, fields[..j + 1]) == ActionDatesOf(row, fields[..j]) + ActionDate(row, fields[j])
  {
    assert fields[..j + 1][..j] == fields[..j];
  }

  lemma HadColumnsStep(row: Row, fields: seq<string>, j: nat)
    requires j < |fields|
    ensures HadColumns(row, fields[..j + 1]) == HadColumns(row, fields[..j]) + Used(row, fields[j])
  {
    assert fields[..j + 1] == fields[..j] + [fields[j]];
  }

  /** The `for field in ['dateaction%d' ...]` loop: the action dates that parse, and the columns used. */
  method AddActionDates(curr: Builder, row: Row) returns (dates: seq<string>)
    requires curr.ignoreValues == Ignore
    modifies curr
    ensures dates == ActionDatesOf(row, ActionFields)
    ensures curr.usedInputColumns == old(curr.usedInputColumns) + HadColumns(row, ActionFields)
    ensures curr.descriptionParts == old(curr.descriptionParts) + ActionParts(row)
    ensures curr.dirty == (old(curr.dirty) || ActionParts(row) != [])
    ensures curr.keywords == old(curr.keywords) && curr.output == old(curr.output)
  {
    dates := CollectActionDates(curr, row);
    if dates != [] {
      curr.AddDescriptionHtml("<p>Actions taken on dates: " + Join(dates, ",") + " </p>", 7);
    }
  }

  /** The loop itself: each action column the row has is used, and its date kept when it parses. */
  method CollectActionDates(curr: Builder, row: Row) returns (dates: seq<string>)
    requires curr.ignoreValues == Ignore
    modifies curr
    ensures dates == ActionDatesOf(row, ActionFields)
    ensures curr.usedInputColumns == old(curr.usedInputColumns) + HadColumns(row, ActionFields)
    ensures curr.descriptionParts == old(curr.descriptionParts) && curr.dirty == old(curr.dirty)
    ensures curr.keywords == old(curr.keywords) && curr.output == old(curr.output)
  {
    dates := [];
    ghost var start := curr.usedInputColumns;
    for j := 0 to |ActionFields|
      invariant dates == ActionDatesOf(row, ActionFields[..j])
      invariant curr.usedInputColumns == start + HadColumns(row, ActionFields[..j])
      invariant curr.descriptionParts == old(curr.descriptionParts) && curr.dirty == old(curr.dirty)
      invariant curr.keywords == old(curr.keywords) && curr.output == old(curr.output)
    {
      ghost var had := HadColumns(row, ActionFields[..j]);
      var d := ActionColumn(curr, row, ActionFields[j]);
      dates := dates + d;
      ActionDatesStep(row, ActionFields, j);
      HadColumnsStep(row, ActionFields, j);
      UnionAssoc(start, had, Used(row, ActionFields[j]));
    }
    assert ActionFields[..|ActionFields|] == ActionFields;
  }

  /** One pass of that loop: the column is used when the row has it, and its date kept when it parses. */
  method ActionColumn(curr: Builder, row: Row, field: string) returns (d: seq<string>)
    requires curr.ignoreValues == Ignore
    modifies curr
    ensures d == ActionDate(row, field)
    ensures curr.usedInputColumns == old(curr.usedInputColumns) + Used(row, field)
    ensures curr.descriptionParts == old(curr.descriptionParts) && curr.dirty == old(curr.dirty)
    ensures curr.keywords == old(curr.keywords) && curr.output == old(curr.output)
  {
    d := [];
    if curr.Has(row, field) {
      curr.UseColumn(field);
      var parsed := CustomDateParse(row[field]);
      if parsed.Ok? {
        d := [parsed.value];
      }
    }
  }

  lemma UnionAssoc<T>(a: set<T>, b: set<T>, c: set<T>)
    ensures a + b + c == a + (b + c)
  {
  }

  /**
   * The period: the least and greatest date padded, the end given the days of
   * its month when it is short and the padded start has a dash; `int`'s and
   * `monthrange`'s `ValueError` is passed to the caller.
   */
  method SetPeriod(curr: Builder, row: Row, actionDates: seq<string>) returns (r: Result<(), PyError>)
    requires curr.ignoreValues == Ignore && actionDates == ActionDatesOf(row, ActionFields)
    modifies curr
    ensures r.Ok? <==> PeriodFields(row).Ok?
    ensures r.Err? ==> r.error == ValueError && curr.output == old(curr.output)
    ensures r.Ok? ==> curr.output == old(curr.output) + PeriodFields(row).value
    ensures curr.descriptionParts == old(curr.descriptionParts) && curr.keywords == old(curr.keywords)
    ensures curr.usedInputColumns == old(curr.usedInputColumns) && curr.dirty == old(curr.dirty)
  {
    var dates := actionDates;
    if curr.Has(row, Creation) {
      dates := dates + [row[Creation]];
    }
    assert dates == PeriodDates(row);
    if dates != [] {
      var period := PadPeriod(dates);
      if period.Err? {
        return Err(period.error);
      }
      var (minDate, maxDate) := period.value;
      ghost var before := curr.output;
      curr.Set(EndKey, maxDate);
      curr.Set(StartKey, minDate);
      assert |EndKey| != |StartKey|;
      UpdateTwo(before, EndKey, StartKey, maxDate, minDate);
    }
    r := Ok(());
  }

  /** The padding of the least and the greatest date, in the steps the source takes. */
  method PadPeriod(dates: seq<string>) returns (r: Result<(string, string), PyError>)
    requires |dates| > 0
    ensures r == PeriodAsWritten(dates)
  {
    var maxDate := MaxStr(dates);
    var minDate := MinStr(dates);
    if |minDate| < 7 {
      minDate := minDate + "-01";
    }
    if |minDate| < 10 && '-' in minDate {
      minDate := minDate + "-01";
    }
    var end := PadMaxDate(maxDate, minDate);
    if end.Err? {
      return Err(end.error);
    }
    r := Ok((minDate, end.value));
  }

  /**
   * The month added to the greatest date, then the last day of its month when
   * it is still short and the padded least date `minDate` has a dash.
   */
  method PadMaxDate(latest: string, minDate: string) returns (r: Result<string, PyError>)
    ensures r == PadEnd(PadMonth(latest), minDate)
  {
    var maxDate := latest;
    if |maxDate| < 7 {
      maxDate := maxDate + "-12";
    }
    if |maxDate| < 10 && '-' in minDate {
      var days := MonthDays(maxDate);
      if days.Err? {
        return Err(days.error);
      }
      maxDate := maxDate + "-" + NatToString(days.value);
    }
    r := Ok(maxDate);
  }

  /** `SingleAssign(row, 'Location', 'Geographic Coverage')`, then `Geographic Unit` when the coverage is non-empty. */
  method SetGeography(curr: Builder, row: Row)
    requires curr.ignoreValues == Ignore && CoverageKey !in curr.output
    modifies curr
    ensures curr.output == old(curr.output) + GeoFields(row)
    ensures curr.usedInputColumns == old(curr.usedInputColumns) + Used(row, Location)
    ensures curr.descriptionParts == old(curr.descriptionParts) && curr.keywords == old(curr.keywords)
    ensures curr.dirty == old(curr.dirty)
  {
    ghost var before := curr.output;
    curr.SingleAssign(row, Location, CoverageKey);
    if CoverageKey in curr.output && curr.output[CoverageKey] != "" {
      var cover := curr.output[CoverageKey];
      if cover == "Massachusetts" {
        curr.Set(UnitKey, "State");
      } else {
        curr.Set(UnitKey, "City/Town");
      }
    }
    GeoFieldsOver(row, before);
  }

  /** Two updates of distinct keys are the union with the map of the two. */
  lemma UpdateTwo(m: map<string, string>, a: string, b: string, va: string, vb: string)
    requires a != b
    ensures m[a := va][b := vb] == m + map[a := va, b := vb]
  {
  }

  /** The geography fields laid over output fields that have no coverage yet. */
  lemma GeoFieldsOver(row: Row, before: map<string, string>)
    ensures Has(row, Location) ==>
      before[CoverageKey := Strip(row[Location])][UnitKey := GeoUnit(Strip(row[Location]))] == before + GeoFields(row)
    ensures !Has(row, Location) ==> before + GeoFields(row) == before
  {
    if Has(row, Location) {
      assert |CoverageKey| != |UnitKey|;
      UpdateTwo(before, CoverageKey, UnitKey, Strip(row[Location]), GeoUnit(Strip(row[Location])));
    }
  }

  /** The identifications: a cleaned `signatory-category` keyword each, and the raw list in the description. */
  method AddIdentifications(curr: Builder, row: Row)
    requires curr.ignoreValues == Ignore
    modifies curr
    ensures curr.keywords == old(curr.keywords) + RowKeywords(row)
    ensures curr.descriptionParts == old(curr.descriptionParts) + IdentificationParts(row)
    ensures curr.usedInputColumns == old(curr.usedInputColumns) + Used(row, IdentificationsColumn)
    ensures curr.dirty == (old(curr.dirty) || Has(row, IdentificationsColumn))
    ensures curr.output == old(curr.output)
  {
    if curr.Has(row, IdentificationsColumn) {
      curr.UseColumn(IdentificationsColumn);
      var parsed := ParseList(row[IdentificationsColumn], ",");
      var identifications := parsed.value;
      var clean := CleanIdentifications(identifications);
      AddKeywords(curr, SignatoryCategory, clean);
      CategoryKeywordsTagged(identifications, clean);
      curr.AddDescriptionHtml("<p>Identifications of signatories: " + Join(identifications, ", ") + " </p>", 18);
    }
  }

  /** `(vocab, value)` for each of the values, in their order. */
  function Tagged(vocab: string, values: seq<string>): (r: seq<(string, string)>)
    ensures |r| == |values| && forall i :: 0 <= i < |values| ==> r[i] == (vocab, values[i])
  {
    seq(|values|, i requires 0 <= i < |values| => (vocab, values[i]))
  }

  lemma CategoryKeywordsTagged(values: seq<string>, clean: seq<string>)
    requires |clean| == |values| && forall i :: 0 <= i < |values| ==> clean[i] == Unwrap(values[i])
    ensures CategoryKeywords(values) == Tagged(SignatoryCategory, clean)
  {
  }

  /** `for i in values: curr.AddKeyword(vocab, i)`. */
  method AddKeywords(curr: Builder, vocab: string, values: seq<string>)
    modifies curr
    ensures curr.keywords == old(curr.keywords) + Tagged(vocab, values)
    ensures curr.dirty == (old(curr.dirty) || values != [])
    ensures curr.descriptionParts == old(curr.descriptionParts) && curr.output == old(curr.output)
    ensures curr.usedInputColumns == old(curr.usedInputColumns)
  {
    for i := 0 to |values|
      invariant curr.keywords == old(curr.keywords) + Tagged(vocab, values[..i])
      invariant curr.dirty == (old(curr.dirty) || i > 0)
      invariant curr.descriptionParts == old(curr.descriptionParts) && curr.output == old(curr.output)
      invariant curr.usedInputColumns == old(curr.usedInputColumns)
    {
      assert Tagged(vocab, values[..i + 1]) == Tagged(vocab, values[..i]) + [(vocab, values[i])];
      curr.AddKeyword(vocab, values[i]);
    }
    assert values[..|values|] == values;
  }

  /** The `Scholarly citation` half of `title_parts`: the reference, when the column is set and matches. */
  method ReferencePart(curr: Builder, row: Row) returns (part: seq<string>)
    requires curr.ignoreValues == Ignore
    modifies curr
    ensures part == Part(RowReference(row))
    ensures curr.usedInputColumns == old(curr.usedInputColumns) + Used(row, Citation)
    ensures curr.output == old(curr.output) && curr.dirty == old(curr.dirty)
    ensures curr.descriptionParts == old(curr.descriptionParts) && curr.keywords == old(curr.keywords)
  {
    part := [];
    if curr.Has(row, Citation) {
      curr.UseColumn(Citation);
      var reference := CitationReference(row[Citation]);
      if reference.Some? {
        part := [reference.value];
      }
    }
  }

  /** The signatures half of `title_parts`: `Petition of` and the first signature, when the column is set. */
  method PetitionerPart(curr: Builder, row: Row) returns (part: seq<string>)
    requires curr.ignoreValues == Ignore
    modifies curr
    ensures part == Part(RowPetitioner(row))
    ensures curr.usedInputColumns == old(curr.usedInputColumns) + Used(row, Signatures)
    ensures curr.output == old(curr.output) && curr.dirty == old(curr.dirty)
    ensures curr.descriptionParts == old(curr.descriptionParts) && curr.keywords == old(curr.keywords)
  {
    part := [];
    if curr.Has(row, Signatures) {
      curr.UseColumn(Signatures);
      var signatures := ParseList(row[Signatures], ",");
      if signatures.value != [] {
        part := ["Petition of " + signatures.value[0]];
      }
    }
  }

  /** The `Title`, from the citation's reference and the first signature. */
  method SetTitle(curr: Builder, row: Row)
    requires curr.ignoreValues == Ignore
    modifies curr
    ensures curr.output == old(curr.output)[TitleKey := TitleOf(row)]
    ensures curr.usedInputColumns == old(curr.usedInputColumns) + Used(row, Citation) + Used(row, Signatures)
    ensures curr.descriptionParts == old(curr.descriptionParts) && curr.keywords == old(curr.keywords)
    ensures curr.dirty == old(curr.dirty)
  {
    var reference := ReferencePart(curr, row);
    var petitioner := PetitionerPart(curr, row);
    var titleParts := reference + petitioner;
    if titleParts != [] {
      curr.Set(TitleKey, Join(titleParts, ", "));
    } else {
      curr.Set(TitleKey, "(untitled)");
    }
  }

  /** `Local ID`: the id columns without spaces, cut to 50 characters, joined by `|`. */
  method SetLocalId(curr: Builder, row: Row)
    modifies curr
    ensures curr.output == old(curr.output)[LocalIdKey := LocalId(row)]
    ensures curr.descriptionParts == old(curr.descriptionParts) && curr.keywords == old(curr.keywords)
    ensures curr.usedInputColumns == old(curr.usedInputColumns) && curr.dirty == old(curr.dirty)
  {
    var idParts: seq<string> := [];
    for j := 0 to |IdFields|
      invariant |idParts| == j && forall k :: 0 <= k < j ==> idParts[k] == IdPart(row, IdFields[k])
    {
      var squeezed := ReplaceAll(Get(row, IdFields[j]), " ", "");
      idParts := idParts + [squeezed[..Min(50, |squeezed|)]];
    }
    assert idParts == IdParts(row);
    curr.Set(LocalIdKey, Join(idParts, "|"));
  }

  /**
   * The body of the `for row in input_rows` loop on a row whose date cells are
   * already rewritten: a finalized study, or the `ValueError` that ends the parse.
   */
  method ParseRow(row: Row) returns (curr: Builder, r: Result<(), PyError>)
    ensures fresh(curr)
    ensures r.Ok? <==> RowOutput(row).Ok?
    ensures r.Err? ==> r.error == ValueError
    ensures r.Ok? ==> Study(curr, row)
  {
    curr := new Builder(Ignore);
    IgnoreNormalised();
    var dates := AddDates(curr, row);
    r := SetPeriod(curr, row, dates);
    if r.Err? {
      return;
    }
    NoCoverageYet(row);
    AddPlaceAndNames(curr, row);
    assert curr.dirty <==> RowParts(row) != [] || RowKeywords(row) != [];
    curr.Finalize();
  }

  /** The fields set before the geography hold no coverage. */
  lemma NoCoverageYet(row: Row)
    requires PeriodFields(row).Ok?
    ensures CoverageKey !in CreationFields(row) + PeriodFields(row).value
  {
    PeriodKeys(row);
    CreationKeys(row);
    assert |CoverageKey| != |StartKey| && |CoverageKey| != |EndKey| && CoverageKey[0] != ProductionKey[0];
  }

  lemma PeriodKeys(row: Row)
    requires PeriodFields(row).Ok?
    ensures PeriodFields(row).value.Keys <= {EndKey, StartKey}
  {
  }

  lemma CreationKeys(row: Row)
    ensures CreationFields(row).Keys <= {StartKey, ProductionKey}
  {
  }

  /** The creation date and the action dates on a new builder: the fields set before the period. */
  method AddDates(curr: Builder, row: Row) returns (dates: seq<string>)
    requires curr.ignoreValues == Ignore
    requires curr.descriptionParts == [] && curr.keywords == [] && curr.usedInputColumns == {} && curr.output == map[] && !curr.dirty
    modifies curr
    ensures dates == ActionDatesOf(row, ActionFields)
    ensures curr.output == CreationFields(row)
    ensures curr.usedInputColumns == Used(row, Creation) + HadColumns(row, ActionFields)
    ensures curr.descriptionParts == ActionParts(row) && curr.keywords == []
    ensures curr.dirty == (ActionParts(row) != [])
  {
    curr.SingleAssign(row, Creation, StartKey);
    curr.SingleAssign(row, Creation, ProductionKey);
    assert curr.output == CreationFields(row);
    assert curr.usedInputColumns == Used(row, Creation);
    dates := AddActionDates(curr, row);
    EmptyConcat(ActionParts(row));
  }

  /** The fields set after the period: the geography, the identifications, the `Title` and the `Local ID`. */
  method AddPlaceAndNames(curr: Builder, row: Row)
    requires curr.ignoreValues == Ignore && CoverageKey !in curr.output
    modifies curr
    ensures curr.output == Stamp(old(curr.output) + GeoFields(row), TitleOf(row), LocalId(row))
    ensures curr.descriptionParts == old(curr.descriptionParts) + IdentificationParts(row)
    ensures curr.keywords == old(curr.keywords) + RowKeywords(row)
    ensures curr.usedInputColumns == old(curr.usedInputColumns) + Used(row, Location) + Used(row, IdentificationsColumn) + Used(row, Citation) + Used(row, Signatures)
    ensures curr.dirty == (old(curr.dirty) || Has(row, IdentificationsColumn))
  {
    SetGeography(curr, row);
    AddIdentifications(curr, row);
    SetTitle(curr, row);
    SetLocalId(curr, row);
  }

  lemma EmptyConcat<T>(s: seq<T>)
    ensures [] + s == s
  {
  }

  /**
   * `ParseAntislaveryPetitions(input_rows)`: the date cells of each row are
   * rewritten in place, then the row becomes one finalized study; a row whose
   * period raises `ValueError` ends the parse, its date cells already rewritten.
   */
  method ParseAntislaveryPetitions(rows: array<Row>) returns (studies: seq<Builder>, r: Result<(), PyError>)
    modifies rows
    ensures |studies| <= rows.Length
    ensures r.Ok? ==> |studies| == rows.Length
    ensures r.Err? ==> |studies| < rows.Length && r.error == ValueError && RowOutput(rows[|studies|]).Err?
    ensures rows[..] == CleanedUpTo(old(rows[..]), if r.Ok? then |studies| else |studies| + 1)
    ensures forall i :: 0 <= i < |studies| ==> fresh(studies[i]) && StudyOf(rows[i]) == Some(State(studies[i]))
    ensures forall i, j :: 0 <= i < j < |studies| ==> studies[i] != studies[j]
  {
    studies := [];
    ghost var input := rows[..];
    ghost var done: seq<Row> := [];
    ghost var states: seq<Option<StudyState>> := [];
    var n := 0;
    while n < rows.Length
      invariant 0 <= n <= rows.Length && |studies| == n && |done| == n && |states| == n
      invariant rows[..] == CleanedUpTo(input, n) && done == rows[..n]
      invariant Mapped(StudyOf, done, states)
      invariant forall i :: 0 <= i < n ==> states[i] == Some(State(studies[i]))
      invariant forall i :: 0 <= i < n ==> fresh(studies[i])
      invariant forall i, j :: 0 <= i < j < n ==> studies[i] != studies[j]
    {
      var curr, res := ParseOne(rows, n, done, states);
      CleanedStep(input, n);
      if res.Err? {
        r := res;
        Studies(done, states, rows[..n], studies);
        return;
      }
      assert forall i :: 0 <= i < n ==> studies[i] != curr;
      studies := studies + [curr];
      done := done + [rows[n]];
      states := states + [Some(State(curr))];
      n := n + 1;
    }
    r := Ok(());
    Studies(done, states, rows[..n], studies);
  }

  /** The rows with the first `n` cleaned. */
  function CleanedUpTo(input: seq<Row>, n: nat): (r: seq<Row>)
    ensures |r| == |input|
  {
    seq(|input|, i requires 0 <= i < |input| => if i < n then CleanRow(input[i]) else input[i])
  }

  /** Cleaning row `n` extends the cleaned prefix by one. */
  lemma CleanedStep(input: seq<Row>, n: nat)
    requires n < |input|
    ensures CleanedUpTo(input, n)[n := CleanRow(input[n])] == CleanedUpTo(input, n + 1)
  {
  }

  /** `f` relates the lists index by index. */
  ghost predicate Mapped<A, B>(f: A -> B, xs: seq<A>, ys: seq<B>) {
    |xs| == |ys| && forall i {:trigger f(xs[i])} :: 0 <= i < |xs| ==> f(xs[i]) == ys[i]
  }

  lemma MappedMore<A, B>(f: A -> B, xs: seq<A>, ys: seq<B>, x: A, y: B)
    requires Mapped(f, xs, ys) && f(x) == y
    ensures Mapped(f, xs + [x], ys + [y])
  {
  }

  /** The studies paired with the parsed rows, index by index. */
  lemma Studies(done: seq<Row>, states: seq<Option<StudyState>>, parsed: seq<Row>, studies: seq<Builder>)
    requires Mapped(StudyOf, done, states) && parsed == done && |studies| == |states|
    requires forall i :: 0 <= i < |studies| ==> states[i] == Some(State(studies[i]))
    ensures forall i :: 0 <= i < |studies| ==> StudyOf(parsed[i]) == Some(State(studies[i]))
  {
    forall i | 0 <= i < |studies|
      ensures StudyOf(parsed[i]) == Some(State(studies[i]))
    {
      MappedAt(StudyOf, done, states, i);
    }
  }

  lemma MappedAt<A, B>(f: A -> B, xs: seq<A>, ys: seq<B>, i: nat)
    requires Mapped(f, xs, ys) && i < |xs|
    ensures f(xs[i]) == ys[i]
  {
  }

  /** A row with its date cells rewritten. */
  function CleanRow(row: Row): Row {
    CleanedDates(row, DateFields)
  }

  /**
   * One pass of the `for row in input_rows` loop: the date cells of `rows[n]`
   * rewritten, then its study, which joins the studies of the rows before it.
   */
  method ParseOne(rows: array<Row>, n: nat, ghost done: seq<Row>, ghost states: seq<Option<StudyState>>)
    returns (curr: Builder, r: Result<(), PyError>)
    requires n < rows.Length
    requires Mapped(StudyOf, done, states)
    modifies rows
    ensures rows[n] == CleanRow(old(rows[n]))
    ensures forall i :: 0 <= i < rows.Length && i != n ==> rows[i] == old(rows[i])
    ensures rows[..] == old(rows[..])[n := CleanRow(old(rows[n]))]
    ensures fresh(curr)
    ensures r.Err? ==> r.error == ValueError && RowOutput(rows[n]).Err?
    ensures r.Ok? ==> Mapped(StudyOf, done + [rows[n]], states + [Some(State(curr))])
  {
    CleanDateColumns(rows, n);
    curr, r := ParseRow(rows[n]);
    if r.Ok? {
      StudyAsState(curr, rows[n]);
      MappedMore(StudyOf, done, states, rows[n], Some(State(curr)));
    }
  }

  /** A study uses only columns its row has. */
  lemma StudyUsesRowColumns(curr: Builder, row: Row)
    requires Study(curr, row)
    ensures curr.usedInputColumns <= row.Keys
  {
  }

  /** The coverage report of a complete parse never fails. */
  lemma ParseCoversColumns(rows: seq<Row>, studies: seq<Builder>, used: seq<set<string>>)
    requires |studies| == |rows| == |used|
    requires forall i :: 0 <= i < |rows| ==> Study(studies[i], rows[i]) && used[i] == studies[i].usedInputColumns
    ensures ColumnCoverage(rows, used).Ok?
  {
    CoverageOfStudies(rows, used);
  }

  /**
   * A row whose dates are all ISO dates or years gets a period: both ends
   * ISO dates, a year widened to its first and its last day.
   */
  lemma RowPeriod(row: Row)
    requires forall i :: 0 <= i < |PeriodDates(row)| ==> IsIsoDate(PeriodDates(row)[i]) || IsYear(PeriodDates(row)[i])
    ensures RowOutput(row).Ok?
    ensures PeriodDates(row) != [] ==>
      && StartKey in RowOutput(row).value && IsIsoDate(RowOutput(row).value[StartKey])
      && EndKey in RowOutput(row).value && IsIsoDate(RowOutput(row).value[EndKey])
  {
    if PeriodDates(row) != [] {
      PeriodFieldsIso(row);
      assert |StartKey| != |CoverageKey| && |StartKey| != |UnitKey| && |StartKey| != |TitleKey| && |StartKey| != |LocalIdKey|;
      assert |EndKey| != |CoverageKey| && |EndKey| != |UnitKey| && |EndKey| != |TitleKey| && |EndKey| != |LocalIdKey|;
      OutputKeepsPeriod(row, StartKey);
      OutputKeepsPeriod(row, EndKey);
    } else {
      assert PeriodFields(row).Ok?;
    }
  }

  /** Both ends of the period of ISO dates and years are ISO dates. */
  lemma PeriodFieldsIso(row: Row)
    requires PeriodDates(row) != []
    requires forall i :: 0 <= i < |PeriodDates(row)| ==> IsIsoDate(PeriodDates(row)[i]) || IsYear(PeriodDates(row)[i])
    ensures PeriodFields(row).Ok?
    ensures StartKey in PeriodFields(row).value && IsIsoDate(PeriodFields(row).value[StartKey])
    ensures EndKey in PeriodFields(row).value && IsIsoDate(PeriodFields(row).value[EndKey])
  {
    var dates := PeriodDates(row);
    PeriodOfDates(dates);
    AsWrittenOfDates(dates);
    var p := PeriodAsWritten(dates).value;
    assert PeriodFields(row) == Ok(map[EndKey := p.1, StartKey := p.0]);
  }

  /** A period field that no later field overwrites reaches the output. */
  lemma OutputKeepsPeriod(row: Row, k: string)
    requires PeriodFields(row).Ok? && k in PeriodFields(row).value
    requires k != CoverageKey && k != UnitKey && k != TitleKey && k != LocalIdKey
    ensures RowOutput(row).Ok? && k in RowOutput(row).value
    ensures RowOutput(row).value[k] == PeriodFields(row).value[k]
  {
    var fields := CreationFields(row) + PeriodFields(row).value + GeoFields(row);
    assert k !in GeoFields(row);
    assert fields[k] == PeriodFields(row).value[k];
  }

}
