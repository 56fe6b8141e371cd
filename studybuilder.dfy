/**
 * `dataversestudybuilder`: the small parsers for input cells and the
 * `DataverseStudyBuilder` that collects one study's output fields,
 * description parts and keywords, and renders them on `Finalize`.
 */
module StudyBuilder {
  import opened Results
  import opened Text
  import opened Ordering
  import opened Json
  import opened TsvFile

  // ---------------------------------------------------------------------------
  // cell parsers

  /** `HasNonblank(input_dict, key)`: the key is present and its value is not all whitespace. */
  predicate HasNonblank(input: Row, key: string) {
    key in input && Strip(input[key]) != ""
  }

  /** `Has(input_dict, key)` of a builder that ignores the values `ignore`, already lower case and stripped. */
  predicate HasValue(ignore: seq<string>, input: Row, key: string) {
    HasNonblank(input, key) && Strip(Lower(input[key])) !in ignore
  }

  /**
   * `ParseBoolean(input_dict, key)`: "yes" and "no" in any case and with any
   * surrounding whitespace; anything else, "na", a blank and a missing key are `None`.
   */
  function ParseBoolean(input: Row, key: string): (r: Option<bool>)
    ensures r == Some(true) <==> key in input && Strip(Lower(input[key])) == "yes"
    ensures r == Some(false) <==> key in input && Strip(Lower(input[key])) == "no"
  {
    if !HasNonblank(input, key) then
      if key in input then LowerKeepsBlank(input[key]); None else None
    else
      var value := Strip(Lower(input[key]));
      if value == "na" then None
      else if value == "yes" then Some(true)
      else if value == "no" then Some(false)
      else None
  }

  /** `ParseList(input_string, delimiter)`: the stripped pieces; an empty delimiter is a `ValueError`. */
  function ParseList(s: string, delim: string): (r: Result<seq<string>, PyError>)
    ensures r.Err? <==> delim == ""
    ensures r.Ok? ==> |r.value| == |Split(s, delim)|
  {
    if delim == "" then Err(ValueError) else Ok(StripEach(Split(s, delim)))
  }

  /** `[x.strip() for x in pieces]`. */
  function StripEach(pieces: seq<string>): (r: seq<string>)
    ensures |r| == |pieces| && forall i :: 0 <= i < |pieces| ==> r[i] == Strip(pieces[i])
  {
    seq(|pieces|, i requires 0 <= i < |pieces| => Strip(pieces[i]))
  }

  /** Stripping adds no character: pieces without `c` stay without it. */
  lemma StripEachKeeps(pieces: seq<string>, c: char)
    requires forall p :: p in pieces ==> c !in p
    ensures forall p :: p in StripEach(pieces) ==> c !in p
  {
    var r := StripEach(pieces);
    forall i | 0 <= i < |r| ensures c !in r[i] {
      assert pieces[i] in pieces;
      StripCharsKeeps(pieces[i], Whitespace, c);
    }
  }

  /**
   * On a one-character delimiter, `ParseList` gives one piece more than there
   * are delimiters, each without surrounding whitespace and without the delimiter.
   */
  lemma ParseListPieces(s: string, c: char)
    ensures var r := ParseList(s, [c]).value;
      && |r| == Count(s, c) + 1
      && forall i :: 0 <= i < |r| ==> c !in r[i] && (r[i] == [] || (!IsSpace(r[i][0]) && !IsSpace(r[i][|r[i]| - 1])))
  {
    SplitCharCount(s, c);
    SplitCharPieces(s, c);
    StripEachKeeps(Split(s, [c]), c);
    var r := StripEach(Split(s, [c]));
    assert forall i :: 0 <= i < |r| ==> r[i] in r;
  }

  // ---------------------------------------------------------------------------
  // ParseDate

  /** Python's `$`: the end of the string, or just before a final newline. */
  predicate EndsAt(d: string, k: nat) {
    |d| == k || (|d| == k + 1 && d[k] == '\n')
  }

  /** `re.match(r'\d{4}-\d{2}-\d{2}', d)`: the string starts with that shape. */
  predicate IsoPrefix(d: string) {
    && |d| >= 10 && AllDigits(d[..4]) && d[4] == '-'
    && AllDigits(d[5..7]) && d[7] == '-' && AllDigits(d[8..10])
  }

  /** `^(\d{4})(\d{2})(\d{2})$`. */
  predicate EightDigits(d: string) {
    |d| >= 8 && AllDigits(d[..8]) && EndsAt(d, 8)
  }

  /** `^(\d{4})$`. */
  predicate FourDigits(d: string) {
    |d| >= 4 && AllDigits(d[..4]) && EndsAt(d, 4)
  }

  predicate IsLeap(y: int) {
    (y % 4 == 0 && y % 100 != 0) || y % 400 == 0
  }

  /** The number of days of a month of the Gregorian calendar. */
  function DaysInMonth(y: int, m: int): (r: int)
    requires 1 <= m <= 12
    ensures 28 <= r <= 31
  {
    if m == 2 then (if IsLeap(y) then 29 else 28)
    else if m == 4 || m == 6 || m == 9 || m == 11 then 30
    else 31
  }

  /** `datetime.strptime(c, '%Y-%m-%d')` succeeds: exactly `YYYY-MM-DD`, naming a real day of a year from 1. */
  predicate IsIsoDate(c: string) {
    && |c| == 10 && IsoPrefix(c)
    && var y := DigitsValue(c[..4]);
       var m := DigitsValue(c[5..7]);
       var d := DigitsValue(c[8..10]);
       y >= 1 && 1 <= m <= 12 && 1 <= d <= DaysInMonth(y, m)
  }

  /** Day `00` read as the first of the month, then the calendar check. */
  function CheckCanonical(c: string): (r: Result<string, PyError>)
    ensures r.Ok? ==> IsIsoDate(r.value)
  {
    var c' := if EndsWith(c, "00") then c[..|c| - 2] + "01" else c;
    if IsIsoDate(c') then Ok(c') else Err(ValueError)
  }

  /** `re.sub(full_matcher, r'\1-\2-\3', d)`. */
  function Dashed(d: string): string
    requires EightDigits(d)
  {
    d[..4] + "-" + d[4..6] + "-" + d[6..8] + d[8..]
  }

  /**
   * `ParseDate(input_date)`: the earliest of the dates of a comma-separated
   * list; a `YYYY-MM-DD` or `YYYYMMDD` date, checked; a `YYYY` year unchanged.
   * The scientific-notation branch is not modelled and stands as a
   * `RuntimeError`.
   */
  function ParseDate(input: string): (r: Result<string, PyError>)
    ensures r.Ok? ==> IsIsoDate(r.value) || FourDigits(r.value)
    decreases if ',' in input then 1 else 0, 0, 0
  {
    if ',' in input then
      SplitCharPieces(input, ',');
      var parts := StripEach(Split(input, ","));
      StripEachKeeps(Split(input, ","), ',');
      var dates :- ParseDates(parts);
      Ok(MinStr(dates))
    else if IsoPrefix(input) then CheckCanonical(input)
    else if EightDigits(input) then CheckCanonical(Dashed(input))
    else if FourDigits(input) then Ok(input)
    else Err(RuntimeError("scientific notation"))
  }

  /** `[ParseDate(x) for x in parts]`: the first failure is raised. */
  function ParseDates(parts: seq<string>): (r: Result<seq<string>, PyError>)
    requires forall p :: p in parts ==> ',' !in p
    ensures r.Ok? <==> forall i :: 0 <= i < |parts| ==> ParseDate(parts[i]).Ok?
    ensures r.Ok? ==> |r.value| == |parts| && forall i :: 0 <= i < |parts| ==> ParseDate(parts[i]) == Ok(r.value[i])
    decreases 0, 1, |parts|
  {
    if parts == [] then Ok([])
    else
      var d :- ParseDate(parts[0]);
      var ds :- ParseDates(parts[1..]);
      assert forall i :: 1 <= i < |parts| ==> parts[i] == parts[1..][i - 1];
      Ok([d] + ds)
  }

  /** A four-digit year comes back unchanged. */
  lemma ParseDateYear(d: string)
    requires |d| == 4 && AllDigits(d)
    ensures ParseDate(d) == Ok(d)
  {
    assert ',' !in d by { assert forall i :: 0 <= i < |d| ==> IsDigit(d[i]); }
    assert d[..4] == d;
  }

  /**
   * Eight digits `YYYYMMDD` become `YYYY-MM-DD`, with day `00` read as `01`,
   * and parse exactly when that is a real day.
   */
  lemma ParseDateEight(d: string)
    requires |d| == 8 && AllDigits(d)
    ensures var iso := d[..4] + "-" + d[4..6] + "-" + (if d[6..] == "00" then "01" else d[6..]);
      ParseDate(d) == if IsIsoDate(iso) then Ok(iso) else Err(ValueError)
  {
    assert ',' !in d by { assert forall i :: 0 <= i < |d| ==> IsDigit(d[i]); }
    assert !IsoPrefix(d);
    assert d[..8] == d && d[8..] == [];
    var c := Dashed(d);
    var head := d[..4] + "-" + d[4..6] + "-";
    assert c == head + d[6..];
    assert |c| == 10 && c[..8] == head && c[8..] == d[6..];
    assert EndsWith(c, "00") <==> d[6..] == "00";
  }

  /** The dates of the stripped parts of a comma-separated date. */
  lemma ParseDatesOfParts(input: string) returns (r: Result<seq<string>, PyError>)
    requires ',' in input
    ensures forall p :: p in StripEach(Split(input, ",")) ==> ',' !in p
    ensures r == ParseDates(StripEach(Split(input, ",")))
    ensures ParseDate(input) == if r.Ok? then Ok(MinStr(r.value)) else Err(r.error)
  {
    SplitCharPieces(input, ',');
    StripEachKeeps(Split(input, ","), ',');
    r := ParseDates(StripEach(Split(input, ",")));
  }

  /**
   * A comma-separated date is the earliest of its stripped parts' dates, and
   * parses exactly when every part does.
   */
  lemma ParseDateEarliest(input: string)
    requires ',' in input
    ensures var parts := StripEach(Split(input, ","));
      && (ParseDate(input).Ok? <==> forall i :: 0 <= i < |parts| ==> ParseDate(parts[i]).Ok?)
      && (ParseDate(input).Ok? ==>
            && (exists i :: 0 <= i < |parts| && ParseDate(parts[i]) == ParseDate(input))
            && forall i :: 0 <= i < |parts| ==> StrLe(ParseDate(input).value, ParseDate(parts[i]).value))
  {
    var parts := StripEach(Split(input, ","));
    var r := ParseDatesOfParts(input);
    EarliestOfParts(parts, r, ParseDate(input));
  }

  lemma EarliestOfParts(parts: seq<string>, r: Result<seq<string>, PyError>, d: Result<string, PyError>)
    requires |parts| > 0 && forall p :: p in parts ==> ',' !in p
    requires r == ParseDates(parts)
    requires d == if r.Ok? then Ok(MinStr(r.value)) else Err(r.error)
    ensures d.Ok? <==> forall i :: 0 <= i < |parts| ==> ParseDate(parts[i]).Ok?
    ensures d.Ok? ==>
      && (exists i :: 0 <= i < |parts| && ParseDate(parts[i]) == d)
      && forall i :: 0 <= i < |parts| ==> StrLe(d.value, ParseDate(parts[i]).value)
  {
    if r.Ok? {
      var dates := r.value;
      var j := MinAt(dates);
      assert ParseDate(parts[j]) == d;
    }
  }

  /** Where the least of some strings sits, and that it is below each of them. */
  lemma MinAt(xs: seq<string>) returns (j: nat)
    requires |xs| > 0
    ensures j < |xs| && xs[j] == MinStr(xs)
    ensures forall i :: 0 <= i < |xs| ==> StrLe(MinStr(xs), xs[i])
  {
    var m := MinStr(xs);
    j :| 0 <= j < |xs| && xs[j] == m;
    forall i | 0 <= i < |xs| ensures StrLe(m, xs[i]) {
      assert xs[i] in xs;
    }
  }

  // ---------------------------------------------------------------------------
  // rendering

  /** The `html` of each `(order, html)` part. */
  function Htmls(parts: seq<(int, string)>): (r: seq<string>)
    ensures |r| == |parts| && forall i :: 0 <= i < |parts| ==> r[i] == parts[i].1
  {
    seq(|parts|, i requires 0 <= i < |parts| => parts[i].1)
  }

  /** `' '.join([x[1] for x in sorted(description_parts)])`. */
  function DescriptionText(parts: seq<(int, string)>): string
  {
    IntStrOrder();
    Join(Htmls(Sort(parts, IntStrLe)), " ")
  }

  /**
   * The description is the html of the parts arranged by `(order, html)`: any
   * such arrangement of the parts gives it, whatever order they were added in.
   */
  lemma DescriptionIsSorted(parts: seq<(int, string)>, arranged: seq<(int, string)>)
    requires multiset(arranged) == multiset(parts) && Sorted(arranged, IntStrLe)
    ensures DescriptionText(parts) == Join(Htmls(arranged), " ")
  {
    IntStrOrder();
    SortedUnique(Sort(parts, IntStrLe), arranged, IntStrLe);
  }

  /** Adding the same parts in another order gives the same description. */
  lemma DescriptionIgnoresAddOrder(a: seq<(int, string)>, b: seq<(int, string)>)
    requires multiset(a) == multiset(b)
    ensures DescriptionText(a) == DescriptionText(b)
  {
    IntStrOrder();
    SortIgnoresOrder(a, b, IntStrLe);
  }

  /** `'%s:"%s"' % (vocab, value)`. */
  function KeywordItem(kw: (string, string)): string {
    kw.0 + ":\"" + kw.1 + "\""
  }

  /** `', '.join(['%s:"%s"' % (x[0], x[1]) for x in keywords])`, in insertion order. */
  function KeywordsText(kws: seq<(string, string)>): string
  {
    Join(seq(|kws|, i requires 0 <= i < |kws| => KeywordItem(kws[i])), ", ")
  }

  /** The fields `Finalize` renders from the collected parts and keywords. */
  function Rendered(output: map<string, string>, parts: seq<(int, string)>, kws: seq<(string, string)>): (r: map<string, string>)
    ensures forall f :: f != "Description" && f != "Keywords" ==> (f in r <==> f in output) && (f in r ==> r[f] == output[f])
    ensures parts != [] ==> "Description" in r && r["Description"] == DescriptionText(parts)
    ensures kws != [] ==> "Keywords" in r && r["Keywords"] == KeywordsText(kws)
  {
    var withDescription := if parts != [] then output["Description" := DescriptionText(parts)] else output;
    if kws != [] then withDescription["Keywords" := KeywordsText(kws)] else withDescription
  }

  /** Rendering again from the same parts and keywords changes nothing. */
  lemma RenderedIdempotent(output: map<string, string>, parts: seq<(int, string)>, kws: seq<(string, string)>)
    ensures Rendered(Rendered(output, parts, kws), parts, kws) == Rendered(output, parts, kws)
  {
    var r := Rendered(output, parts, kws);
    if parts != [] {
      UpdateSame(r, "Description", DescriptionText(parts));
    }
    if kws != [] {
      UpdateSame(r, "Keywords", KeywordsText(kws));
    }
  }

  /** Setting a key to the value it has changes nothing. */
  lemma UpdateSame<K, V>(m: map<K, V>, k: K, v: V)
    requires k in m && m[k] == v
    ensures m[k := v] == m
  {
  }

  // ---------------------------------------------------------------------------
  // DataverseStudyBuilder

  /** `'<p>%s:%s%s </p>' % (caption, ' ', value)`. */
  function EntryHtml(caption: string, value: string): string {
    "<p>" + caption + ": " + value + " </p>"
  }

  /** `[x.lower().strip() for x in ignore_values]`. */
  function Normalised(values: seq<string>): (r: seq<string>)
    ensures |r| == |values| && forall i :: 0 <= i < |values| ==> r[i] == Strip(Lower(values[i]))
  {
    seq(|values|, i requires 0 <= i < |values| => Strip(Lower(values[i])))
  }

  class Builder {
    var descriptionParts: seq<(int, string)>
    var keywords: seq<(string, string)>
    var usedInputColumns: set<string>
    var output: map<string, string>
    var dirty: bool
    const ignoreValues: seq<string>

    constructor(ignore: seq<string>)
      ensures descriptionParts == [] && keywords == [] && usedInputColumns == {} && output == map[] && !dirty
      ensures ignoreValues == Normalised(ignore)
    {
      descriptionParts := [];
      keywords := [];
      usedInputColumns := {};
      output := map[];
      ignoreValues := Normalised(ignore);
      dirty := false;
    }

    /** `Has(input_dict, key)`: false for a missing key, a blank value and a value to ignore. */
    predicate Has(input: Row, key: string) {
      HasValue(ignoreValues, input, key)
    }

    /** Records that an input column contributed to the output. */
    method UseColumn(key: string)
      modifies this
      ensures usedInputColumns == old(usedInputColumns) + {key}
      ensures descriptionParts == old(descriptionParts) && keywords == old(keywords)
      ensures output == old(output) && dirty == old(dirty)
    {
      usedInputColumns := usedInputColumns + {key};
    }

    /** `Set(output_field, output_value)`. */
    method Set(field: string, value: string)
      modifies this
      ensures output == old(output)[field := value]
      ensures descriptionParts == old(descriptionParts) && keywords == old(keywords)
      ensures usedInputColumns == old(usedInputColumns) && dirty == old(dirty)
    {
      output := output[field := value];
    }

    /** `SingleAssign(input_dict, input_key, output_field)`: the stripped value, only when `Has`. */
    method SingleAssign(input: Row, key: string, field: string)
      modifies this
      ensures Has(input, key) ==>
        output == old(output)[field := Strip(input[key])] && usedInputColumns == old(usedInputColumns) + {key}
      ensures !Has(input, key) ==> output == old(output) && usedInputColumns == old(usedInputColumns)
      ensures descriptionParts == old(descriptionParts) && keywords == old(keywords) && dirty == old(dirty)
    {
      if Has(input, key) {
        UseColumn(key);
        Set(field, Strip(input[key]));
      }
    }

    /** `AddDescriptionHtml(html_data, order)`. */
    method AddDescriptionHtml(html: string, order: int)
      modifies this
      ensures descriptionParts == old(descriptionParts) + [(order, html)] && dirty
      ensures keywords == old(keywords) && output == old(output) && usedInputColumns == old(usedInputColumns)
    {
      descriptionParts := descriptionParts + [(order, html)];
      dirty := true;
    }

    /**
     * `AddDescriptionEntry(input_dict, input_key, caption, order, value_for_blank)`:
     * `<p>caption: value </p>` for a value `Has` accepts, else the placeholder
     * when one is given, else nothing.
     */
    method AddDescriptionEntry(input: Row, key: string, caption: string, order: int, valueForBlank: Option<string>)
      modifies this
      ensures Has(input, key) ==>
        && descriptionParts == old(descriptionParts) + [(order, EntryHtml(caption, Strip(input[key])))]
        && usedInputColumns == old(usedInputColumns) + {key} && dirty
      ensures !Has(input, key) && valueForBlank.Some? ==>
        && descriptionParts == old(descriptionParts) + [(order, EntryHtml(caption, valueForBlank.value))]
        && usedInputColumns == old(usedInputColumns) && dirty
      ensures !Has(input, key) && valueForBlank.None? ==>
        descriptionParts == old(descriptionParts) && usedInputColumns == old(usedInputColumns) && dirty == old(dirty)
      ensures keywords == old(keywords) && output == old(output)
    {
      var html: Option<string> := None;
      if Has(input, key) {
        UseColumn(key);
        html := Some(EntryHtml(caption, Strip(input[key])));
      } else if valueForBlank.Some? {
        html := Some(EntryHtml(caption, valueForBlank.value));
      }
      if html.Some? {
        AddDescriptionHtml(html.value, order);
      }
    }

    /** `AddKeywordEntry(input_dict, input_key, keyword)`: the stripped value, only when `Has`. */
    method AddKeywordEntry(input: Row, key: string, keyword: string)
      modifies this
      ensures Has(input, key) ==>
        keywords == old(keywords) + [(keyword, Strip(input[key]))] && usedInputColumns == old(usedInputColumns) + {key} && dirty
      ensures !Has(input, key) ==>
        keywords == old(keywords) && usedInputColumns == old(usedInputColumns) && dirty == old(dirty)
      ensures descriptionParts == old(descriptionParts) && output == old(output)
    {
      if Has(input, key) {
        UseColumn(key);
        AddKeyword(keyword, Strip(input[key]));
      }
    }

    /** `AddKeyword(keyword, value)`. */
    method AddKeyword(keyword: string, value: string)
      modifies this
      ensures keywords == old(keywords) + [(keyword, value)] && dirty
      ensures descriptionParts == old(descriptionParts) && output == old(output) && usedInputColumns == old(usedInputColumns)
    {
      keywords := keywords + [(keyword, value)];
      dirty := true;
    }

    /**
     * `Finalize()`: renders `Description` and `Keywords` when something was added
     * since the last call, and clears `dirty`; with nothing added it changes nothing.
     */
    method Finalize()
      modifies this
      ensures !dirty
      ensures output == if old(dirty) then Rendered(old(output), descriptionParts, keywords) else old(output)
      ensures descriptionParts == old(descriptionParts) && keywords == old(keywords)
      ensures usedInputColumns == old(usedInputColumns)
    {
      if dirty {
        if descriptionParts != [] {
          output := output["Description" := DescriptionText(descriptionParts)];
        }
        if keywords != [] {
          output := output["Keywords" := KeywordsText(keywords)];
        }
        dirty := false;
      }
    }

    /** `OutputAsDict()`: the output fields after `Finalize`. */
    method OutputAsDict() returns (r: map<string, string>)
      modifies this
      ensures r == output && !dirty
      ensures output == if old(dirty) then Rendered(old(output), descriptionParts, keywords) else old(output)
      ensures descriptionParts == old(descriptionParts) && keywords == old(keywords)
      ensures usedInputColumns == old(usedInputColumns)
    {
      Finalize();
      r := output;
    }
  }
}
