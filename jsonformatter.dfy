/**
 * `jsonformatter.FormatToJson`: the Dataverse native-API field dicts built from
 * one input row, and `setrow`, which writes them, and the version and status
 * fields, into a study's JSON document.
 */
module JsonFormatter {
  import opened Results
  import opened Text
  import opened Ordering
  import opened Json
  import opened JsonUtils
  import opened KeyPaths
  import opened TsvFile
  import opened Keywords

  /** `CONTROLLED_VOCABULARIES`. */
  const ControlledVocabularies: set<string> := {"country", "subject"}

  /** A `value` handed to `_field`: a string, or a list of strings. */
  datatype FieldValue = Str(s: string) | StrList(items: seq<string>)

  /** What `value[i]` for `i in xrange(len(value))` walks: the characters of a string, the items of a list. */
  function Items(value: FieldValue): (r: seq<string>)
    ensures value.StrList? ==> r == value.items
    ensures value.Str? ==> |r| == |value.s|
  {
    match value
    case Str(s) => seq(|s|, i requires 0 <= i < |s| => [s[i]])
    case StrList(items) => items
  }

  /** A string or a list of strings as JSON. */
  function ValueJson(value: FieldValue): JValue {
    match value
    case Str(s) => JStr(s)
    case StrList(items) => JList(seq(|items|, i requires 0 <= i < |items| => JStr(items[i])))
  }

  /** The dict `_field` returns. */
  function FieldObject(name: string, multiple: bool, value: JValue, typeClass: string): JValue {
    JObj(map["typeName" := JStr(name), "multiple" := JBool(multiple), "value" := value, "typeClass" := JStr(typeClass)])
  }

  /** The `typeClass` of a field that is not compound. */
  function ScalarClass(name: string): string {
    if name in ControlledVocabularies then "controlledVocabulary" else "primitive"
  }

  /** Whether `_field` builds a compound: as forced, else when the value is a list. */
  predicate IsCompound(value: FieldValue, force: Option<bool>) {
    if force.Some? then force.value else value.StrList?
  }

  /** `_field(name, s)` for a string `s`. */
  function Leaf(name: string, s: string): JValue {
    FieldObject(name, false, JStr(s), ScalarClass(name))
  }

  /**
   * `dict([(childnames[i], _field(childnames[i], value[i])) for i in xrange(n)])`,
   * built from the front, so that a repeated name keeps its last value.
   */
  function ChildMap(names: seq<string>, items: seq<string>, n: nat): map<string, JValue>
    requires n <= |names| && n <= |items|
  {
    if n == 0 then map[] else ChildMap(names, items, n - 1)[names[n - 1] := Leaf(names[n - 1], items[n - 1])]
  }

  /**
   * `_field(name, value, childnames, unroll_as_list, type_compound_force)`.
   * A compound with fewer child names than values is the `IndexError` of
   * `childnames[i]`.
   */
  function Field(name: string, value: FieldValue, childnames: seq<string>, unroll: bool, force: Option<bool>): (r: Result<JValue, PyError>)
    ensures r.Err? <==> IsCompound(value, force) && |childnames| < |Items(value)|
    ensures r.Err? ==> r.error == IndexError
    ensures r.Ok? ==> r.value.JObj? && r.value.fields.Keys == {"typeName", "multiple", "value", "typeClass"}
    ensures r.Ok? ==> r.value.fields["typeName"] == JStr(name) && r.value.fields["multiple"] == JBool(value.StrList?)
    ensures r.Ok? ==>
      r.value.fields["typeClass"] == JStr(if IsCompound(value, force) then "compound" else ScalarClass(name))
  {
    var multiple := value.StrList?;
    if IsCompound(value, force) then
      var items := Items(value);
      if |childnames| < |items| then Err(IndexError)
      else if unroll then
        Ok(FieldObject(name, multiple, JList(seq(|items|, i requires 0 <= i < |items| =>
          JObj(map[childnames[i] := Leaf(childnames[i], items[i])]))), "compound"))
      else
        Ok(FieldObject(name, multiple, JList([JObj(ChildMap(childnames, items, |items|))]), "compound"))
    else
      Ok(FieldObject(name, multiple, ValueJson(value), ScalarClass(name)))
  }

  /** The children of a compound are the fields `_field` builds for one string. */
  lemma FieldOfString(name: string, s: string, childnames: seq<string>, unroll: bool)
    ensures Field(name, Str(s), childnames, unroll, None) == Ok(Leaf(name, s))
  {
  }

  /** A field that is not compound carries the value itself. */
  lemma FieldScalarValue(name: string, value: FieldValue, childnames: seq<string>, unroll: bool, force: Option<bool>)
    requires !IsCompound(value, force)
    ensures Field(name, value, childnames, unroll, force).value.fields["value"] == ValueJson(value)
  {
  }

  /** The child dict of a compound names exactly the child names used. */
  lemma {:induction false} ChildMapKeys(names: seq<string>, items: seq<string>, n: nat)
    requires n <= |names| && n <= |items|
    ensures forall k :: k in ChildMap(names, items, n) <==> k in names[..n]
  {
    if n > 0 {
      ChildMapKeys(names, items, n - 1);
      assert names[..n] == names[..n - 1] + [names[n - 1]];
    }
  }

  /** Each child name holds the field of the last value given under it. */
  lemma {:induction false} ChildMapValues(names: seq<string>, items: seq<string>, n: nat)
    requires n <= |names| && n <= |items|
    ensures forall i :: 0 <= i < n && (forall j :: i < j < n ==> names[j] != names[i]) ==>
      names[i] in ChildMap(names, items, n) && ChildMap(names, items, n)[names[i]] == Leaf(names[i], items[i])
  {
    if n > 0 {
      ChildMapValues(names, items, n - 1);
      var m := ChildMap(names, items, n);
      forall i | 0 <= i < n && (forall j :: i < j < n ==> names[j] != names[i])
        ensures names[i] in m && m[names[i]] == Leaf(names[i], items[i])
      {
        if i < n - 1 {
          assert names[n - 1] != names[i];
        }
      }
    }
  }

  /** A compound without unrolling: a one-element list holding the dict of child fields. */
  lemma FieldCompoundValue(name: string, value: FieldValue, childnames: seq<string>, force: Option<bool>)
    requires IsCompound(value, force) && |Items(value)| <= |childnames|
    ensures var items := Items(value); var v := Field(name, value, childnames, false, force).value.fields["value"];
      && v.JList? && |v.items| == 1 && v.items[0].JObj?
      && (forall k :: k in v.items[0].fields <==> k in childnames[..|items|])
      && forall i :: 0 <= i < |items| && (forall j :: i < j < |items| ==> childnames[j] != childnames[i]) ==>
           v.items[0].fields[childnames[i]] == Leaf(childnames[i], items[i])
  {
    ChildMapKeys(childnames, Items(value), |Items(value)|);
    ChildMapValues(childnames, Items(value), |Items(value)|);
  }

  /** A compound unrolled as a list: one single-key dict per value, in order. */
  lemma FieldUnrolledValue(name: string, value: FieldValue, childnames: seq<string>, force: Option<bool>)
    requires IsCompound(value, force) && |Items(value)| <= |childnames|
    ensures var items := Items(value); var v := Field(name, value, childnames, true, force).value.fields["value"];
      && v.JList? && |v.items| == |items|
      && forall i :: 0 <= i < |items| ==> v.items[i] == JObj(map[childnames[i] := Leaf(childnames[i], items[i])])
  {
  }

  // ---------------------------------------------------------------------------
  // _keyword_field and _citation_field

  /** Both parts of a keyword have a character that is not whitespace. */
  predicate Nonblank(kw: (string, string)) {
    Strip(kw.0) != "" && Strip(kw.1) != ""
  }

  /** The matches of the keyword pattern that `_keyword_field` keeps. */
  function KeywordEntries(s: string): seq<(string, string)> {
    Filter(FindAll(s), Nonblank)
  }

  /** The dict for one keyword. */
  function KeywordObject(kw: (string, string)): JValue {
    JObj(map["keywordVocabulary" := Leaf("keywordVocabulary", kw.0), "keywordValue" := Leaf("keywordValue", kw.1)])
  }

  /**
   * `_keyword_field(keyword_string)`: with no non-blank keyword it returns the
   * variable `output` before any assignment, an `UnboundLocalError` (a
   * `NameError`); otherwise the `keyword` compound field with one dict per kept
   * keyword, sorted as tuples.
   */
  function KeywordField(s: string): (r: Result<JValue, PyError>)
    ensures r.Err? <==> KeywordEntries(s) == []
    ensures r.Err? ==> r.error == NameError
    ensures r.Ok? ==> r.value.JObj? && r.value.fields.Keys == {"typeName", "multiple", "value", "typeClass"}
    ensures r.Ok? ==>
      r.value.fields["typeName"] == JStr("keyword") && r.value.fields["multiple"] == JBool(true)
      && r.value.fields["typeClass"] == JStr("compound")
    ensures r.Ok? ==> r.value.fields["value"].JList? && |r.value.fields["value"].items| == |KeywordEntries(s)|
  {
    var entries := KeywordEntries(s);
    if entries == [] then Err(NameError)
    else
      var sorted := SortKeywords(entries);
      var base := Field("keyword", StrList([]), [], false, None).value;
      Ok(JObj(base.fields["value" := JList(seq(|sorted|, i requires 0 <= i < |sorted| => KeywordObject(sorted[i])))]))
  }

  /** The keyword read back from one keyword dict. */
  function ReadKeyword(o: JValue): (string, string) {
    if o.JObj? && "keywordVocabulary" in o.fields && "keywordValue" in o.fields
       && o.fields["keywordVocabulary"].JObj? && "value" in o.fields["keywordVocabulary"].fields
       && o.fields["keywordValue"].JObj? && "value" in o.fields["keywordValue"].fields
       && o.fields["keywordVocabulary"].fields["value"].JStr? && o.fields["keywordValue"].fields["value"].JStr?
    then (o.fields["keywordVocabulary"].fields["value"].s, o.fields["keywordValue"].fields["value"].s)
    else ("", "")
  }

  function ReadKeywords(items: seq<JValue>): (r: seq<(string, string)>)
    ensures |r| == |items|
  {
    seq(|items|, i requires 0 <= i < |items| => ReadKeyword(items[i]))
  }

  lemma ReadKeywordObject(kw: (string, string))
    ensures ReadKeyword(KeywordObject(kw)) == kw
  {
  }

  /**
   * The keywords of the field are the kept matches, rearranged into tuple
   * order: sorted, and the same multiset.
   */
  lemma KeywordFieldMeaning(s: string)
    requires KeywordField(s).Ok?
    ensures var kws := ReadKeywords(KeywordField(s).value.fields["value"].items);
      Sorted(kws, StrStrLe) && multiset(kws) == multiset(KeywordEntries(s))
  {
    var sorted := SortKeywords(KeywordEntries(s));
    var items := KeywordField(s).value.fields["value"].items;
    forall i | 0 <= i < |items| ensures ReadKeyword(items[i]) == sorted[i] {
      ReadKeywordObject(sorted[i]);
    }
    assert ReadKeywords(items) == sorted;
  }

  lemma {:induction false} FilterKeepsAll<T(!new)>(xs: seq<T>, p: T -> bool)
    requires forall i :: 0 <= i < |xs| ==> p(xs[i])
    ensures Filter(xs, p) == xs
    decreases |xs|
  {
    if xs != [] {
      assert p(xs[0]);
      FilterKeepsAll(xs[1..], p);
      assert Filter(xs, p) == [xs[0]] + Filter(xs[1..], p);
      assert xs == [xs[0]] + xs[1..];
    }
  }

  /**
   * The `Keywords` text the study builder renders, read back by `_keyword_field`,
   * gives the builder's keywords in tuple order.
   */
  lemma KeywordFieldOfRendered(kws: seq<(string, string)>)
    requires kws != []
    requires forall i :: 0 <= i < |kws| ==> Readable(kws[i]) && Nonblank(kws[i])
    ensures KeywordField(StudyBuilder.KeywordsText(kws)).Ok?
    ensures ReadKeywords(KeywordField(StudyBuilder.KeywordsText(kws)).value.fields["value"].items)
      == SortKeywords(kws)
  {
    StrStrOrder();
    var s := StudyBuilder.KeywordsText(kws);
    FindAllKeywordsText(kws);
    FilterKeepsAll(kws, Nonblank);
    assert KeywordEntries(s) == kws;
    KeywordFieldMeaning(s);
    var read := ReadKeywords(KeywordField(s).value.fields["value"].items);
    SortedUnique(read, SortKeywords(kws), StrStrLe);
  }

  /** `_citation_field(citation, url)` is the `publication` compound `_field` builds from the pair. */
  function CitationField(citation: string, url: string): (r: JValue)
    ensures Field("publication", StrList([citation, url]), ["publicationCitation", "publicationURL"], false, None)
      == Ok(r)
  {
    var r := JObj(map[
      "typeName" := JStr("publication"),
      "multiple" := JBool(true),
      "value" := JList([JObj(map[
        "publicationCitation" := Leaf("publicationCitation", citation),
        "publicationURL" := Leaf("publicationURL", url)])]),
      "typeClass" := JStr("compound")]);
    var names := ["publicationCitation", "publicationURL"];
    assert ChildMap(names, [citation, url], 1) == map["publicationCitation" := Leaf("publicationCitation", citation)];
    assert ChildMap(names, [citation, url], 2) ==
      map["publicationCitation" := Leaf("publicationCitation", citation), "publicationURL" := Leaf("publicationURL", url)];
    r
  }

  // ---------------------------------------------------------------------------
  // setrow

  /** `row[key]`: a missing column is a `KeyError`. */
  function Cell(row: Row, key: string): (r: Result<string, PyError>)
    ensures r == if key in row then Ok(row[key]) else Err(KeyError)
  {
    if key in row then Ok(row[key]) else Err(KeyError)
  }

  /** `row.get(key)` is true: present and not the empty string. */
  predicate Given(row: Row, key: string) {
    key in row && row[key] != ""
  }

  /** A field as a one-element list, to be appended. */
  function One(f: Result<JValue, PyError>): (r: Result<seq<JValue>, PyError>)
    ensures f.Ok? <==> r.Ok?
  {
    var x :- f;
    Ok([x])
  }

  /** The fields `setrow` appends first: title, author, contact, description and subject. */
  function CitationHead(row: Row): Result<seq<JValue>, PyError>
  {
    var title :- Cell(row, "Title");
    var fTitle :- Field("title", Str(title), [], false, None);
    var author :- Cell(row, "Author");
    var fAuthor :- Field("author", StrList([author]), ["authorName"], false, None);
    var contact :- Cell(row, "Dataverse Contact");
    var fContact :- Field("datasetContact", StrList([contact]), ["datasetContactEmail"], false, None);
    var description :- Cell(row, "Description");
    var fDescription :- Field("dsDescription", StrList([description]), ["dsDescriptionValue"], false, None);
    var fSubject :- if Given(row, "Dataverse Subject")
      then One(Field("subject", StrList([row["Dataverse Subject"]]), [], false, Some(false)))
      else Ok([]);
    Ok([fTitle, fAuthor, fContact, fDescription] + fSubject)
  }

  /** The fields `setrow` appends next: keywords, publication and production date. */
  function CitationMiddle(row: Row): Result<seq<JValue>, PyError>
  {
    var keywords :- Cell(row, "Keywords");
    var fKeywords :- KeywordField(keywords);
    var fPublication :- if Given(row, "Publication Citation") then
        var url :- Cell(row, "Publication URL");
        One(Field("publication", StrList([row["Publication Citation"], url]), ["publicationCitation", "publicationURL"], false, None))
      else Ok([]);
    var fProduction :- if Given(row, "Production Date")
      then One(Field("productionDate", Str(row["Production Date"]), [], false, None))
      else Ok([]);
    Ok([fKeywords] + fPublication + fProduction)
  }

  /** The fields `setrow` appends last: distributor, date of deposit and time period. */
  function CitationTail(row: Row, today: string): Result<seq<JValue>, PyError>
  {
    var distributor :- Cell(row, "Distributor");
    var fDistributor :- Field("distributor", StrList([distributor, "Harvard Dataverse Network"]),
      ["distributorName", "distributorName"], true, None);
    var fDeposit :- Field("dateOfDeposit", Str(today), [], false, None);
    var fPeriod :- if Given(row, "Time Period Covered Start") && Given(row, "Time Period Covered End")
      then One(Field("timePeriodCovered", StrList([row["Time Period Covered Start"], row["Time Period Covered End"]]),
        ["timePeriodCoveredStart", "timePeriodCoveredEnd"], false, None))
      else Ok([]);
    Ok([fDistributor, fDeposit] + fPeriod)
  }

  /**
   * The citation fields of `setrow`, in the order it appends them; `today` is
   * `datetime.utcnow().strftime('%Y-%m-%d')`.
   */
  function CitationFields(row: Row, today: string): Result<seq<JValue>, PyError>
  {
    var head :- CitationHead(row);
    var middle :- CitationMiddle(row);
    var tail :- CitationTail(row, today);
    Ok(head + middle + tail)
  }

  /** The one `geographicCoverage` field of the geospatial block; `city` only with a coverage. */
  function GeoField(row: Row): JValue
    requires Given(row, "Country/Nation")
  {
    if Given(row, "Geographic Coverage") then
      Field("geographicCoverage", StrList([row["Country/Nation"], row["Geographic Coverage"]]), ["country", "city"], false, None).value
    else
      Field("geographicCoverage", StrList([row["Country/Nation"]]), ["country"], false, None).value
  }

  /** Fields whose `typeName`s are `names`, in order. */
  predicate Named(fields: seq<JValue>, names: seq<string>) {
    |fields| == |names| && forall i :: 0 <= i < |fields| ==> HasName(fields[i], names[i])
  }

  /** A field dict whose `typeName` is `name`. */
  predicate HasName(field: JValue, name: string) {
    field.JObj? && "typeName" in field.fields && field.fields["typeName"] == JStr(name)
  }

  lemma NamedConcat(a: seq<JValue>, an: seq<string>, b: seq<JValue>, bn: seq<string>)
    requires Named(a, an) && Named(b, bn)
    ensures Named(a + b, an + bn)
  {
  }

  /** What `row.get(key)` switches on: the one name when the column is given. */
  function IfGiven(given: bool, name: string): seq<string> {
    if given then [name] else []
  }

  /** The columns `setrow` reads with `row[...]` before the keywords. */
  predicate HeadColumns(row: Row) {
    "Title" in row && "Author" in row && "Dataverse Contact" in row && "Description" in row
  }

  /** Every column `setrow` reads with `row[...]`, and keywords to keep. */
  predicate CitationColumns(row: Row) {
    && HeadColumns(row) && "Keywords" in row && KeywordEntries(row["Keywords"]) != []
    && (Given(row, "Publication Citation") ==> "Publication URL" in row)
    && "Distributor" in row
  }

  /** The `typeName`s of the fields `CitationHead` builds. */
  function HeadNames(row: Row): seq<string> {
    ["title", "author", "datasetContact", "dsDescription"] + IfGiven(Given(row, "Dataverse Subject"), "subject")
  }

  /** The `typeName`s of the fields `CitationMiddle` builds. */
  function MiddleNames(row: Row): seq<string> {
    ["keyword"] + IfGiven(Given(row, "Publication Citation"), "publication") + IfGiven(Given(row, "Production Date"), "productionDate")
  }

  /** The `typeName`s of the fields `CitationTail` builds. */
  function TailNames(row: Row): seq<string> {
    ["distributor", "dateOfDeposit"]
      + IfGiven(Given(row, "Time Period Covered Start") && Given(row, "Time Period Covered End"), "timePeriodCovered")
  }

  /** The `typeName`s of the citation fields, in the order `setrow` appends them. */
  function CitationNames(row: Row): seq<string> {
    HeadNames(row) + MiddleNames(row) + TailNames(row)
  }

  /** A built field is named by its first argument. */
  lemma FieldNamed(name: string, value: FieldValue, childnames: seq<string>, unroll: bool, force: Option<bool>)
    requires Field(name, value, childnames, unroll, force).Ok?
    ensures HasName(Field(name, value, childnames, unroll, force).value, name)
  {
  }

  /** `row.get(key)` and an optional field. */
  lemma OptionalNamed(given: bool, f: Result<seq<JValue>, PyError>, name: string)
    requires f.Ok? && (given ==> |f.value| == 1 && HasName(f.value[0], name)) && (!given ==> f.value == [])
    ensures Named(f.value, IfGiven(given, name))
  {
  }

  lemma CitationHeadOutcome(row: Row)
    ensures CitationHead(row).Ok? <==> HeadColumns(row)
    ensures CitationHead(row).Err? ==> CitationHead(row).error == KeyError
  {
  }

  /** `CitationHead` built: its list, field by field. */
  lemma CitationHeadValue(row: Row)
    requires CitationHead(row).Ok?
    ensures CitationHead(row).value == [Field("title", Str(row["Title"]), [], false, None).value,
      Field("author", StrList([row["Author"]]), ["authorName"], false, None).value,
      Field("datasetContact", StrList([row["Dataverse Contact"]]), ["datasetContactEmail"], false, None).value,
      Field("dsDescription", StrList([row["Description"]]), ["dsDescriptionValue"], false, None).value] +
      (if Given(row, "Dataverse Subject")
      then One(Field("subject", StrList([row["Dataverse Subject"]]), [], false, Some(false)))
      else Ok([])).value
  {
  }

  lemma NamedFour(a: JValue, b: JValue, c: JValue, d: JValue, rest: seq<JValue>,
                  na: string, nb: string, nc: string, nd: string, restNames: seq<string>)
    requires HasName(a, na) && HasName(b, nb) && HasName(c, nc) && HasName(d, nd) && Named(rest, restNames)
    ensures Named([a, b, c, d] + rest, [na, nb, nc, nd] + restNames)
  {
    var xs := [a, b, c, d] + rest;
    var ns := [na, nb, nc, nd] + restNames;
    forall i | 0 <= i < |xs| ensures HasName(xs[i], ns[i]) {
      if i >= 4 {
        assert xs[i] == rest[i - 4] && ns[i] == restNames[i - 4];
      }
    }
  }

  lemma NamedOne(a: JValue, na: string, rest: seq<JValue>, restNames: seq<string>)
    requires HasName(a, na) && Named(rest, restNames)
    ensures Named([a] + rest, [na] + restNames)
  {
    var xs := [a] + rest;
    var ns := [na] + restNames;
    forall i | 0 <= i < |xs| ensures HasName(xs[i], ns[i]) {
      if i >= 1 {
        assert xs[i] == rest[i - 1] && ns[i] == restNames[i - 1];
      }
    }
  }

  lemma CitationHeadNamed(row: Row)
    requires CitationHead(row).Ok?
    ensures Named(CitationHead(row).value, HeadNames(row))
    ensures CitationHead(row).value[0] == Leaf("title", row["Title"])
  {
    CitationHeadValue(row);
    var given := Given(row, "Dataverse Subject");
    var fSubject := if given
      then One(Field("subject", StrList([row["Dataverse Subject"]]), [], false, Some(false)))
      else Ok([]);
    if given {
      FieldNamed("subject", StrList([row["Dataverse Subject"]]), [], false, Some(false));
    }
    OptionalNamed(given, fSubject, "subject");
    FieldNamed("title", Str(row["Title"]), [], false, None);
    FieldNamed("author", StrList([row["Author"]]), ["authorName"], false, None);
    FieldNamed("datasetContact", StrList([row["Dataverse Contact"]]), ["datasetContactEmail"], false, None);
    FieldNamed("dsDescription", StrList([row["Description"]]), ["dsDescriptionValue"], false, None);
    NamedFour(Field("title", Str(row["Title"]), [], false, None).value,
      Field("author", StrList([row["Author"]]), ["authorName"], false, None).value,
      Field("datasetContact", StrList([row["Dataverse Contact"]]), ["datasetContactEmail"], false, None).value,
      Field("dsDescription", StrList([row["Description"]]), ["dsDescriptionValue"], false, None).value,
      fSubject.value, "title", "author", "datasetContact", "dsDescription", IfGiven(given, "subject"));
    FieldOfString("title", row["Title"], [], false);
  }

  lemma CitationMiddleOutcome(row: Row)
    ensures CitationMiddle(row).Ok? <==>
      "Keywords" in row && KeywordEntries(row["Keywords"]) != [] && (Given(row, "Publication Citation") ==> "Publication URL" in row)
    ensures CitationMiddle(row).Err? ==>
      CitationMiddle(row).error == if "Keywords" in row && KeywordEntries(row["Keywords"]) == [] then NameError else KeyError
  {
  }

  /** `CitationMiddle` built: its list, field by field. */
  lemma CitationMiddleValue(row: Row)
    requires CitationMiddle(row).Ok?
    ensures CitationMiddle(row).value == [KeywordField(row["Keywords"]).value] +
      ((if Given(row, "Publication Citation") then
        One(Field("publication", StrList([row["Publication Citation"], row["Publication URL"]]),
          ["publicationCitation", "publicationURL"], false, None))
      else Ok([])).value +
      (if Given(row, "Production Date")
      then One(Field("productionDate", Str(row["Production Date"]), [], false, None))
      else Ok([])).value)
  {
  }

  lemma Assoc<T>(a: seq<T>, b: seq<T>, c: seq<T>)
    ensures a + b + c == a + (b + c)
  {
  }

  lemma CitationMiddleNamed(row: Row)
    requires CitationMiddle(row).Ok?
    ensures Named(CitationMiddle(row).value, MiddleNames(row))
  {
    CitationMiddleValue(row);
    var pub := Given(row, "Publication Citation");
    var fPublication := if pub then
        One(Field("publication", StrList([row["Publication Citation"], row["Publication URL"]]),
          ["publicationCitation", "publicationURL"], false, None))
      else Ok([]);
    var prod := Given(row, "Production Date");
    var fProduction := if prod
      then One(Field("productionDate", Str(row["Production Date"]), [], false, None))
      else Ok([]);
    if pub {
      FieldNamed("publication", StrList([row["Publication Citation"], row["Publication URL"]]),
        ["publicationCitation", "publicationURL"], false, None);
    }
    if prod {
      FieldNamed("productionDate", Str(row["Production Date"]), [], false, None);
    }
    OptionalNamed(pub, fPublication, "publication");
    OptionalNamed(prod, fProduction, "productionDate");
    NamedConcat(fPublication.value, IfGiven(pub, "publication"), fProduction.value, IfGiven(prod, "productionDate"));
    NamedOne(KeywordField(row["Keywords"]).value, "keyword", fPublication.value + fProduction.value,
      IfGiven(pub, "publication") + IfGiven(prod, "productionDate"));
    Assoc(["keyword"], IfGiven(pub, "publication"), IfGiven(prod, "productionDate"));
  }

  lemma CitationTailOutcome(row: Row, today: string)
    ensures CitationTail(row, today).Ok? <==> "Distributor" in row
    ensures CitationTail(row, today).Err? ==> CitationTail(row, today).error == KeyError
  {
  }

  /** `CitationTail` built: its list, field by field. */
  lemma CitationTailValue(row: Row, today: string)
    requires CitationTail(row, today).Ok?
    ensures CitationTail(row, today).value ==
      [Field("distributor", StrList([row["Distributor"], "Harvard Dataverse Network"]),
        ["distributorName", "distributorName"], true, None).value,
       Field("dateOfDeposit", Str(today), [], false, None).value] +
      (if Given(row, "Time Period Covered Start") && Given(row, "Time Period Covered End")
      then One(Field("timePeriodCovered", StrList([row["Time Period Covered Start"], row["Time Period Covered End"]]),
        ["timePeriodCoveredStart", "timePeriodCoveredEnd"], false, None))
      else Ok([])).value
  {
  }

  lemma NamedTwo(a: JValue, b: JValue, rest: seq<JValue>, na: string, nb: string, restNames: seq<string>)
    requires HasName(a, na) && HasName(b, nb) && Named(rest, restNames)
    ensures Named([a, b] + rest, [na, nb] + restNames)
  {
    var xs := [a, b] + rest;
    var ns := [na, nb] + restNames;
    forall i | 0 <= i < |xs| ensures HasName(xs[i], ns[i]) {
      if i >= 2 {
        assert xs[i] == rest[i - 2] && ns[i] == restNames[i - 2];
      }
    }
  }

  lemma CitationTailNamed(row: Row, today: string)
    requires CitationTail(row, today).Ok?
    ensures Named(CitationTail(row, today).value, TailNames(row))
    ensures CitationTail(row, today).value[1] == Leaf("dateOfDeposit", today)
  {
    CitationTailValue(row, today);
    var period := Given(row, "Time Period Covered Start") && Given(row, "Time Period Covered End");
    var fPeriod := if period
      then One(Field("timePeriodCovered", StrList([row["Time Period Covered Start"], row["Time Period Covered End"]]),
        ["timePeriodCoveredStart", "timePeriodCoveredEnd"], false, None))
      else Ok([]);
    if period {
      FieldNamed("timePeriodCovered", StrList([row["Time Period Covered Start"], row["Time Period Covered End"]]),
        ["timePeriodCoveredStart", "timePeriodCoveredEnd"], false, None);
    }
    OptionalNamed(period, fPeriod, "timePeriodCovered");
    FieldNamed("distributor", StrList([row["Distributor"], "Harvard Dataverse Network"]),
      ["distributorName", "distributorName"], true, None);
    FieldNamed("dateOfDeposit", Str(today), [], false, None);
    NamedTwo(Field("distributor", StrList([row["Distributor"], "Harvard Dataverse Network"]),
        ["distributorName", "distributorName"], true, None).value,
      Field("dateOfDeposit", Str(today), [], false, None).value, fPeriod.value,
      "distributor", "dateOfDeposit", IfGiven(period, "timePeriodCovered"));
    FieldOfString("dateOfDeposit", today, [], false);
  }

  /**
   * The citation fields build exactly when every column read with `row[...]`
   * is there and the keywords keep at least one entry; a missing column is a
   * `KeyError` and keywords with nothing to keep the `NameError`.
   */
  lemma CitationFieldsOutcome(row: Row, today: string)
    ensures CitationFields(row, today).Ok? <==> CitationColumns(row)
    ensures CitationFields(row, today).Err? ==>
      CitationFields(row, today).error ==
        if HeadColumns(row) && "Keywords" in row && KeywordEntries(row["Keywords"]) == [] then NameError else KeyError
  {
    CitationHeadOutcome(row);
    CitationMiddleOutcome(row);
    CitationTailOutcome(row, today);
  }

  /** Built, the citation fields carry their `typeName`s in order, start with the title and hold the date of deposit. */
  lemma CitationFieldsNamed(row: Row, today: string)
    requires CitationFields(row, today).Ok?
    ensures Named(CitationFields(row, today).value, CitationNames(row))
    ensures CitationFields(row, today).value[0] == Leaf("title", row["Title"])
    ensures Leaf("dateOfDeposit", today) in CitationFields(row, today).value
  {
    var head := CitationHead(row).value;
    var middle := CitationMiddle(row).value;
    var tail := CitationTail(row, today).value;
    assert CitationFields(row, today).value == head + middle + tail;
    CitationHeadNamed(row);
    CitationMiddleNamed(row);
    CitationTailNamed(row, today);
    NamedConcat(head, HeadNames(row), middle, MiddleNames(row));
    NamedConcat(head + middle, HeadNames(row) + MiddleNames(row), tail, TailNames(row));
    assert (head + middle + tail)[|head| + |middle| + 1] == tail[1];
  }

  /** The geospatial field is the `geographicCoverage` compound; its dict holds `city` exactly when a coverage is given. */
  lemma GeoFieldMeaning(row: Row)
    requires Given(row, "Country/Nation")
    ensures var g := GeoField(row); var v := g.fields["value"];
      && g.fields["typeName"] == JStr("geographicCoverage") && g.fields["typeClass"] == JStr("compound")
      && v.JList? && |v.items| == 1 && v.items[0].JObj?
      && "country" in v.items[0].fields && v.items[0].fields["country"] == Leaf("country", row["Country/Nation"])
      && ("city" in v.items[0].fields <==> Given(row, "Geographic Coverage"))
      && (Given(row, "Geographic Coverage") ==> v.items[0].fields["city"] == Leaf("city", row["Geographic Coverage"]))
  {
    if Given(row, "Geographic Coverage") {
      var names := ["country", "city"];
      FieldCompoundValue("geographicCoverage", StrList([row["Country/Nation"], row["Geographic Coverage"]]), names, None);
      assert names[..2] == names && names[0] != names[1];
      assert "city" in names;
    } else {
      var names := ["country"];
      FieldCompoundValue("geographicCoverage", StrList([row["Country/Nation"]]), names, None);
      assert names[..1] == names && "city" !in names;
    }
  }

  /**
   * Writes a metadata block: creates the dicts to its `fields`, sets them and
   * the display name. The paths `'metadataBlocks/' + block + '/fields'` and
   * `'metadataBlocks/' + block + '/displayName'` are written as joins of their
   * keys; `SpelledPath` shows the two spellings are the same string.
   */
  function WriteBlock(into: JValue, block: string, fields: seq<JValue>, displayName: string): Result<JValue, PyError>
  {
    WriteBlockAt(into, KeyPath(["metadataBlocks", block, "fields"]), KeyPath(["metadataBlocks", block, "displayName"]),
      fields, displayName)
  }

  function WriteBlockAt(into: JValue, fieldsPath: string, namePath: string, fields: seq<JValue>,
    displayName: string): Result<JValue, PyError>
  {
    var t :- JPathCreateDicts(into, fieldsPath);
    var t' :- JPathSet(t, fieldsPath, JList(fields));
    JPathSet(t', namePath, JStr(displayName))
  }

  /** `version_minor+1`: numbers (a bool counting as 0 or 1) add, anything else is a `TypeError`. */
  function PlusOne(v: JValue): (r: Result<JValue, PyError>)
    ensures v.JInt? ==> r == Ok(JInt(v.n + 1))
    ensures !v.JInt? && !v.JBool? ==> r == Err(TypeError)
  {
    match v
    case JInt(n) => Ok(JInt(n + 1))
    case JBool(b) => Ok(JInt(if b then 2 else 1))
    case _ => Err(TypeError)
  }

  /** The version numbers `setrow` writes. */
  function WithVersion(into: JValue): Result<JValue, PyError>
  {
    var major :- JPath(into, "versionNumber");
    if major == JNull then
      var t :- JPathSet(into, "versionNumber", JInt(1));
      JPathSet(t, "versionMinorNumber", JInt(0))
    else
      var t :- JPathSet(into, "versionNumber", major);
      var minor :- JPath(t, "versionMinorNumber");
      if minor == JNull then JPathSet(t, "versionMinorNumber", JInt(1))
      else
        var next :- PlusOne(minor);
        JPathSet(t, "versionMinorNumber", next)
  }

  /** The status lines at the end of `setrow`. */
  function WithStatus(into: JValue): Result<JValue, PyError>
  {
    var t :- WithVersion(into);
    AsDraft(t)
  }

  /** The lines after the version numbers: the state, the database id, the release time. */
  function AsDraft(t: JValue): Result<JValue, PyError>
  {
    var t' :- JPathSet(t, "versionState", JStr("DRAFT"));
    var t'' :- KeepId(t');
    JPathDelete(t'', "releaseTime")
  }

  /** `id` is read and, when present, written back. */
  function KeepId(t: JValue): Result<JValue, PyError>
  {
    var dbid :- JPath(t, "id");
    if dbid != JNull then JPathSet(t, "id", dbid) else Ok(t)
  }

  /** `setrow(row, into)`, with the current date as a parameter; the document is returned, not edited. */
  function SetRow(row: Row, into: JValue, today: string): Result<JValue, PyError>
  {
    var citation :- CitationFields(row, today);
    var t :- WriteBlocks(row, into, citation);
    WithStatus(t)
  }

  /** The citation block, then the geospatial block when the row names a country. */
  function WriteBlocks(row: Row, into: JValue, citation: seq<JValue>): Result<JValue, PyError>
  {
    var t :- WriteBlock(into, "citation", citation, "Citation Metadata");
    if Given(row, "Country/Nation") then WriteBlock(t, "geospatial", [GeoField(row)], "Geospatial Metadata")
    else Ok(t)
  }

  // ---------------------------------------------------------------------------
  // what setrow writes

  /** The keys `setrow` reads or writes at the top of the document. */
  const StatusKeys: set<string> := {"versionNumber", "versionMinorNumber", "versionState", "releaseTime"}

  /** The keys `setrow` spells out. */
  const LiteralKeys: set<string> := {"metadataBlocks", "citation", "geospatial", "fields", "displayName",
    "versionNumber", "versionMinorNumber", "versionState", "id", "releaseTime"}

  lemma LiteralKeyPlain(k: string)
    requires k in LiteralKeys
    ensures PlainKey(k)
  {
    PlainKeyOf(k);
  }

  lemma PlainKeys3(a: string, b: string, c: string)
    requires PlainKey(a) && PlainKey(b) && PlainKey(c)
    ensures PlainKeys([a, b, c])
  {
  }

  lemma BlockKeysPlain(block: string)
    requires PlainKey(block)
    ensures PlainKeys(["metadataBlocks", block, "fields"]) && PlainKeys(["metadataBlocks", block, "displayName"])
  {
    LiteralKeyPlain("metadataBlocks");
    LiteralKeyPlain("fields");
    LiteralKeyPlain("displayName");
    PlainKeys3("metadataBlocks", block, "fields");
    PlainKeys3("metadataBlocks", block, "displayName");
  }

  lemma BlockPath(block: string, leaf: string)
    ensures KeyPath(["metadataBlocks", block, leaf]) == "metadataBlocks" + "/" + (block + "/" + leaf)
  {
    JoinCons("metadataBlocks", [block, leaf], "/");
    JoinCons(block, [leaf], "/");
    assert ["metadataBlocks", block, leaf][1..] == [block, leaf];
  }

  /**
   * The path of a block's `fields` or `displayName`, as `setrow` spells it,
   * is the join of its three keys.
   */
  lemma SpelledPath(block: string, leaf: string)
    ensures "metadataBlocks/" + block + "/" + leaf == KeyPath(["metadataBlocks", block, leaf])
  {
    BlockPath(block, leaf);
    assert "metadataBlocks" + "/" == "metadataBlocks/";
  }

  lemma TopPath(k: string)
    ensures KeyPath([k]) == k
  {
  }

  /** From a dict, a one-key walk reaches that key's node. */
  lemma ReachTop(x: JValue, k: string)
    requires x.JObj?
    ensures Reach(x, [k]) == if k in x.fields then Some(x.fields[k]) else None
  {
  }

  /** Walks from two dicts that agree on the first key reach the same node. */
  lemma ReachSameHead(a: JValue, b: JValue, keys: seq<string>)
    requires a.JObj? && b.JObj? && keys != []
    requires keys[0] in a.fields <==> keys[0] in b.fields
    requires keys[0] in a.fields ==> a.fields[keys[0]] == b.fields[keys[0]]
    ensures Reach(a, keys) == Reach(b, keys)
  {
  }

  /** A path branching off a block branches off each of the block's two members. */
  lemma {:induction false} DivergeExtend(a: seq<string>, x: string, b: seq<string>)
    requires Diverge(a, b)
    ensures Diverge(a + [x], b)
    decreases |a|
  {
    assert (a + [x])[0] == a[0];
    if a[0] == b[0] {
      assert (a + [x])[1..] == a[1..] + [x];
      DivergeExtend(a[1..], x, b[1..]);
    }
  }

  /** `jpath(t, key)` for a top-level key of a dict. */
  lemma TopGet(t: JValue, k: string)
    requires t.JObj? && PlainKey(k)
    ensures JPath(t, k) == Ok(if k in t.fields then t.fields[k] else JNull)
  {
    assert [k][..0] == [];
    TopPath(k);
    JPathKeys(t, [k]);
  }

  /** `jpath(t, key, v)` for a top-level key of a dict. */
  lemma TopSet(t: JValue, k: string, v: JValue)
    requires t.JObj? && PlainKey(k) && v != JNull
    ensures JPathSet(t, k, v) == Ok(JObj(t.fields[k := v]))
  {
    assert [k][..0] == [];
    TopPath(k);
    JPathSetKeys(t, [k], v);
  }

  /**
   * Writing a block succeeds when `jpath_create_dicts` does; the block's
   * `fields` and `displayName` are then the ones given, and every path that
   * branches off the block reaches what it did.
   */
  /** Two paths that differ only in their third key. */
  lemma SiblingsDiverge(keys: seq<string>, named: seq<string>)
    requires |keys| == 3 && |named| == 3 && named[..2] == keys[..2] && named[2] != keys[2]
    ensures Diverge(named, keys) && Diverge(keys, named)
    ensures keys[..2] + [keys[2]] == keys && keys[..2] + [named[2]] == named
  {
    assert named == named[..2] + [named[2]];
    assert named[0] == keys[0] && named[1] == keys[1];
    assert named[1..][1..] == [named[2]] && keys[1..][1..] == [keys[2]];
  }

  /** Writing at the paths of `keys` and of `named`, a sibling of its last key. */
  lemma WriteBlockAtMeaning(into: JValue, p: string, q: string, keys: seq<string>, named: seq<string>,
    fields: seq<JValue>, name: string)
    requires |keys| == 3 && |named| == 3 && named[..2] == keys[..2] && named[2] != keys[2]
    requires PlainKeys(keys) && PlainKeys(named) && p == KeyPath(keys) && q == KeyPath(named)
    ensures WriteBlockAt(into, p, q, fields, name).Ok? <==> CreateDictsAt(into, keys).Ok?
    ensures WriteBlockAt(into, p, q, fields, name).Err? ==> WriteBlockAt(into, p, q, fields, name).error == TypeError
    ensures WriteBlockAt(into, p, q, fields, name).Ok? ==> var r := WriteBlockAt(into, p, q, fields, name).value;
      && r.JObj?
      && Reach(r, keys) == Some(JList(fields))
      && Reach(r, named) == Some(JStr(name))
      && forall other :: Diverge(keys[..2], other) ==> Reach(r, other) == Reach(into, other)
  {
    if CreateDictsAt(into, keys).Ok? {
      var t := CreateDictsAt(into, keys).value;
      CreatedParent(into, keys);
      var t' := SetIn(t, keys, JList(fields));
      SetInKeepsParents(t, keys, JList(fields), named);
      var r := SetIn(t', named, JStr(name));
      assert WriteBlockAt(into, p, q, fields, name) == Ok(r) by {
        assert JPathCreateDicts(into, p) == Ok(t) by { JPathCreateDictsKeys(into, keys); }
        assert JPathSet(t, p, JList(fields)) == Ok(t') by { JPathSetKeys(t, keys, JList(fields)); }
        assert JPathSet(t', q, JStr(name)) == Ok(r) by { JPathSetKeys(t', named, JStr(name)); }
      }
      SiblingsDiverge(keys, named);
      ReachSetIn(t', named, JStr(name), keys);
      ReachSetIn(t, keys, JList(fields), keys);
      forall other | Diverge(keys[..2], other) ensures Reach(r, other) == Reach(into, other) {
        DivergeExtend(keys[..2], keys[2], other);
        DivergeExtend(keys[..2], named[2], other);
        ReachSetIn(t', named, JStr(name), other);
        ReachSetIn(t, keys, JList(fields), other);
        ReachCreateDicts(into, keys, other);
      }
    } else {
      assert JPathCreateDicts(into, p).Err? by { JPathCreateDictsKeys(into, keys); }
    }
  }

  /**
   * Writing a block succeeds when `jpath_create_dicts` does; the block's
   * `fields` and `displayName` are then the ones given, and every path that
   * branches off the block reaches what it did.
   */
  lemma WriteBlockMeaning(into: JValue, block: string, fields: seq<JValue>, name: string)
    requires PlainKey(block)
    ensures var keys := ["metadataBlocks", block, "fields"];
      WriteBlock(into, block, fields, name).Ok? <==> CreateDictsAt(into, keys).Ok?
    ensures WriteBlock(into, block, fields, name).Err? ==> WriteBlock(into, block, fields, name).error == TypeError
    ensures WriteBlock(into, block, fields, name).Ok? ==> var r := WriteBlock(into, block, fields, name).value;
      && r.JObj?
      && Reach(r, ["metadataBlocks", block, "fields"]) == Some(JList(fields))
      && Reach(r, ["metadataBlocks", block, "displayName"]) == Some(JStr(name))
      && forall other :: Diverge(["metadataBlocks", block], other) ==> Reach(r, other) == Reach(into, other)
  {
    var keys := ["metadataBlocks", block, "fields"];
    var named := ["metadataBlocks", block, "displayName"];
    BlockKeysPlain(block);
    assert keys[..2] == ["metadataBlocks", block] == named[..2];
    WriteBlockAtMeaning(into, KeyPath(keys), KeyPath(named), keys, named, fields, name);
  }


  lemma TopGetNamed(t: JValue, k: string)
    requires t.JObj? && k in LiteralKeys
    ensures JPath(t, k) == Ok(Top(t.fields, k))
  {
    LiteralKeyPlain(k);
    TopGet(t, k);
  }

  lemma TopSetNamed(t: JValue, k: string, v: JValue)
    requires t.JObj? && k in LiteralKeys && v != JNull
    ensures JPathSet(t, k, v) == Ok(JObj(t.fields[k := v]))
  {
    LiteralKeyPlain(k);
    TopSet(t, k, v);
  }

  lemma TopDeleteNamed(t: JValue, k: string)
    requires t.JObj? && k in LiteralKeys
    ensures JPathDelete(t, k) == Ok(if Top(t.fields, k) == JNull then t else JObj(t.fields - {k}))
  {
    LiteralKeyPlain(k);
    TopPath(k);
    JPathDeleteKey(t, k);
  }

  // ---------------------------------------------------------------------------
  // the version and status lines

  /** A top-level value, `None` (here `JNull`) when the key is missing. */
  function Top(f: map<string, JValue>, k: string): JValue {
    if k in f then f[k] else JNull
  }

  /** The major version `setrow` leaves: 1 for a new study, else the one it had. */
  function NewMajor(major: JValue): JValue {
    if major == JNull then JInt(1) else major
  }

  /**
   * The minor version `setrow` leaves: 0 for a new study, 1 when only the minor
   * number is missing, else one more than it was.
   */
  function NewMinor(major: JValue, minor: JValue): Result<JValue, PyError> {
    if major == JNull then Ok(JInt(0))
    else if minor == JNull then Ok(JInt(1))
    else PlusOne(minor)
  }

  lemma WithVersionMeaning(t: JValue)
    requires t.JObj?
    ensures var major := Top(t.fields, "versionNumber");
      var minor := NewMinor(major, Top(t.fields, "versionMinorNumber"));
      WithVersion(t) ==
        if minor.Err? then Err(minor.error)
        else Ok(JObj(t.fields["versionNumber" := NewMajor(major)]["versionMinorNumber" := minor.value]))
  {
    LiteralKeyPlain("versionNumber");
    LiteralKeyPlain("versionMinorNumber");
    VersionSteps(t, "versionNumber", "versionMinorNumber");
  }

  /** `WithVersion` spelled out on its two keys, `major` and `minor`, which differ and need no quoting. */
  lemma VersionSteps(t: JValue, major: string, minor: string)
    requires t.JObj? && PlainKey(major) && PlainKey(minor) && major == "versionNumber" && minor == "versionMinorNumber"
    ensures var n := NewMinor(Top(t.fields, major), Top(t.fields, minor));
      WithVersion(t) ==
        if n.Err? then Err(n.error)
        else Ok(JObj(t.fields[major := NewMajor(Top(t.fields, major))][minor := n.value]))
  {
    var f := t.fields;
    var was := Top(f, major);
    TopGet(t, major);
    TopSet(t, major, NewMajor(was));
    var t1 := JObj(f[major := NewMajor(was)]);
    if was == JNull {
      TopSet(t1, minor, JInt(0));
    } else {
      UpdateSame(f, major);
      TopGet(t1, minor);
      assert major != minor by { assert |major| != |minor|; }
      var m := Top(f, minor);
      assert Top(t1.fields, minor) == m;
      if m == JNull {
        TopSet(t1, minor, JInt(1));
      } else if PlusOne(m).Ok? {
        TopSet(t1, minor, PlusOne(m).value);
      }
    }
  }

  /** The status keys are distinct from one another and from `id` (their lengths differ). */
  lemma StatusKeysDistinct()
    ensures |"versionNumber"| == 13 && |"versionMinorNumber"| == 18 && |"versionState"| == 12
    ensures |"releaseTime"| == 11 && |"id"| == 2
  {
  }

  /** The keys of a document after the lines that mark it a draft. */
  function DraftFields(f: map<string, JValue>): map<string, JValue> {
    var g := f["versionState" := JStr("DRAFT")];
    if Top(g, "releaseTime") == JNull then g else g - {"releaseTime"}
  }

  /** The keys of a document after the status lines, given the new minor version. */
  function StatusFields(f: map<string, JValue>, minor: JValue): map<string, JValue> {
    DraftFields(f["versionNumber" := NewMajor(Top(f, "versionNumber"))]["versionMinorNumber" := minor])
  }

  /** Writing `id` back with its own value changes nothing. */
  lemma KeepIdValue(t: JValue)
    requires t.JObj?
    ensures KeepId(t) == Ok(t)
  {
    TopGetNamed(t, "id");
    LiteralKeyPlain("id");
    SetSame(t, "id");
  }

  /** Setting a top-level key to the value it has leaves the document as it was. */
  lemma SetSame(t: JValue, k: string)
    requires t.JObj? && PlainKey(k)
    ensures Top(t.fields, k) != JNull ==> JPathSet(t, k, Top(t.fields, k)) == Ok(t)
  {
    var v := Top(t.fields, k);
    if v != JNull {
      TopSet(t, k, v);
      UpdateSame(t.fields, k);
    }
  }

  lemma UpdateSame<K, V>(m: map<K, V>, k: K)
    requires k in m
    ensures m[k := m[k]] == m
  {
  }

  lemma AsDraftValue(t: JValue)
    requires t.JObj?
    ensures AsDraft(t) == Ok(JObj(DraftFields(t.fields)))
  {
    var t2 := JObj(t.fields["versionState" := JStr("DRAFT")]);
    assert JPathSet(t, "versionState", JStr("DRAFT")) == Ok(t2) by { TopSetNamed(t, "versionState", JStr("DRAFT")); }
    assert KeepId(t2) == Ok(t2) by { KeepIdValue(t2); }
    assert JPathDelete(t2, "releaseTime") == Ok(JObj(DraftFields(t.fields))) by { TopDeleteNamed(t2, "releaseTime"); }
  }

  lemma WithStatusValue(t: JValue)
    requires t.JObj?
    ensures var minor := NewMinor(Top(t.fields, "versionNumber"), Top(t.fields, "versionMinorNumber"));
      WithStatus(t) == if minor.Err? then Err(minor.error) else Ok(JObj(StatusFields(t.fields, minor.value)))
  {
    var f := t.fields;
    var minor := NewMinor(Top(f, "versionNumber"), Top(f, "versionMinorNumber"));
    WithVersionMeaning(t);
    if minor.Ok? {
      AsDraftValue(JObj(f["versionNumber" := NewMajor(Top(f, "versionNumber"))]["versionMinorNumber" := minor.value]));
    }
  }

  lemma StatusFieldsMeaning(f: map<string, JValue>, minor: JValue)
    ensures var g := StatusFields(f, minor);
      && Top(g, "versionNumber") == NewMajor(Top(f, "versionNumber"))
      && Top(g, "versionMinorNumber") == minor
      && Top(g, "versionState") == JStr("DRAFT")
      && ("releaseTime" in g <==> "releaseTime" in f && f["releaseTime"] == JNull)
      && forall k :: k !in StatusKeys ==> Top(g, k) == Top(f, k) && (k in g <==> k in f)
  {
    StatusKeysDistinct();
  }

  /**
   * The status lines of `setrow` on a dict: they set the version numbers
   * (`NewMajor`, `NewMinor`), set `versionState` to `DRAFT`, rewrite `id`
   * with its own value, and delete `releaseTime` unless it is `null`; they
   * fail only where `version_minor + 1` raises, and leave every other key alone.
   */
  lemma WithStatusMeaning(t: JValue)
    requires t.JObj?
    ensures var major := Top(t.fields, "versionNumber");
      var minor := NewMinor(major, Top(t.fields, "versionMinorNumber"));
      WithStatus(t).Ok? <==> minor.Ok?
    ensures WithStatus(t).Ok? ==> var r := WithStatus(t).value;
      && r.JObj?
      && Top(r.fields, "versionNumber") == NewMajor(Top(t.fields, "versionNumber"))
      && Top(r.fields, "versionMinorNumber") == NewMinor(Top(t.fields, "versionNumber"), Top(t.fields, "versionMinorNumber")).value
      && Top(r.fields, "versionState") == JStr("DRAFT")
      && ("releaseTime" in r.fields <==> "releaseTime" in t.fields && t.fields["releaseTime"] == JNull)
      && forall k :: k !in StatusKeys ==> Top(r.fields, k) == Top(t.fields, k) && (k in r.fields <==> k in t.fields)
  {
    WithStatusValue(t);
    var minor := NewMinor(Top(t.fields, "versionNumber"), Top(t.fields, "versionMinorNumber"));
    if minor.Ok? {
      StatusFieldsMeaning(t.fields, minor.value);
    }
  }


  // ---------------------------------------------------------------------------
  // what setrow does to the document

  /** No node, or a dict: `jpath_create_dicts` can walk on through it. */
  predicate Dictish(x: Option<JValue>) {
    x.None? || x.value.JObj?
  }

  /** A three-key walk is blocked exactly when the root, or the node at one or two keys, is no dict. */
  lemma Blocked3(elem: JValue, keys: seq<string>)
    requires |keys| == 3
    ensures Blocked(elem, keys) <==> !elem.JObj? || !Dictish(Reach(elem, keys[..1])) || !Dictish(Reach(elem, keys[..2]))
  {
    assert Reach(elem, keys[..0]) == Some(elem) by { assert keys[..0] == []; }
  }

  /** A walk that reaches a node passes through dicts only. */
  lemma ReachThrough(x: JValue, keys: seq<string>)
    requires |keys| == 3 && Reach(x, keys).Some?
    ensures x.JObj? && Reach(x, keys[..1]).Some? && Reach(x, keys[..1]).value.JObj?
    ensures Reach(x, keys[..2]).Some? && Reach(x, keys[..2]).value.JObj?
  {
    var c := x.fields[keys[0]];
    assert Reach(c, keys[1..]).Some?;
    var d := c.fields[keys[1]];
    assert Reach(d, keys[1..][1..]).Some?;
    assert Reach(x, keys[..1]) == Some(c) by {
      assert keys[..1][0] == keys[0] && keys[..1][1..] == [];
    }
    assert Reach(x, keys[..2]) == Some(d) by {
      assert keys[..2][0] == keys[0] && keys[..2][1..] == [keys[1]];
      assert Reach(c, [keys[1]]) == Some(d);
    }
  }

  /**
   * The block `citation` or `geospatial` can be written exactly when the
   * document, its `metadataBlocks` and the block itself are dicts or missing;
   * otherwise a `TypeError`.
   */
  lemma WriteBlockWritable(into: JValue, block: string, fields: seq<JValue>, name: string)
    requires block == "citation" || block == "geospatial"
    ensures WriteBlock(into, block, fields, name).Ok? <==>
      into.JObj? && Dictish(Reach(into, ["metadataBlocks"])) && Dictish(Reach(into, ["metadataBlocks", block]))
    ensures WriteBlock(into, block, fields, name).Err? ==> WriteBlock(into, block, fields, name).error == TypeError
  {
    LiteralKeyPlain(block);
    WriteBlockMeaning(into, block, fields, name);
    BlockCreatable(into, block);
  }

  /** The dicts down to a block's `fields` can be created exactly when nothing on the way is other than a dict. */
  lemma BlockCreatable(into: JValue, block: string)
    ensures CreateDictsAt(into, ["metadataBlocks", block, "fields"]).Ok? <==>
      into.JObj? && Dictish(Reach(into, ["metadataBlocks"])) && Dictish(Reach(into, ["metadataBlocks", block]))
  {
    var keys := ["metadataBlocks", block, "fields"];
    CreateDictsFailsWhenBlocked(into, keys);
    Blocked3(into, keys);
    Prefixes3("metadataBlocks", block, "fields");
  }

  lemma Prefixes3(a: string, b: string, c: string)
    ensures [a, b, c][..1] == [a] && [a, b, c][..2] == [a, b]
  {
  }

  /** What writing `citation` or `geospatial` leaves, when it succeeds. */
  lemma WriteBlockContents(into: JValue, block: string, fields: seq<JValue>, name: string)
    requires block == "citation" || block == "geospatial"
    requires WriteBlock(into, block, fields, name).Ok?
    ensures var r := WriteBlock(into, block, fields, name).value;
      && r.JObj?
      && Reach(r, ["metadataBlocks", block, "fields"]) == Some(JList(fields))
      && Reach(r, ["metadataBlocks", block, "displayName"]) == Some(JStr(name))
      && forall other :: Diverge(["metadataBlocks", block], other) ==> Reach(r, other) == Reach(into, other)
  {
    LiteralKeyPlain(block);
    WriteBlockMeaning(into, block, fields, name);
  }

  /** The two blocks and the document key they live under, told apart by length. */
  lemma BlockNamesDistinct()
    ensures |"metadataBlocks"| == 14 && |"citation"| == 8 && |"geospatial"| == 10
  {
  }

  /** The keys `setrow` writes at the top are not `metadataBlocks`. */
  lemma KeysDistinct()
    ensures "metadataBlocks" !in StatusKeys
    ensures "versionNumber" != "metadataBlocks" && "versionMinorNumber" != "metadataBlocks"
  {
  }

  lemma ReleaseNotBlocks()
    ensures "releaseTime" != "metadataBlocks"
  {
  }

  /** A path that branches off both blocks. */
  predicate OutsideBlocks(other: seq<string>) {
    Diverge(["metadataBlocks", "citation"], other) && Diverge(["metadataBlocks", "geospatial"], other)
  }

  /**
   * The blocks can be written exactly when the document, its `metadataBlocks`
   * and each block to be written are dicts or missing; otherwise a `TypeError`.
   */
  lemma WriteBlocksWritable(row: Row, into: JValue, citation: seq<JValue>)
    ensures WriteBlocks(row, into, citation).Ok? <==>
      && into.JObj? && Dictish(Reach(into, ["metadataBlocks"])) && Dictish(Reach(into, ["metadataBlocks", "citation"]))
      && (Given(row, "Country/Nation") ==> Dictish(Reach(into, ["metadataBlocks", "geospatial"])))
    ensures WriteBlocks(row, into, citation).Err? ==> WriteBlocks(row, into, citation).error == TypeError
  {
    WriteBlockWritable(into, "citation", citation, "Citation Metadata");
    var first := WriteBlock(into, "citation", citation, "Citation Metadata");
    if first.Ok? && Given(row, "Country/Nation") {
      var t := first.value;
      CitationKeepsGeo(into, citation);
      WriteBlockWritable(t, "geospatial", [GeoField(row)], "Geospatial Metadata");
    }
  }

  /** Writing the citation block leaves a dict of blocks and the geospatial block as it was. */
  lemma CitationKeepsGeo(into: JValue, citation: seq<JValue>)
    requires WriteBlock(into, "citation", citation, "Citation Metadata").Ok?
    ensures var t := WriteBlock(into, "citation", citation, "Citation Metadata").value;
      && t.JObj? && Dictish(Reach(t, ["metadataBlocks"]))
      && Reach(t, ["metadataBlocks", "geospatial"]) == Reach(into, ["metadataBlocks", "geospatial"])
  {
    var t := WriteBlock(into, "citation", citation, "Citation Metadata").value;
    WriteBlockContents(into, "citation", citation, "Citation Metadata");
    assert t.JObj? && Dictish(Reach(t, ["metadataBlocks"])) by {
      ReachThrough(t, ["metadataBlocks", "citation", "fields"]);
      assert ["metadataBlocks", "citation", "fields"][..1] == ["metadataBlocks"];
    }
    assert Reach(t, ["metadataBlocks", "geospatial"]) == Reach(into, ["metadataBlocks", "geospatial"]) by {
      BlockNamesDistinct();
      assert Diverge(["metadataBlocks", "citation"], ["metadataBlocks", "geospatial"]);
    }
  }

  /**
   * After the blocks are written: the citation block holds the citation
   * fields, the geospatial block holds the `geographicCoverage` field when the
   * row names a country and is as it was otherwise, and every path outside
   * both blocks reaches what it did.
   */
  lemma WriteBlocksContents(row: Row, into: JValue, citation: seq<JValue>)
    requires WriteBlocks(row, into, citation).Ok?
    ensures var r := WriteBlocks(row, into, citation).value;
      && r.JObj?
      && Reach(r, ["metadataBlocks", "citation", "fields"]) == Some(JList(citation))
      && Reach(r, ["metadataBlocks", "citation", "displayName"]) == Some(JStr("Citation Metadata"))
      && (Given(row, "Country/Nation") ==>
        && Reach(r, ["metadataBlocks", "geospatial", "fields"]) == Some(JList([GeoField(row)]))
        && Reach(r, ["metadataBlocks", "geospatial", "displayName"]) == Some(JStr("Geospatial Metadata")))
      && (!Given(row, "Country/Nation") ==>
        Reach(r, ["metadataBlocks", "geospatial"]) == Reach(into, ["metadataBlocks", "geospatial"]))
      && forall other :: OutsideBlocks(other) ==> Reach(r, other) == Reach(into, other)
  {
    var t := WriteBlock(into, "citation", citation, "Citation Metadata").value;
    WriteBlockContents(into, "citation", citation, "Citation Metadata");
    if Given(row, "Country/Nation") {
      WriteBlockContents(t, "geospatial", [GeoField(row)], "Geospatial Metadata");
      assert Diverge(["metadataBlocks", "geospatial"], ["metadataBlocks", "citation", "fields"]) &&
        Diverge(["metadataBlocks", "geospatial"], ["metadataBlocks", "citation", "displayName"]) by {
        BlockNamesDistinct();
      }
    } else {
      assert Diverge(["metadataBlocks", "citation"], ["metadataBlocks", "geospatial"]) by {
        BlockNamesDistinct();
      }
    }
  }

  /** Outside the blocks, the top-level keys other than `metadataBlocks` are as they were. */
  lemma TopFrame(t: JValue, into: JValue)
    requires t.JObj? && into.JObj?
    requires forall other :: OutsideBlocks(other) ==> Reach(t, other) == Reach(into, other)
    ensures forall k :: k != "metadataBlocks" ==> Top(t.fields, k) == Top(into.fields, k) && (k in t.fields <==> k in into.fields)
  {
    forall k | k != "metadataBlocks"
      ensures Top(t.fields, k) == Top(into.fields, k) && (k in t.fields <==> k in into.fields)
    {
      assert OutsideBlocks([k]);
      ReachTop(t, k);
      ReachTop(into, k);
    }
  }

  /** The document can take both blocks of `row`. */
  predicate Writable(row: Row, into: JValue) {
    && into.JObj? && Dictish(Reach(into, ["metadataBlocks"])) && Dictish(Reach(into, ["metadataBlocks", "citation"]))
    && (Given(row, "Country/Nation") ==> Dictish(Reach(into, ["metadataBlocks", "geospatial"])))
  }

  /** The version numbers of a dict can be advanced (`version_minor + 1` does not raise). */
  predicate Advanceable(into: JValue) {
    into.JObj? && NewMinor(Top(into.fields, "versionNumber"), Top(into.fields, "versionMinorNumber")).Ok?
  }

  /**
   * `setrow` raises what building the citation fields raises; with those
   * built, it succeeds exactly when the document can take the blocks and its
   * minor version can be advanced, and raises `TypeError` otherwise.
   */
  lemma SetRowOutcome(row: Row, into: JValue, today: string)
    ensures CitationFields(row, today).Err? ==> SetRow(row, into, today) == Err(CitationFields(row, today).error)
    ensures CitationFields(row, today).Ok? ==>
      (SetRow(row, into, today).Ok? <==> Writable(row, into) && Advanceable(into))
    ensures CitationFields(row, today).Ok? && SetRow(row, into, today).Err? ==> SetRow(row, into, today).error == TypeError
  {
    if CitationFields(row, today).Ok? {
      var citation := CitationFields(row, today).value;
      WriteBlocksWritable(row, into, citation);
      if WriteBlocks(row, into, citation).Ok? {
        var t := WriteBlocks(row, into, citation).value;
        assert SetRow(row, into, today) == WithStatus(t);
        BlocksKeepVersion(row, into, citation);
        WithStatusOutcome(t);
      } else {
        assert SetRow(row, into, today) == Err(TypeError);
      }
    }
  }

  /** Writing the blocks leaves the version numbers as they were. */
  lemma BlocksKeepVersion(row: Row, into: JValue, citation: seq<JValue>)
    requires WriteBlocks(row, into, citation).Ok?
    ensures var t := WriteBlocks(row, into, citation).value;
      && t.JObj? && into.JObj?
      && Top(t.fields, "versionNumber") == Top(into.fields, "versionNumber")
      && Top(t.fields, "versionMinorNumber") == Top(into.fields, "versionMinorNumber")
  {
    var t := WriteBlocks(row, into, citation).value;
    WriteBlocksContents(row, into, citation);
    WriteBlocksWritable(row, into, citation);
    TopFrame(t, into);
    KeysDistinct();
  }

  /** The status lines fail exactly when the minor version cannot be advanced, with its error. */
  lemma WithStatusOutcome(t: JValue)
    requires t.JObj?
    ensures var minor := NewMinor(Top(t.fields, "versionNumber"), Top(t.fields, "versionMinorNumber"));
      && (WithStatus(t).Ok? <==> minor.Ok?)
      && (minor.Err? ==> WithStatus(t) == Err(TypeError))
  {
    WithStatusValue(t);
  }

  /** The status lines leave the `metadataBlocks` entry alone. */
  lemma StatusKeepsBlocks(t: JValue)
    requires t.JObj? && WithStatus(t).Ok?
    ensures var r := WithStatus(t).value;
      && r.JObj?
      && ("metadataBlocks" in r.fields <==> "metadataBlocks" in t.fields)
      && ("metadataBlocks" in r.fields ==> r.fields["metadataBlocks"] == t.fields["metadataBlocks"])
  {
    WithStatusMeaning(t);
    KeysDistinct();
  }

  /** ... and so every path under `metadataBlocks`. */
  lemma StatusKeepsPath(t: JValue, keys: seq<string>)
    requires t.JObj? && WithStatus(t).Ok?
    requires keys != [] && keys[0] == "metadataBlocks"
    ensures Reach(WithStatus(t).value, keys) == Reach(t, keys)
  {
    StatusKeepsBlocks(t);
    ReachSameHead(WithStatus(t).value, t, keys);
  }

  /** The citation block the blocks leave, carried through the status lines. */
  lemma CitationThroughStatus(t: JValue, citation: seq<JValue>)
    requires t.JObj? && WithStatus(t).Ok?
    requires Reach(t, ["metadataBlocks", "citation", "fields"]) == Some(JList(citation))
    requires Reach(t, ["metadataBlocks", "citation", "displayName"]) == Some(JStr("Citation Metadata"))
    ensures var r := WithStatus(t).value;
      && Reach(r, ["metadataBlocks", "citation", "fields"]) == Some(JList(citation))
      && Reach(r, ["metadataBlocks", "citation", "displayName"]) == Some(JStr("Citation Metadata"))
  {
    StatusKeepsPath(t, ["metadataBlocks", "citation", "fields"]);
    StatusKeepsPath(t, ["metadataBlocks", "citation", "displayName"]);
  }

  /** The other blocks, which writing the two blocks leaves alone, carried through the status lines. */
  /** `metadataBlocks.<b>`, the path of block `b`. */
  function BlockKeys(b: string): seq<string> {
    ["metadataBlocks", b]
  }

  lemma OthersThroughStatus(t: JValue, into: JValue)
    requires t.JObj? && WithStatus(t).Ok?
    requires forall other :: OutsideBlocks(other) ==> Reach(t, other) == Reach(into, other)
    ensures forall b :: b != "citation" && b != "geospatial" ==>
      Reach(WithStatus(t).value, BlockKeys(b)) == Reach(into, BlockKeys(b))
  {
    var r := WithStatus(t).value;
    StatusKeepsBlocks(t);
    forall b | b != "citation" && b != "geospatial"
      ensures Reach(r, BlockKeys(b)) == Reach(into, BlockKeys(b))
    {
      OtherBlockOutside(b);
      ReachSameHead(r, t, BlockKeys(b));
    }
  }

  lemma OtherBlockOutside(b: string)
    requires b != "citation" && b != "geospatial"
    ensures OutsideBlocks(BlockKeys(b))
  {
  }

  /**
   * After `setrow`, the citation block holds the citation fields under
   * `Citation Metadata`, and every block but the citation and geospatial
   * ones is untouched.
   */
  lemma SetRowCitation(row: Row, into: JValue, today: string)
    requires SetRow(row, into, today).Ok?
    ensures CitationFields(row, today).Ok?
    ensures var r := SetRow(row, into, today).value; var citation := CitationFields(row, today).value;
      && Reach(r, ["metadataBlocks", "citation", "fields"]) == Some(JList(citation))
      && Reach(r, ["metadataBlocks", "citation", "displayName"]) == Some(JStr("Citation Metadata"))
      && forall b :: b != "citation" && b != "geospatial" ==> Reach(r, BlockKeys(b)) == Reach(into, BlockKeys(b))
  {
    var citation := CitationFields(row, today).value;
    var t := WriteBlocks(row, into, citation).value;
    assert SetRow(row, into, today) == WithStatus(t);
    WriteBlocksContents(row, into, citation);
    CitationThroughStatus(t, citation);
    OthersThroughStatus(t, into);
  }

  /**
   * After `setrow`, the geospatial block holds the coverage field under
   * `Geospatial Metadata` when the row names a country, and is as it was otherwise.
   */
  lemma SetRowGeospatial(row: Row, into: JValue, today: string)
    requires SetRow(row, into, today).Ok?
    ensures var r := SetRow(row, into, today).value;
      && (Given(row, "Country/Nation") ==>
        && Reach(r, ["metadataBlocks", "geospatial", "fields"]) == Some(JList([GeoField(row)]))
        && Reach(r, ["metadataBlocks", "geospatial", "displayName"]) == Some(JStr("Geospatial Metadata")))
      && (!Given(row, "Country/Nation") ==>
        Reach(r, ["metadataBlocks", "geospatial"]) == Reach(into, ["metadataBlocks", "geospatial"]))
  {
    var citation := CitationFields(row, today).value;
    var t := WriteBlocks(row, into, citation).value;
    assert SetRow(row, into, today) == WithStatus(t);
    WriteBlocksContents(row, into, citation);
    StatusKeepsPath(t, ["metadataBlocks", "geospatial", "fields"]);
    StatusKeepsPath(t, ["metadataBlocks", "geospatial", "displayName"]);
    StatusKeepsPath(t, ["metadataBlocks", "geospatial"]);
  }

  /** The status lines over the blocks, read against the document before the blocks. */
  lemma StatusOverBlocks(t: JValue, into: JValue)
    requires t.JObj? && into.JObj? && WithStatus(t).Ok?
    requires forall other :: OutsideBlocks(other) ==> Reach(t, other) == Reach(into, other)
    ensures var r := WithStatus(t).value;
      && r.JObj?
      && Top(r.fields, "versionNumber") == NewMajor(Top(into.fields, "versionNumber"))
      && Ok(Top(r.fields, "versionMinorNumber")) == NewMinor(Top(into.fields, "versionNumber"), Top(into.fields, "versionMinorNumber"))
      && Top(r.fields, "versionState") == JStr("DRAFT")
      && ("releaseTime" in r.fields <==> Top(into.fields, "releaseTime") == JNull && "releaseTime" in into.fields)
      && forall k :: k !in StatusKeys && k != "metadataBlocks" ==> Top(r.fields, k) == Top(into.fields, k) && (k in r.fields <==> k in into.fields)
  {
    assert forall k :: k != "metadataBlocks" ==> Top(t.fields, k) == Top(into.fields, k) && (k in t.fields <==> k in into.fields) by {
      TopFrame(t, into);
    }
    var major := Top(t.fields, "versionNumber");
    var minor := Top(t.fields, "versionMinorNumber");
    var release := Top(t.fields, "releaseTime");
    assert major == Top(into.fields, "versionNumber") && minor == Top(into.fields, "versionMinorNumber") by {
      KeysDistinct();
    }
    assert release == Top(into.fields, "releaseTime") && ("releaseTime" in t.fields <==> "releaseTime" in into.fields) by {
      ReleaseNotBlocks();
    }
    WithStatusMeaning(t);
  }

  /**
   * After `setrow` the study is a draft whose version is 1.0 when it had no
   * version number, its major version with minor 1 when it had no minor
   * number, and one minor version more otherwise; a release time survives only
   * as `None`, and every other top-level entry is as it was.
   */
  lemma SetRowStatus(row: Row, into: JValue, today: string)
    requires SetRow(row, into, today).Ok?
    ensures into.JObj?
    ensures var r := SetRow(row, into, today).value;
      && r.JObj?
      && Top(r.fields, "versionNumber") == NewMajor(Top(into.fields, "versionNumber"))
      && Ok(Top(r.fields, "versionMinorNumber")) == NewMinor(Top(into.fields, "versionNumber"), Top(into.fields, "versionMinorNumber"))
      && Top(r.fields, "versionState") == JStr("DRAFT")
      && ("releaseTime" in r.fields <==> Top(into.fields, "releaseTime") == JNull && "releaseTime" in into.fields)
      && forall k :: k !in StatusKeys && k != "metadataBlocks" ==> Top(r.fields, k) == Top(into.fields, k) && (k in r.fields <==> k in into.fields)
  {
    SetRowOutcome(row, into, today);
    var citation := CitationFields(row, today).value;
    var t := WriteBlocks(row, into, citation).value;
    assert SetRow(row, into, today) == WithStatus(t);
    WriteBlocksContents(row, into, citation);
    StatusOverBlocks(t, into);
  }
}
