/**
 * `petitiondoiresolver.resolve`: finding the DOI of an already published
 * petition by searching for the labelled fragments of its description, and
 * the search call it relies on (`DataverseHelper.get_doi_from_search`) over an
 * abstract search server.
 */
module Resolver {
  import opened Results
  import opened Text
  import opened Ordering
  import opened Json
  import opened TsvFile

  /** `resolver_fields`: the description labels that identify a petition. */
  const ResolverFields: seq<string> := [
    "Date of creation",
    "Petition subject",
    "Original",
    "Petition location",
    "Legislator, committee, or address that the petition was sent to",
    "Selected signatures",
    "Total signatures"
  ]

  /** `min_field_count`: the search is refused with fewer labelled fragments than this. */
  const MinFieldCount: int := |ResolverFields| - 2

  // ---------------------------------------------------------------------------
  // cleaning one fragment

  /** No `<` is followed, anywhere later, by a `>`: the string holds no `<...>` tag. */
  predicate NoTag(s: string)
    decreases |s|
  {
    s == [] || (if s[0] == '<' then '>' !in s else NoTag(s[1..]))
  }

  lemma {:induction false} NoCloseNoTag(s: string)
    requires '>' !in s
    ensures NoTag(s)
    decreases |s|
  {
    if s != [] && s[0] != '<' {
      NoCloseNoTag(s[1..]);
    }
  }

  lemma {:induction false} NoTagSuffix(s: string, k: nat)
    requires NoTag(s) && k <= |s|
    ensures NoTag(s[k..])
    decreases k
  {
    if k > 0 {
      if s[0] == '<' {
        assert forall c :: c in s[k..] ==> c in s;
        NoCloseNoTag(s[k..]);
      } else {
        NoTagSuffix(s[1..], k - 1);
        assert s[1..][k - 1..] == s[k..];
      }
    }
  }

  lemma {:induction false} NoTagPrefix(s: string, k: nat)
    requires NoTag(s) && k <= |s|
    ensures NoTag(s[..k])
    decreases k
  {
    if k > 0 {
      if s[0] == '<' {
        assert forall c :: c in s[..k] ==> c in s;
        NoCloseNoTag(s[..k]);
      } else {
        NoTagPrefix(s[1..], k - 1);
        assert s[1..][..k - 1] == s[..k][1..];
      }
    }
  }

  /** The position of the first `c` in `s`. */
  function IndexOf(s: string, c: char): (r: nat)
    requires c in s
    ensures r < |s| && s[r] == c && c !in s[..r]
  {
    if s[0] == c then 0
    else
      var r := 1 + IndexOf(s[1..], c);
      assert s[..r] == [s[0]] + s[1..][..r - 1];
      r
  }

  /** `re.sub(r'<[^>]*>', ' ', x)`: each tag, up to the first `>` after its `<`, becomes one space. */
  function ReplaceTags(s: string): (r: string)
    ensures forall c :: c in r ==> c in s || c == ' '
    ensures NoTag(r)
    decreases |s|
  {
    if s == [] then []
    else if s[0] == '<' && '>' in s[1..] then
      var j := IndexOf(s[1..], '>');
      var rest := ReplaceTags(s[1..][j + 1..]);
      assert forall c :: c in s[1..][j + 1..] ==> c in s;
      [' '] + rest
    else
      var rest := ReplaceTags(s[1..]);
      assert forall c :: c in s[1..] ==> c in s;
      if s[0] == '<' then
        assert '>' !in rest;
        ['<'] + rest
      else
        [s[0]] + rest
  }

  /** No two spaces are adjacent. */
  predicate SingleSpaced(s: string) {
    forall i :: 0 <= i < |s| - 1 ==> !(s[i] == ' ' && s[i + 1] == ' ')
  }

  /**
   * `re.sub(r'  *', ' ', x)`: each run of spaces becomes one space; here a space
   * that another space follows is dropped.
   */
  function CollapseSpaces(s: string): (r: string)
    ensures SingleSpaced(r)
    ensures |r| <= |s| && (r == [] <==> s == [])
    ensures r != [] ==> r[0] == s[0] && r[|r| - 1] == s[|s| - 1]
    ensures forall c :: c in r ==> c in s
  {
    if s == [] then []
    else
      var rest := CollapseSpaces(s[1..]);
      assert forall c :: c in s[1..] ==> c in s;
      if |s| > 1 && s[0] == ' ' && s[1] == ' ' then rest
      else
        ConsSpaced(s[0], rest);
        [s[0]] + rest
  }

  /** A character before a single-spaced string keeps it single-spaced unless both are spaces. */
  lemma ConsSpaced(c: char, rest: string)
    requires SingleSpaced(rest) && (c == ' ' ==> rest == [] || rest[0] != ' ')
    ensures SingleSpaced([c] + rest)
  {
    var r := [c] + rest;
    forall i | 0 <= i < |r| - 1 ensures !(r[i] == ' ' && r[i + 1] == ' ') {
      if i > 0 {
        assert r[i] == rest[i - 1] && r[i + 1] == rest[i];
      }
    }
  }

  /** Collapsing spaces adds no tag. */
  lemma {:induction false} CollapseKeepsNoTag(s: string)
    requires NoTag(s)
    ensures NoTag(CollapseSpaces(s))
    decreases |s|
  {
    var r := CollapseSpaces(s);
    if s != [] {
      if s[0] == '<' {
        assert '>' !in s;
        assert '>' !in r;
      } else {
        NoTagSuffix(s, 1);
        CollapseKeepsNoTag(s[1..]);
        if !(|s| > 1 && s[0] == ' ' && s[1] == ' ') {
          assert r[1..] == CollapseSpaces(s[1..]);
        }
      }
    }
  }

  /** `re.sub(r'  *', ' ', re.sub(r'<[^>]*>', ' ', x).strip())`. */
  function CleanFragment(x: string): string {
    CollapseSpaces(Strip(ReplaceTags(x)))
  }

  /**
   * A cleaned fragment holds no tag, has no whitespace at either end and no
   * two adjacent spaces.
   */
  lemma CleanFragmentShape(x: string)
    ensures var t := CleanFragment(x);
      && NoTag(t) && SingleSpaced(t)
      && (t == [] || (!IsSpace(t[0]) && !IsSpace(t[|t| - 1])))
  {
    var r := ReplaceTags(x);
    var l := TrimLeft(r, Whitespace);
    TrimLeftSuffix(r, Whitespace);
    TrimRightPrefix(l, Whitespace);
    NoTagSuffix(r, |r| - |l|);
    assert r[|r| - |l|..] == l;
    NoTagPrefix(l, |TrimRight(l, Whitespace)|);
    CollapseKeepsNoTag(Strip(r));
  }

  predicate NonEmpty(t: string) {
    t != []
  }

  /** `any([x.startswith(y) for y in resolver_fields])`. */
  predicate HasLabel(t: string) {
    exists y :: y in ResolverFields && StartsWith(t, y)
  }

  /** The description split on `</p>`, each part cleaned. */
  function Cleaned(description: string): (r: seq<string>)
    ensures var parts := Split(description, "</p>");
      |r| == |parts| && forall i :: 0 <= i < |parts| ==> r[i] == CleanFragment(parts[i])
  {
    var parts := Split(description, "</p>");
    seq(|parts|, i requires 0 <= i < |parts| => CleanFragment(parts[i]))
  }

  /** `query_parts_text_filter`: the non-empty cleaned parts that start with a label, in description order. */
  function Terms(description: string): seq<string> {
    Filter(Filter(Cleaned(description), NonEmpty), HasLabel)
  }

  /** `'"' + '" AND "'.join(terms) + '"'`. */
  function Query(terms: seq<string>): string {
    "\"" + Join(terms, "\" AND \"") + "\""
  }

  /** The query `resolve` sends for a description, or `None` when too few fragments are labelled. */
  function ResolverQuery(description: string): (r: Option<string>)
    ensures r.None? <==> |Terms(description)| < MinFieldCount
  {
    var terms := Terms(description);
    if |terms| < MinFieldCount then None else Some(Query(terms))
  }

  /**
   * Every query term is a cleaned part of the description that is not empty,
   * starts with one of the labels, holds no tag, has no whitespace at either
   * end and no two adjacent spaces.
   */
  lemma TermsShape(description: string)
    ensures forall t :: t in Terms(description) ==>
      && t != [] && HasLabel(t) && NoTag(t) && SingleSpaced(t)
      && !IsSpace(t[0]) && !IsSpace(t[|t| - 1])
      && exists p :: p in Split(description, "</p>") && t == CleanFragment(p)
  {
    var cleaned := Cleaned(description);
    var parts := Split(description, "</p>");
    forall t | t in Terms(description)
      ensures && t != [] && HasLabel(t) && NoTag(t) && SingleSpaced(t)
              && !IsSpace(t[0]) && !IsSpace(t[|t| - 1])
              && exists p :: p in parts && t == CleanFragment(p)
    {
      assert t in cleaned;
      var i :| 0 <= i < |cleaned| && cleaned[i] == t;
      assert parts[i] in parts;
      CleanFragmentShape(parts[i]);
    }
  }

  /** The query is the first term quoted, then ` AND ` and the query of the rest. */
  lemma QueryCons(t: string, rest: seq<string>)
    requires rest != []
    ensures Query([t] + rest) == "\"" + t + "\" AND " + Query(rest)
  {
    JoinCons(t, rest, "\" AND \"");
  }

  /** The query of one term is that term in double quotes. */
  lemma QueryOne(t: string)
    ensures Query([t]) == "\"" + t + "\""
  {
  }

  // ---------------------------------------------------------------------------
  // the search

  /** One search result item, as the fields of its JSON object. */
  type SearchItem = map<string, string>

  /**
   * The search service of a Dataverse server: `items(q)` is what the server
   * answers to query `q`, a failed request being an error; `queries` records
   * the queries sent, in order.
   */
  class DoiSearch {
    const items: string -> Result<seq<SearchItem>, PyError>
    var queries: seq<string>

    constructor(items: string -> Result<seq<SearchItem>, PyError>)
      ensures this.items == items && queries == []
    {
      this.items := items;
      queries := [];
    }

    /**
     * `get_doi_from_search(query)` over `query(query, unique=True)`: no item
     * is `None`, several are an error, and the one item's `global_id` is the DOI.
     */
    method GetDoiFromSearch(query: string) returns (r: Result<Option<string>, PyError>)
      modifies this
      ensures queries == old(queries) + [query]
      ensures r == SearchAnswer(items(query))
    {
      queries := queries + [query];
      var found := items(query);
      if found.Err? {
        return Err(found.error);
      }
      if |found.value| == 0 {
        return Ok(None);
      }
      if |found.value| > 1 {
        return Err(RuntimeError("Multiple matches for unique query"));
      }
      var result := found.value[0];
      if result == map[] {
        return Ok(None);
      }
      if "global_id" !in result || result["global_id"] == "" {
        return Err(RuntimeError("Bad result field global_id"));
      }
      r := Ok(Some(result["global_id"]));
    }
  }

  /** What a unique search yields for the server's answer. */
  function SearchAnswer(found: Result<seq<SearchItem>, PyError>): (r: Result<Option<string>, PyError>)
    ensures found.Ok? && |found.value| == 1 && "global_id" in found.value[0] && found.value[0]["global_id"] != ""
            ==> r == Ok(Some(found.value[0]["global_id"]))
    ensures found.Ok? && |found.value| == 0 ==> r == Ok(None)
    ensures found.Ok? && |found.value| > 1 ==> r.Err?
    ensures found.Ok? && |found.value| == 1 && found.value[0] == map[] ==> r == Ok(None)
    ensures (&& found.Ok? && |found.value| == 1 && found.value[0] != map[]
             && ("global_id" !in found.value[0] || found.value[0]["global_id"] == "")) ==> r.Err?
    ensures found.Err? ==> r == Err(found.error)
    ensures r.Ok? && r.value.Some? ==> r.value.value != ""
  {
    if found.Err? then Err(found.error)
    else if |found.value| == 0 then Ok(None)
    else if |found.value| > 1 then Err(RuntimeError("Multiple matches for unique query"))
    else if found.value[0] == map[] then Ok(None)
    else if "global_id" !in found.value[0] || found.value[0]["global_id"] == "" then Err(RuntimeError("Bad result field global_id"))
    else Ok(Some(found.value[0]["global_id"]))
  }

  /**
   * `resolve(dataverse_helper_instance, row)`: with too few labelled fragments
   * nothing is searched and the answer is `None`; otherwise the query is
   * searched exactly once and its answer returned.
   */
  method Resolve(search: DoiSearch, row: Row) returns (r: Result<Option<string>, PyError>)
    modifies search
    ensures "Description" !in row ==> r == Err(KeyError) && search.queries == old(search.queries)
    ensures "Description" in row && ResolverQuery(row["Description"]).None? ==>
      r == Ok(None) && search.queries == old(search.queries)
    ensures "Description" in row && ResolverQuery(row["Description"]).Some? ==>
      var q := ResolverQuery(row["Description"]).value;
      search.queries == old(search.queries) + [q] && r == SearchAnswer(search.items(q))
  {
    if "Description" !in row {
      return Err(KeyError);
    }
    var terms := Terms(row["Description"]);
    if |terms| < MinFieldCount {
      return Ok(None);
    }
    r := search.GetDoiFromSearch(Query(terms));
  }
}
