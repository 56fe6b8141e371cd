/**
 * The keyword scan shared by the JSON and XML formatters:
 * `re.compile(r'([a-z-]*):"([^"]*)",?').findall(keyword_string)`, written out as
 * string functions rather than a regular-expression engine.
 */
module Keywords {
  import opened Results
  import opened Text
  import opened Ordering
  import opened StudyBuilder

  /** The class `[a-z-]`. */
  predicate VocabChar(c: char) {
    ('a' <= c <= 'z') || c == '-'
  }

  predicate IsVocab(v: string) {
    forall i :: 0 <= i < |v| ==> VocabChar(v[i])
  }

  /** The class `[^"]*`. */
  predicate NoQuote(t: string) {
    forall i :: 0 <= i < |t| ==> t[i] != '"'
  }

  /** The greedy `[a-z-]*` at the front of `s`. */
  function VocabRun(s: string): (r: string)
    ensures |r| <= |s| && s[..|r|] == r && IsVocab(r)
    ensures |r| < |s| ==> !VocabChar(s[|r|])
  {
    if s != [] && VocabChar(s[0]) then [s[0]] + VocabRun(s[1..]) else []
  }

  /** The greedy `[^"]*` at the front of `s`. */
  function UntilQuote(s: string): (r: string)
    ensures |r| <= |s| && s[..|r|] == r && NoQuote(r)
    ensures |r| < |s| ==> s[|r|] == '"'
  {
    if s != [] && s[0] != '"' then [s[0]] + UntilQuote(s[1..]) else []
  }

  /**
   * The match of the pattern at the front of `s`, as (vocabulary, text, what
   * follows the match). The greedy classes never need to give characters back:
   * a shorter vocabulary would be followed by a vocabulary character, not `:`,
   * and a shorter text by a character that is not `"`.
   */
  function MatchHere(s: string): (r: Option<(string, string, string)>)
    ensures r.Some? ==> |r.value.2| < |s| && IsVocab(r.value.0) && NoQuote(r.value.1)
  {
    var e := |VocabRun(s)|;
    if e + 1 < |s| && s[e] == ':' && s[e + 1] == '"' then
      var t := UntilQuote(s[e + 2..]);
      var q := e + 2 + |t|;
      if q < |s| then
        assert s[e + 2..q] == t;
        Some((s[..e], s[e + 2..q], s[if q + 1 < |s| && s[q + 1] == ',' then q + 2 else q + 1..]))
      else None
    else None
  }

  /** `findall`: the matches from left to right, the search resuming after each one. */
  function FindAll(s: string): (r: seq<(string, string)>)
    ensures forall i :: 0 <= i < |r| ==> IsVocab(r[i].0) && NoQuote(r[i].1)
    decreases |s|
  {
    if s == [] then []
    else match MatchHere(s)
      case Some((v, t, rest)) => [(v, t)] + FindAll(rest)
      case None => FindAll(s[1..])
  }

  /** `vocab:"text"` and then `rest`, position by position. */
  lemma ItemShape(kw: (string, string), rest: string)
    ensures var s := KeywordItem(kw) + rest; var e := |kw.0|; var q := e + 2 + |kw.1|;
      && |s| == q + 1 + |rest| && s[..e] == kw.0 && s[e] == ':' && s[e + 1] == '"'
      && s[e + 2..q] == kw.1 && s[q] == '"' && s[q + 1..] == rest
  {
  }

  /** A match is the keyword text `vocab:"text"` at the front, and the scan resumes on a suffix. */
  lemma MatchHereSound(s: string)
    requires MatchHere(s).Some?
    ensures var m := MatchHere(s).value;
      StartsWith(s, KeywordItem((m.0, m.1))) && |m.2| <= |s| && s[|s| - |m.2|..] == m.2
  {
    var m := MatchHere(s).value;
    var e := |VocabRun(s)|;
    var q := e + 2 + |UntilQuote(s[e + 2..])|;
    assert m.0 == s[..e] && m.1 == s[e + 2..q] && s[e..e + 2] == ":\"" && s[q..q + 1] == "\"";
    PrefixPieces(s, e, q);
    var k := if q + 1 < |s| && s[q + 1] == ',' then q + 2 else q + 1;
    assert m.2 == s[k..];
  }

  /** The first `q + 1` characters, cut at `e`, `e + 2` and `q`. */
  lemma PrefixPieces(s: string, e: nat, q: nat)
    requires e + 2 <= q < |s|
    ensures s[..q + 1] == s[..e] + s[e..e + 2] + s[e + 2..q] + s[q..q + 1]
  {
  }

  /** What occurs in a suffix occurs in the whole string. */
  lemma ContainsInSuffix(s: string, k: nat, w: string)
    requires k <= |s| && Contains(s[k..], w)
    ensures Contains(s, w)
  {
    var at :| 0 <= at <= |s[k..]| - |w| && OccursAt(s[k..], w, at);
    assert s[k + at..k + at + |w|] == s[k..][at..at + |w|];
    assert OccursAt(s, w, k + at);
  }

  /** Every keyword the scan reports is written out, as `vocab:"text"`, somewhere in the string. */
  lemma {:induction false} FindAllSound(s: string)
    ensures forall i :: 0 <= i < |FindAll(s)| ==> Contains(s, KeywordItem(FindAll(s)[i]))
    decreases |s|
  {
    if s != [] {
      var m := MatchHere(s);
      var rest := if m.Some? then m.value.2 else s[1..];
      var later := FindAll(rest);
      FindAllSound(rest);
      var k := |s| - |rest|;
      if m.Some? {
        MatchHereSound(s);
      }
      assert s[k..] == rest;
      AllInSuffix(s, k, later);
      if m.Some? {
        var x := (m.value.0, m.value.1);
        assert FindAll(s) == [x] + later;
        assert OccursAt(s, KeywordItem(x), 0);
        AllCons(s, x, later);
      }
    }
  }

  /** What is written in a suffix is written in the whole string. */
  lemma AllInSuffix(s: string, k: nat, kws: seq<(string, string)>)
    requires k <= |s| && forall i :: 0 <= i < |kws| ==> Contains(s[k..], KeywordItem(kws[i]))
    ensures forall i :: 0 <= i < |kws| ==> Contains(s, KeywordItem(kws[i]))
  {
    forall i | 0 <= i < |kws| ensures Contains(s, KeywordItem(kws[i])) {
      ContainsInSuffix(s, k, KeywordItem(kws[i]));
    }
  }

  lemma AllCons(s: string, x: (string, string), kws: seq<(string, string)>)
    requires Contains(s, KeywordItem(x))
    requires forall i :: 0 <= i < |kws| ==> Contains(s, KeywordItem(kws[i]))
    ensures forall i :: 0 <= i < |[x] + kws| ==> Contains(s, KeywordItem(([x] + kws)[i]))
  {
    forall i | 0 <= i < |[x] + kws| ensures Contains(s, KeywordItem(([x] + kws)[i])) {
      if i > 0 {
        assert ([x] + kws)[i] == kws[i - 1];
      }
    }
  }

  /** `keyword_entries.sort()`: keywords in the order of `(vocab, value)` tuples. */
  function SortKeywords(kws: seq<(string, string)>): (r: seq<(string, string)>)
    ensures Sorted(r, StrStrLe) && multiset(r) == multiset(kws) && |r| == |kws|
  {
    StrStrOrder();
    var r := Sort(kws, StrStrLe);
    assert |multiset(r)| == |multiset(kws)|;
    r
  }

  // ---------------------------------------------------------------------------
  // reading back what the study builder writes

  /** A keyword the builder can write so that the scan reads it back. */
  predicate Readable(kw: (string, string)) {
    IsVocab(kw.0) && NoQuote(kw.1)
  }

  lemma {:induction false} VocabRunLen(s: string, n: nat)
    requires n < |s| && !VocabChar(s[n]) && forall i :: 0 <= i < n ==> VocabChar(s[i])
    ensures |VocabRun(s)| == n
    decreases n
  {
    if n > 0 {
      VocabRunLen(s[1..], n - 1);
    }
  }

  lemma {:induction false} UntilQuoteLen(s: string, n: nat)
    requires n < |s| && s[n] == '"' && forall i :: 0 <= i < n ==> s[i] != '"'
    ensures |UntilQuote(s)| == n
    decreases n
  {
    if n > 0 {
      UntilQuoteLen(s[1..], n - 1);
    }
  }

  /** One written keyword is matched whole, together with a comma right after it. */
  lemma MatchItem(kw: (string, string), rest: string)
    requires Readable(kw)
    ensures MatchHere(KeywordItem(kw) + rest) ==
      Some((kw.0, kw.1, if rest != [] && rest[0] == ',' then rest[1..] else rest))
  {
    var s := KeywordItem(kw) + rest;
    var e := |kw.0|;
    var q := e + 2 + |kw.1|;
    ItemShape(kw, rest);
    VocabRunLen(s, e);
    UntilQuoteLen(s[e + 2..], |kw.1|);
    var comma := rest != [] && rest[0] == ',';
    assert (q + 1 < |s| && s[q + 1] == ',') == comma by {
      if q + 1 < |s| { assert s[q + 1] == rest[0]; }
    }
    var tail := if comma then rest[1..] else rest;
    assert s[if comma then q + 2 else q + 1..] == tail;
    MatchAt(s, e, q, kw.0, kw.1, tail);
  }

  /** `MatchHere` on a string whose vocabulary run ends at `e` and whose text ends at the quote at `q`. */
  lemma MatchAt(s: string, e: nat, q: nat, vocab: string, text: string, tail: string)
    requires e + 2 <= q < |s| && |VocabRun(s)| == e && s[e] == ':' && s[e + 1] == '"'
    requires |UntilQuote(s[e + 2..])| == q - e - 2
    requires s[..e] == vocab && s[e + 2..q] == text && s[if q + 1 < |s| && s[q + 1] == ',' then q + 2 else q + 1..] == tail
    ensures MatchHere(s) == Some((vocab, text, tail))
  {
  }

  /** A space is never the start of a match. */
  lemma SkipSpace(s: string)
    ensures FindAll(" " + s) == FindAll(s)
  {
    assert VocabRun(" " + s) == [];
    assert (" " + s)[1..] == s;
  }

  /** The scan reads one written keyword and goes on after it and a comma. */
  lemma FindAllItem(kw: (string, string), rest: string)
    requires Readable(kw)
    ensures FindAll(KeywordItem(kw) + rest) ==
      [kw] + FindAll(if rest != [] && rest[0] == ',' then rest[1..] else rest)
  {
    MatchItem(kw, rest);
  }

  /** The rendered text of several keywords: the first, a comma and a space, the rest. */
  lemma KeywordsTextCons(kws: seq<(string, string)>)
    requires |kws| >= 2
    ensures KeywordsText(kws) == KeywordItem(kws[0]) + (", " + KeywordsText(kws[1..]))
  {
    var items := seq(|kws|, i requires 0 <= i < |kws| => KeywordItem(kws[i]));
    var rest := kws[1..];
    var restItems := seq(|rest|, i requires 0 <= i < |rest| => KeywordItem(rest[i]));
    assert items == [KeywordItem(kws[0])] + restItems;
    JoinCons(KeywordItem(kws[0]), restItems, ", ");
  }

  /**
   * Scanning the `Keywords` text the study builder renders gives back its
   * keywords, in order, when each vocabulary is of the class `[a-z-]` and no
   * value holds a double quote.
   */
  lemma {:induction false} FindAllKeywordsText(kws: seq<(string, string)>)
    requires forall i :: 0 <= i < |kws| ==> Readable(kws[i])
    ensures FindAll(KeywordsText(kws)) == kws
    decreases |kws|
  {
    if |kws| == 1 {
      assert KeywordsText(kws) == KeywordItem(kws[0]) + "";
      FindAllItem(kws[0], "");
    } else if |kws| >= 2 {
      KeywordsTextCons(kws);
      FindAllItemThen(kws[0], KeywordsText(kws[1..]));
      FindAllKeywordsText(kws[1..]);
      assert kws == [kws[0]] + kws[1..];
    }
  }

  /** A written keyword, a comma and a space, then more text: the keyword, then what the text holds. */
  lemma FindAllItemThen(kw: (string, string), text: string)
    requires Readable(kw)
    ensures FindAll(KeywordItem(kw) + (", " + text)) == [kw] + FindAll(text)
  {
    FindAllItem(kw, ", " + text);
    assert (", " + text)[1..] == " " + text;
    SkipSpace(text);
  }
}
