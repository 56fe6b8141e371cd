/**
 * The Python 2 string primitives the pipeline relies on (`strip`, `split`, `join`,
 * `replace`, `lower`, `int()`, `'%d' %`, string comparison), each defined once and
 * characterised by what it guarantees rather than by how it scans.
 */
module Text {
  import opened Results

  /** The characters `str.strip()` and `str.split()` treat as whitespace. */
  const Whitespace: set<char> := {' ', '\t', '\n', '\r', '\U{000B}', '\U{000C}'}

  predicate IsSpace(c: char) {
    c in Whitespace
  }

  predicate IsDigit(c: char) {
    '0' <= c <= '9'
  }

  predicate AllDigits(s: string) {
    forall i :: 0 <= i < |s| ==> IsDigit(s[i])
  }

  // ---------------------------------------------------------------------------
  // strip

  /** Removes the leading characters that belong to `cs` (`str.lstrip`). */
  function TrimLeft(s: string, cs: set<char>): (r: string)
    ensures |r| <= |s|
    ensures r == [] || r[0] !in cs
    ensures forall i :: 0 <= i < |s| - |r| ==> s[i] in cs
  {
    if s == [] || s[0] !in cs then s else TrimLeft(s[1..], cs)
  }

  /** What `lstrip` leaves is a suffix of its input. */
  lemma {:induction false} TrimLeftSuffix(s: string, cs: set<char>)
    ensures TrimLeft(s, cs) == s[|s| - |TrimLeft(s, cs)|..]
    decreases |s|
  {
    if s != [] && s[0] in cs {
      TrimLeftSuffix(s[1..], cs);
    }
  }


  /** Removes the trailing characters that belong to `cs` (`str.rstrip`). */
  function TrimRight(s: string, cs: set<char>): (r: string)
    ensures |r| <= |s|
    ensures r == [] || r[|r| - 1] !in cs
    ensures forall i :: |r| <= i < |s| ==> s[i] in cs
  {
    if s == [] || s[|s| - 1] !in cs then s else TrimRight(s[..|s| - 1], cs)
  }

  /** What `rstrip` leaves is a prefix of its input. */
  lemma {:induction false} TrimRightPrefix(s: string, cs: set<char>)
    ensures TrimRight(s, cs) == s[..|TrimRight(s, cs)|]
    decreases |s|
  {
    if s != [] && s[|s| - 1] in cs {
      TrimRightPrefix(s[..|s| - 1], cs);
    }
  }

  /** `s.strip(cs)`: both ends trimmed of the characters in `cs`. */
  function StripChars(s: string, cs: set<char>): (r: string)
    ensures |r| <= |s|
    ensures r == [] || (r[0] !in cs && r[|r| - 1] !in cs)
  {
    TrimRightPrefix(TrimLeft(s, cs), cs);
    TrimRight(TrimLeft(s, cs), cs)
  }

  /** `s.strip()`: both ends trimmed of whitespace. */
  function Strip(s: string): (r: string)
    ensures |r| <= |s|
    ensures r == [] || (!IsSpace(r[0]) && !IsSpace(r[|r| - 1]))
  {
    StripChars(s, Whitespace)
  }

  /** Stripping a string that neither starts nor ends with a character of `cs` is the identity. */
  lemma {:induction false} StripOfClean(s: string, cs: set<char>)
    requires s == [] || (s[0] !in cs && s[|s| - 1] !in cs)
    ensures StripChars(s, cs) == s
  {
  }

  /** An extra stripped character after the string does not change what `strip` leaves. */
  lemma {:induction false} StripCharsAppend(s: string, c: char, cs: set<char>)
    requires c in cs
    ensures StripChars(s + [c], cs) == StripChars(s, cs)
    decreases |s|
  {
    if s == [] {
      assert TrimLeft([c], cs) == TrimLeft([c][1..], cs);
    } else if s[0] in cs {
      assert (s + [c])[1..] == s[1..] + [c];
      StripCharsAppend(s[1..], c, cs);
    } else {
      assert (s + [c])[..|s|] == s;
    }
  }

  /** An extra stripped character before the string does not change what `strip` leaves. */
  lemma StripCharsPrepend(s: string, c: char, cs: set<char>)
    requires c in cs
    ensures StripChars([c] + s, cs) == StripChars(s, cs)
  {
    assert ([c] + s)[1..] == s;
  }

  /** Stripping leaves nothing exactly when every character is one of those stripped. */
  lemma StripCharsEmpty(s: string, cs: set<char>)
    ensures StripChars(s, cs) == [] <==> forall i :: 0 <= i < |s| ==> s[i] in cs
  {
    var l := TrimLeft(s, cs);
    TrimLeftSuffix(s, cs);
    if l != [] {
      assert s[|s| - |l|] == l[0] && l[0] !in cs;
    }
  }

  /** Stripping keeps a slice of the string, so it adds no character. */
  lemma StripCharsKeeps(s: string, cs: set<char>, c: char)
    requires c !in s
    ensures c !in StripChars(s, cs)
  {
    var l := TrimLeft(s, cs);
    var r := TrimRight(l, cs);
    TrimLeftSuffix(s, cs);
    TrimRightPrefix(l, cs);
    assert r == StripChars(s, cs);
    assert forall x :: x in l ==> x in s;
    assert forall x :: x in r ==> x in l;
  }

  // ---------------------------------------------------------------------------
  // split and join

  /** `sep.join(parts)`. */
  function Join(parts: seq<string>, sep: string): string
  {
    if |parts| == 0 then ""
    else if |parts| == 1 then parts[0]
    else parts[0] + sep + Join(parts[1..], sep)
  }

  /** A join of non-empty pieces starts with the first piece's first character. */
  lemma JoinFirst(parts: seq<string>, sep: string)
    requires |parts| >= 1 && parts[0] != []
    ensures |Join(parts, sep)| > 0 && Join(parts, sep)[0] == parts[0][0]
  {
  }

  /** A join of non-empty pieces ends with the last piece's last character. */
  lemma {:induction false} JoinLast(parts: seq<string>, sep: string)
    requires |parts| >= 1 && parts[|parts| - 1] != []
    ensures var j := Join(parts, sep); |j| > 0 && j[|j| - 1] == parts[|parts| - 1][|parts[|parts| - 1]| - 1]
    decreases |parts|
  {
    if |parts| > 1 {
      JoinLast(parts[1..], sep);
    }
  }

  predicate StartsWith(s: string, p: string) {
    |p| <= |s| && s[..|p|] == p
  }

  predicate EndsWith(s: string, p: string) {
    |p| <= |s| && s[|s| - |p|..] == p
  }

  /** `p` occurs in `s` starting at index `i`. */
  predicate OccursAt(s: string, p: string, i: int) {
    0 <= i <= |s| - |p| && s[i..i + |p|] == p
  }

  /** `p in s` for strings: `s` has an occurrence of `p` starting at some index. */
  predicate Contains(s: string, p: string) {
    exists i | 0 <= i <= |s| - |p| :: OccursAt(s, p, i)
  }

  /**
   * `s.split(sep)`: the pieces between the leftmost non-overlapping occurrences of a
   * non-empty separator.
   */
  function Split(s: string, sep: string): (r: seq<string>)
    requires |sep| > 0
    ensures |r| >= 1
    decreases |s|
  {
    if |s| < |sep| then [s]
    else if s[..|sep|] == sep then [""] + Split(s[|sep|..], sep)
    else
      var rest := Split(s[1..], sep);
      [[s[0]] + rest[0]] + rest[1..]
  }

  /** Joining the pieces of a split with the same separator gives back the string. */
  lemma {:induction false} JoinSplit(s: string, sep: string)
    requires |sep| > 0
    ensures Join(Split(s, sep), sep) == s
    decreases |s|
  {
    if |s| < |sep| {
    } else if s[..|sep|] == sep {
      var rest := Split(s[|sep|..], sep);
      JoinSplit(s[|sep|..], sep);
      assert Split(s, sep) == [""] + rest;
      assert ([""] + rest)[1..] == rest;
      assert s == "" + sep + s[|sep|..];
    } else {
      var rest := Split(s[1..], sep);
      JoinSplit(s[1..], sep);
      JoinExtendFirst(s[0], rest, sep);
      assert s == [s[0]] + s[1..];
    }
  }

  /** A character added to the front of the first part is added to the front of the join. */
  lemma JoinExtendFirst(c: char, parts: seq<string>, sep: string)
    requires |parts| >= 1
    ensures Join([[c] + parts[0]] + parts[1..], sep) == [c] + Join(parts, sep)
  {
    var ext := [[c] + parts[0]] + parts[1..];
    assert ext[1..] == parts[1..];
    if |parts| > 1 {
      assert Join(parts, sep) == parts[0] + sep + Join(parts[1..], sep);
      assert Join(ext, sep) == [c] + parts[0] + sep + Join(parts[1..], sep);
    }
  }

  /** Number of occurrences of `c` in `s`. */
  function Count(s: string, c: char): nat
  {
    if s == [] then 0 else (if s[0] == c then 1 else 0) + Count(s[1..], c)
  }

  /** Splitting on a one-character delimiter gives one more piece than there are delimiters. */
  lemma {:induction false} SplitCharCount(s: string, c: char)
    ensures |Split(s, [c])| == Count(s, c) + 1
    decreases |s|
  {
    if |s| < 1 {
    } else if s[..1] == [c] {
      SplitCharCount(s[1..], c);
    } else {
      SplitCharCount(s[1..], c);
    }
  }

  /** No piece of a split on a one-character delimiter contains that delimiter. */
  lemma {:induction false} SplitCharPieces(s: string, c: char)
    ensures forall p :: p in Split(s, [c]) ==> c !in p
    decreases |s|
  {
    if |s| < 1 {
    } else if s[..1] == [c] {
      SplitCharPieces(s[1..], c);
    } else {
      SplitCharPieces(s[1..], c);
      var rest := Split(s[1..], [c]);
      assert s[0] != c;
      forall p | p in Split(s, [c]) ensures c !in p {
        if p != [s[0]] + rest[0] {
          assert p in rest[1..];
        }
      }
    }
  }

  /** Splitting a join on a delimiter that no part contains gives back the parts. */
  lemma {:induction false} SplitJoin(parts: seq<string>, c: char)
    requires |parts| >= 1
    requires forall i :: 0 <= i < |parts| ==> c !in parts[i]
    ensures Split(Join(parts, [c]), [c]) == parts
    decreases |parts|, |parts[0]|
  {
    var p := parts[0];
    if |parts| == 1 {
      SplitNoSep(p, c);
    } else if p == [] {
      var tail := Join(parts[1..], [c]);
      assert Join(parts, [c]) == [c] + tail;
      SplitJoin(parts[1..], c);
      assert ([c] + tail)[1..] == tail;
      assert parts == [""] + parts[1..];
    } else {
      var s := Join(parts, [c]);
      var parts' := [p[1..]] + parts[1..];
      assert Join(parts', [c]) == p[1..] + [c] + Join(parts[1..], [c]);
      assert s == [p[0]] + Join(parts', [c]);
      assert s[1..] == Join(parts', [c]);
      assert c !in p[1..] by {
        assert forall x :: x in p[1..] ==> x in p;
      }
      forall i | 0 <= i < |parts'| ensures c !in parts'[i] {
        if i > 0 { assert parts'[i] == parts[i]; }
      }
      SplitJoin(parts', c);
      assert s[..1] == [p[0]] && p[0] != c;
      assert [p[0]] + p[1..] == p;
      assert parts == [[p[0]] + parts'[0]] + parts'[1..];
    }
  }

  lemma {:induction false} SplitNoSep(s: string, c: char)
    requires c !in s
    ensures Split(s, [c]) == [s]
    decreases |s|
  {
    if |s| >= 1 {
      assert s[..1] != [c] by { assert s[0] in s; }
      assert c !in s[1..] by { assert forall x :: x in s[1..] ==> x in s; }
      SplitNoSep(s[1..], c);
      assert s == [s[0]] + s[1..];
    }
  }

  // ---------------------------------------------------------------------------
  // replace, lower, whitespace-separated words

  /** `s.replace(pat, by)`: leftmost non-overlapping occurrences replaced. */
  function ReplaceAll(s: string, pat: string, repl: string): string
    requires |pat| > 0
    decreases |s|
  {
    if |s| < |pat| then s
    else if s[..|pat|] == pat then repl + ReplaceAll(s[|pat|..], pat, repl)
    else [s[0]] + ReplaceAll(s[1..], pat, repl)
  }

  /** Joining a part onto a non-empty list puts the separator between them. */
  lemma JoinCons(p: string, rest: seq<string>, sep: string)
    requires |rest| >= 1
    ensures Join([p] + rest, sep) == p + sep + Join(rest, sep)
  {
    assert ([p] + rest)[1..] == rest;
  }

  /** Replacing is splitting on the pattern and joining with the replacement. */
  lemma {:induction false} ReplaceIsSplitJoin(s: string, pat: string, repl: string)
    requires |pat| > 0
    ensures ReplaceAll(s, pat, repl) == Join(Split(s, pat), repl)
    decreases |s|
  {
    if |s| < |pat| {
    } else if s[..|pat|] == pat {
      ReplaceIsSplitJoin(s[|pat|..], pat, repl);
      JoinCons("", Split(s[|pat|..], pat), repl);
    } else {
      ReplaceIsSplitJoin(s[1..], pat, repl);
      var rest := Split(s[1..], pat);
      if |rest| == 1 {
        assert Split(s, pat) == [[s[0]] + rest[0]];
      } else {
        JoinCons(rest[0], rest[1..], repl);
        assert rest == [rest[0]] + rest[1..];
        JoinCons([s[0]] + rest[0], rest[1..], repl);
      }
    }
  }

  /** Removing a character: what `s.replace(' ', '')` computes for a one-character pattern. */
  lemma {:induction false} ReplaceCharByNothing(s: string, c: char)
    ensures c !in ReplaceAll(s, [c], "")
    ensures |ReplaceAll(s, [c], "")| == |s| - Count(s, c)
    decreases |s|
  {
    if |s| >= 1 {
      ReplaceCharByNothing(s[1..], c);
    }
  }

  function LowerChar(c: char): char {
    if 'A' <= c <= 'Z' then (c as int + 32) as char else c
  }

  /** `s.lower()` on byte strings: ASCII letters only. */
  function Lower(s: string): (r: string)
    ensures |r| == |s|
    ensures forall i :: 0 <= i < |s| ==> r[i] == LowerChar(s[i])
  {
    seq(|s|, i requires 0 <= i < |s| => LowerChar(s[i]))
  }

  lemma LowerCharBlank(c: char)
    ensures LowerChar(c) in Whitespace <==> c in Whitespace
  {
  }

  /** Lower-casing turns no character into whitespace and no whitespace into anything else. */
  lemma LowerKeepsBlank(s: string)
    ensures Strip(Lower(s)) == [] <==> Strip(s) == []
  {
    StripCharsEmpty(s, Whitespace);
    StripCharsEmpty(Lower(s), Whitespace);
    var t := Lower(s);
    forall i | 0 <= i < |s| ensures t[i] in Whitespace <==> s[i] in Whitespace {
      LowerCharBlank(s[i]);
    }
  }

  /** Leading run of non-whitespace characters. */
  function Word(s: string): (r: string)
    ensures |r| <= |s| && r == s[..|r|]
    ensures forall i :: 0 <= i < |r| ==> !IsSpace(r[i])
    ensures |r| < |s| ==> IsSpace(s[|r|])
  {
    if s == [] || IsSpace(s[0]) then [] else [s[0]] + Word(s[1..])
  }

  /** A non-empty run of non-whitespace characters. */
  predicate IsWord(w: string) {
    |w| > 0 && forall j :: 0 <= j < |w| ==> !IsSpace(w[j])
  }

  /** `s.split()` with no separator: the maximal runs of non-whitespace characters. */
  function Words(s: string): (r: seq<string>)
    ensures forall i :: 0 <= i < |r| ==> IsWord(r[i])
    decreases |s|
  {
    var t := TrimLeft(s, Whitespace);
    if t == [] then []
    else
      var w := Word(t);
      assert |w| > 0;
      var rest := Words(t[|w|..]);
      WordsCons(w, rest);
      [w] + rest
  }

  lemma WordsCons(w: string, rest: seq<string>)
    requires IsWord(w) && forall i :: 0 <= i < |rest| ==> IsWord(rest[i])
    ensures forall i :: 0 <= i < |[w] + rest| ==> IsWord(([w] + rest)[i])
  {
  }

  // ---------------------------------------------------------------------------
  // int() and '%d'

  function DigitsValue(d: string): nat
    requires AllDigits(d)
  {
    if d == [] then 0 else DigitsValue(d[..|d| - 1]) * 10 + (d[|d| - 1] as int - '0' as int)
  }

  /**
   * Python 2's `int(s)`: surrounding whitespace, an optional sign, whitespace again
   * (the sign is read before the digits' own whitespace is skipped, so
   * `int('- 1') == -1`), then at least one decimal digit; anything else is a
   * `ValueError` (here `None`).
   */
  function PyInt(s: string): Option<int>
  {
    var t := Strip(s);
    if |t| > 0 && (t[0] == '-' || t[0] == '+') then
      if SignedDigits(t[1..]) then
        var v: int := DigitsValue(SkipSpace(t[1..]));
        Some(if t[0] == '-' then -v else v)
      else None
    else if |t| > 0 && AllDigits(t) then
      Some(DigitsValue(t))
    else None
  }

  /** What `int()` skips between the sign and the digits (`lstrip()`). */
  function SkipSpace(s: string): string
  {
    if s != [] && IsSpace(s[0]) then SkipSpace(s[1..]) else s
  }

  /** What follows the sign: whitespace, then at least one digit. */
  predicate SignedDigits(rest: string) {
    var u := SkipSpace(rest);
    |u| > 0 && AllDigits(u)
  }

  function DigitChar(d: nat): char
    requires d < 10
  {
    ('0' as int + d) as char
  }

  /** `'%d' % n` for a natural number. */
  function NatToString(n: nat): (r: string)
    ensures |r| > 0 && AllDigits(r)
  {
    if n < 10 then [DigitChar(n)] else NatToString(n / 10) + [DigitChar(n % 10)]
  }

  lemma {:induction false} NatToStringValue(n: nat)
    ensures DigitsValue(NatToString(n)) == n
  {
    var r := NatToString(n);
    if n >= 10 {
      NatToStringValue(n / 10);
      assert r[..|r| - 1] == NatToString(n / 10);
    } else {
      assert r[..|r| - 1] == [];
    }
  }

  /** `int('%d' % n) == n`. */
  lemma NatToStringRoundTrip(n: nat)
    ensures PyInt(NatToString(n)) == Some(n)
  {
    var r := NatToString(n);
    assert !IsSpace(r[0]) && !IsSpace(r[|r| - 1]);
    StripOfClean(r, Whitespace);
    NatToStringValue(n);
  }

  /** Whitespace in front of a non-space is skipped whole. */
  lemma {:induction false} SkipSpaceRun(w: string, d: string)
    requires forall i :: 0 <= i < |w| ==> IsSpace(w[i])
    requires |d| > 0 && !IsSpace(d[0])
    ensures SkipSpace(w + d) == d
  {
    if w != [] {
      assert (w + d)[1..] == w[1..] + d;
      SkipSpaceRun(w[1..], d);
    } else {
      assert w + d == d;
    }
  }

  /** A sign, any whitespace, then digits: `int('- 1') == -1` in Python 2, as `int('-1')`. */
  lemma {:induction false} PyIntSigned(t: string, sign: char, w: string, d: string)
    requires t == [sign] + w + d && (sign == '-' || sign == '+')
    requires forall i :: 0 <= i < |w| ==> IsSpace(w[i])
    requires |d| > 0 && AllDigits(d)
    ensures var v: int := DigitsValue(d); PyInt(t) == Some(if sign == '-' then -v else v)
  {
    assert IsDigit(d[|d| - 1]);
    assert t[0] == sign && t[|t| - 1] == d[|d| - 1];
    StripOfClean(t, Whitespace);
    assert t[1..] == w + d;
    assert IsDigit(d[0]);
    SkipSpaceRun(w, d);
    PyIntOfSigned(t, d);
  }


  /** `int` of a stripped string that starts with a sign. */
  lemma {:induction false} PyIntOfSigned(t: string, d: string)
    requires Strip(t) == t && |t| > 1 && (t[0] == '-' || t[0] == '+')
    requires SkipSpace(t[1..]) == d && |d| > 0 && AllDigits(d)
    ensures var v: int := DigitsValue(d); PyInt(t) == Some(if t[0] == '-' then -v else v)
  {
  }

  /** A formatted number contains neither a delimiter such as `/` nor a space. */
  lemma NatToStringHasNoSlash(n: nat)
    ensures '/' !in NatToString(n)
  {
    var r := NatToString(n);
    forall i | 0 <= i < |r| ensures r[i] != '/' {
      assert IsDigit(r[i]);
    }
  }

  // ---------------------------------------------------------------------------
  // string order

  /** Python's `<=` on strings: lexicographic by character code, a prefix first. */
  predicate StrLe(a: string, b: string)
    decreases |a|
  {
    if a == [] then true
    else if b == [] then false
    else if a[0] == b[0] then StrLe(a[1..], b[1..])
    else a[0] < b[0]
  }

  lemma {:induction false} StrLeRefl(a: string)
    ensures StrLe(a, a)
    decreases |a|
  {
    if a != [] { StrLeRefl(a[1..]); }
  }

  lemma {:induction false} StrLeTotal(a: string, b: string)
    ensures StrLe(a, b) || StrLe(b, a)
    decreases |a|
  {
    if a != [] && b != [] && a[0] == b[0] { StrLeTotal(a[1..], b[1..]); }
  }

  lemma {:induction false} StrLeAntisym(a: string, b: string)
    requires StrLe(a, b) && StrLe(b, a)
    ensures a == b
    decreases |a|
  {
    if a != [] && b != [] {
      StrLeAntisym(a[1..], b[1..]);
      assert a == [a[0]] + a[1..] && b == [b[0]] + b[1..];
    }
  }

  lemma {:induction false} StrLeTrans(a: string, b: string, c: string)
    requires StrLe(a, b) && StrLe(b, c)
    ensures StrLe(a, c)
    decreases |a|
  {
    if a != [] && b != [] && c != [] && a[0] == b[0] && b[0] == c[0] {
      StrLeTrans(a[1..], b[1..], c[1..]);
    }
  }

  /** `min(xs)` on a non-empty list of strings. */
  function MinStr(xs: seq<string>): (r: string)
    requires |xs| > 0
    ensures r in xs
    ensures forall x :: x in xs ==> StrLe(r, x)
  {
    if |xs| == 1 then
      StrLeRefl(xs[0]);
      xs[0]
    else
      var m := MinStr(xs[1..]);
      StrLeTotal(xs[0], m);
      if StrLe(xs[0], m) then
        StrLeRefl(xs[0]);
        forall x | x in xs[1..] ensures StrLe(xs[0], x) { StrLeTrans(xs[0], m, x); }
        xs[0]
      else
        StrLeRefl(xs[0]);
        m
  }

  /** `max(xs)` on a non-empty list of strings. */
  function MaxStr(xs: seq<string>): (r: string)
    requires |xs| > 0
    ensures r in xs
    ensures forall x :: x in xs ==> StrLe(x, r)
  {
    if |xs| == 1 then
      StrLeRefl(xs[0]);
      xs[0]
    else
      var m := MaxStr(xs[1..]);
      StrLeTotal(xs[0], m);
      if StrLe(m, xs[0]) then
        StrLeRefl(xs[0]);
        forall x | x in xs[1..] ensures StrLe(x, xs[0]) { StrLeTrans(x, m, xs[0]); }
        xs[0]
      else
        StrLeRefl(xs[0]);
        m
  }
}
