/**
 * JSON documents as values, and `json.dumps(v, sort_keys=True)` as a token
 * stream. The decoder below reads a stream back, which shows the key-sorted
 * serialisation is one-to-one: two documents serialise alike exactly when they
 * are the same document.
 */
module Json {
  import opened Results
  import opened Text
  import opened Ordering

  /** A decoded JSON document. Python's `None` and JSON `null` are both `JNull`. */
  datatype JValue =
    | JNull
    | JBool(b: bool)
    | JInt(n: int)
    | JStr(s: string)
    | JList(items: seq<JValue>)
    | JObj(fields: map<string, JValue>)

  /** The lexical units of serialised JSON; layout and escaping are below this level. */
  datatype Token =
    | TNull | TTrue | TFalse | TNum(n: int) | TStr(s: string)
    | TOpenList | TCloseList | TOpenObj | TCloseObj | TColon | TComma

  // ---------------------------------------------------------------------------
  // serialisation with sorted keys

  function Dumps(v: JValue): (r: seq<Token>)
    ensures |r| > 0 && r[0] != TCloseList && r[0] != TCloseObj && r[0] != TComma
    decreases v, 1
  {
    match v
    case JNull => [TNull]
    case JBool(b) => [if b then TTrue else TFalse]
    case JInt(n) => [TNum(n)]
    case JStr(s) => [TStr(s)]
    case JList(items) => [TOpenList] + DumpItems(items) + [TCloseList]
    case JObj(fields) => [TOpenObj] + DumpMembers(v, SortedSet(fields.Keys)) + [TCloseObj]
  }

  /** The items of a list, separated by commas. */
  function DumpItems(items: seq<JValue>): seq<Token>
    decreases items, 0
  {
    if items == [] then []
    else if |items| == 1 then Dumps(items[0])
    else Dumps(items[0]) + [TComma] + DumpItems(items[1..])
  }

  /** The `"key": value` members of an object for the listed keys, separated by commas. */
  function DumpMembers(obj: JValue, keys: seq<string>): seq<Token>
    requires obj.JObj? && forall k :: k in keys ==> k in obj.fields
    decreases obj, 0, |keys|
  {
    if keys == [] then []
    else
      var member := [TStr(keys[0]), TColon] + Dumps(obj.fields[keys[0]]);
      if |keys| == 1 then member else member + [TComma] + DumpMembers(obj, keys[1..])
  }

  // ---------------------------------------------------------------------------
  // decoding

  /** Reads one document from the front of `ts`, returning it with the tokens after it. */
  function ParseValue(ts: seq<Token>): (r: Option<(JValue, seq<Token>)>)
    ensures r.Some? ==> |r.value.1| < |ts|
    decreases |ts|, 0
  {
    if ts == [] then None
    else match ts[0]
      case TNull => Some((JNull, ts[1..]))
      case TTrue => Some((JBool(true), ts[1..]))
      case TFalse => Some((JBool(false), ts[1..]))
      case TNum(n) => Some((JInt(n), ts[1..]))
      case TStr(s) => Some((JStr(s), ts[1..]))
      case TOpenList =>
        if |ts| > 1 && ts[1] == TCloseList then Some((JList([]), ts[2..]))
        else ParseItems(ts[1..], [])
      case TOpenObj =>
        if |ts| > 1 && ts[1] == TCloseObj then Some((JObj(map[]), ts[2..]))
        else ParseMembers(ts[1..], map[])
      case _ => None
  }

  /** Reads list items up to the closing bracket; `acc` holds the items read so far. */
  function ParseItems(ts: seq<Token>, acc: seq<JValue>): (r: Option<(JValue, seq<Token>)>)
    ensures r.Some? ==> |r.value.1| < |ts|
    decreases |ts|, 1
  {
    match ParseValue(ts)
    case None => None
    case Some((x, rest)) =>
      if rest == [] then None
      else if rest[0] == TCloseList then Some((JList(acc + [x]), rest[1..]))
      else if rest[0] == TComma then ParseItems(rest[1..], acc + [x])
      else None
  }

  /** Reads object members up to the closing brace; `acc` holds the members read so far. */
  function ParseMembers(ts: seq<Token>, acc: map<string, JValue>): (r: Option<(JValue, seq<Token>)>)
    ensures r.Some? ==> |r.value.1| < |ts|
    decreases |ts|, 1
  {
    if |ts| < 2 || !ts[0].TStr? || ts[1] != TColon then None
    else match ParseValue(ts[2..])
      case None => None
      case Some((x, rest)) =>
        var acc' := acc[ts[0].s := x];
        if rest == [] then None
        else if rest[0] == TCloseObj then Some((JObj(acc'), rest[1..]))
        else if rest[0] == TComma then ParseMembers(rest[1..], acc')
        else None
  }

  // ---------------------------------------------------------------------------
  // round trip

  /** A list opening with an item is read item by item. */
  lemma ParseValueOpenList(ts: seq<Token>)
    requires |ts| > 1 && ts[0] == TOpenList && ts[1] != TCloseList
    ensures ParseValue(ts) == ParseItems(ts[1..], [])
  {
  }

  /** An object opening with a member is read member by member. */
  lemma ParseValueOpenObj(ts: seq<Token>)
    requires |ts| > 1 && ts[0] == TOpenObj && ts[1] != TCloseObj
    ensures ParseValue(ts) == ParseMembers(ts[1..], map[])
  {
  }

  /** Decoding the serialisation of a document gives the document back. */
  lemma {:induction false} ParseDumps(v: JValue, rest: seq<Token>)
    ensures ParseValue(Dumps(v) + rest) == Some((v, rest))
    decreases v, 2
  {
    match v
    case JNull =>
    case JBool(_) =>
    case JInt(_) =>
    case JStr(_) =>
    case JList(items) => ParseDumpsList(items, rest);
    case JObj(_) => ParseDumpsObj(v, rest);
  }

  lemma {:induction false} ParseDumpsList(items: seq<JValue>, rest: seq<Token>)
    ensures ParseValue(Dumps(JList(items)) + rest) == Some((JList(items), rest))
    decreases items, 2
  {
    var ts := Dumps(JList(items)) + rest;
    if items == [] {
      assert ts == [TOpenList, TCloseList] + rest by { assert DumpItems(items) == []; }
    } else {
      var inner := DumpItems(items) + ([TCloseList] + rest);
      assert ts == [TOpenList] + inner;
      assert ts[1..] == inner;
      DumpItemsHead(items, [TCloseList] + rest);
      ParseValueOpenList(ts);
      ParseDumpItems(items, [], rest);
      assert [] + items == items;
    }
  }

  lemma {:induction false} ParseDumpsObj(v: JValue, rest: seq<Token>)
    requires v.JObj?
    ensures ParseValue(Dumps(v) + rest) == Some((v, rest))
    decreases v, 1
  {
    var keys := SortedSet(v.fields.Keys);
    if keys == [] {
      assert v.fields == map[] by { assert forall k :: k in v.fields ==> k in keys; }
      assert Dumps(v) + rest == [TOpenObj, TCloseObj] + rest;
    } else {
      var inner := DumpMembers(v, keys) + ([TCloseObj] + rest);
      DumpsObj(v, rest);
      DumpMembersHead(v, keys, [TCloseObj] + rest);
      ParseValueOpenObj([TOpenObj] + inner);
      ParseDumpMembers(v, keys, map[], rest);
      SelectAll(v, keys);
    }
  }

  /** How an object serialises: its members in key order between braces. */
  lemma DumpsObj(v: JValue, rest: seq<Token>)
    requires v.JObj?
    ensures Dumps(v) + rest == [TOpenObj] + (DumpMembers(v, SortedSet(v.fields.Keys)) + ([TCloseObj] + rest))
  {
  }

  /** A non-empty list of items serialises to something that does not start with `]`. */
  lemma DumpItemsHead(items: seq<JValue>, more: seq<Token>)
    requires items != []
    ensures (DumpItems(items) + more)[0] != TCloseList
  {
    if |items| > 1 {
      assert DumpItems(items) + more == Dumps(items[0]) + ([TComma] + DumpItems(items[1..]) + more);
    }
  }

  /** A non-empty member list serialises to something that starts with a key. */
  lemma DumpMembersHead(obj: JValue, keys: seq<string>, more: seq<Token>)
    requires obj.JObj? && keys != [] && forall k :: k in keys ==> k in obj.fields
    ensures (DumpMembers(obj, keys) + more)[0] == TStr(keys[0])
  {
  }

  /** Reading a value followed by a separator hands the tokens after the separator on. */
  lemma ParseItemsStep(ts: seq<Token>, acc: seq<JValue>, x: JValue, after: seq<Token>)
    requires ParseValue(ts) == Some((x, after)) && after != []
    ensures after[0] == TCloseList ==> ParseItems(ts, acc) == Some((JList(acc + [x]), after[1..]))
    ensures after[0] == TComma ==> ParseItems(ts, acc) == ParseItems(after[1..], acc + [x])
  {
  }

  /** How a list of two or more items serialises. */
  lemma DumpItemsCons(items: seq<JValue>, more: seq<Token>)
    requires |items| > 1
    ensures DumpItems(items) + more == Dumps(items[0]) + ([TComma] + (DumpItems(items[1..]) + more))
  {
    var head := Dumps(items[0]);
    var tail := DumpItems(items[1..]);
    assert DumpItems(items) == head + [TComma] + tail;
    Assoc3(head, [TComma], tail, more);
  }

  /** Concatenation of four sequences regrouped to the right. */
  lemma Assoc3<T>(a: seq<T>, b: seq<T>, c: seq<T>, d: seq<T>)
    ensures a + b + c + d == a + (b + (c + d))
  {
  }

  lemma {:induction false} ParseDumpItems(items: seq<JValue>, acc: seq<JValue>, rest: seq<Token>)
    requires items != []
    ensures ParseItems(DumpItems(items) + ([TCloseList] + rest), acc) == Some((JList(acc + items), rest))
    decreases items, 0
  {
    var x := items[0];
    var ts := DumpItems(items) + ([TCloseList] + rest);
    if |items| == 1 {
      var after := [TCloseList] + rest;
      assert ts == Dumps(x) + after by { assert DumpItems(items) == Dumps(x); }
      ParseDumps(x, after);
      ParseItemsStep(ts, acc, x, after);
      assert after[1..] == rest;
      assert acc + items == acc + [x];
    } else {
      var tail := DumpItems(items[1..]) + ([TCloseList] + rest);
      var after := [TComma] + tail;
      DumpItemsCons(items, [TCloseList] + rest);
      ParseDumps(x, after);
      ParseItemsStep(ts, acc, x, after);
      assert after[1..] == tail;
      ParseDumpItems(items[1..], acc + [x], rest);
      assert acc + [x] + items[1..] == acc + items;
    }
  }

  /** The members of `obj` under the listed keys. */
  function Select(obj: JValue, keys: seq<string>): (m: map<string, JValue>)
    requires obj.JObj? && forall k :: k in keys ==> k in obj.fields
    ensures forall k :: k in m <==> k in keys
    ensures forall k :: k in m ==> m[k] == obj.fields[k]
  {
    map k | k in keys :: obj.fields[k]
  }

  /** Selecting every key of an object gives the object's members. */
  lemma SelectAll(obj: JValue, keys: seq<string>)
    requires obj.JObj? && forall k :: k in keys <==> k in obj.fields
    ensures map[] + Select(obj, keys) == obj.fields
  {
    var m := map[] + Select(obj, keys);
    assert forall k :: k in m <==> k in obj.fields;
  }

  /** Adding the first key's member, then the others', adds them all. */
  lemma SelectCons(obj: JValue, keys: seq<string>, acc: map<string, JValue>)
    requires obj.JObj? && |keys| > 1 && forall k :: k in keys ==> k in obj.fields
    ensures acc[keys[0] := obj.fields[keys[0]]] + Select(obj, keys[1..]) == acc + Select(obj, keys)
  {
    var l := acc[keys[0] := obj.fields[keys[0]]] + Select(obj, keys[1..]);
    var r := acc + Select(obj, keys);
    assert forall k :: k in keys <==> k == keys[0] || k in keys[1..];
    assert forall k :: k in l <==> k in r;
  }

  /** Selecting the one key of a singleton list. */
  lemma SelectOne(obj: JValue, keys: seq<string>, acc: map<string, JValue>)
    requires obj.JObj? && |keys| == 1 && keys[0] in obj.fields
    ensures acc[keys[0] := obj.fields[keys[0]]] == acc + Select(obj, keys)
  {
    var l := acc[keys[0] := obj.fields[keys[0]]];
    var r := acc + Select(obj, keys);
    assert forall k :: k in keys <==> k == keys[0];
    assert forall k :: k in l <==> k in r;
  }

  /** Reading a member followed by a separator hands the tokens after the separator on. */
  lemma ParseMembersStep(ts: seq<Token>, acc: map<string, JValue>, k: string, body: seq<Token>,
                         x: JValue, after: seq<Token>)
    requires ts == [TStr(k), TColon] + body
    requires ParseValue(body) == Some((x, after)) && after != []
    ensures after[0] == TCloseObj ==> ParseMembers(ts, acc) == Some((JObj(acc[k := x]), after[1..]))
    ensures after[0] == TComma ==> ParseMembers(ts, acc) == ParseMembers(after[1..], acc[k := x])
  {
    assert ts[2..] == body;
  }

  /** The serialisation of the members for a single key. */
  lemma DumpMembersOne(obj: JValue, keys: seq<string>)
    requires obj.JObj? && |keys| == 1 && keys[0] in obj.fields
    ensures DumpMembers(obj, keys) == [TStr(keys[0]), TColon] + Dumps(obj.fields[keys[0]])
  {
  }

  /** The serialisation of the members for two or more keys. */
  lemma DumpMembersMore(obj: JValue, keys: seq<string>)
    requires obj.JObj? && |keys| > 1 && forall k :: k in keys ==> k in obj.fields
    ensures DumpMembers(obj, keys)
         == [TStr(keys[0]), TColon] + Dumps(obj.fields[keys[0]]) + [TComma] + DumpMembers(obj, keys[1..])
  {
  }

  /** Reading back the members of an object, the first of which is `keys[0]`'s. */
  lemma {:induction false} ParseDumpMembers(obj: JValue, keys: seq<string>, acc: map<string, JValue>,
                                            rest: seq<Token>)
    requires obj.JObj? && keys != [] && forall k :: k in keys ==> k in obj.fields
    ensures ParseMembers(DumpMembers(obj, keys) + ([TCloseObj] + rest), acc)
         == Some((JObj(acc + Select(obj, keys)), rest))
    decreases obj, 0, |keys|
  {
    if |keys| == 1 {
      ParseDumpMemberLast(obj, keys, acc, rest);
    } else {
      var k0 := keys[0];
      var x := obj.fields[k0];
      var ts := DumpMembers(obj, keys) + ([TCloseObj] + rest);
      var tail := DumpMembers(obj, keys[1..]) + ([TCloseObj] + rest);
      var after := [TComma] + tail;
      DumpMembersMore(obj, keys);
      assert ts == [TStr(k0), TColon] + (Dumps(x) + after);
      ParseDumps(x, after);
      ParseMembersStep(ts, acc, k0, Dumps(x) + after, x, after);
      assert after[1..] == tail;
      ParseDumpMembers(obj, keys[1..], acc[k0 := x], rest);
      SelectCons(obj, keys, acc);
    }
  }

  /** Reading back the last member of an object. */
  lemma {:induction false} ParseDumpMemberLast(obj: JValue, keys: seq<string>, acc: map<string, JValue>,
                                               rest: seq<Token>)
    requires obj.JObj? && |keys| == 1 && keys[0] in obj.fields
    ensures ParseMembers(DumpMembers(obj, keys) + ([TCloseObj] + rest), acc)
         == Some((JObj(acc + Select(obj, keys)), rest))
    decreases obj, 0, 0
  {
    var k0 := keys[0];
    var x := obj.fields[k0];
    var ts := DumpMembers(obj, keys) + ([TCloseObj] + rest);
    var after := [TCloseObj] + rest;
    DumpMembersOne(obj, keys);
    assert ts == [TStr(k0), TColon] + (Dumps(x) + after);
    ParseDumps(x, after);
    ParseMembersStep(ts, acc, k0, Dumps(x) + after, x, after);
    assert after[1..] == rest;
    SelectOne(obj, keys, acc);
  }

  // ---------------------------------------------------------------------------
  // jsondiff

  /**
   * `jsondiff(a, b)`: no line of difference between the key-sorted, indented
   * serialisations, which is the same as the two serialisations being equal.
   */
  predicate JsonDiff(a: JValue, b: JValue) {
    Dumps(a) == Dumps(b)
  }

  /** Two documents compare unchanged exactly when they are the same document. */
  lemma JsonDiffIsEquality(a: JValue, b: JValue)
    ensures JsonDiff(a, b) <==> a == b
  {
    if JsonDiff(a, b) {
      ParseDumps(a, []);
      ParseDumps(b, []);
      assert Dumps(a) + [] == Dumps(b) + [];
    }
  }

  /** List order and length count: lists compare unchanged only item by item. */
  lemma JsonDiffListsItemwise(xs: seq<JValue>, ys: seq<JValue>)
    ensures JsonDiff(JList(xs), JList(ys)) <==> |xs| == |ys| && forall i :: 0 <= i < |xs| ==> JsonDiff(xs[i], ys[i])
  {
    JsonDiffIsEquality(JList(xs), JList(ys));
    forall i | 0 <= i < |xs| && i < |ys| ensures JsonDiff(xs[i], ys[i]) <==> xs[i] == ys[i] {
      JsonDiffIsEquality(xs[i], ys[i]);
    }
    if |xs| == |ys| && forall i :: 0 <= i < |xs| ==> JsonDiff(xs[i], ys[i]) {
      assert xs == ys;
    }
  }

  // ---------------------------------------------------------------------------
  // Python operations on decoded values used by the pipeline

  /** The exceptions the modelled code can raise. */
  datatype PyError =
    | KeyError | IndexError | TypeError | AttributeError | ValueError | NameError
    | RuntimeError(reason: string)

  /** `d[key]` on a decoded value: a `KeyError` when absent, a `TypeError` when `d` is not an object. */
  function Index(d: JValue, key: string): (r: Result<JValue, PyError>)
    ensures r.Ok? <==> d.JObj? && key in d.fields
    ensures r.Ok? ==> r.value == d.fields[key]
  {
    if !d.JObj? then Err(TypeError)
    else if key in d.fields then Ok(d.fields[key])
    else Err(KeyError)
  }

  /** `len(x)`: the size of a list, object or string; a `TypeError` otherwise. */
  function Len(x: JValue): (r: Result<nat, PyError>)
    ensures r.Ok? <==> (x.JList? || x.JObj? || x.JStr?)
    ensures x.JList? ==> r == Ok(|x.items|)
  {
    match x
    case JList(items) => Ok(|items|)
    case JObj(fields) => Ok(|fields.Keys|)
    case JStr(s) => Ok(|s|)
    case _ => Err(TypeError)
  }
}
