/**
 * `update.py`: keeping the volatile citation dates of a published study in
 * the metadata about to be pushed (`avoid_update_on_dates`), and the per-row
 * bookkeeping of `update` and of the driver loop. The Dataverse server, the
 * resolver's search, the clock and the timeout alarm are parameters.
 */
module Update {
  import opened Results
  import opened Text
  import opened Json
  import opened JsonUtils
  import opened KeyPaths
  import opened Ordering

  /** `citation_date_fields`. */
  const DateFields: seq<string> := ["dateOfDeposit", "distributionDate"]

  /** The keys of `citation_path = 'metadataBlocks/citation/fields'`. */
  const CitationKeys: seq<string> := ["metadataBlocks", "citation", "fields"]

  // ---------------------------------------------------------------------------
  // the citation fields list

  /** `jpath(metadata, citation_path)`: the node the keys reach, `None` when they reach nothing. */
  function CitationNode(meta: JValue): JValue {
    var r := Reach(meta, CitationKeys);
    if r.Some? then r.value else JNull
  }

  /** The walk of `jpath` along segments that are not numbers is `Reach`, with `None` for nothing. */
  lemma {:induction false} GetPlain(elem: JValue, keys: seq<string>)
    requires forall i :: 0 <= i < |keys| ==> PyInt(keys[i]).None?
    ensures Get(elem, Segments(keys)) == Ok(if Reach(elem, keys).Some? then Reach(elem, keys).value else JNull)
    decreases |keys|
  {
    if keys != [] {
      assert Segments(keys)[1..] == Segments(keys[1..]);
      if elem.JObj? && keys[0] in elem.fields {
        GetPlain(elem.fields[keys[0]], keys[1..]);
      } else if elem.JObj? {
        GetPlain(JNull, keys[1..]);
      }
    }
  }

  lemma CitationKeyPlain(k: string)
    requires k in CitationKeys
    ensures PlainKey(k)
  {
    PlainKeyOf(k);
  }

  lemma ThreePlain(a: string, b: string, c: string)
    requires PlainKey(a) && PlainKey(b) && PlainKey(c)
    ensures PlainKeys([a, b, c])
  {
  }

  lemma CitationKeysPlain()
    ensures PlainKeys(CitationKeys)
  {
    CitationKeyPlain(CitationKeys[0]);
    CitationKeyPlain(CitationKeys[1]);
    CitationKeyPlain(CitationKeys[2]);
    ThreePlain(CitationKeys[0], CitationKeys[1], CitationKeys[2]);
  }

  lemma CitationPathIsKeys()
    ensures "metadataBlocks/citation/fields" == KeyPath(CitationKeys)
  {
    JoinCons("metadataBlocks", ["citation", "fields"], "/");
    JoinCons("citation", ["fields"], "/");
    assert CitationKeys[1..] == ["citation", "fields"];
  }

  /** `CitationNode` is what `jpath(metadata, 'metadataBlocks/citation/fields')` returns. */
  lemma CitationNodeIsJPath(meta: JValue)
    ensures JPath(meta, "metadataBlocks/citation/fields") == Ok(CitationNode(meta))
  {
    CitationPathIsKeys();
    CitationKeysPlain();
    KeySegments(CitationKeys);
    GetPlain(meta, CitationKeys);
  }

  /**
   * `enumerate(x)`: a list gives its items, a dict its keys and a string its
   * characters, each as a string; any other value is not iterable. The keys
   * are taken in sorted order: a key is a string, so `block['typeName']`
   * refuses whichever comes first, and nothing else reads them.
   */
  function Items(x: JValue): (r: Result<seq<JValue>, PyError>)
    ensures r.Ok? <==> Iterable(x)
    ensures x.JList? ==> r == Ok(x.items)
    ensures x.JObj? ==> |r.value| == |x.fields| && forall k :: k in x.fields <==> JStr(k) in r.value
    ensures x.JStr? ==> |r.value| == |x.s| && forall i :: 0 <= i < |x.s| ==> r.value[i] == JStr([x.s[i]])
    ensures r.Ok? && !x.JList? ==> forall i :: 0 <= i < |r.value| ==> r.value[i].JStr?
  {
    match x
    case JList(items) => Ok(items)
    case JObj(f) => Ok(KeyItems(SortedSet(f.Keys)))
    case JStr(s) => Ok(seq(|s|, i requires 0 <= i < |s| => JStr([s[i]])))
    case _ => Err(TypeError)
  }

  /** A list, a dict or a string: what `for ... in` accepts. */
  predicate Iterable(x: JValue) {
    x.JList? || x.JObj? || x.JStr?
  }

  /** Strings as JSON strings, in order. */
  function KeyItems(keys: seq<string>): (r: seq<JValue>)
    ensures |r| == |keys| && forall i :: 0 <= i < |keys| ==> r[i] == JStr(keys[i])
  {
    seq(|keys|, i requires 0 <= i < |keys| => JStr(keys[i]))
  }

  /** The fields of a document's citation block, as the loops see them (none when they fail). */
  function Fields(meta: JValue): seq<JValue> {
    var r := Items(CitationNode(meta));
    if r.Ok? then r.value else []
  }

  /** A block `block['typeName']` can be read from. */
  predicate Typed(b: JValue) {
    b.JObj? && "typeName" in b.fields
  }

  predicate AllTyped(blocks: seq<JValue>) {
    forall i :: 0 <= i < |blocks| ==> Typed(blocks[i])
  }

  /** `block['typeName'] == name`. */
  predicate IsNamed(b: JValue, name: string) {
    Typed(b) && b.fields["typeName"] == JStr(name)
  }

  /** The position of the last block with the type name. */
  function LastNamed(blocks: seq<JValue>, name: string): (r: Option<nat>)
    ensures r.Some? ==> r.value < |blocks| && IsNamed(blocks[r.value], name)
    ensures r.Some? ==> forall j :: r.value < j < |blocks| ==> !IsNamed(blocks[j], name)
    ensures r.None? ==> forall j :: 0 <= j < |blocks| ==> !IsNamed(blocks[j], name)
    decreases |blocks|
  {
    if blocks == [] then None
    else if IsNamed(blocks[|blocks| - 1], name) then Some(|blocks| - 1)
    else LastNamed(blocks[..|blocks| - 1], name)
  }

  // ---------------------------------------------------------------------------
  // the two index scans

  /** The inner loop of a scan: block `i` noted under each of the names it carries. */
  function NoteBlock(m: map<string, nat>, b: JValue, i: nat, names: seq<string>): (r: map<string, nat>)
    decreases |names|
  {
    if names == [] then m
    else
      var n := |names| - 1;
      var before := NoteBlock(m, b, i, names[..n]);
      if IsNamed(b, names[n]) then before[names[n] := i] else before
  }

  lemma {:induction false} NoteBlockMeaning(m: map<string, nat>, b: JValue, i: nat, names: seq<string>)
    ensures var r := NoteBlock(m, b, i, names);
      forall k :: (k in r <==> k in m || (k in names && IsNamed(b, k))) &&
        (k in r ==> r[k] == if k in names && IsNamed(b, k) then i else m[k])
    decreases |names|
  {
    if names != [] {
      var n := |names| - 1;
      NoteBlockMeaning(m, b, i, names[..n]);
      assert names == names[..n] + [names[n]];
    }
  }

  /**
   * The scan loops of `avoid_update_on_dates`: for each block and each name,
   * the block's position is kept under the name when its type name is that
   * name. With names to look for, a block without a type name stops the scan
   * with the subscript's exception.
   */
  function Scan(blocks: seq<JValue>, names: seq<string>): Result<map<string, nat>, PyError>
    decreases |blocks|
  {
    if blocks == [] then Ok(map[])
    else
      var n := |blocks| - 1;
      var m :- Scan(blocks[..n], names);
      if names != [] && !Typed(blocks[n]) then Err(Index(blocks[n], "typeName").error)
      else Ok(NoteBlock(m, blocks[n], n, names))
  }

  /**
   * A scan fails exactly when there are names to look for and some block has
   * no type name; otherwise it maps each name to the last block carrying it,
   * and holds no other name.
   */
  lemma {:induction false} ScanMeaning(blocks: seq<JValue>, names: seq<string>)
    ensures Scan(blocks, names).Ok? <==> names == [] || AllTyped(blocks)
    ensures Scan(blocks, names).Ok? ==> var m := Scan(blocks, names).value;
      forall k :: (k in m <==> k in names && LastNamed(blocks, k).Some?) &&
        (k in m ==> m[k] == LastNamed(blocks, k).value)
    decreases |blocks|
  {
    if blocks != [] {
      var n := |blocks| - 1;
      var front := blocks[..n];
      ScanMeaning(front, names);
      if Scan(front, names).Ok? {
        NoteBlockMeaning(Scan(front, names).value, blocks[n], n, names);
        forall k ensures LastNamed(blocks, k) == if IsNamed(blocks[n], k) then Some(n) else LastNamed(front, k) {
        }
      }
      AllTypedSplit(blocks);
    }
  }

  lemma AllTypedSplit(blocks: seq<JValue>)
    requires blocks != []
    ensures AllTyped(blocks) <==> AllTyped(blocks[..|blocks| - 1]) && Typed(blocks[|blocks| - 1])
  {
    var n := |blocks| - 1;
    if AllTyped(blocks[..n]) && Typed(blocks[n]) {
      forall i | 0 <= i < |blocks| ensures Typed(blocks[i]) {
        if i < n {
          assert blocks[i] == blocks[..n][i];
        }
      }
    }
  }

  /** A scan that fails at a block fails the whole scan the same way. */
  lemma {:induction false} ScanStops(blocks: seq<JValue>, names: seq<string>, i: nat)
    requires i < |blocks| && names != [] && Scan(blocks[..i], names).Ok? && !Typed(blocks[i])
    ensures Scan(blocks, names) == Err(Index(blocks[i], "typeName").error)
    decreases |blocks|
  {
    var n := |blocks| - 1;
    assert blocks[..i + 1][..i] == blocks[..i];
    if i < n {
      assert blocks[..n][..i] == blocks[..i];
      ScanStops(blocks[..n], names, i);
    }
  }

  /** The two nested loops of a scan. */
  method ScanIndices(blocks: seq<JValue>, names: seq<string>) returns (r: Result<map<string, nat>, PyError>)
    ensures r == Scan(blocks, names)
  {
    var indices: map<string, nat> := map[];
    var i := 0;
    while i < |blocks|
      invariant 0 <= i <= |blocks|
      invariant Scan(blocks[..i], names) == Ok(indices)
    {
      var block := blocks[i];
      var before := indices;
      var j := 0;
      while j < |names|
        invariant 0 <= j <= |names|
        invariant indices == NoteBlock(before, block, i, names[..j])
        invariant j > 0 ==> Typed(block)
      {
        var t := Index(block, "typeName");
        if t.Err? {
          ScanStops(blocks, names, i);
          return Err(t.error);
        }
        assert names[..j + 1][..j] == names[..j];
        if t.value == JStr(names[j]) {
          indices := indices[names[j] := i];
        }
        j := j + 1;
      }
      assert names[..j] == names;
      assert blocks[..i + 1][..i] == blocks[..i];
      i := i + 1;
    }
    assert blocks[..i] == blocks;
    r := Ok(indices);
  }

  // ---------------------------------------------------------------------------
  // the rewrite plan

  /** The names, in order, that the map holds: the keys `for field in citation_date_indices` visits. */
  function Present(names: seq<string>, m: map<string, nat>): (r: seq<string>)
    ensures forall k :: k in r <==> k in names && k in m
    ensures Distinct(names) ==> Distinct(r)
    ensures (forall k :: k in names ==> k !in m) ==> r == []
  {
    if names == [] then []
    else
      var rest := Present(names[1..], m);
      if names[0] in m then [names[0]] + rest else rest
  }

  predicate Distinct<T(==)>(s: seq<T>) {
    forall i, j :: 0 <= i < j < |s| ==> s[i] != s[j]
  }

  /** `(field, old, new)`: the published position, and the local one when the local fields have one. */
  datatype Planned = Planned(field: string, pubAt: nat, localAt: Option<nat>)

  /** `[(x, y[0], y[1]) for x, y in citation_date_indices.items()]`. */
  function Entries(names: seq<string>, pubIdx: map<string, nat>, locIdx: map<string, nat>): (r: seq<Planned>)
    requires forall k :: k in names ==> k in pubIdx
    ensures |r| == |names|
    ensures forall i :: 0 <= i < |r| ==> r[i] == Planned(names[i], pubIdx[names[i]],
      if names[i] in locIdx then Some(locIdx[names[i]]) else None)
  {
    seq(|names|, i requires 0 <= i < |names| =>
      Planned(names[i], pubIdx[names[i]], if names[i] in locIdx then Some(locIdx[names[i]]) else None))
  }

  /** The sort key `(2, -old)` for an insert and `(1, 1)` for a rewrite. */
  function Key(e: Planned): (int, int) {
    if e.localAt.None? then (2, -(e.pubAt as int)) else (1, 1)
  }

  predicate KeyLe(a: (int, int), b: (int, int)) {
    a.0 < b.0 || (a.0 == b.0 && a.1 <= b.1)
  }

  predicate KeySorted(s: seq<Planned>) {
    forall i, j :: 0 <= i < j < |s| ==> KeyLe(Key(s[i]), Key(s[j]))
  }

  /** Places `x` before the first entry whose key is not below its own. */
  function InsertByKey(x: Planned, s: seq<Planned>): (r: seq<Planned>)
    requires KeySorted(s)
    ensures multiset(r) == multiset(s) + multiset{x}
    ensures KeySorted(r)
  {
    if s == [] then [x]
    else if KeyLe(Key(x), Key(s[0])) then [x] + s
    else
      var t := InsertByKey(x, s[1..]);
      assert s == [s[0]] + s[1..];
      HeadBelowTail(s);
      AboveByMultiset(Key(s[0]), s[1..], t, x);
      [s[0]] + t
  }

  /** In a key-sorted sequence the first key is below every later one. */
  lemma HeadBelowTail(s: seq<Planned>)
    requires KeySorted(s) && s != []
    ensures forall i :: 0 <= i < |s[1..]| ==> KeyLe(Key(s[0]), Key(s[1..][i]))
  {
    forall i | 0 <= i < |s[1..]| ensures KeyLe(Key(s[0]), Key(s[1..][i])) {
      assert s[1..][i] == s[i + 1];
    }
  }

  /** A bound below `x` and below every entry of `s` is below every entry of a rearrangement of both. */
  lemma AboveByMultiset(b: (int, int), s: seq<Planned>, t: seq<Planned>, x: Planned)
    requires multiset(t) == multiset(s) + multiset{x}
    requires KeyLe(b, Key(x)) && forall i :: 0 <= i < |s| ==> KeyLe(b, Key(s[i]))
    ensures forall k :: 0 <= k < |t| ==> KeyLe(b, Key(t[k]))
  {
    forall k | 0 <= k < |t| ensures KeyLe(b, Key(t[k])) {
      assert t[k] in multiset(t);
      if t[k] != x {
        assert t[k] in multiset(s);
        var m :| 0 <= m < |s| && s[m] == t[k];
      }
    }
  }

  /** `citation_date_rewrites.sort(key=...)`: the entries rearranged in key order. */
  function SortByKey(s: seq<Planned>): (r: seq<Planned>)
    ensures multiset(r) == multiset(s) && KeySorted(r)
  {
    if s == [] then []
    else
      assert s == [s[0]] + s[1..];
      InsertByKey(s[0], SortByKey(s[1..]))
  }

  /**
   * In key order every rewrite of an existing local entry comes before every
   * insert, and the inserts go from the highest published position down.
   */
  lemma PlanOrder(plan: seq<Planned>)
    requires KeySorted(plan)
    ensures forall i, j :: 0 <= i < j < |plan| && plan[j].localAt.Some? ==> plan[i].localAt.Some?
    ensures forall i, j :: 0 <= i < j < |plan| && plan[i].localAt.None? && plan[j].localAt.None? ==> plan[i].pubAt >= plan[j].pubAt
  {
    forall i, j | 0 <= i < j < |plan| && plan[j].localAt.Some? ensures plan[i].localAt.Some? {
      assert KeyLe(Key(plan[i]), Key(plan[j]));
    }
    forall i, j | 0 <= i < j < |plan| && plan[i].localAt.None? && plan[j].localAt.None? ensures plan[i].pubAt >= plan[j].pubAt {
      assert KeyLe(Key(plan[i]), Key(plan[j]));
    }
  }

  // ---------------------------------------------------------------------------
  // applying the plan

  /** `jpath(published_metadata, '%s/%d/value' % (citation_path, old))` on the block at `old`. */
  function ValueOf(b: JValue): JValue {
    if b.JObj? && "value" in b.fields then b.fields["value"] else JNull
  }

  /** `list.insert(i, x)` for a position that is not negative: past the end it appends. */
  function PyInsert(items: seq<JValue>, i: nat, x: JValue): (r: seq<JValue>)
    ensures |r| == |items| + 1
    ensures var p := if i < |items| then i else |items|; r[p] == x && r[..p] == items[..p] && r[p + 1..] == items[p..]
  {
    var p := if i < |items| then i else |items|;
    items[..p] + [x] + items[p..]
  }

  /**
   * One `(field, old, new)` of the plan on the local fields node:
   *  - with a local position, the published value is written over the local
   *    entry's `value`; a published value of `None` makes the `jpath` call a
   *    read, and nothing changes;
   *  - without one, the published block is inserted at its published position.
   * `asWritten` adds the read the log line after an insert makes, of
   * position `old` of the grown list.
   */
  function Apply(node: JValue, e: Planned, pub: seq<JValue>, asWritten: bool): Result<JValue, PyError> {
    if e.pubAt >= |pub| then Err(IndexError)
    else match e.localAt
      case None =>
        if !node.JList? then Err(AttributeError)
        else
          var items := PyInsert(node.items, e.pubAt, pub[e.pubAt]);
          if asWritten && e.pubAt >= |items| then Err(IndexError) else Ok(JList(items))
      case Some(n) =>
        if !node.JList? || n >= |node.items| then Err(IndexError)
        else if !node.items[n].JObj? then Err(TypeError)
        else
          var v := ValueOf(pub[e.pubAt]);
          Ok(if v == JNull then node else JList(node.items[n := JObj(node.items[n].fields["value" := v])]))
  }

  /** The plan applied from its first entry to its last, stopping at the first exception. */
  function ApplyAll(node: JValue, plan: seq<Planned>, pub: seq<JValue>, asWritten: bool): Result<JValue, PyError>
    decreases |plan|
  {
    if plan == [] then Ok(node)
    else
      var next :- Apply(node, plan[0], pub, asWritten);
      ApplyAll(next, plan[1..], pub, asWritten)
  }

  /** A nested set keeps every prefix of its keys leading to a dict, found from any full reach. */
  lemma {:induction false} ReachParent(elem: JValue, keys: seq<string>)
    requires |keys| >= 1 && Reach(elem, keys).Some?
    ensures ParentIsDict(elem, keys)
    decreases |keys|
  {
    if |keys| == 1 {
      assert keys[..0] == [];
    } else {
      ReachParent(elem.fields[keys[0]], keys[1..]);
      assert keys[..|keys| - 1] == [keys[0]] + keys[1..][..|keys| - 2];
    }
  }

  /** The document with its citation fields node replaced; a document without one is unchanged. */
  function WithCitation(local: JValue, node: JValue): JValue {
    if Reach(local, CitationKeys).Some? then
      ReachParent(local, CitationKeys);
      SetIn(local, CitationKeys, node)
    else local
  }

  /** `avoid_update_on_dates(published_metadata, local_metadata)`, the local document it leaves. */
  function AvoidDatesWith(published: JValue, local: JValue, asWritten: bool): Result<JValue, PyError> {
    var pub :- Items(CitationNode(published));
    var pubIdx :- Scan(pub, DateFields);
    var loc :- Items(CitationNode(local));
    var names := Present(DateFields, pubIdx);
    var locIdx :- Scan(loc, names);
    var plan := SortByKey(Entries(names, pubIdx, locIdx));
    var node :- ApplyAll(CitationNode(local), plan, pub, asWritten);
    Ok(WithCitation(local, node))
  }

  /** The code as written, with the read of the log line after an insert. */
  function AvoidDatesAsWritten(published: JValue, local: JValue): Result<JValue, PyError> {
    AvoidDatesWith(published, local, true)
  }

  /** Without that read: what the log line is there to report does not stop the update. */
  function AvoidDates(published: JValue, local: JValue): Result<JValue, PyError> {
    AvoidDatesWith(published, local, false)
  }

  /**
   * `avoid_update_on_dates`: the published date fields are found, then the
   * local ones, then the planned rewrites and inserts are made in key order.
   * The published document is a value and is never written.
   */
  method AvoidUpdateOnDates(published: JValue, local: JValue) returns (r: Result<JValue, PyError>)
    ensures r == AvoidDatesAsWritten(published, local)
  {
    var pub :- Items(CitationNode(published));
    var pubIdx :- ScanIndices(pub, DateFields);
    var loc :- Items(CitationNode(local));
    var names := Present(DateFields, pubIdx);
    var locIdx :- ScanIndices(loc, names);
    var plan := SortByKey(Entries(names, pubIdx, locIdx));
    var node :- ApplyPlan(CitationNode(local), plan, pub);
    r := Ok(WithCitation(local, node));
  }

  /**
   * `for field, old, new in citation_date_rewrites`: the plan applied to the
   * local fields node, with the log line's read after each insert.
   */
  method ApplyPlan(start: JValue, plan: seq<Planned>, pub: seq<JValue>) returns (r: Result<JValue, PyError>)
    ensures r == ApplyAll(start, plan, pub, true)
  {
    var node := start;
    var k := 0;
    while k < |plan|
      invariant 0 <= k <= |plan|
      invariant ApplyAll(node, plan[k..], pub, true) == ApplyAll(start, plan, pub, true)
    {
      assert plan[k..][0] == plan[k] && plan[k..][1..] == plan[k + 1..];
      var e := plan[k];
      if e.pubAt >= |pub| {
        return Err(IndexError);
      }
      match e.localAt {
        case None =>
          if !node.JList? {
            return Err(AttributeError);
          }
          var items := PyInsert(node.items, e.pubAt, pub[e.pubAt]);
          if e.pubAt >= |items| {
            return Err(IndexError);
          }
          node := JList(items);
        case Some(n) =>
          if !node.JList? || n >= |node.items| {
            return Err(IndexError);
          }
          if !node.items[n].JObj? {
            return Err(TypeError);
          }
          var v := ValueOf(pub[e.pubAt]);
          if v != JNull {
            node := JList(node.items[n := JObj(node.items[n].fields["value" := v])]);
          }
      }
      k := k + 1;
    }
    r := Ok(node);
  }

  // ---------------------------------------------------------------------------
  // what the plan achieves

  /** The block has the type name and, under `value`, the value. */
  predicate Carries(x: JValue, name: string, v: JValue) {
    IsNamed(x, name) && "value" in x.fields && x.fields["value"] == v
  }

  /** Some block of the list carries the name and the value. */
  predicate Has(items: seq<JValue>, name: string, v: JValue) {
    exists x :: x in items && Carries(x, name, v)
  }

  predicate DistinctFields(plan: seq<Planned>) {
    forall i, j :: 0 <= i < j < |plan| ==> plan[i].field != plan[j].field
  }

  /**
   * The plan fits the lists: every published position holds a block of the
   * entry's name, rewrites come first, and every rewrite's local position
   * holds a block of the entry's name.
   */
  predicate Fits(node: JValue, plan: seq<Planned>, pub: seq<JValue>) {
    && node.JList?
    && (forall k :: 0 <= k < |plan| ==> plan[k].pubAt < |pub| && IsNamed(pub[plan[k].pubAt], plan[k].field))
    && (forall i, j :: 0 <= i < j < |plan| && plan[j].localAt.Some? ==> plan[i].localAt.Some?)
    && (forall k :: 0 <= k < |plan| && plan[k].localAt.Some? ==>
          plan[k].localAt.value < |node.items| && IsNamed(node.items[plan[k].localAt.value], plan[k].field))
  }

  /** Writing a `value` keeps a block's type name. */
  lemma RewriteKeepsNames(items: seq<JValue>, n: nat, v: JValue, name: string, m: nat)
    requires n < |items| && items[n].JObj? && m < |items|
    ensures var after := items[n := JObj(items[n].fields["value" := v])];
      IsNamed(after[m], name) <==> IsNamed(items[m], name)
  {
  }

  /** The first entry of a fitting plan succeeds, and the rest fits what it leaves. */
  lemma StepFits(node: JValue, plan: seq<Planned>, pub: seq<JValue>)
    requires plan != [] && Fits(node, plan, pub)
    ensures Apply(node, plan[0], pub, false).Ok?
    ensures Fits(Apply(node, plan[0], pub, false).value, plan[1..], pub)
  {
    var next := Apply(node, plan[0], pub, false).value;
    var rest := plan[1..];
    assert forall k :: 0 <= k < |rest| ==> rest[k] == plan[k + 1];
    if plan[0].localAt.Some? {
      var n := plan[0].localAt.value;
      forall k | 0 <= k < |rest| && rest[k].localAt.Some?
        ensures rest[k].localAt.value < |next.items| && IsNamed(next.items[rest[k].localAt.value], rest[k].field)
      {
        assert plan[k + 1].localAt.Some?;
        var v := ValueOf(pub[plan[0].pubAt]);
        if v != JNull {
          RewriteKeepsNames(node.items, n, v, rest[k].field, rest[k].localAt.value);
        }
      }
    } else {
      forall k | 0 <= k < |rest| ensures rest[k].localAt.None? {
        assert rest[k] == plan[k + 1];
      }
    }
  }

  /** A block that no rewrite of the plan aims at is still in the list after the plan. */
  lemma {:induction false} Stays(node: JValue, plan: seq<Planned>, pub: seq<JValue>, x: JValue)
    requires Fits(node, plan, pub) && x in node.items
    requires forall k :: 0 <= k < |plan| && plan[k].localAt.Some? ==> !IsNamed(x, plan[k].field)
    ensures ApplyAll(node, plan, pub, false).Ok? && ApplyAll(node, plan, pub, false).value.JList?
    ensures x in ApplyAll(node, plan, pub, false).value.items
    decreases |plan|
  {
    if plan != [] {
      StepFits(node, plan, pub);
      var next := Apply(node, plan[0], pub, false).value;
      var j :| 0 <= j < |node.items| && node.items[j] == x;
      match plan[0].localAt {
        case Some(n) =>
          assert j != n;
          assert next.items[j] == x;
        case None =>
          var p := if plan[0].pubAt < |node.items| then plan[0].pubAt else |node.items|;
          if j < p {
            assert next.items[..p][j] == x;
          } else {
            assert next.items[p + 1..][j - p] == x;
          }
      }
      var rest := plan[1..];
      forall k | 0 <= k < |rest| && rest[k].localAt.Some? ensures !IsNamed(x, rest[k].field) {
        assert rest[k] == plan[k + 1];
      }
      Stays(next, rest, pub, x);
    }
  }

  lemma NamedOnce(x: JValue, f: string, g: string)
    requires IsNamed(x, f) && IsNamed(x, g)
    ensures f == g
  {
    assert JStr(f) == JStr(g);
  }

  /** Each entry of a fitting plan whose published block has a value leaves that value under its name. */
  lemma {:induction false} Placed(node: JValue, plan: seq<Planned>, pub: seq<JValue>, k: nat)
    requires Fits(node, plan, pub) && DistinctFields(plan) && k < |plan|
    requires ValueOf(pub[plan[k].pubAt]) != JNull
    ensures ApplyAll(node, plan, pub, false).Ok? && ApplyAll(node, plan, pub, false).value.JList?
    ensures Has(ApplyAll(node, plan, pub, false).value.items, plan[k].field, ValueOf(pub[plan[k].pubAt]))
    decreases |plan|
  {
    StepFits(node, plan, pub);
    var next := Apply(node, plan[0], pub, false).value;
    var rest := plan[1..];
    var f := plan[k].field;
    var v := ValueOf(pub[plan[k].pubAt]);
    if k == 0 {
      var x: JValue;
      match plan[0].localAt {
        case Some(n) =>
          x := next.items[n];
        case None =>
          var p := if plan[0].pubAt < |node.items| then plan[0].pubAt else |node.items|;
          x := next.items[p];
      }
      assert Carries(x, f, v);
      forall j | 0 <= j < |rest| && rest[j].localAt.Some? ensures !IsNamed(x, rest[j].field) {
        assert rest[j] == plan[j + 1];
        if IsNamed(x, rest[j].field) {
          NamedOnce(x, f, rest[j].field);
        }
      }
      Stays(next, rest, pub, x);
    } else {
      assert rest[k - 1] == plan[k];
      Placed(next, rest, pub, k - 1);
    }
  }

  /** Two positions holding one value count it twice. */
  lemma TwoCopies<T>(s: seq<T>, i: nat, j: nat)
    requires i < j < |s| && s[i] == s[j]
    ensures multiset(s)[s[i]] >= 2
  {
    assert s == s[..j] + [s[j]] + s[j + 1..];
    assert s[i] == s[..j][i];
  }

  /** In a plan of distinct fields each entry occurs once. */
  lemma OneCopy(a: seq<Planned>, p: nat)
    requires DistinctFields(a) && p < |a|
    ensures multiset(a)[a[p]] == 1
  {
    assert a == a[..p] + [a[p]] + a[p + 1..];
    assert a[p] !in a[..p] by {
      forall i | 0 <= i < p ensures a[..p][i] != a[p] {
        assert a[..p][i] == a[i];
      }
    }
    assert a[p] !in a[p + 1..] by {
      forall i | p < i < |a| ensures a[i] != a[p] {
      }
    }
  }

  /** Rearranging keeps the fields distinct. */
  lemma DistinctFieldsPerm(a: seq<Planned>, b: seq<Planned>)
    requires multiset(a) == multiset(b) && DistinctFields(a)
    ensures DistinctFields(b)
  {
    forall i, j | 0 <= i < j < |b| ensures b[i].field != b[j].field {
      assert b[i] in multiset(a) && b[j] in multiset(a);
      var p :| 0 <= p < |a| && a[p] == b[i];
      var q :| 0 <= q < |a| && a[q] == b[j];
      if p == q {
        TwoCopies(b, i, j);
        OneCopy(a, p);
        assert false;
      } else if p < q {
        assert a[p].field != a[q].field;
      } else {
        assert a[q].field != a[p].field;
      }
    }
  }

  lemma DateFieldsDistinct()
    ensures Distinct(DateFields)
  {
  }

  /** The entry of each name: its last published position, and its last local one when there is one. */
  predicate EntriesFit(entries: seq<Planned>, pub: seq<JValue>, loc: seq<JValue>) {
    forall i :: 0 <= i < |entries| ==>
      && entries[i].pubAt < |pub| && IsNamed(pub[entries[i].pubAt], entries[i].field)
      && (entries[i].localAt.Some? ==> entries[i].localAt.value < |loc| && IsNamed(loc[entries[i].localAt.value], entries[i].field))
  }

  lemma EntriesOfScans(pub: seq<JValue>, loc: seq<JValue>, pubIdx: map<string, nat>, locIdx: map<string, nat>)
    requires Scan(pub, DateFields) == Ok(pubIdx)
    requires Scan(loc, Present(DateFields, pubIdx)) == Ok(locIdx)
    ensures var entries := Entries(Present(DateFields, pubIdx), pubIdx, locIdx);
      EntriesFit(entries, pub, loc) && DistinctFields(entries)
  {
    DateFieldsDistinct();
    EntriesOfNames(pub, loc, DateFields, pubIdx, locIdx);
  }

  /** `EntriesOfScans` for any list `fields` of names, none given twice. */
  lemma EntriesOfNames(pub: seq<JValue>, loc: seq<JValue>, fields: seq<string>, pubIdx: map<string, nat>, locIdx: map<string, nat>)
    requires Distinct(fields)
    requires Scan(pub, fields) == Ok(pubIdx)
    requires Scan(loc, Present(fields, pubIdx)) == Ok(locIdx)
    ensures var entries := Entries(Present(fields, pubIdx), pubIdx, locIdx);
      EntriesFit(entries, pub, loc) && DistinctFields(entries)
  {
    var names := Present(fields, pubIdx);
    var entries := Entries(names, pubIdx, locIdx);
    ScanFits(pub, fields, pubIdx);
    ScanFits(loc, names, locIdx);
    forall i | 0 <= i < |entries|
      ensures entries[i].pubAt < |pub| && IsNamed(pub[entries[i].pubAt], entries[i].field)
      ensures entries[i].localAt.Some? ==> entries[i].localAt.value < |loc| && IsNamed(loc[entries[i].localAt.value], entries[i].field)
    {
      assert names[i] in names;
    }
    EntriesDistinct(names, pubIdx, locIdx);
  }

  /** Each name a successful scan records is at the position recorded for it. */
  lemma ScanFits(blocks: seq<JValue>, names: seq<string>, m: map<string, nat>)
    requires Scan(blocks, names) == Ok(m)
    ensures forall k :: k in m ==> m[k] < |blocks| && IsNamed(blocks[m[k]], k)
  {
    ScanMeaning(blocks, names);
  }

  /** Entries of names given once each plan each field once. */
  lemma EntriesDistinct(names: seq<string>, pubIdx: map<string, nat>, locIdx: map<string, nat>)
    requires forall k :: k in names ==> k in pubIdx
    requires Distinct(names)
    ensures DistinctFields(Entries(names, pubIdx, locIdx))
  {
    var entries := Entries(names, pubIdx, locIdx);
    forall i, j | 0 <= i < j < |entries| ensures entries[i].field != entries[j].field {
      assert entries[i].field == names[i] && entries[j].field == names[j];
    }
  }

  /** Fitting entries, put in key order, fit the local list as a plan. */
  lemma SortedFits(entries: seq<Planned>, pub: seq<JValue>, loc: seq<JValue>)
    requires EntriesFit(entries, pub, loc) && DistinctFields(entries)
    ensures Fits(JList(loc), SortByKey(entries), pub) && DistinctFields(SortByKey(entries))
  {
    var plan := SortByKey(entries);
    forall k | 0 <= k < |plan|
      ensures plan[k].pubAt < |pub| && IsNamed(pub[plan[k].pubAt], plan[k].field)
      ensures plan[k].localAt.Some? ==> plan[k].localAt.value < |loc| && IsNamed(loc[plan[k].localAt.value], plan[k].field)
    {
      assert plan[k] in multiset(entries);
      var i :| 0 <= i < |entries| && entries[i] == plan[k];
    }
    PlanOrder(plan);
    DistinctFieldsPerm(entries, plan);
  }

  /** The plan built from two successful scans fits the local list, and no field is planned twice. */
  lemma PlanFits(pub: seq<JValue>, loc: seq<JValue>, pubIdx: map<string, nat>, locIdx: map<string, nat>)
    requires Scan(pub, DateFields) == Ok(pubIdx)
    requires Scan(loc, Present(DateFields, pubIdx)) == Ok(locIdx)
    ensures var plan := SortByKey(Entries(Present(DateFields, pubIdx), pubIdx, locIdx));
      Fits(JList(loc), plan, pub) && DistinctFields(plan)
  {
    EntriesOfScans(pub, loc, pubIdx, locIdx);
    SortedFits(Entries(Present(DateFields, pubIdx), pubIdx, locIdx), pub, loc);
  }

  /** Applying a plan to anything but a list fails, unless the plan is empty. */
  lemma ApplyNeedsList(node: JValue, plan: seq<Planned>, pub: seq<JValue>)
    requires plan != [] && ApplyAll(node, plan, pub, false).Ok?
    ensures node.JList?
  {
  }

  /** A successful run found the local citation fields, and the result holds the edited list there. */
  lemma ResultNode(published: JValue, local: JValue)
    requires AvoidDates(published, local).Ok?
    ensures Reach(local, CitationKeys).Some?
    ensures var pub := Fields(published); var pubIdx := Scan(pub, DateFields).value;
      var loc := Fields(local); var locIdx := Scan(loc, Present(DateFields, pubIdx)).value;
      var plan := SortByKey(Entries(Present(DateFields, pubIdx), pubIdx, locIdx));
      var node := ApplyAll(CitationNode(local), plan, pub, false);
      node.Ok? && CitationNode(AvoidDates(published, local).value) == node.value
  {
    ReachParent(local, CitationKeys);
    var pub := Fields(published);
    var pubIdx := Scan(pub, DateFields).value;
    var loc := Fields(local);
    var locIdx := Scan(loc, Present(DateFields, pubIdx)).value;
    var plan := SortByKey(Entries(Present(DateFields, pubIdx), pubIdx, locIdx));
    var node := ApplyAll(CitationNode(local), plan, pub, false).value;
    ReachSetIn(local, CitationKeys, node, []);
  }

  /**
   * After `avoid_update_on_dates`, every date field of the published citation
   * fields that has a value is in the local citation fields with that value:
   * written over the local entry of that name, or inserted with its whole
   * published block.
   */
  lemma DatesCarried(published: JValue, local: JValue, f: string)
    requires AvoidDates(published, local).Ok? && f in DateFields
    requires LastNamed(Fields(published), f).Some?
    requires ValueOf(Fields(published)[LastNamed(Fields(published), f).value]) != JNull
    ensures var d := CitationNode(AvoidDates(published, local).value);
      d.JList? && Has(d.items, f, ValueOf(Fields(published)[LastNamed(Fields(published), f).value]))
  {
    var pub := Fields(published);
    var pubIdx := Scan(pub, DateFields).value;
    var names := Present(DateFields, pubIdx);
    var loc := Fields(local);
    var locIdx := Scan(loc, names).value;
    var entries := Entries(names, pubIdx, locIdx);
    var plan := SortByKey(entries);
    ResultNode(published, local);
    ScanMeaning(pub, DateFields);
    assert f in names;
    var i :| 0 <= i < |names| && names[i] == f;
    assert entries[i] in multiset(plan);
    var k :| 0 <= k < |plan| && plan[k] == entries[i];
    ApplyNeedsList(CitationNode(local), plan, pub);
    PlanFits(pub, loc, pubIdx, locIdx);
    Placed(JList(loc), plan, pub, k);
  }

  /**
   * Every local block named by none of the date fields the published fields
   * hold is still in the local citation fields afterwards: other fields, and a
   * date field the published version lacks, are left as they are. A local
   * dict or string, walked only when no date field is published, is kept whole.
   */
  lemma OthersKept(published: JValue, local: JValue, x: JValue)
    requires AvoidDates(published, local).Ok? && x in Fields(local)
    requires forall f :: f in DateFields && LastNamed(Fields(published), f).Some? ==> !IsNamed(x, f)
    ensures x in Fields(AvoidDates(published, local).value)
  {
    var pub := Fields(published);
    var pubIdx := Scan(pub, DateFields).value;
    var names := Present(DateFields, pubIdx);
    var loc := Fields(local);
    var locIdx := Scan(loc, names).value;
    var entries := Entries(names, pubIdx, locIdx);
    var plan := SortByKey(entries);
    ResultNode(published, local);
    ScanMeaning(pub, DateFields);
    if CitationNode(local).JList? {
      PlanFits(pub, loc, pubIdx, locIdx);
      assert forall f :: f in names ==> !IsNamed(x, f);
      PlanAvoids(x, plan, names, pubIdx, locIdx);
      Stays(JList(loc), plan, pub, x);
    } else {
      ScanOk(loc, names);
      assert !Typed(x);
      NamesArePublished(pub, pubIdx);
      NoPublishedDates(published, local);
    }
  }

  /** A field not named by any of `names` is named by no entry of a plan made from them. */
  lemma PlanAvoids(x: JValue, plan: seq<Planned>, names: seq<string>, pubIdx: map<string, nat>, locIdx: map<string, nat>)
    requires forall k :: k in names ==> k in pubIdx
    requires multiset(plan) == multiset(Entries(names, pubIdx, locIdx))
    requires forall f :: f in names ==> !IsNamed(x, f)
    ensures forall k :: 0 <= k < |plan| ==> !IsNamed(x, plan[k].field)
  {
    var entries := Entries(names, pubIdx, locIdx);
    forall k | 0 <= k < |plan| ensures !IsNamed(x, plan[k].field) {
      assert plan[k] in multiset(entries);
      var i :| 0 <= i < |entries| && entries[i] == plan[k];
      assert names[i] in names;
    }
  }

  /** Setting the node a path already reaches changes nothing. */
  lemma {:induction false} SetInSame(elem: JValue, keys: seq<string>)
    requires |keys| >= 1 && Reach(elem, keys).Some? && ParentIsDict(elem, keys)
    ensures SetIn(elem, keys, Reach(elem, keys).value) == elem
    decreases |keys|
  {
    if |keys| > 1 {
      ParentStep(elem, keys);
      SetInSame(elem.fields[keys[0]], keys[1..]);
    }
  }

  /**
   * With no date field in the published citation fields, the local document
   * is left as it was, whatever enumerable node its citation fields are:
   * no local block is read, and the plan is empty.
   */
  lemma NoPublishedDates(published: JValue, local: JValue)
    requires Iterable(CitationNode(published)) && AllTyped(Fields(published))
    requires Iterable(CitationNode(local))
    requires forall f :: f in DateFields ==> LastNamed(Fields(published), f).None?
    ensures AvoidDates(published, local) == Ok(local)
    ensures AvoidDatesAsWritten(published, local) == Ok(local)
  {
    var pub := Fields(published);
    ScanMeaning(pub, DateFields);
    var pubIdx := Scan(pub, DateFields).value;
    assert forall k :: k in DateFields ==> k !in pubIdx;
    var names := Present(DateFields, pubIdx);
    assert names == [];
    ScanOk(Fields(local), names);
    assert Entries(names, pubIdx, map[]) == [];
    var locIdx := Scan(Fields(local), names).value;
    assert SortByKey(Entries(names, pubIdx, locIdx)) == [];
    ReachParent(local, CitationKeys);
    SetInSame(local, CitationKeys);
  }

  /** A fitting plan runs to its end. */
  lemma {:induction false} FitsApplies(node: JValue, plan: seq<Planned>, pub: seq<JValue>)
    requires Fits(node, plan, pub)
    ensures ApplyAll(node, plan, pub, false).Ok?
    decreases |plan|
  {
    if plan != [] {
      StepFits(node, plan, pub);
      FitsApplies(Apply(node, plan[0], pub, false).value, plan[1..], pub);
    }
  }

  /** A scan fails only on an untyped block, and only when there is a name to look for. */
  lemma ScanOk(blocks: seq<JValue>, names: seq<string>)
    ensures Scan(blocks, names).Ok? <==> names == [] || AllTyped(blocks)
  {
    ScanMeaning(blocks, names);
  }

  /** The names looked for in the local fields are the date fields the published fields hold. */
  lemma NamesArePublished(pub: seq<JValue>, pubIdx: map<string, nat>)
    requires Scan(pub, DateFields) == Ok(pubIdx)
    ensures Present(DateFields, pubIdx) != [] <==> exists f :: f in DateFields && LastNamed(pub, f).Some?
  {
    ScanMeaning(pub, DateFields);
    var names := Present(DateFields, pubIdx);
    if names != [] {
      assert names[0] in names;
    }
  }

  /**
   * `avoid_update_on_dates` succeeds exactly when both citation fields
   * nodes can be walked (a list, a dict or a string), every published block
   * has a type name, and, when the published fields hold a date field, the
   * local node is a list whose every block has a type name.
   */
  lemma AvoidDatesSucceeds(published: JValue, local: JValue)
    ensures AvoidDates(published, local).Ok? <==>
      && Iterable(CitationNode(published)) && AllTyped(Fields(published)) && Iterable(CitationNode(local))
      && ((exists f :: f in DateFields && LastNamed(Fields(published), f).Some?) ==>
            CitationNode(local).JList? && AllTyped(Fields(local)))
  {
    var pub := Fields(published);
    var loc := Fields(local);
    var r := AvoidDates(published, local);
    ScanOk(pub, DateFields);
    if !Items(CitationNode(published)).Ok? || !AllTyped(pub) || !Items(CitationNode(local)).Ok? {
      assert r.Err?;
    } else {
      var pubIdx := Scan(pub, DateFields).value;
      var names := Present(DateFields, pubIdx);
      NamesArePublished(pub, pubIdx);
      ScanOk(loc, names);
      if Scan(loc, names).Ok? {
        var locIdx := Scan(loc, names).value;
        PlanApplies(CitationNode(local), pub, loc, pubIdx, locIdx);
        assert r.Ok? <==> ApplyAll(CitationNode(local), SortByKey(Entries(names, pubIdx, locIdx)), pub, false).Ok?;
      } else {
        assert r.Err?;
      }
    }
  }

  /** Once both scans succeed, the planned edits go through exactly when there are none or the node is a list. */
  lemma PlanApplies(node: JValue, pub: seq<JValue>, loc: seq<JValue>, pubIdx: map<string, nat>, locIdx: map<string, nat>)
    requires Items(node) == Ok(loc)
    requires Scan(pub, DateFields) == Ok(pubIdx)
    requires Scan(loc, Present(DateFields, pubIdx)) == Ok(locIdx)
    ensures var names := Present(DateFields, pubIdx);
      ApplyAll(node, SortByKey(Entries(names, pubIdx, locIdx)), pub, false).Ok? <==> (names != [] ==> node.JList?)
  {
    var names := Present(DateFields, pubIdx);
    var entries := Entries(names, pubIdx, locIdx);
    var plan := SortByKey(entries);
    assert |plan| == |names| by {
      assert |multiset(plan)| == |multiset(entries)|;
    }
    if node.JList? {
      PlanFits(pub, loc, pubIdx, locIdx);
      FitsApplies(JList(loc), plan, pub);
    } else if plan != [] {
      if ApplyAll(node, plan, pub, false).Ok? {
        ApplyNeedsList(node, plan, pub);
      }
    }
  }

  /** One entry gives the same either way when the code as written gets through it. */
  lemma ApplyAgrees(node: JValue, e: Planned, pub: seq<JValue>)
    requires Apply(node, e, pub, true).Ok?
    ensures Apply(node, e, pub, false) == Apply(node, e, pub, true)
  {
  }

  lemma {:induction false} ApplyAllAgrees(node: JValue, plan: seq<Planned>, pub: seq<JValue>)
    requires ApplyAll(node, plan, pub, true).Ok?
    ensures ApplyAll(node, plan, pub, false) == ApplyAll(node, plan, pub, true)
    decreases |plan|
  {
    if plan != [] {
      ApplyAgrees(node, plan[0], pub);
      ApplyAllAgrees(Apply(node, plan[0], pub, true).value, plan[1..], pub);
    }
  }

  /** Wherever the code as written succeeds, the corrected version leaves the same document. */
  lemma AsWrittenAgrees(published: JValue, local: JValue)
    requires AvoidDatesAsWritten(published, local).Ok?
    ensures AvoidDates(published, local) == AvoidDatesAsWritten(published, local)
  {
    var pub := Items(CitationNode(published)).value;
    var pubIdx := Scan(pub, DateFields).value;
    var loc := Items(CitationNode(local)).value;
    var names := Present(DateFields, pubIdx);
    var locIdx := Scan(loc, names).value;
    ApplyAllAgrees(CitationNode(local), SortByKey(Entries(names, pubIdx, locIdx)), pub);
  }

  /** A document whose citation block holds the fields. */
  function Doc(fields: seq<JValue>): JValue {
    JObj(map["metadataBlocks" := JObj(map["citation" := JObj(map["fields" := JList(fields)])])])
  }

  lemma DocNode(fields: seq<JValue>)
    ensures CitationNode(Doc(fields)) == JList(fields)
  {
    var d := Doc(fields);
    assert Reach(d, CitationKeys) == Reach(d.fields["metadataBlocks"], CitationKeys[1..]);
    assert CitationKeys[1..][1..] == ["fields"];
  }

  /**
   * No published citation fields, and local citation fields that are a dict:
   * the local walk enumerates its key but reads nothing from it, and the
   * local document is left as it was.
   */
  lemma DictFieldsKept(published: JValue, local: JValue)
    requires published == Doc([]) && CitationNode(local) == JObj(map["a" := JInt(1)])
    ensures AvoidDatesAsWritten(published, local) == Ok(local)
  {
    DocNode([]);
    NoPublishedDates(published, local);
  }

  /** Replacing the citation fields node of such a document. */
  lemma DocWith(fields: seq<JValue>, node: seq<JValue>)
    ensures WithCitation(Doc(fields), JList(node)) == Doc(node)
  {
    var d := Doc(fields);
    DocNode(fields);
    ReachParent(d, CitationKeys);
    var m := d.fields["metadataBlocks"];
    var c := m.fields["citation"];
    assert CitationKeys[1..] == ["citation", "fields"];
    assert CitationKeys[1..][1..] == ["fields"];
    assert SetIn(c, ["fields"], JList(node)) == JObj(map["fields" := JList(node)]);
    assert SetIn(m, ["citation", "fields"], JList(node)) == JObj(map["citation" := JObj(map["fields" := JList(node)])]);
  }

  /** A block with only a type name. */
  function Named(name: string): JValue {
    JObj(map["typeName" := JStr(name)])
  }

  /** The published scan of the counterexample finds `distributionDate` at position 2 only. */
  lemma PastEndScan(pub: seq<JValue>, dated: JValue)
    requires dated == JObj(map["typeName" := JStr("distributionDate"), "value" := JStr("2018-02-23")])
    requires pub == [Named("title"), Named("title"), dated]
    ensures Scan(pub, DateFields) == Ok(map["distributionDate" := 2])
  {
    ScanMeaning(pub, DateFields);
    assert IsNamed(pub[2], "distributionDate");
    assert LastNamed(pub, "distributionDate") == Some(2);
    assert !IsNamed(pub[0], "dateOfDeposit") && !IsNamed(pub[1], "dateOfDeposit") && !IsNamed(pub[2], "dateOfDeposit");
    assert LastNamed(pub, "dateOfDeposit") == None;
    assert Typed(pub[0]) && Typed(pub[1]) && Typed(pub[2]);
    assert AllTyped(pub);
    var idx := Scan(pub, DateFields).value;
    assert "distributionDate" in idx && idx["distributionDate"] == 2;
    assert forall k | k in idx :: k == "distributionDate";
    assert idx == map["distributionDate" := 2];
  }

  /** The plan of the counterexample: one insert, at published position 2. */
  lemma PastEndPlan(pubIdx: map<string, nat>)
    requires pubIdx == map["distributionDate" := 2]
    ensures Present(DateFields, pubIdx) == ["distributionDate"]
    ensures Scan([], ["distributionDate"]) == Ok(map[])
    ensures SortByKey(Entries(["distributionDate"], pubIdx, map[])) == [Planned("distributionDate", 2, None)]
  {
    assert DateFields == ["dateOfDeposit"] + ["distributionDate"];
    var entries := Entries(["distributionDate"], pubIdx, map[]);
    assert entries == [Planned("distributionDate", 2, None)];
    var r := SortByKey(entries);
    assert |r| == 1 by { assert |multiset(r)| == 1; }
    assert r[0] in multiset(entries);
  }

  /**
   * A published `distributionDate` at position 2 and a local citation fields
   * list that is empty: the block is appended at position 0, and the log
   * line's read of position 2 raises `IndexError`, while without that read
   * the block is in place.
   */
  lemma AsWrittenFailsPastEnd()
    ensures var dated := JObj(map["typeName" := JStr("distributionDate"), "value" := JStr("2018-02-23")]);
      var published := Doc([Named("title"), Named("title"), dated]);
      AvoidDatesAsWritten(published, Doc([])) == Err(IndexError) &&
      AvoidDates(published, Doc([])) == Ok(Doc([dated]))
  {
    var dated := JObj(map["typeName" := JStr("distributionDate"), "value" := JStr("2018-02-23")]);
    var pub := [Named("title"), Named("title"), dated];
    DocNode(pub);
    DocNode([]);
    PastEndScan(pub, dated);
    PastEndPlan(map["distributionDate" := 2]);
    PastEndApply(pub, dated, true);
    PastEndApply(pub, dated, false);
    DocWith([], [dated]);
  }

  /** The counterexample's one insert, on the empty local list, with and without the log line's read. */
  lemma PastEndApply(pub: seq<JValue>, dated: JValue, asWritten: bool)
    requires |pub| == 3 && pub[2] == dated
    ensures ApplyAll(JList([]), [Planned("distributionDate", 2, None)], pub, asWritten) ==
      if asWritten then Err(IndexError) else Ok(JList([dated]))
  {
    var plan := [Planned("distributionDate", 2, None)];
    assert PyInsert([], 2, dated) == [dated];
    assert Apply(JList([]), plan[0], pub, asWritten) == if asWritten then Err(IndexError) else Ok(JList([dated]));
    assert plan[1..] == [];
  }
}
