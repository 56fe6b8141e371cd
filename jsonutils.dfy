/**
 * `jsonutils.jpath`, `jpath_create_dicts` and `jpath_delete`: reading and
 * editing a decoded JSON document by a `/`-separated path. A segment that
 * `int()` accepts indexes a list; any other segment is a dict key.
 *
 * The Python functions edit the nested dicts in place; here each edit returns
 * the new document, or the exception the Python code raises.
 */
module JsonUtils {
  import opened Results
  import opened Text
  import opened Json

  /** `path.strip('/').split('/')`. */
  function PathParts(path: string): (r: seq<string>)
    ensures |r| >= 1
  {
    Split(StripChars(path, {'/'}), "/")
  }

  /** A path segment, with the integer `int()` reads from it (`None` for a `ValueError`). */
  datatype Segment = Segment(text: string, number: Option<int>)

  /** The segments of a path, each with its `int()` reading. */
  function Segments(parts: seq<string>): (r: seq<Segment>)
    ensures |r| == |parts|
    ensures forall i :: 0 <= i < |parts| ==> r[i] == Segment(parts[i], PyInt(parts[i]))
  {
    seq(|parts|, i requires 0 <= i < |parts| => Segment(parts[i], PyInt(parts[i])))
  }

  /** A list position `n` of a list of length `len`, negative positions counting from the end. */
  function ListIndex(n: int, len: nat): (r: Option<nat>)
    ensures r.Some? <==> -(len as int) <= n < len
    ensures r.Some? ==> r.value < len && (if n >= 0 then r.value == n else r.value == n + len)
  {
    if 0 <= n < len then Some(n)
    else if -(len as int) <= n < 0 then Some(n + len)
    else None
  }

  // ---------------------------------------------------------------------------
  // jpath(root, path)

  /**
   * The loop of `jpath` without `setdata`, from node `elem` over the remaining
   * segments:
   *  - a numeric segment indexes a list (`IndexError` when out of range), looks
   *    an integer key up in a dict (never present: the keys are strings), and on
   *    anything else is `elem.get`, an `AttributeError` (`None` included);
   *  - any other segment looks a key up in a dict (`None` when absent) and ends
   *    the walk with `None` on anything else.
   */
  function Get(elem: JValue, segs: seq<Segment>): Result<JValue, PyError>
    decreases |segs|
  {
    if segs == [] then Ok(elem)
    else
      match segs[0].number
      case Some(n) =>
        (match elem
         case JList(items) =>
           (match ListIndex(n, |items|)
            case Some(i) => Get(items[i], segs[1..])
            case None => Err(IndexError))
         case JObj(_) => Get(JNull, segs[1..])
         case _ => Err(AttributeError))
      case None =>
        var key := segs[0].text;
        if elem.JObj? then
          Get(if key in elem.fields then elem.fields[key] else JNull, segs[1..])
        else Ok(JNull)
  }

  /** `jpath(root, path)`. */
  function JPath(root: JValue, path: string): Result<JValue, PyError>
  {
    Get(root, Segments(PathParts(path)))
  }

  /** A walk that ends on something other than `None` went down real nodes only, so it can be continued. */
  lemma {:induction false} GetAppend(elem: JValue, a: seq<Segment>, b: seq<Segment>)
    requires Get(elem, a).Ok? && Get(elem, a).value != JNull
    ensures Get(elem, a + b) == Get(Get(elem, a).value, b)
    decreases |a|
  {
    if a != [] {
      var ab := a + b;
      assert ab[0] == a[0] && ab[1..] == a[1..] + b;
      match a[0].number {
        case Some(n) =>
          match elem {
            case JList(items) =>
              var i := ListIndex(n, |items|).value;
              GetAppend(items[i], a[1..], b);
              assert Get(elem, ab) == Get(items[i], a[1..] + b);
            case JObj(_) =>
              GetAppend(JNull, a[1..], b);
              assert Get(elem, ab) == Get(JNull, a[1..] + b);
            case _ =>
          }
        case None =>
          var key := a[0].text;
          var child := if key in elem.fields then elem.fields[key] else JNull;
          GetAppend(child, a[1..], b);
          assert Get(elem, ab) == Get(child, a[1..] + b);
      }
    } else {
      assert a + b == b;
    }
  }

  /** From `None`, a walk never reaches a dict. */
  lemma GetFromNull(segs: seq<Segment>)
    ensures Get(JNull, segs).Ok? ==> Get(JNull, segs).value == JNull
  {
  }

  /**
   * Getting a key missing from a dict gives `None`, however deep the dict, and
   * so does any non-numeric segment after it.
   */
  lemma GetMissing(elem: JValue, pre: seq<Segment>, key: Segment, post: seq<Segment>)
    requires Get(elem, pre).Ok? && Get(elem, pre).value.JObj?
    requires key.number.None? && key.text !in Get(elem, pre).value.fields
    requires post == [] || post[0].number.None?
    ensures Get(elem, pre + [key] + post) == Ok(JNull)
  {
    GetAppend(elem, pre, [key] + post);
    assert pre + [key] + post == pre + ([key] + post);
    assert ([key] + post)[1..] == post;
  }

  /** A leading or a trailing `/` makes no difference to the segments. */
  lemma PathPartsIgnoreOuterSlashes(path: string)
    ensures PathParts("/" + path) == PathParts(path)
    ensures PathParts(path + "/") == PathParts(path)
  {
    StripCharsPrepend(path, '/', {'/'});
    StripCharsAppend(path, '/', {'/'});
  }

  /** The path `jpath` walks for its parent: the segments but the last, re-joined and re-split. */
  function ParentParts(parts: seq<string>): seq<string>
    requires |parts| >= 1
  {
    if |parts| == 1 then [] else PathParts(Join(parts[..|parts| - 1], "/"))
  }

  /** Every segment holds at least one character, as in every path the pipeline uses. */
  predicate NoEmptySegment(parts: seq<string>) {
    forall i :: 0 <= i < |parts| ==> parts[i] != []
  }

  /** Without empty segments, re-parsing the parent path gives back exactly the leading segments. */
  lemma ParentPartsArePrefix(parts: seq<string>)
    requires |parts| >= 1 && NoEmptySegment(parts)
    requires forall i :: 0 <= i < |parts| ==> '/' !in parts[i]
    ensures ParentParts(parts) == parts[..|parts| - 1]
  {
    var n := |parts|;
    if n > 1 {
      var pre := parts[..n - 1];
      assert forall i :: 0 <= i < |pre| ==> pre[i] == parts[i];
      JoinFirst(pre, "/");
      JoinLast(pre, "/");
      StripOfClean(Join(pre, "/"), {'/'});
      SplitJoin(pre, '/');
    }
  }

  /** No segment of a path holds a `/`. */
  lemma PathPartsHaveNoSlash(path: string)
    ensures forall i :: 0 <= i < |PathParts(path)| ==> '/' !in PathParts(path)[i]
  {
    var parts := PathParts(path);
    SplitCharPieces(StripChars(path, {'/'}), '/');
    assert forall i :: 0 <= i < |parts| ==> parts[i] in parts;
  }

  /** The segments of a path split as the path does. */
  lemma SegmentsSplit(parts: seq<string>, k: nat)
    requires k <= |parts|
    ensures Segments(parts) == Segments(parts[..k]) + Segments(parts[k..])
  {
  }

  // ---------------------------------------------------------------------------
  // editing the dict at a path

  /** The two ways the module changes a dict: `parent[key] = v` and `del parent[key]`. */
  datatype Edit = Put(key: string, v: JValue) | Remove(key: string)

  /** An edit on the members of a dict: deleting a missing key is a `KeyError`. */
  function Apply(fields: map<string, JValue>, e: Edit): Result<map<string, JValue>, PyError>
  {
    match e
    case Put(k, v) => Ok(fields[k := v])
    case Remove(k) => if k in fields then Ok(fields - {k}) else Err(KeyError)
  }

  /** The failure of an edit whose walk does not reach a dict: the walk's own exception, else the `TypeError` of editing a non-dict. */
  function NoDict(g: Result<JValue, PyError>): Result<JValue, PyError>
  {
    if g.Err? then Err(g.error) else Err(TypeError)
  }

  /**
   * Walks `segs` from `elem` as `Get` does and applies `e` to the node reached,
   * rebuilding the lists and dicts passed on the way.
   */
  function EditAt(elem: JValue, segs: seq<Segment>, e: Edit): Result<JValue, PyError>
    decreases |segs|
  {
    if segs == [] then
      if elem.JObj? then
        var f :- Apply(elem.fields, e);
        Ok(JObj(f))
      else Err(TypeError)
    else
      match segs[0].number
      case Some(n) =>
        if elem.JList? && ListIndex(n, |elem.items|).Some? then
          var i := ListIndex(n, |elem.items|).value;
          var c :- EditAt(elem.items[i], segs[1..], e);
          Ok(JList(elem.items[i := c]))
        else NoDict(Get(elem, segs))
      case None =>
        var key := segs[0].text;
        if elem.JObj? && key in elem.fields then
          var c :- EditAt(elem.fields[key], segs[1..], e);
          Ok(JObj(elem.fields[key := c]))
        else NoDict(Get(elem, segs))
  }

  /** The node `Get` reaches is a dict on which the edit applies. */
  predicate EditApplies(elem: JValue, segs: seq<Segment>, e: Edit) {
    && Get(elem, segs).Ok?
    && Get(elem, segs).value.JObj?
    && Apply(Get(elem, segs).value.fields, e).Ok?
  }

  /**
   * An edit succeeds exactly when `Get` reaches a dict on which it applies, and
   * afterwards the same walk reaches that dict with the edit made.
   */
  lemma {:induction false} EditAtGet(elem: JValue, segs: seq<Segment>, e: Edit)
    ensures EditAt(elem, segs, e).Ok? <==> EditApplies(elem, segs, e)
    ensures EditAt(elem, segs, e).Ok? ==>
      Get(EditAt(elem, segs, e).value, segs) == Ok(JObj(Apply(Get(elem, segs).value.fields, e).value))
    decreases |segs|
  {
    if segs != [] {
      match segs[0].number
      case Some(n) =>
        if elem.JList? && ListIndex(n, |elem.items|).Some? {
          var i := ListIndex(n, |elem.items|).value;
          EditAtGet(elem.items[i], segs[1..], e);
          if EditAt(elem, segs, e).Ok? {
            var c := EditAt(elem.items[i], segs[1..], e).value;
            assert ListIndex(n, |elem.items[i := c]|) == Some(i);
          }
        } else if elem.JObj? {
          GetFromNull(segs[1..]);
        }
      case None =>
        var key := segs[0].text;
        if elem.JObj? && key in elem.fields {
          EditAtGet(elem.fields[key], segs[1..], e);
        } else if elem.JObj? {
          GetFromNull(segs[1..]);
        }
    }
  }

  /** Getting the last segment, a non-numeric key, from the dict the parent segments reach. */
  lemma GetLast(elem: JValue, pre: seq<Segment>, last: Segment)
    requires Get(elem, pre).Ok? && Get(elem, pre).value.JObj? && last.number.None?
    ensures var f := Get(elem, pre).value.fields;
      Get(elem, pre + [last]) == Ok(if last.text in f then f[last.text] else JNull)
  {
    GetAppend(elem, pre, [last]);
  }

  // ---------------------------------------------------------------------------
  // jpath(root, path, setdata)

  /** The segments of the parent path that `jpath` walks to set or delete. */
  function ParentSegments(path: string): seq<Segment>
  {
    Segments(ParentParts(PathParts(path)))
  }

  /** The key, the last segment, that `jpath` sets or deletes in the parent. */
  function LastKey(path: string): string
  {
    var parts := PathParts(path);
    parts[|parts| - 1]
  }

  /**
   * `jpath(root, path, setdata)`: with `setdata` not `None`, assigns it under the
   * last segment (as a string key) of the dict the parent path leads to; with
   * `setdata` `None` it is only a get, and the document is unchanged.
   */
  function JPathSet(root: JValue, path: string, v: JValue): (r: Result<JValue, PyError>)
    ensures v == JNull ==> (r.Ok? <==> JPath(root, path).Ok?) && (r.Ok? ==> r.value == root)
  {
    if v == JNull then
      var _ :- JPath(root, path);
      Ok(root)
    else
      EditAt(root, ParentSegments(path), Put(LastKey(path), v))
  }

  /**
   * Setting succeeds exactly when the parent path leads to a dict, and then that
   * dict holds the value under the last key and every other member unchanged.
   */
  lemma SetAtParent(root: JValue, path: string, v: JValue)
    requires v != JNull
    ensures var g := Get(root, ParentSegments(path));
      && (JPathSet(root, path, v).Ok? <==> g.Ok? && g.value.JObj?)
      && (JPathSet(root, path, v).Ok? ==>
            Get(JPathSet(root, path, v).value, ParentSegments(path)) == Ok(JObj(g.value.fields[LastKey(path) := v])))
  {
    EditAtGet(root, ParentSegments(path), Put(LastKey(path), v));
  }

  /** The path's segments are its parent's and then its last, when no segment is empty. */
  lemma PathIsParentAndLast(path: string)
    requires NoEmptySegment(PathParts(path))
    ensures Segments(PathParts(path)) == ParentSegments(path) + Segments([LastKey(path)])
  {
    var parts := PathParts(path);
    PathPartsHaveNoSlash(path);
    ParentPartsArePrefix(parts);
    SegmentsSplit(parts, |parts| - 1);
    assert parts[|parts| - 1..] == [LastKey(path)];
  }

  /** After `parent[key] = v` at the dict the segments reach, getting the key there gives `v`. */
  lemma GetAfterPut(root: JValue, pre: seq<Segment>, last: Segment, v: JValue)
    requires EditAt(root, pre, Put(last.text, v)).Ok? && last.number.None?
    ensures Get(EditAt(root, pre, Put(last.text, v)).value, pre + [last]) == Ok(v)
  {
    EditAtGet(root, pre, Put(last.text, v));
    GetLast(EditAt(root, pre, Put(last.text, v)).value, pre, last);
  }

  /**
   * Getting a path just set gives the value set, when no segment is empty and the
   * last one is not numeric (a numeric last segment is stored as a string key,
   * which the get then reads as an integer).
   */
  lemma GetAfterSet(root: JValue, path: string, v: JValue)
    requires v != JNull && JPathSet(root, path, v).Ok?
    requires NoEmptySegment(PathParts(path)) && PyInt(LastKey(path)).None?
    ensures JPath(JPathSet(root, path, v).value, path) == Ok(v)
  {
    var pre := ParentSegments(path);
    var lasts := Segments([LastKey(path)]);
    var last := lasts[0];
    assert lasts == [last];
    PathIsParentAndLast(path);
    GetAfterPut(root, pre, last, v);
  }

  /**
   * `jpath({'a': [1, 2]}, 'a/- 1')` is 2: Python 2 reads `int('- 1')` as -1, so
   * the segment indexes the list from its end.
   */
  lemma {:induction false} SpacedNegativeIndex()
    ensures JPath(JObj(map["a" := JList([JInt(1), JInt(2)])]), "a/- 1") == Ok(JInt(2))
  {
    SpacedPathParts();
    SpacedSegments();
    var segs := Segments(["a", "- 1"]);
    assert segs[1..][1..] == [];
  }

  lemma {:induction false} SpacedPathParts()
    ensures PathParts("a/- 1") == ["a", "- 1"]
  {
    var parts := ["a", "- 1"];
    assert Join(parts, "/") == "a/- 1";
    assert "a/- 1"[0] == 'a' && "a/- 1"[4] == '1';
    StripOfClean("a/- 1", {'/'});
    assert '/' !in parts[0] && '/' !in parts[1];
    SplitJoin(parts, '/');
  }

  lemma {:induction false} SpacedSegments()
    ensures Segments(["a", "- 1"]) == [Segment("a", None), Segment("- 1", Some(-1))]
  {
    assert "a"[0] == 'a';
    StripOfClean("a", Whitespace);
    assert PyInt("a") == None;
    PyIntSigned("- 1", '-', " ", "1");
    assert DigitsValue("1") == 1 by { assert "1"[..0] == ""; }
  }

  // ---------------------------------------------------------------------------
  // jpath_create_dicts(root, path)

  /**
   * The loop of `jpath_create_dicts` from node `elem`: a missing key gets an
   * empty dict, then the walk steps into the key. Any `p in elem` or item
   * assignment on a non-dict is a `TypeError`.
   */
  function CreateDictsAt(elem: JValue, parts: seq<string>): (r: Result<JValue, PyError>)
    ensures r.Err? ==> r.error == TypeError
    decreases |parts|
  {
    if parts == [] then Ok(elem)
    else if !elem.JObj? then Err(TypeError)
    else
      var p := parts[0];
      var c :- CreateDictsAt(if p in elem.fields then elem.fields[p] else JObj(map[]), parts[1..]);
      Ok(JObj(elem.fields[p := c]))
  }

  /** `jpath_create_dicts(root, path)`. */
  function JPathCreateDicts(root: JValue, path: string): Result<JValue, PyError>
  {
    CreateDictsAt(root, PathParts(path))
  }

  /** The node reached by following `keys` as dict keys, when each is present. */
  function Reach(elem: JValue, keys: seq<string>): Option<JValue>
    decreases |keys|
  {
    if keys == [] then Some(elem)
    else if elem.JObj? && keys[0] in elem.fields then Reach(elem.fields[keys[0]], keys[1..])
    else None
  }

  /** The walk along `keys` comes to a node that is not a dict before its last key. */
  predicate Blocked(elem: JValue, keys: seq<string>) {
    exists i | 0 <= i < |keys| :: Reach(elem, keys[..i]).Some? && !Reach(elem, keys[..i]).value.JObj?
  }

  /** `b` holds every key of `a`, at every depth, with the values below them extended in turn. */
  ghost predicate Extends(a: JValue, b: JValue)
    decreases a
  {
    a == b || (a.JObj? && b.JObj? && forall k :: k in a.fields ==> k in b.fields && Extends(a.fields[k], b.fields[k]))
  }

  lemma ReachStep(elem: JValue, keys: seq<string>, i: nat)
    requires 0 < i <= |keys| && elem.JObj? && keys[0] in elem.fields
    ensures Reach(elem, keys[..i]) == Reach(elem.fields[keys[0]], keys[1..][..i - 1])
  {
    assert keys[..i][0] == keys[0] && keys[..i][1..] == keys[1..][..i - 1];
  }

  /** `jpath_create_dicts` raises exactly when an existing node on the path is not a dict. */
  lemma {:induction false} CreateDictsFailsWhenBlocked(elem: JValue, keys: seq<string>)
    ensures CreateDictsAt(elem, keys).Err? <==> Blocked(elem, keys)
    decreases |keys|
  {
    if keys != [] {
      if !elem.JObj? {
        assert Reach(elem, keys[..0]) == Some(elem);
      } else {
        var p := keys[0];
        var child := if p in elem.fields then elem.fields[p] else JObj(map[]);
        CreateDictsFailsWhenBlocked(child, keys[1..]);
        if p in elem.fields {
          if Blocked(child, keys[1..]) {
            var j :| 0 <= j < |keys[1..]| && Reach(child, keys[1..][..j]).Some? && !Reach(child, keys[1..][..j]).value.JObj?;
            ReachStep(elem, keys, j + 1);
          }
          if Blocked(elem, keys) {
            var i :| 0 <= i < |keys| && Reach(elem, keys[..i]).Some? && !Reach(elem, keys[..i]).value.JObj?;
            assert i > 0 by { assert Reach(elem, keys[..0]) == Some(elem); }
            ReachStep(elem, keys, i);
          }
        } else {
          assert !Blocked(child, keys[1..]) by {
            forall j | 0 <= j < |keys[1..]| ensures !(Reach(child, keys[1..][..j]).Some? && !Reach(child, keys[1..][..j]).value.JObj?) {
              if j > 0 { assert (keys[1..][..j])[0] in keys[1..]; }
            }
          }
          forall i | 0 <= i < |keys| ensures !(Reach(elem, keys[..i]).Some? && !Reach(elem, keys[..i]).value.JObj?) {
            if i == 0 {
              assert keys[..0] == [];
            } else {
              assert keys[..i][0] == p;
            }
          }
        }
      }
    }
  }

  /**
   * After `jpath_create_dicts`, every segment but the last names a dict on the
   * path, and the last names its old node or, when it was missing, a new empty dict.
   */
  lemma {:induction false} CreateDictsReaches(elem: JValue, keys: seq<string>)
    requires CreateDictsAt(elem, keys).Ok?
    ensures var t := CreateDictsAt(elem, keys).value;
      && (forall i | 0 <= i < |keys| :: Reach(t, keys[..i]).Some? && Reach(t, keys[..i]).value.JObj?)
      && Reach(t, keys) == Some(if Reach(elem, keys).Some? then Reach(elem, keys).value else JObj(map[]))
    decreases |keys|
  {
    var t := CreateDictsAt(elem, keys).value;
    if keys != [] {
      var p := keys[0];
      var child := if p in elem.fields then elem.fields[p] else JObj(map[]);
      CreateDictsReaches(child, keys[1..]);
      var c := CreateDictsAt(child, keys[1..]).value;
      assert t == JObj(elem.fields[p := c]);
      forall i | 0 <= i < |keys| ensures Reach(t, keys[..i]).Some? && Reach(t, keys[..i]).value.JObj? {
        if i == 0 {
          assert keys[..0] == [];
        } else {
          ReachStep(t, keys, i);
        }
      }
      if p !in elem.fields {
        EmptyReach(keys[1..]);
      }
    }
  }

  /** From an empty dict, only the empty path reaches anything. */
  lemma EmptyReach(keys: seq<string>)
    ensures Reach(JObj(map[]), keys) == if keys == [] then Some(JObj(map[])) else None
  {
  }

  /** `jpath_create_dicts` only adds: every key already present keeps its node, extended. */
  lemma {:induction false} CreateDictsExtends(elem: JValue, keys: seq<string>)
    requires CreateDictsAt(elem, keys).Ok?
    ensures Extends(elem, CreateDictsAt(elem, keys).value)
    decreases |keys|
  {
    if keys != [] {
      var p := keys[0];
      var child := if p in elem.fields then elem.fields[p] else JObj(map[]);
      CreateDictsExtends(child, keys[1..]);
      var t := CreateDictsAt(elem, keys).value;
      forall k | k in elem.fields ensures k in t.fields && Extends(elem.fields[k], t.fields[k]) {
        if k != p {
          assert t.fields[k] == elem.fields[k];
        }
      }
    }
  }

  /** A second `jpath_create_dicts` of the same path changes nothing. */
  lemma {:induction false} CreateDictsIdempotent(elem: JValue, keys: seq<string>)
    requires CreateDictsAt(elem, keys).Ok?
    ensures CreateDictsAt(CreateDictsAt(elem, keys).value, keys) == CreateDictsAt(elem, keys)
    decreases |keys|
  {
    if keys != [] {
      var p := keys[0];
      var child := if p in elem.fields then elem.fields[p] else JObj(map[]);
      CreateDictsIdempotent(child, keys[1..]);
      var t := CreateDictsAt(elem, keys).value;
      assert t.fields[p := t.fields[p]] == t.fields;
    }
  }

  /** Along dict keys that are not numbers, `jpath` reads what `Reach` reaches. */
  lemma {:induction false} GetIsReach(elem: JValue, keys: seq<string>)
    requires forall i :: 0 <= i < |keys| ==> PyInt(keys[i]).None?
    requires Reach(elem, keys).Some?
    ensures Get(elem, Segments(keys)) == Ok(Reach(elem, keys).value)
    decreases |keys|
  {
    if keys != [] {
      assert Segments(keys)[1..] == Segments(keys[1..]);
      GetIsReach(elem.fields[keys[0]], keys[1..]);
    }
  }

  // ---------------------------------------------------------------------------
  // jpath_delete(root, path)

  /**
   * `jpath_delete(root, path)`: nothing when `jpath` gets `None`; otherwise
   * `del parent[last]` on the node the parent path leads to. (Its
   * `len(path_parts) == 0` test never holds: a split has at least one piece.)
   */
  function JPathDelete(root: JValue, path: string): (r: Result<JValue, PyError>)
    ensures JPath(root, path) == Ok(JNull) ==> r == Ok(root)
    ensures JPath(root, path).Err? ==> r.Err?
  {
    var g :- JPath(root, path);
    if g == JNull then Ok(root)
    else EditAt(root, ParentSegments(path), Remove(LastKey(path)))
  }

  /**
   * A delete of a present key leaves the parent dict with that key removed and
   * every other member unchanged.
   */
  lemma DeleteAtParent(root: JValue, path: string)
    requires JPath(root, path).Ok? && JPath(root, path) != Ok(JNull) && JPathDelete(root, path).Ok?
    ensures var g := Get(root, ParentSegments(path));
      && g.Ok? && g.value.JObj? && LastKey(path) in g.value.fields
      && Get(JPathDelete(root, path).value, ParentSegments(path)) == Ok(JObj(g.value.fields - {LastKey(path)}))
  {
    var segs := ParentSegments(path);
    var e := Remove(LastKey(path));
    assert JPathDelete(root, path) == EditAt(root, segs, e);
    EditAtGet(root, segs, e);
    RemoveApplies(Get(root, segs).value.fields, LastKey(path));
  }

  lemma RemoveApplies(fields: map<string, JValue>, k: string)
    requires Apply(fields, Remove(k)).Ok?
    ensures k in fields && Apply(fields, Remove(k)).value == fields - {k}
  {
  }

  /** After `del parent[key]` at the dict the segments reach, getting the key there gives `None`. */
  lemma GetAfterRemove(root: JValue, pre: seq<Segment>, last: Segment)
    requires EditAt(root, pre, Remove(last.text)).Ok? && last.number.None?
    ensures Get(EditAt(root, pre, Remove(last.text)).value, pre + [last]) == Ok(JNull)
  {
    EditAtGet(root, pre, Remove(last.text));
    GetLast(EditAt(root, pre, Remove(last.text)).value, pre, last);
  }

  /** After a delete the path gets `None`, when no segment is empty and the last is not numeric. */
  lemma GetAfterDelete(root: JValue, path: string)
    requires JPathDelete(root, path).Ok?
    requires NoEmptySegment(PathParts(path)) && PyInt(LastKey(path)).None?
    ensures JPath(JPathDelete(root, path).value, path) == Ok(JNull)
  {
    if JPath(root, path) != Ok(JNull) {
      GetAfterDeletePresent(root, path);
    }
  }

  lemma GetAfterDeletePresent(root: JValue, path: string)
    requires JPath(root, path) != Ok(JNull) && JPathDelete(root, path).Ok?
    requires NoEmptySegment(PathParts(path)) && PyInt(LastKey(path)).None?
    ensures JPath(JPathDelete(root, path).value, path) == Ok(JNull)
  {
    var pre := ParentSegments(path);
    var lasts := Segments([LastKey(path)]);
    var last := lasts[0];
    assert lasts == [last];
    assert JPathDelete(root, path) == EditAt(root, pre, Remove(last.text));
    PathIsParentAndLast(path);
    GetAfterRemove(root, pre, last);
  }

  /** Deleting twice leaves the document as deleting once. */
  lemma DeleteIdempotent(root: JValue, path: string)
    requires JPathDelete(root, path).Ok?
    requires NoEmptySegment(PathParts(path)) && PyInt(LastKey(path)).None?
    ensures JPathDelete(JPathDelete(root, path).value, path) == JPathDelete(root, path)
  {
    GetAfterDelete(root, path);
  }
}
