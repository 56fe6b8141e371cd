/**
 * `jpath`, `jpath_create_dicts` and `jpath_delete` on paths made of plain dict
 * keys, the only paths the formatters and the updater use: there each edit is
 * an update of nested maps, and an edit leaves alone every path that branches
 * off its own.
 */
module KeyPaths {
  import opened Results
  import opened Text
  import opened Json
  import opened JsonUtils

  /** A segment that `jpath` takes as a dict key: not empty, no `/`, not read by `int()`. */
  predicate PlainKey(k: string) {
    k != [] && '/' !in k && PyInt(k).None?
  }

  /** A key that starts with a letter and ends with no space is plain. */
  lemma PlainKeyOf(k: string)
    requires k != [] && '/' !in k && ('a' <= k[0] <= 'z' || 'A' <= k[0] <= 'Z') && !IsSpace(k[|k| - 1])
    ensures PlainKey(k)
  {
    StripOfClean(k, Whitespace);
    assert !IsDigit(k[0]);
  }

  predicate PlainKeys(keys: seq<string>) {
    forall i :: 0 <= i < |keys| ==> PlainKey(keys[i])
  }

  /** The path that names `keys` in turn. */
  function KeyPath(keys: seq<string>): string {
    Join(keys, "/")
  }

  /** `jpath` splits a key path back into its keys. */
  lemma KeyPathParts(keys: seq<string>)
    requires |keys| >= 1 && PlainKeys(keys)
    ensures PathParts(KeyPath(keys)) == keys
  {
    JoinFirst(keys, "/");
    JoinLast(keys, "/");
    assert keys[0][0] in keys[0];
    var last := keys[|keys| - 1];
    assert last[|last| - 1] in last;
    StripOfClean(Join(keys, "/"), {'/'});
    SplitJoin(keys, '/');
  }

  /** The segments of a key path: its keys, none of them numeric. */
  lemma KeySegments(keys: seq<string>)
    requires |keys| >= 1 && PlainKeys(keys)
    ensures Segments(PathParts(KeyPath(keys))) == Segments(keys)
    ensures forall i :: 0 <= i < |keys| ==> PyInt(keys[i]).None?
  {
    KeyPathParts(keys);
  }

  // ---------------------------------------------------------------------------
  // nested updates

  /** The keys before the last one lead through dicts to a dict. */
  predicate ParentIsDict(elem: JValue, keys: seq<string>)
    requires |keys| >= 1
  {
    Reach(elem, keys[..|keys| - 1]).Some? && Reach(elem, keys[..|keys| - 1]).value.JObj?
  }

  lemma ParentStep(elem: JValue, keys: seq<string>)
    requires |keys| >= 2 && ParentIsDict(elem, keys)
    ensures elem.JObj? && keys[0] in elem.fields && ParentIsDict(elem.fields[keys[0]], keys[1..])
  {
    assert keys[..|keys| - 1][0] == keys[0];
    ReachStep(elem, keys, |keys| - 1);
  }

  /** `parent[last] = v` on the dict the keys before the last lead to. */
  function SetIn(elem: JValue, keys: seq<string>, v: JValue): (r: JValue)
    requires |keys| >= 1 && ParentIsDict(elem, keys)
    ensures r.JObj?
    decreases |keys|
  {
    if |keys| == 1 then
      assert keys[..0] == [];
      JObj(elem.fields[keys[0] := v])
    else
      ParentStep(elem, keys);
      JObj(elem.fields[keys[0] := SetIn(elem.fields[keys[0]], keys[1..], v)])
  }

  /** Keys that part company: they differ at some position, after the same start. */
  predicate Diverge(a: seq<string>, b: seq<string>)
    decreases |a|
  {
    |a| > 0 && |b| > 0 && (a[0] != b[0] || Diverge(a[1..], b[1..]))
  }

  /** After a nested set, the keys reach the value set, and every branching path reaches what it did. */
  lemma {:induction false} ReachSetIn(elem: JValue, keys: seq<string>, v: JValue, other: seq<string>)
    requires |keys| >= 1 && ParentIsDict(elem, keys)
    ensures Reach(SetIn(elem, keys, v), keys) == Some(v)
    ensures Diverge(keys, other) ==> Reach(SetIn(elem, keys, v), other) == Reach(elem, other)
    decreases |keys|
  {
    if |keys| == 1 {
      assert keys[..0] == [];
      if Diverge(keys, other) {
        assert !Diverge(keys[1..], other[1..]);
      }
    } else {
      ParentStep(elem, keys);
      ReachSetIn(elem.fields[keys[0]], keys[1..], v, if |other| > 0 then other[1..] else []);
    }
  }

  /** A nested set keeps every prefix of its keys leading to a dict. */
  lemma {:induction false} SetInKeepsParents(elem: JValue, keys: seq<string>, v: JValue, more: seq<string>)
    requires |keys| >= 1 && ParentIsDict(elem, keys)
    requires |more| >= 1 && more[..|more| - 1] == keys[..|keys| - 1]
    ensures ParentIsDict(SetIn(elem, keys, v), more)
    decreases |keys|
  {
    var t := SetIn(elem, keys, v);
    if |keys| == 1 {
      assert more[..|more| - 1] == [];
    } else {
      ParentStep(elem, keys);
      assert more[..|more| - 1][0] == keys[0];
      assert more[0] == keys[0];
      ReachStep(t, more, |more| - 1);
      assert more[1..][..|more| - 2] == keys[1..][..|keys| - 2];
      SetInKeepsParents(elem.fields[keys[0]], keys[1..], v, more[1..]);
    }
  }

  /** `jpath_create_dicts` leaves every branching path as it was. */
  lemma {:induction false} ReachCreateDicts(elem: JValue, keys: seq<string>, other: seq<string>)
    requires CreateDictsAt(elem, keys).Ok? && Diverge(keys, other)
    ensures Reach(CreateDictsAt(elem, keys).value, other) == Reach(elem, other)
    decreases |keys|
  {
    var p := keys[0];
    var child := if p in elem.fields then elem.fields[p] else JObj(map[]);
    var c := CreateDictsAt(child, keys[1..]).value;
    assert CreateDictsAt(elem, keys).value == JObj(elem.fields[p := c]);
    if other[0] == p {
      ReachCreateDicts(child, keys[1..], other[1..]);
      if p !in elem.fields {
        EmptyReach(other[1..]);
      }
    }
  }

  // ---------------------------------------------------------------------------
  // the jsonutils calls on key paths

  /** Along a nested set's keys, `jpath` with `setdata` is that set. */
  lemma {:induction false} EditAtKeys(elem: JValue, pre: seq<string>, k: string, v: JValue)
    requires forall i :: 0 <= i < |pre| ==> PyInt(pre[i]).None?
    requires Reach(elem, pre).Some? && Reach(elem, pre).value.JObj?
    ensures ParentIsDict(elem, pre + [k])
    ensures EditAt(elem, Segments(pre), Put(k, v)) == Ok(SetIn(elem, pre + [k], v))
    decreases |pre|
  {
    var keys := pre + [k];
    assert keys[..|keys| - 1] == pre;
    if pre != [] {
      assert Segments(pre)[1..] == Segments(pre[1..]);
      assert keys[1..] == pre[1..] + [k];
      EditAtKeys(elem.fields[pre[0]], pre[1..], k, v);
    }
  }

  /** The parent parts `jpath` takes from a key path are the keys but the last. */
  lemma KeyPathParentParts(keys: seq<string>)
    requires |keys| >= 1 && PlainKeys(keys)
    ensures ParentParts(PathParts(KeyPath(keys))) == keys[..|keys| - 1]
  {
    KeyPathParts(keys);
    NoSlashInKeys(keys);
    ParentPartsArePrefix(keys);
  }

  /** The parent segments `jpath` walks on a key path. */
  lemma KeyPathParent(keys: seq<string>)
    requires |keys| >= 1 && PlainKeys(keys)
    ensures ParentSegments(KeyPath(keys)) == Segments(keys[..|keys| - 1])
  {
    KeyPathParentParts(keys);
  }

  /** The last key `jpath` sets or deletes on a key path. */
  lemma KeyPathLast(keys: seq<string>)
    requires |keys| >= 1 && PlainKeys(keys)
    ensures LastKey(KeyPath(keys)) == keys[|keys| - 1]
  {
    KeyPathParts(keys);
  }

  lemma NoSlashInKeys(keys: seq<string>)
    requires PlainKeys(keys)
    ensures NoEmptySegment(keys) && forall i :: 0 <= i < |keys| ==> '/' !in keys[i]
  {
  }

  /** `jpath(root, path, v)` on a key path is the edit at the parent keys' segments. */
  lemma JPathSetAsEdit(root: JValue, keys: seq<string>, v: JValue)
    requires |keys| >= 1 && PlainKeys(keys) && v != JNull
    ensures JPathSet(root, KeyPath(keys), v) == EditAt(root, Segments(keys[..|keys| - 1]), Put(keys[|keys| - 1], v))
  {
    KeyPathParent(keys);
    KeyPathLast(keys);
  }

  /** The keys but the last of plain keys are plain. */
  lemma ParentKeysPlain(keys: seq<string>)
    requires |keys| >= 1 && PlainKeys(keys)
    ensures PlainKeys(keys[..|keys| - 1])
  {
  }

  /** A sequence is its front and its last element. */
  lemma FrontLast<T>(s: seq<T>)
    requires |s| >= 1
    ensures s[..|s| - 1] + [s[|s| - 1]] == s
  {
  }

  /** `jpath(root, path, v)` on a key path whose parent is a dict. */
  lemma JPathSetKeys(root: JValue, keys: seq<string>, v: JValue)
    requires |keys| >= 1 && PlainKeys(keys) && ParentIsDict(root, keys) && v != JNull
    ensures JPathSet(root, KeyPath(keys), v) == Ok(SetIn(root, keys, v))
  {
    var n := |keys|;
    var pre := keys[..n - 1];
    JPathSetAsEdit(root, keys, v);
    ParentKeysPlain(keys);
    FrontLast(keys);
    EditAtKeys(root, pre, keys[n - 1], v);
  }

  /** `jpath(root, path)` on a key path reaches what the keys reach, else `None`. */
  lemma JPathKeys(root: JValue, keys: seq<string>)
    requires |keys| >= 1 && PlainKeys(keys) && ParentIsDict(root, keys)
    ensures JPath(root, KeyPath(keys)) == Ok(if Reach(root, keys).Some? then Reach(root, keys).value else JNull)
  {
    KeyPathParts(keys);
    KeySegments(keys);
    GetKeys(root, keys);
  }

  /** The walk of `jpath` along keys that are not numbers. */
  lemma GetKeys(root: JValue, keys: seq<string>)
    requires |keys| >= 1 && ParentIsDict(root, keys)
    requires forall i :: 0 <= i < |keys| ==> PyInt(keys[i]).None?
    ensures Get(root, Segments(keys)) == Ok(if Reach(root, keys).Some? then Reach(root, keys).value else JNull)
  {
    var pre := keys[..|keys| - 1];
    var k := keys[|keys| - 1];
    FrontLast(keys);
    GetKeysSnoc(root, pre, k);
  }

  /** `GetKeys` for the keys `pre` and then `k`. */
  lemma GetKeysSnoc(root: JValue, pre: seq<string>, k: string)
    requires Reach(root, pre).Some? && Reach(root, pre).value.JObj?
    requires forall i :: 0 <= i < |pre| ==> PyInt(pre[i]).None?
    requires PyInt(k).None?
    ensures var keys := pre + [k];
      Get(root, Segments(keys)) == Ok(if Reach(root, keys).Some? then Reach(root, keys).value else JNull)
  {
    var keys := pre + [k];
    assert keys[..|keys| - 1] == pre;
    SegmentsSnoc(pre, k);
    GetIsReach(root, pre);
    ReachLast(root, keys);
    GetThenKey(root, Segments(keys), Segments(pre), Segment(k, None), Reach(root, pre).value, Reach(root, keys));
  }

  /** The walk along `segs` comes to the dict `node`; one more key segment reads the key or gives `None`. */
  lemma GetThenKey(root: JValue, all: seq<Segment>, segs: seq<Segment>, last: Segment, node: JValue, r: Option<JValue>)
    requires all == segs + [last] && last.number.None?
    requires Get(root, segs) == Ok(node) && node.JObj?
    requires r == if last.text in node.fields then Some(node.fields[last.text]) else None
    ensures Get(root, all) == Ok(if r.Some? then r.value else JNull)
  {
    GetLast(root, segs, last);
  }

  lemma SegmentsLast(keys: seq<string>)
    requires |keys| >= 1 && PyInt(keys[|keys| - 1]).None?
    ensures Segments(keys) == Segments(keys[..|keys| - 1]) + [Segment(keys[|keys| - 1], None)]
  {
    var n := |keys|;
    assert keys == keys[..n - 1] + [keys[n - 1]];
    SegmentsSnoc(keys[..n - 1], keys[n - 1]);
  }

  lemma SegmentsSnoc(pre: seq<string>, x: string)
    ensures Segments(pre + [x]) == Segments(pre) + [Segment(x, PyInt(x))]
  {
    var a := Segments(pre + [x]);
    var b := Segments(pre) + [Segment(x, PyInt(x))];
    assert |a| == |b|;
    forall i | 0 <= i < |a| ensures a[i] == b[i] {
      if i < |pre| {
        assert (pre + [x])[i] == pre[i];
      }
    }
  }

  lemma {:induction false} ReachLast(elem: JValue, keys: seq<string>)
    requires |keys| >= 1 && ParentIsDict(elem, keys)
    ensures var f := Reach(elem, keys[..|keys| - 1]).value.fields; var k := keys[|keys| - 1];
      Reach(elem, keys) == if k in f then Some(f[k]) else None
    decreases |keys|
  {
    if |keys| == 1 {
      assert keys[..0] == [];
    } else {
      ParentStep(elem, keys);
      assert keys[1..][..|keys| - 2] == keys[..|keys| - 1][1..];
      ReachLast(elem.fields[keys[0]], keys[1..]);
    }
  }

  /** `jpath_create_dicts(root, path)` on a key path. */
  lemma JPathCreateDictsKeys(root: JValue, keys: seq<string>)
    requires |keys| >= 1 && PlainKeys(keys)
    ensures JPathCreateDicts(root, KeyPath(keys)) == CreateDictsAt(root, keys)
  {
    KeyPathParts(keys);
  }

  /** After `jpath_create_dicts`, the path's parent is a dict. */
  lemma CreatedParent(elem: JValue, keys: seq<string>)
    requires |keys| >= 1 && CreateDictsAt(elem, keys).Ok?
    ensures ParentIsDict(CreateDictsAt(elem, keys).value, keys)
  {
    CreateDictsReaches(elem, keys);
    assert Reach(CreateDictsAt(elem, keys).value, keys[..|keys| - 1]).Some?;
  }

  /** `jpath_delete` of a path whose parent is the root itself. */
  lemma DeleteTop(root: JValue, path: string, k: string)
    requires root.JObj? && ParentSegments(path) == [] && LastKey(path) == k
    requires JPath(root, path) == Ok(if k in root.fields then root.fields[k] else JNull)
    ensures JPathDelete(root, path) ==
      Ok(if k !in root.fields || root.fields[k] == JNull then root else JObj(root.fields - {k}))
  {
  }

  /** `jpath_delete(root, key)` of a top-level key: a no-op when the key is missing or `None`. */
  lemma JPathDeleteKey(root: JValue, k: string)
    requires root.JObj? && PlainKey(k)
    ensures JPathDelete(root, KeyPath([k])) ==
      Ok(if k !in root.fields || root.fields[k] == JNull then root else JObj(root.fields - {k}))
  {
    var p := KeyPath([k]);
    assert PlainKeys([k]);
    assert JPath(root, p) == Ok(if k in root.fields then root.fields[k] else JNull) by {
      assert [k][..0] == [];
      JPathKeys(root, [k]);
    }
    assert ParentSegments(p) == [] by {
      assert [k][..0] == [];
      KeyPathParent([k]);
    }
    assert LastKey(p) == k by {
      KeyPathLast([k]);
    }
    DeleteTop(root, p, k);
  }
}
