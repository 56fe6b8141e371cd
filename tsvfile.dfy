/**
 * `tsvfile`: rows of a tab-separated file as dicts, the header `WriteDicts`
 * writes, and `GroupBy` / `GroupByUnique`.
 */
module TsvFile {
  import opened Results
  import opened Text
  import opened Ordering
  import opened Json

  /** One row of a tab-separated file: column name to cell text. */
  type Row = map<string, string>

  /** `sorted(list(set(itertools.chain(*[x.keys() for x in rows]))))`. */
  function Header(rows: seq<Row>): (r: seq<string>)
    ensures forall c :: c in r <==> exists i :: 0 <= i < |rows| && c in rows[i]
    ensures Sorted(r, StrLe)
    ensures forall i, j :: 0 <= i < j < |r| ==> r[i] != r[j]
  {
    var columns := set i, c | 0 <= i < |rows| && c in rows[i] :: c;
    SortedSetDistinct(columns);
    SortedSet(columns)
  }

  // ---------------------------------------------------------------------------
  // GroupBy

  /** The `fields` argument: one column name, a list or tuple of them, or anything else. */
  datatype Fields = Column(name: string) | Columns(names: seq<string>) | Unsupported

  /** A group key: the value of one column, or the tuple of the values of several. */
  datatype GroupKey = Single(value: string) | Tuple(values: seq<string>)

  /** `keyfunc(row)`; a missing column is a `KeyError`, an unsupported `fields` a `ValueError`. */
  function KeyOf(row: Row, fields: Fields): (r: Result<GroupKey, PyError>)
    ensures fields.Unsupported? ==> r == Err(ValueError)
    ensures fields.Column? ==> r == if fields.name in row then Ok(Single(row[fields.name])) else Err(KeyError)
    ensures fields.Columns? ==>
      r == if forall y :: y in fields.names ==> y in row
           then Ok(Tuple(seq(|fields.names|, i requires 0 <= i < |fields.names| => row[fields.names[i]])))
           else Err(KeyError)
  {
    match fields
    case Column(name) => if name in row then Ok(Single(row[name])) else Err(KeyError)
    case Columns(names) =>
      if forall y :: y in names ==> y in row
      then Ok(Tuple(seq(|names|, i requires 0 <= i < |names| => row[names[i]])))
      else Err(KeyError)
    case Unsupported => Err(ValueError)
  }

  /**
   * The error of `raise ValueError('Non unique key: %s' % key)`: a tuple key of
   * other than one value makes the `%` format itself raise `TypeError` first.
   */
  function RepeatError(key: GroupKey): PyError {
    if key.Tuple? && |key.values| != 1 then TypeError else ValueError
  }

  /** `GroupBy(rows, fields, True)` as a value: the rows taken in order, a repeated key raising `RepeatError`. */
  function UniqueGroups(rows: seq<Row>, fields: Fields): Result<map<GroupKey, Row>, PyError>
  {
    if fields.Unsupported? then Err(ValueError)
    else if rows == [] then Ok(map[])
    else
      var m :- UniqueGroups(rows[..|rows| - 1], fields);
      var row := rows[|rows| - 1];
      var key :- KeyOf(row, fields);
      if key in m then Err(RepeatError(key)) else Ok(m[key := row])
  }

  /** `GroupBy(rows, fields)` as a value: each key to its rows, in input order. */
  function ListGroups(rows: seq<Row>, fields: Fields): Result<map<GroupKey, seq<Row>>, PyError>
  {
    if fields.Unsupported? then Err(ValueError)
    else if rows == [] then Ok(map[])
    else
      var m :- ListGroups(rows[..|rows| - 1], fields);
      var row := rows[|rows| - 1];
      var key :- KeyOf(row, fields);
      Ok(m[key := (if key in m then m[key] else []) + [row]])
  }

  /** The result of `GroupBy`: rows by key, or lists of rows by key. */
  datatype Grouping = ByUniqueKey(rowOf: map<GroupKey, Row>) | ByKey(rowsOf: map<GroupKey, seq<Row>>)

  /** `GroupBy(rows, fields, unique)`. */
  method GroupBy(rows: seq<Row>, fields: Fields, unique: bool) returns (r: Result<Grouping, PyError>)
    ensures unique ==> r == (var g := UniqueGroups(rows, fields); if g.Ok? then Ok(ByUniqueKey(g.value)) else Err(g.error))
    ensures !unique ==> r == (var g := ListGroups(rows, fields); if g.Ok? then Ok(ByKey(g.value)) else Err(g.error))
  {
    if fields.Unsupported? {
      return Err(ValueError);
    }
    if unique {
      var g := GroupUnique(rows, fields);
      r := if g.Ok? then Ok(ByUniqueKey(g.value)) else Err(g.error);
    } else {
      var g := GroupLists(rows, fields);
      r := if g.Ok? then Ok(ByKey(g.value)) else Err(g.error);
    }
  }

  /** The loop of `GroupBy` with `unique`: a repeated key raises `RepeatError`. */
  method GroupUnique(rows: seq<Row>, fields: Fields) returns (r: Result<map<GroupKey, Row>, PyError>)
    requires !fields.Unsupported?
    ensures r == UniqueGroups(rows, fields)
  {
    var output: map<GroupKey, Row> := map[];
    for i := 0 to |rows|
      invariant UniqueGroups(rows[..i], fields) == Ok(output)
    {
      UniqueGroupsAt(rows, i, fields);
      var key := KeyOf(rows[i], fields);
      if key.Err? || key.value in output {
        UniqueGroupsErr(rows, i + 1);
        return Err(if key.Err? then key.error else RepeatError(key.value));
      }
      output := output[key.value := rows[i]];
    }
    assert rows[..|rows|] == rows;
    r := Ok(output);
  }

  /** The loop of `GroupBy` without `unique`: each row is appended to its key's list. */
  method GroupLists(rows: seq<Row>, fields: Fields) returns (r: Result<map<GroupKey, seq<Row>>, PyError>)
    requires !fields.Unsupported?
    ensures r == ListGroups(rows, fields)
  {
    var output: map<GroupKey, seq<Row>> := map[];
    for i := 0 to |rows|
      invariant ListGroups(rows[..i], fields) == Ok(output)
    {
      ListGroupsAt(rows, i, fields);
      var key := KeyOf(rows[i], fields);
      if key.Err? {
        ListGroupsErr(rows, i + 1);
        return Err(key.error);
      }
      var group := if key.value in output then output[key.value] else [];
      output := output[key.value := group + [rows[i]]];
    }
    assert rows[..|rows|] == rows;
    r := Ok(output);
  }

  /** Grouping the first `i + 1` rows by a unique key, from the grouping of the first `i`. */
  lemma UniqueGroupsAt(rows: seq<Row>, i: nat, fields: Fields)
    requires i < |rows| && !fields.Unsupported?
    ensures var g := UniqueGroups(rows[..i], fields);
      var key := KeyOf(rows[i], fields);
      UniqueGroups(rows[..i + 1], fields) ==
        if g.Err? then g
        else if key.Err? then Err(key.error)
        else if key.value in g.value then Err(RepeatError(key.value))
        else Ok(g.value[key.value := rows[i]])
  {
    assert rows[..i + 1][..i] == rows[..i];
  }

  /** Grouping the first `i + 1` rows into lists, from the grouping of the first `i`. */
  lemma ListGroupsAt(rows: seq<Row>, i: nat, fields: Fields)
    requires i < |rows| && !fields.Unsupported?
    ensures var g := ListGroups(rows[..i], fields);
      var key := KeyOf(rows[i], fields);
      ListGroups(rows[..i + 1], fields) ==
        if g.Err? then g
        else if key.Err? then Err(key.error)
        else Ok(g.value[key.value := (if key.value in g.value then g.value[key.value] else []) + [rows[i]]])
  {
    assert rows[..i + 1][..i] == rows[..i];
  }

  /** `GroupByUnique(rows, fields)`, which is `GroupBy(rows, fields, True)`. */
  method GroupByUnique(rows: seq<Row>, fields: Fields) returns (r: Result<Grouping, PyError>)
    ensures r == (var g := UniqueGroups(rows, fields); if g.Ok? then Ok(ByUniqueKey(g.value)) else Err(g.error))
  {
    r := GroupBy(rows, fields, true);
  }

  // ---------------------------------------------------------------------------
  // what the groupings mean

  /** Every row has a key: none lacks a column named in `fields`. */
  predicate AllKeyed(rows: seq<Row>, fields: Fields) {
    forall i :: 0 <= i < |rows| ==> KeyOf(rows[i], fields).Ok?
  }

  /** No two rows have the same key. */
  predicate DistinctKeys(rows: seq<Row>, fields: Fields)
    requires AllKeyed(rows, fields)
  {
    forall i, j :: 0 <= i < j < |rows| ==> KeyOf(rows[i], fields).value != KeyOf(rows[j], fields).value
  }

  /** Dropping the last row keeps every row keyed. */
  lemma KeyedInit(rows: seq<Row>, fields: Fields)
    requires AllKeyed(rows, fields) && rows != []
    ensures AllKeyed(rows[..|rows| - 1], fields)
    ensures forall i :: 0 <= i < |rows| - 1 ==> rows[..|rows| - 1][i] == rows[i]
  {
    var init := rows[..|rows| - 1];
    forall i | 0 <= i < |init| ensures KeyOf(init[i], fields).Ok? { assert init[i] == rows[i]; }
  }

  /** Once a prefix of the rows fails, grouping all of them fails in the same way. */
  lemma {:induction false} UniqueGroupsErr(rows: seq<Row>, n: nat)
    requires n <= |rows|
    ensures forall fields :: UniqueGroups(rows[..n], fields).Err? ==> UniqueGroups(rows, fields) == UniqueGroups(rows[..n], fields)
    decreases |rows| - n
  {
    if n < |rows| {
      UniqueGroupsErr(rows, n + 1);
      assert rows[..n + 1][..n] == rows[..n];
    } else {
      assert rows[..n] == rows;
    }
  }

  /** Once a prefix of the rows fails, grouping all of them fails in the same way. */
  lemma {:induction false} ListGroupsErr(rows: seq<Row>, n: nat)
    requires n <= |rows|
    ensures forall fields :: ListGroups(rows[..n], fields).Err? ==> ListGroups(rows, fields) == ListGroups(rows[..n], fields)
    decreases |rows| - n
  {
    if n < |rows| {
      ListGroupsErr(rows, n + 1);
      assert rows[..n + 1][..n] == rows[..n];
    } else {
      assert rows[..n] == rows;
    }
  }

  /** Grouping one more row by a unique key: a fresh key is added, a repeated one is an error. */
  lemma UniqueGroupsSnoc(rows: seq<Row>, fields: Fields)
    requires AllKeyed(rows, fields) && !fields.Unsupported? && rows != []
    ensures var g := UniqueGroups(rows[..|rows| - 1], fields);
            var key := KeyOf(rows[|rows| - 1], fields).value;
            UniqueGroups(rows, fields) ==
              if g.Err? then g
              else if key in g.value then Err(RepeatError(key))
              else Ok(g.value[key := rows[|rows| - 1]])
  {
  }

  /**
   * The error a repeated key raises: `ValueError` when `fields` is one column
   * or a list of one, `TypeError` from the message's `%` format when it is a
   * list of any other length.
   */
  lemma {:induction false} UniqueGroupsError(rows: seq<Row>, fields: Fields)
    requires AllKeyed(rows, fields) && !fields.Unsupported?
    ensures UniqueGroups(rows, fields).Err? ==>
      UniqueGroups(rows, fields).error == if fields.Columns? && |fields.names| != 1 then TypeError else ValueError
  {
    if rows != [] {
      KeyedInit(rows, fields);
      UniqueGroupsError(rows[..|rows| - 1], fields);
      UniqueGroupsSnoc(rows, fields);
    }
  }

  /** With every row keyed, grouping by a unique key succeeds exactly when the keys are distinct. */
  lemma {:induction false} UniqueGroupsDistinct(rows: seq<Row>, fields: Fields)
    requires AllKeyed(rows, fields) && fields != Unsupported
    ensures UniqueGroups(rows, fields).Ok? <==> DistinctKeys(rows, fields)
  {
    if rows != [] {
      var init := rows[..|rows| - 1];
      KeyedInit(rows, fields);
      UniqueGroupsDistinct(init, fields);
      UniqueGroupsContents(init, fields);
      UniqueGroupsSnoc(rows, fields);
      DistinctStep(rows, init, fields, UniqueGroups(init, fields), KeyOf(rows[|rows| - 1], fields).value);
    }
  }

  /** The inductive step of `UniqueGroupsDistinct`, given what is known of the grouping `g` of all rows but the last. */
  lemma DistinctStep(rows: seq<Row>, init: seq<Row>, fields: Fields, g: Result<map<GroupKey, Row>, PyError>, key: GroupKey)
    requires AllKeyed(rows, fields) && rows != [] && init == rows[..|rows| - 1] && AllKeyed(init, fields)
    requires g.Ok? <==> DistinctKeys(init, fields)
    requires g.Ok? ==> forall i :: 0 <= i < |init| ==> KeyOf(init[i], fields).value in g.value
    requires g.Ok? ==> forall k :: k in g.value ==> exists i :: 0 <= i < |init| && KeyOf(init[i], fields).value == k
    requires key == KeyOf(rows[|rows| - 1], fields).value
    ensures (g.Ok? && key !in g.value) <==> DistinctKeys(rows, fields)
  {
    var n := |rows| - 1;
    if g.Err? {
      InitRepeat(rows, fields);
    } else if key in g.value {
      var i :| 0 <= i < n && KeyOf(init[i], fields).value == key;
      LastRepeat(rows, fields, i);
    } else {
      forall i | 0 <= i < n ensures KeyOf(rows[i], fields).value != key {
        assert KeyOf(init[i], fields).value in g.value;
      }
      LastFresh(rows, fields);
    }
  }

  /** A repeated key among all rows but the last is a repeated key among all of them. */
  lemma InitRepeat(rows: seq<Row>, fields: Fields)
    requires AllKeyed(rows, fields) && rows != [] && AllKeyed(rows[..|rows| - 1], fields)
    requires !DistinctKeys(rows[..|rows| - 1], fields)
    ensures !DistinctKeys(rows, fields)
  {
    var init := rows[..|rows| - 1];
    var i, j :| 0 <= i < j < |init| && KeyOf(init[i], fields).value == KeyOf(init[j], fields).value;
    assert init[i] == rows[i] && init[j] == rows[j];
  }

  /** A row before the last with the last row's key is a repeated key. */
  lemma LastRepeat(rows: seq<Row>, fields: Fields, i: nat)
    requires AllKeyed(rows, fields) && i < |rows| - 1
    requires KeyOf(rows[..|rows| - 1][i], fields).value == KeyOf(rows[|rows| - 1], fields).value
    ensures !DistinctKeys(rows, fields)
  {
    assert rows[..|rows| - 1][i] == rows[i];
  }

  /** Distinct keys before the last row, and a last key unlike all of them, are distinct keys. */
  lemma LastFresh(rows: seq<Row>, fields: Fields)
    requires AllKeyed(rows, fields) && rows != [] && AllKeyed(rows[..|rows| - 1], fields)
    requires DistinctKeys(rows[..|rows| - 1], fields)
    requires forall i :: 0 <= i < |rows| - 1 ==> KeyOf(rows[i], fields).value != KeyOf(rows[|rows| - 1], fields).value
    ensures DistinctKeys(rows, fields)
  {
    var init := rows[..|rows| - 1];
    forall i, j | 0 <= i < j < |rows| ensures KeyOf(rows[i], fields).value != KeyOf(rows[j], fields).value {
      if j < |rows| - 1 {
        assert init[i] == rows[i] && init[j] == rows[j];
      }
    }
  }

  /**
   * A successful grouping by a unique key finds every row under its own key and
   * holds no other key.
   */
  lemma {:induction false} UniqueGroupsContents(rows: seq<Row>, fields: Fields)
    requires AllKeyed(rows, fields)
    ensures UniqueGroups(rows, fields).Ok? ==>
      var m := UniqueGroups(rows, fields).value;
      && (forall i :: 0 <= i < |rows| ==> KeyOf(rows[i], fields).value in m && m[KeyOf(rows[i], fields).value] == rows[i])
      && (forall k :: k in m ==> exists i :: 0 <= i < |rows| && KeyOf(rows[i], fields).value == k)
  {
    if rows != [] && UniqueGroups(rows, fields).Ok? {
      var init := rows[..|rows| - 1];
      KeyedInit(rows, fields);
      UniqueGroupsContents(init, fields);
      UniqueGroupsSnoc(rows, fields);
      ContentsStep(rows, init, fields, UniqueGroups(init, fields).value, KeyOf(rows[|rows| - 1], fields).value);
    }
  }

  /** The inductive step of `UniqueGroupsContents`, given the grouping `m` of all rows but the last. */
  lemma ContentsStep(rows: seq<Row>, init: seq<Row>, fields: Fields, m: map<GroupKey, Row>, key: GroupKey)
    requires AllKeyed(rows, fields) && rows != [] && init == rows[..|rows| - 1] && AllKeyed(init, fields)
    requires forall i :: 0 <= i < |init| ==> KeyOf(init[i], fields).value in m && m[KeyOf(init[i], fields).value] == init[i]
    requires forall k :: k in m ==> exists i :: 0 <= i < |init| && KeyOf(init[i], fields).value == k
    requires key == KeyOf(rows[|rows| - 1], fields).value && key !in m
    ensures var m' := m[key := rows[|rows| - 1]];
      && (forall i :: 0 <= i < |rows| ==> KeyOf(rows[i], fields).value in m' && m'[KeyOf(rows[i], fields).value] == rows[i])
      && (forall k :: k in m' ==> exists i :: 0 <= i < |rows| && KeyOf(rows[i], fields).value == k)
  {
    var n := |rows| - 1;
    var m' := m[key := rows[n]];
    forall i | 0 <= i < |rows| ensures KeyOf(rows[i], fields).value in m' && m'[KeyOf(rows[i], fields).value] == rows[i] {
      if i < n {
        assert init[i] == rows[i];
        assert KeyOf(init[i], fields).value in m;
      }
    }
    forall k | k in m' ensures exists i :: 0 <= i < |rows| && KeyOf(rows[i], fields).value == k {
      if k != key {
        var i :| 0 <= i < n && KeyOf(init[i], fields).value == k;
        assert KeyOf(rows[i], fields).value == k;
      }
    }
  }

  /** The rows whose key is `k`, in input order. */
  function RowsWithKey(rows: seq<Row>, fields: Fields, k: GroupKey): seq<Row>
    requires AllKeyed(rows, fields)
  {
    if rows == [] then []
    else
      KeyedInit(rows, fields);
      RowsWithKey(rows[..|rows| - 1], fields, k) + (if KeyOf(rows[|rows| - 1], fields).value == k then [rows[|rows| - 1]] else [])
  }

  /** Grouping into lists has a key exactly for the keys that occur. */
  lemma {:induction false} ListGroupsKeys(rows: seq<Row>, fields: Fields)
    requires AllKeyed(rows, fields) && fields != Unsupported
    ensures ListGroups(rows, fields).Ok?
    ensures forall k :: k in ListGroups(rows, fields).value <==> exists i :: 0 <= i < |rows| && KeyOf(rows[i], fields).value == k
  {
    if rows != [] {
      var n := |rows| - 1;
      var init := rows[..n];
      KeyedInit(rows, fields);
      ListGroupsKeys(init, fields);
      var key := KeyOf(rows[n], fields).value;
      var m' := ListGroups(rows, fields).value;
      forall k | k in m' ensures exists i :: 0 <= i < |rows| && KeyOf(rows[i], fields).value == k {
        if k != key {
          var i :| 0 <= i < |init| && KeyOf(init[i], fields).value == k;
          assert KeyOf(rows[i], fields).value == k;
        }
      }
      forall k | exists i :: 0 <= i < |rows| && KeyOf(rows[i], fields).value == k ensures k in m' {
        var i :| 0 <= i < |rows| && KeyOf(rows[i], fields).value == k;
        if i < n { assert KeyOf(init[i], fields).value == k; }
      }
    }
  }

  /** Grouping into lists puts under each key the rows with that key, in input order. */
  lemma {:induction false} ListGroupsMeaning(rows: seq<Row>, fields: Fields)
    requires AllKeyed(rows, fields) && fields != Unsupported
    ensures ListGroups(rows, fields).Ok?
    ensures var m := ListGroups(rows, fields).value;
      forall k :: k in m ==> m[k] == RowsWithKey(rows, fields, k)
  {
    ListGroupsKeys(rows, fields);
    if rows != [] {
      var n := |rows| - 1;
      var init := rows[..n];
      KeyedInit(rows, fields);
      ListGroupsMeaning(init, fields);
      ListGroupsKeys(init, fields);
      var m := ListGroups(init, fields).value;
      var key := KeyOf(rows[n], fields).value;
      if key !in m {
        RowsWithKeyAbsent(init, fields, key);
      }
    }
  }

  /** A key no row has collects no rows. */
  lemma {:induction false} RowsWithKeyAbsent(rows: seq<Row>, fields: Fields, k: GroupKey)
    requires AllKeyed(rows, fields)
    requires forall i :: 0 <= i < |rows| ==> KeyOf(rows[i], fields).value != k
    ensures RowsWithKey(rows, fields, k) == []
  {
    if rows != [] {
      KeyedInit(rows, fields);
      RowsWithKeyAbsent(rows[..|rows| - 1], fields, k);
    }
  }

  /** The total number of rows held by the groups of a map. */
  ghost function GroupSizes(m: map<GroupKey, seq<Row>>): nat
    decreases |m|
  {
    if m == map[] then 0
    else
      var k :| k in m;
      |m[k]| + GroupSizes(m - {k})
  }

  /** The total does not depend on which key is taken first. */
  lemma {:induction false} GroupSizesRemove(m: map<GroupKey, seq<Row>>, k: GroupKey)
    requires k in m
    ensures GroupSizes(m) == |m[k]| + GroupSizes(m - {k})
    decreases |m|
  {
    var j :| j in m && GroupSizes(m) == |m[j]| + GroupSizes(m - {j});
    if j != k {
      GroupSizesRemove(m - {j}, k);
      GroupSizesRemove(m - {k}, j);
      assert (m - {j}) - {k} == (m - {k}) - {j};
    }
  }

  /** The group sizes add up to the number of rows. */
  lemma {:induction false} ListGroupsSizes(rows: seq<Row>, fields: Fields)
    requires AllKeyed(rows, fields) && fields != Unsupported
    ensures ListGroups(rows, fields).Ok? && GroupSizes(ListGroups(rows, fields).value) == |rows|
  {
    ListGroupsKeys(rows, fields);
    if rows != [] {
      var n := |rows| - 1;
      var init := rows[..n];
      KeyedInit(rows, fields);
      ListGroupsSizes(init, fields);
      var m := ListGroups(init, fields).value;
      var key := KeyOf(rows[n], fields).value;
      var m' := ListGroups(rows, fields).value;
      assert m' - {key} == m - {key};
      GroupSizesRemove(m', key);
      if key in m {
        GroupSizesRemove(m, key);
      } else {
        assert m - {key} == m;
      }
    }
  }
}
