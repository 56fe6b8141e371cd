/**
 * `merge_doi_maps.merge`: merging new `Local ID`/`DOI` rows into the table that
 * maps each petition's local identifier to its DOI, keeping the table a
 * one-to-one correspondence and rewriting it only when the whole merge succeeds.
 */
module MergeDoiMaps {
  import opened Results
  import opened TsvFile

  const LocalIdColumn: string := "Local ID"
  const DoiColumn: string := "DOI"

  /** Why a merge is refused. */
  datatype MergeError =
    | MissingColumn           // a row without `Local ID` or `DOI` (a `KeyError`)
    | NonUniqueIds            // the stored table repeats a local ID
    | NonUniqueDois           // the stored table repeats a DOI
    | ConflictedId(id: string)    // a new row maps a known local ID to another DOI
    | ConflictedDoi(doi: string)  // a new row maps a known DOI to another local ID

  /** `counters`: rows seen, rows added, rows already present. */
  datatype Counters = Counters(total: nat, update: nat, preexisting: nat)

  predicate Keyed(row: Row) {
    LocalIdColumn in row && DoiColumn in row
  }

  predicate AllKeyed(rows: seq<Row>) {
    forall i :: 0 <= i < |rows| ==> Keyed(rows[i])
  }

  /** `dict([(x[from], x[to]) for x in rows])`: later rows override earlier ones. */
  function ColumnMap(rows: seq<Row>, from: string, to: string): map<string, string>
    requires forall i :: 0 <= i < |rows| ==> from in rows[i] && to in rows[i]
  {
    if rows == [] then map[]
    else
      var last := rows[|rows| - 1];
      ColumnMap(rows[..|rows| - 1], from, to)[last[from] := last[to]]
  }

  /** No two rows share a value in column `col`. */
  predicate DistinctColumn(rows: seq<Row>, col: string)
    requires forall i :: 0 <= i < |rows| ==> col in rows[i]
  {
    forall i, j :: 0 <= i < j < |rows| ==> rows[i][col] != rows[j][col]
  }

  /** The dict has a key for each value of column `from`, and no other. */
  lemma {:induction false} ColumnMapKeys(rows: seq<Row>, from: string, to: string)
    requires forall i :: 0 <= i < |rows| ==> from in rows[i] && to in rows[i]
    ensures forall k :: k in ColumnMap(rows, from, to) <==> exists i :: 0 <= i < |rows| && rows[i][from] == k
  {
    if rows != [] {
      var n := |rows| - 1;
      var init := rows[..n];
      assert forall i :: 0 <= i < n ==> init[i] == rows[i];
      ColumnMapKeys(init, from, to);
      var k := rows[n][from];
      forall k' | exists i :: 0 <= i < |rows| && rows[i][from] == k' ensures k' in ColumnMap(rows, from, to) {
        var i :| 0 <= i < |rows| && rows[i][from] == k';
        if i < n { assert init[i][from] == k'; }
      }
      forall k' | k' in ColumnMap(rows, from, to) ensures exists i :: 0 <= i < |rows| && rows[i][from] == k' {
        if k' != k {
          assert k' in ColumnMap(init, from, to);
          var i :| 0 <= i < n && init[i][from] == k';
          assert rows[i][from] == k';
        }
      }
    }
  }

  /** The dict has one entry per row exactly when column `from` repeats no value. */
  lemma {:induction false} ColumnMapSize(rows: seq<Row>, from: string, to: string)
    requires forall i :: 0 <= i < |rows| ==> from in rows[i] && to in rows[i]
    ensures |ColumnMap(rows, from, to)| <= |rows|
    ensures |ColumnMap(rows, from, to)| == |rows| <==> DistinctColumn(rows, from)
  {
    if rows != [] {
      var n := |rows| - 1;
      var init := rows[..n];
      assert forall i :: 0 <= i < n ==> init[i] == rows[i];
      ColumnMapSize(init, from, to);
      ColumnMapKeys(init, from, to);
      SizeStep(rows, init, from, to, ColumnMap(init, from, to));
    }
  }

  /** The inductive step of `ColumnMapSize`, given the dict `m` of all rows but the last. */
  lemma SizeStep(rows: seq<Row>, init: seq<Row>, from: string, to: string, m: map<string, string>)
    requires forall i :: 0 <= i < |rows| ==> from in rows[i] && to in rows[i]
    requires rows != [] && init == rows[..|rows| - 1]
    requires forall i :: 0 <= i < |init| ==> init[i] == rows[i]
    requires |m| <= |init| && (|m| == |init| <==> DistinctColumn(init, from))
    requires forall k :: k in m <==> exists i :: 0 <= i < |init| && init[i][from] == k
    ensures var m' := m[rows[|rows| - 1][from] := rows[|rows| - 1][to]];
      |m'| <= |rows| && (|m'| == |rows| <==> DistinctColumn(rows, from))
  {
    var n := |rows| - 1;
    var k := rows[n][from];
    if k in m {
      var i :| 0 <= i < n && init[i][from] == k;
      assert rows[i][from] == rows[n][from];
      assert |m[k := rows[n][to]]| == |m|;
    } else {
      assert |m[k := rows[n][to]]| == |m| + 1;
      if DistinctColumn(init, from) {
        forall i, j | 0 <= i < j < |rows| ensures rows[i][from] != rows[j][from] {
          if j == n { assert init[i][from] in m; }
          else { assert init[i][from] != init[j][from]; }
        }
      } else {
        var i, j :| 0 <= i < j < n && init[i][from] == init[j][from];
        assert rows[i][from] == rows[j][from];
      }
    }
  }

  /** With no repeated value in column `from`, each row's value maps to that row's value in `to`. */
  lemma {:induction false} ColumnMapValues(rows: seq<Row>, from: string, to: string)
    requires forall i :: 0 <= i < |rows| ==> from in rows[i] && to in rows[i]
    requires DistinctColumn(rows, from)
    ensures forall i :: 0 <= i < |rows| ==> rows[i][from] in ColumnMap(rows, from, to) && ColumnMap(rows, from, to)[rows[i][from]] == rows[i][to]
  {
    if rows != [] {
      var n := |rows| - 1;
      var init := rows[..n];
      assert forall i :: 0 <= i < n ==> init[i] == rows[i];
      assert DistinctColumn(init, from) by {
        forall i, j | 0 <= i < j < n ensures init[i][from] != init[j][from] {
          assert rows[i][from] != rows[j][from];
        }
      }
      ColumnMapValues(init, from, to);
      forall i | 0 <= i < |rows| ensures rows[i][from] in ColumnMap(rows, from, to) && ColumnMap(rows, from, to)[rows[i][from]] == rows[i][to] {
        if i < n {
          assert rows[i][from] != rows[n][from];
          assert init[i][from] in ColumnMap(init, from, to);
        }
      }
    }
  }

  // ---------------------------------------------------------------------------
  // the merge, one row at a time

  /** The table being merged into with its two lookup dicts `prev_map_id` and `prev_map_doi`. */
  datatype Table = Table(rows: seq<Row>, byId: map<string, string>, byDoi: map<string, string>)

  /** Reads the stored rows and checks that local IDs and DOIs are each unique. */
  function Start(rows: seq<Row>): Result<Table, MergeError>
  {
    if !AllKeyed(rows) then Err(MissingColumn)
    else
      var byId := ColumnMap(rows, LocalIdColumn, DoiColumn);
      var byDoi := ColumnMap(rows, DoiColumn, LocalIdColumn);
      if |byId| != |rows| then Err(NonUniqueIds)
      else if |byDoi| != |rows| then Err(NonUniqueDois)
      else Ok(Table(rows, byId, byDoi))
  }

  /** One iteration of the loop over `update_rows`. */
  function Step(t: Table, c: Counters, row: Row): Result<(Table, Counters), MergeError>
  {
    if !Keyed(row) then Err(MissingColumn)
    else
      var id := row[LocalIdColumn];
      var doi := row[DoiColumn];
      if id in t.byId && t.byId[id] != doi then Err(ConflictedId(id))
      else if doi in t.byDoi && t.byDoi[doi] != id then Err(ConflictedDoi(doi))
      else if id !in t.byId && doi !in t.byDoi then
        Ok((Table(t.rows + [row], t.byId[id := doi], t.byDoi[doi := id]), Counters(c.total + 1, c.update + 1, c.preexisting)))
      else
        Ok((t, Counters(c.total + 1, c.update, c.preexisting + 1)))
  }

  /** The loop over `update_rows`: the first failing row aborts it. */
  function MergeFrom(t: Table, c: Counters, updates: seq<Row>): Result<(Table, Counters), MergeError>
    decreases |updates|
  {
    if updates == [] then Ok((t, c))
    else
      var next :- Step(t, c, updates[0]);
      MergeFrom(next.0, next.1, updates[1..])
  }

  /** `merge(merge_into_tsv, merge_new_tsv)` as a value: the table to write and the counters. */
  function Merged(stored: seq<Row>, updates: seq<Row>): Result<(seq<Row>, Counters), MergeError>
  {
    var t :- Start(stored);
    var done :- MergeFrom(t, Counters(0, 0, 0), updates);
    Ok((done.0.rows, done.1))
  }

  /** `merge` on the rows in memory: the loop updates the dicts, the rows and the counters in place. */
  method Merge(stored: seq<Row>, updates: seq<Row>) returns (r: Result<(seq<Row>, Counters), MergeError>)
    ensures r == Merged(stored, updates)
  {
    var start := Start(stored);
    if start.Err? {
      return Err(start.error);
    }
    var rows := stored;
    var prevMapId := ColumnMap(stored, LocalIdColumn, DoiColumn);
    var prevMapDoi := ColumnMap(stored, DoiColumn, LocalIdColumn);
    var counters := Counters(0, 0, 0);
    for i := 0 to |updates|
      invariant MergeFrom(start.value, Counters(0, 0, 0), updates)
             == MergeFrom(Table(rows, prevMapId, prevMapDoi), counters, updates[i..])
    {
      assert updates[i..][1..] == updates[i + 1..];
      var row := updates[i];
      counters := counters.(total := counters.total + 1);
      if !Keyed(row) {
        return Err(MissingColumn);
      }
      var localId := row[LocalIdColumn];
      var doi := row[DoiColumn];
      var needsUpdate := true;
      if localId in prevMapId {
        if prevMapId[localId] != doi {
          return Err(ConflictedId(localId));
        }
        needsUpdate := false;
      }
      if doi in prevMapDoi {
        if prevMapDoi[doi] != localId {
          return Err(ConflictedDoi(doi));
        }
        needsUpdate := false;
      }
      if needsUpdate {
        counters := counters.(update := counters.update + 1);
        prevMapId := prevMapId[localId := doi];
        prevMapDoi := prevMapDoi[doi := localId];
        rows := rows + [row];
      } else {
        counters := counters.(preexisting := counters.preexisting + 1);
      }
    }
    r := Ok((rows, counters));
  }

  /** The stored table file, replaced only by a merge that succeeds. */
  class TsvStore {
    var rows: seq<Row>

    constructor(rows: seq<Row>)
      ensures this.rows == rows
    {
      this.rows := rows;
    }

    /**
     * `merge` against the file: a failure leaves the stored rows as they were;
     * a success writes the merged table.
     */
    method MergeInto(updates: seq<Row>) returns (r: Result<Counters, MergeError>)
      modifies this
      ensures r.Err? ==> rows == old(rows) && Merged(old(rows), updates) == Err(r.error)
      ensures r.Ok? ==> Merged(old(rows), updates) == Ok((rows, r.value))
    {
      var merged := Merge(rows, updates);
      if merged.Err? {
        return Err(merged.error);
      }
      rows := merged.value.0;
      r := Ok(merged.value.1);
    }
  }

  // ---------------------------------------------------------------------------
  // what the merge guarantees

  /** What the table and its dicts are between iterations: both dicts are read off unique columns. */
  predicate Valid(t: Table) {
    && AllKeyed(t.rows)
    && DistinctColumn(t.rows, LocalIdColumn) && DistinctColumn(t.rows, DoiColumn)
    && t.byId == ColumnMap(t.rows, LocalIdColumn, DoiColumn)
    && t.byDoi == ColumnMap(t.rows, DoiColumn, LocalIdColumn)
  }

  /** `m` and `m'` are inverse one-to-one maps. */
  predicate Inverse(m: map<string, string>, m': map<string, string>) {
    && (forall k :: k in m ==> m[k] in m' && m'[m[k]] == k)
    && (forall k :: k in m' ==> m'[k] in m && m[m'[k]] == k)
  }

  /** Between iterations the two lookup dicts are inverse bijections. */
  lemma ValidIsBijection(t: Table)
    requires Valid(t)
    ensures Inverse(t.byId, t.byDoi) && |t.byId| == |t.byDoi| == |t.rows|
  {
    assert |t.byId| == |t.byDoi| == |t.rows| by {
      ColumnMapSize(t.rows, LocalIdColumn, DoiColumn);
      ColumnMapSize(t.rows, DoiColumn, LocalIdColumn);
    }
    ValidInverse(t);
  }

  lemma ValidInverse(t: Table)
    requires Valid(t)
    ensures Inverse(t.byId, t.byDoi)
  {
    ColumnMapKeys(t.rows, LocalIdColumn, DoiColumn);
    ColumnMapKeys(t.rows, DoiColumn, LocalIdColumn);
    ColumnMapValues(t.rows, LocalIdColumn, DoiColumn);
    ColumnMapValues(t.rows, DoiColumn, LocalIdColumn);
  }

  /**
   * The stored table is refused for a repeated local ID, else for a repeated
   * DOI, and accepted otherwise, with its dicts then valid.
   */
  lemma StartChecksUniqueness(rows: seq<Row>)
    requires AllKeyed(rows)
    ensures Start(rows) == Err(NonUniqueIds) <==> !DistinctColumn(rows, LocalIdColumn)
    ensures Start(rows) == Err(NonUniqueDois) <==> DistinctColumn(rows, LocalIdColumn) && !DistinctColumn(rows, DoiColumn)
    ensures Start(rows).Ok? <==> DistinctColumn(rows, LocalIdColumn) && DistinctColumn(rows, DoiColumn)
    ensures Start(rows).Ok? ==> Start(rows).value.rows == rows && Valid(Start(rows).value)
  {
    ColumnMapSize(rows, LocalIdColumn, DoiColumn);
    ColumnMapSize(rows, DoiColumn, LocalIdColumn);
  }

  /** A valid table accepts its own rows back unchanged. */
  lemma StartOfValid(t: Table)
    requires Valid(t)
    ensures Start(t.rows) == Ok(t)
  {
    StartChecksUniqueness(t.rows);
  }

  /** A row appended to a valid table, new in both columns, keeps it valid. */
  lemma AppendKeepsValid(t: Table, row: Row)
    requires Valid(t) && Keyed(row)
    requires row[LocalIdColumn] !in t.byId && row[DoiColumn] !in t.byDoi
    ensures Valid(Table(t.rows + [row], t.byId[row[LocalIdColumn] := row[DoiColumn]], t.byDoi[row[DoiColumn] := row[LocalIdColumn]]))
  {
    var rows := t.rows + [row];
    assert rows[..|rows| - 1] == t.rows;
    AppendKeepsDistinct(t.rows, row, LocalIdColumn, DoiColumn);
    AppendKeepsDistinct(t.rows, row, DoiColumn, LocalIdColumn);
  }

  /** A row whose value in `from` is not a key of the dict keeps column `from` free of repeats. */
  lemma AppendKeepsDistinct(rows: seq<Row>, row: Row, from: string, to: string)
    requires forall i :: 0 <= i < |rows| ==> from in rows[i] && to in rows[i]
    requires from in row && DistinctColumn(rows, from)
    requires row[from] !in ColumnMap(rows, from, to)
    ensures forall i :: 0 <= i < |rows + [row]| ==> from in (rows + [row])[i]
    ensures DistinctColumn(rows + [row], from)
  {
    ColumnMapKeys(rows, from, to);
    var rows' := rows + [row];
    forall i, j | 0 <= i < j < |rows'| ensures rows'[i][from] != rows'[j][from] {
      assert rows'[i] == rows[i];
      if j < |rows| { assert rows'[j] == rows[j]; }
    }
  }

  /**
   * One row on a valid table: a local ID known with another DOI raises, then a
   * DOI known with another local ID raises; a pair new in both directions is
   * appended and counted as an update; a known pair changes nothing and is
   * counted as preexisting. The table stays valid.
   */
  lemma StepMeaning(t: Table, c: Counters, row: Row)
    requires Valid(t) && Keyed(row)
    ensures var id := row[LocalIdColumn]; var doi := row[DoiColumn]; var r := Step(t, c, row);
      && (r == Err(ConflictedId(id)) <==> id in t.byId && t.byId[id] != doi)
      && (r == Err(ConflictedDoi(doi)) <==> !(id in t.byId && t.byId[id] != doi) && doi in t.byDoi && t.byDoi[doi] != id)
      && (id !in t.byId && doi !in t.byDoi ==>
            r.Ok? && r.value.0.rows == t.rows + [row] && r.value.1 == Counters(c.total + 1, c.update + 1, c.preexisting))
      && (id in t.byId && t.byId[id] == doi ==> r == Ok((t, Counters(c.total + 1, c.update, c.preexisting + 1))))
      && (r.Ok? ==> Valid(r.value.0))
  {
    ValidIsBijection(t);
    var id := row[LocalIdColumn];
    var doi := row[DoiColumn];
    if id !in t.byId && doi !in t.byDoi {
      AppendKeepsValid(t, row);
    }
  }

  /**
   * A successful merge from a valid table keeps it valid, keeps every pair it
   * held, and ends holding the pair of every update row.
   */
  lemma {:induction false} MergeFromValid(t: Table, c: Counters, updates: seq<Row>)
    requires Valid(t)
    ensures var r := MergeFrom(t, c, updates);
      r.Ok? ==>
        && Valid(r.value.0)
        && (forall k :: k in t.byId ==> k in r.value.0.byId && r.value.0.byId[k] == t.byId[k])
        && (forall i :: 0 <= i < |updates| ==>
              Keyed(updates[i]) && updates[i][LocalIdColumn] in r.value.0.byId
              && r.value.0.byId[updates[i][LocalIdColumn]] == updates[i][DoiColumn])
    decreases |updates|
  {
    if updates != [] && MergeFrom(t, c, updates).Ok? {
      var row := updates[0];
      assert Keyed(row);
      StepMeaning(t, c, row);
      ValidIsBijection(t);
      var next := Step(t, c, row).value;
      MergeFromValid(next.0, next.1, updates[1..]);
      var done := MergeFrom(t, c, updates).value;
      assert done == MergeFrom(next.0, next.1, updates[1..]).value;
      assert row[LocalIdColumn] in next.0.byId && next.0.byId[row[LocalIdColumn]] == row[DoiColumn];
      forall i | 0 <= i < |updates|
        ensures Keyed(updates[i]) && updates[i][LocalIdColumn] in done.0.byId && done.0.byId[updates[i][LocalIdColumn]] == updates[i][DoiColumn]
      {
        if i > 0 { assert updates[i] == updates[1..][i - 1]; }
      }
    }
  }

  /**
   * A successful merge keeps the table's rows as a prefix in their order, adds
   * one row per update, and counts every update row once, as an update or as
   * preexisting.
   */
  lemma {:induction false} MergeFromCounts(t: Table, c: Counters, updates: seq<Row>)
    ensures var r := MergeFrom(t, c, updates);
      r.Ok? ==>
        && |r.value.0.rows| == |t.rows| + r.value.1.update - c.update
        && r.value.1.update >= c.update
        && r.value.0.rows[..|t.rows|] == t.rows
        && r.value.1.total == c.total + |updates|
        && r.value.1.update + r.value.1.preexisting == c.update + c.preexisting + |updates|
    decreases |updates|
  {
    if updates != [] && MergeFrom(t, c, updates).Ok? {
      var next := Step(t, c, updates[0]).value;
      MergeFromCounts(next.0, next.1, updates[1..]);
      var done := MergeFrom(t, c, updates).value;
      assert done == MergeFrom(next.0, next.1, updates[1..]).value;
      assert next.0.rows[..|t.rows|] == t.rows;
      assert done.0.rows[..|next.0.rows|][..|t.rows|] == done.0.rows[..|t.rows|];
    }
  }

  /** A local ID that the table maps to another DOI aborts the merge at that row. */
  lemma ConflictedIdRaises(t: Table, c: Counters, row: Row, rest: seq<Row>)
    requires Keyed(row) && row[LocalIdColumn] in t.byId && t.byId[row[LocalIdColumn]] != row[DoiColumn]
    ensures MergeFrom(t, c, [row] + rest) == Err(ConflictedId(row[LocalIdColumn]))
  {
    assert ([row] + rest)[0] == row;
  }

  /** A DOI that the table maps to another local ID aborts the merge at that row. */
  lemma ConflictedDoiRaises(t: Table, c: Counters, row: Row, rest: seq<Row>)
    requires Keyed(row) && row[DoiColumn] in t.byDoi && t.byDoi[row[DoiColumn]] != row[LocalIdColumn]
    requires !(row[LocalIdColumn] in t.byId && t.byId[row[LocalIdColumn]] != row[DoiColumn])
    ensures MergeFrom(t, c, [row] + rest) == Err(ConflictedDoi(row[DoiColumn]))
  {
    assert ([row] + rest)[0] == row;
  }

  /** Rows whose pairs the table already holds are all preexisting and change nothing. */
  lemma {:induction false} MergeKnown(t: Table, c: Counters, updates: seq<Row>)
    requires Valid(t)
    requires forall i :: 0 <= i < |updates| ==>
      Keyed(updates[i]) && updates[i][LocalIdColumn] in t.byId && t.byId[updates[i][LocalIdColumn]] == updates[i][DoiColumn]
    ensures MergeFrom(t, c, updates) == Ok((t, Counters(c.total + |updates|, c.update, c.preexisting + |updates|)))
    decreases |updates|
  {
    if updates != [] {
      StepMeaning(t, c, updates[0]);
      assert forall i :: 0 <= i < |updates| - 1 ==> updates[1..][i] == updates[i + 1];
      MergeKnown(t, Counters(c.total + 1, c.update, c.preexisting + 1), updates[1..]);
    }
  }

  /**
   * Merging the same rows a second time adds nothing: the table comes back
   * unchanged and every row counts as preexisting.
   */
  lemma MergeIdempotent(stored: seq<Row>, updates: seq<Row>)
    requires Merged(stored, updates).Ok?
    ensures var table := Merged(stored, updates).value.0;
      Merged(table, updates) == Ok((table, Counters(|updates|, 0, |updates|)))
  {
    var t := Start(stored).value;
    StartChecksUniqueness(stored);
    MergeFromValid(t, Counters(0, 0, 0), updates);
    var done := MergeFrom(t, Counters(0, 0, 0), updates).value.0;
    StartOfValid(done);
    MergeKnown(done, Counters(0, 0, 0), updates);
  }

  /** A successful merge keeps the stored rows first, in order, and counts every update row once. */
  lemma MergedKeepsStored(stored: seq<Row>, updates: seq<Row>)
    requires Merged(stored, updates).Ok?
    ensures var (table, counters) := Merged(stored, updates).value;
      && |table| == |stored| + counters.update
      && table[..|stored|] == stored
      && counters.total == |updates| == counters.update + counters.preexisting
  {
    StartChecksUniqueness(stored);
    MergeFromCounts(Start(stored).value, Counters(0, 0, 0), updates);
  }
}
