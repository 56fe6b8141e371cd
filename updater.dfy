/**
 * `update.py`, the per-row `update(row, ...)` and the driver loop over the
 * input rows. The script's shared state -- the `doi_lookup` read from the DOI
 * tsv, the `counters` defaultdict, the `doi_update_rows` list and the DOI
 * update tsv it rewrites -- is a class; the Dataverse server, the resolver's
 * search, the clock and the timeout alarm are parameters.
 */
module UpdateScript {
  import opened Results
  import opened Json
  import opened TsvFile
  import opened Resolver
  import JsonFormatter
  import Update
  import JsonUtils

  /** `for i in range(3)`: how many times the new dataset's `doi` is read. */
  const DoiReads: nat := 3

  /**
   * The Dataverse server as `update` uses it:
   *  - `create(title, description)`: `create_and_publish_new_study`, and then
   *    the answer of the i-th read of the new dataset's `doi`, `None` standing
   *    for `NoContainerError`;
   *  - `published(doi)`: `get_study_metadata(doi, 'latest-published')`;
   *  - `put(doi, created, metadata)`: loading the study object (the new one
   *    when `created`) and its entity id, `update_metadata`, and the metadata
   *    `get_metadata(refresh=False)` gives back;
   *  - `upload(doi)`: deleting the old files, uploading the data file and
   *    publishing the study.
   */
  datatype Server = Server(
    create: (string, string) -> Result<nat -> Option<string>, PyError>,
    published: string -> Result<JValue, PyError>,
    put: (string, bool, JValue) -> Result<JValue, PyError>,
    upload: string -> Result<(), PyError>)

  /** `not doi`: `None` and the empty string are false. */
  predicate Falsy(doi: Option<string>) {
    doi.None? || doi.value == ""
  }

  // ---------------------------------------------------------------------------
  // reading the DOI of a new study

  /** The first of the reads from the i-th on that does not raise. */
  function FirstRead(attempts: nat -> Option<string>, i: nat): Option<string>
    requires i <= DoiReads
    decreases DoiReads - i
  {
    if i == DoiReads then None
    else if attempts(i).Some? then attempts(i)
    else FirstRead(attempts, i + 1)
  }

  /** There is no DOI exactly when every read raises; otherwise it is the first read that does not. */
  lemma {:induction false} FirstReadMeaning(attempts: nat -> Option<string>, i: nat)
    requires i <= DoiReads
    ensures FirstRead(attempts, i).None? <==> forall j :: i <= j < DoiReads ==> attempts(j).None?
    ensures FirstRead(attempts, i).Some? ==>
      exists j :: i <= j < DoiReads && attempts(j) == FirstRead(attempts, i) && forall k :: i <= k < j ==> attempts(k).None?
    decreases DoiReads - i
  {
    if i < DoiReads {
      if attempts(i).Some? {
        assert attempts(i) == FirstRead(attempts, i);
      } else {
        FirstReadMeaning(attempts, i + 1);
        if FirstRead(attempts, i).Some? {
          var j :| i + 1 <= j < DoiReads && attempts(j) == FirstRead(attempts, i + 1) &&
            forall k :: i + 1 <= k < j ==> attempts(k).None?;
          assert forall k :: i <= k < j ==> attempts(k).None?;
        }
      }
    }
  }

  /**
   * The loop reading `dataset.doi` until a read does not raise
   * `NoContainerError`, three reads at most.
   */
  method ReadDoi(attempts: nat -> Option<string>) returns (doi: Option<string>)
    ensures doi == FirstRead(attempts, 0)
    ensures doi.None? <==> forall j :: 0 <= j < DoiReads ==> attempts(j).None?
  {
    FirstReadMeaning(attempts, 0);
    doi := None;
    var i := 0;
    while i < DoiReads
      invariant 0 <= i <= DoiReads
      invariant FirstRead(attempts, i) == FirstRead(attempts, 0)
    {
      if attempts(i).Some? {
        doi := attempts(i);
        return;
      }
      i := i + 1;
    }
  }

  // ---------------------------------------------------------------------------
  // one row, once the DOI is known

  /** `resolve(dvhelper, row)`: the answer `Resolve` gives for the search's items. */
  function Resolution(items: string -> Result<seq<SearchItem>, PyError>, row: Row): Result<Option<string>, PyError> {
    if "Description" !in row then Err(KeyError)
    else match ResolverQuery(row["Description"])
      case None => Ok(None)
      case Some(q) => SearchAnswer(items(q))
  }

  /** The query `resolve` searches for, if it searches at all. */
  function QueryOf(row: Row): Option<string> {
    if "Description" in row then ResolverQuery(row["Description"]) else None
  }

  /** Creating a study from the row's title and description, and reading its DOI. */
  function Created(server: Server, row: Row): Result<Option<string>, PyError> {
    var title :- JsonFormatter.Cell(row, "Title");
    var description :- JsonFormatter.Cell(row, "Description");
    var attempts :- server.create(title, description);
    Ok(FirstRead(attempts, 0))
  }

  /** `create_and_publish_new_study(row['Title'], row['Description'])` and the reads of its `doi`. */
  method CreateStudy(server: Server, row: Row) returns (r: Result<Option<string>, PyError>)
    ensures r == Created(server, row)
  {
    var title :- JsonFormatter.Cell(row, "Title");
    var description :- JsonFormatter.Cell(row, "Description");
    var attempts :- server.create(title, description);
    var doi := ReadDoi(attempts);
    r := Ok(doi);
  }

  /** The published metadata without the four fields the server maintains. */
  function Base(published: JValue): Result<JValue, PyError> {
    var a :- JsonUtils.JPathDelete(published, "lastUpdateTime");
    var b :- JsonUtils.JPathDelete(a, "createTime");
    var c :- JsonUtils.JPathDelete(b, "distributionDate");
    JsonUtils.JPathDelete(c, "files")
  }

  /** `local_metadata`, as `update` leaves it before the comparison; `force_update_file` skips keeping the dates. */
  function LocalMetadata(published: JValue, row: Row, force: bool, today: string): Result<JValue, PyError> {
    var base :- Base(published);
    var local :- JsonFormatter.SetRow(row, base, today);
    if force then Ok(local) else Update.AvoidDatesAsWritten(published, local)
  }

  /** The local metadata: the deletes, `setrow`, and `avoid_update_on_dates` unless forced. */
  method Metadata(published: JValue, row: Row, force: bool, today: string) returns (r: Result<JValue, PyError>)
    ensures r == LocalMetadata(published, row, force, today)
  {
    var base :- Base(published);
    r := JsonFormatter.SetRow(row, base, today);
    if r.Ok? && !force {
      r := Update.AvoidUpdateOnDates(published, r.value);
    }
  }

  /**
   * `not force_update_file and unchanged and has_file`: the metadata blocks
   * compare equal and the published study has a file. Each lookup on the way
   * can raise.
   */
  function NoUpdateRequired(published: JValue, local: JValue, force: bool): (r: Result<bool, PyError>)
    ensures r.Ok? <==>
      && published.JObj? && local.JObj? && "metadataBlocks" in published.fields && "metadataBlocks" in local.fields
      && "files" in published.fields && Len(published.fields["files"]).Ok?
    ensures r == Ok(true) <==>
      && r.Ok? && !force && published.fields["metadataBlocks"] == local.fields["metadataBlocks"]
      && Len(published.fields["files"]).value > 0
  {
    var pm :- Index(published, "metadataBlocks");
    var lm :- Index(local, "metadataBlocks");
    JsonDiffIsEquality(pm, lm);
    var same := JsonDiff(pm, lm);
    var files :- Index(published, "files");
    var n :- Len(files);
    Ok(!force && same && n > 0)
  }

  /** The commit branch: put the metadata, read it back and compare, then upload and publish. */
  function Push(server: Server, doi: string, created: bool, local: JValue): Result<(), PyError> {
    var stored :- server.put(doi, created, local);
    var lm :- Index(local, "metadataBlocks");
    var sm :- Index(stored, "metadataBlocks");
    if !JsonDiff(lm, sm) then Err(RuntimeError("Updated metadata differs from local."))
    else server.upload(doi)
  }

  /** What the rest of a row does: the counters it increments and how it ends. */
  datatype Tail = Tail(counted: seq<string>, result: Result<(), PyError>)

  /** The part of `update` after the DOI is known. */
  function Sync(server: Server, doi: string, created: bool, row: Row, commit: bool, force: bool, today: string): (t: Tail)
    ensures t.counted == [] || t.counted == ["unchanged"] || t.counted == ["update"]
  {
    match server.published(doi)
    case Err(e) => Tail([], Err(e))
    case Ok(published) =>
      match LocalMetadata(published, row, force, today)
      case Err(e) => Tail([], Err(e))
      case Ok(local) => Decision(server, doi, created, published, local, commit, force)
  }

  /** Counting the row as unchanged or as an update, and pushing an update when committing. */
  function Decision(server: Server, doi: string, created: bool, published: JValue, local: JValue, commit: bool, force: bool): (t: Tail)
    ensures t.counted == [] || t.counted == ["unchanged"] || t.counted == ["update"]
  {
    match NoUpdateRequired(published, local, force)
    case Err(e) => Tail([], Err(e))
    case Ok(same) =>
      if same then Tail(["unchanged"], Ok(()))
      else Tail(["update"], if commit then Push(server, doi, created, local) else Ok(()))
  }

  // ---------------------------------------------------------------------------
  // one row

  /**
   * What `update(row)` does to the script's state: the counters it increments
   * in order, the query it searches for, the row it appends to
   * `doi_update_rows`, and what it returns or raises.
   */
  datatype Effect = Effect(counted: seq<string>, query: Option<string>, logged: Option<Row>, result: Result<Option<string>, PyError>)

  /** `{'Local ID': ..., 'DOI': ...}`. */
  function DoiRow(id: string, doi: string): Row {
    map["Local ID" := id, "DOI" := doi]
  }

  function WithDoi(counted: seq<string>, query: Option<string>, logged: Option<Row>, doi: string, t: Tail): Effect {
    Effect(counted + t.counted, query, logged, if t.result.Ok? then Ok(Some(doi)) else Err(t.result.error))
  }

  /** How finding the DOI ends: `update` returns or raises, or goes on with a DOI, `created` when it made the study. */
  datatype Lookup = Stop(result: Result<Option<string>, PyError>) | Go(doi: string, created: bool)

  /** The first part of `update`: the counters, the query, the logged row, and how it ends. */
  datatype Phase = Phase(counted: seq<string>, query: Option<string>, logged: Option<Row>, next: Lookup)

  /**
   * Finding the DOI of the row whose local id is `id`: the lookup, else the
   * resolver, else (when committing) a new study.
   */
  function DoiPhase(lookup: map<string, string>, items: string -> Result<seq<SearchItem>, PyError>, server: Server,
                    row: Row, id: string, commit: bool): (p: Phase)
    ensures p.counted == [] || p.counted == ["create"]
  {
    if id in lookup then Phase([], None, None, Go(lookup[id], false))
    else
      var query := QueryOf(row);
      match Resolution(items, row)
      case Err(e) => Phase([], query, None, Stop(Err(e)))
      case Ok(found) =>
        if !Falsy(found) then Phase([], query, Some(DoiRow(id, found.value)), Go(found.value, false))
        else if !commit then Phase(["create"], query, None, Stop(Ok(found)))
        else match Created(server, row)
          case Err(e) => Phase(["create"], query, None, Stop(Err(e)))
          case Ok(doi) =>
            if Falsy(doi) then Phase(["create"], query, None, Stop(Err(RuntimeError("Failed to create new study for ID: " + id + "."))))
            else Phase(["create"], query, Some(DoiRow(id, doi.value)), Go(doi.value, true))
  }

  /** `update(row, commit, show_diff, counters, doi_update_rows, force_update_file)`. */
  function RowEffect(lookup: map<string, string>, items: string -> Result<seq<SearchItem>, PyError>, server: Server,
                     row: Row, commit: bool, force: bool, today: string): Effect
  {
    if "Local ID" !in row then Effect([], None, None, Err(KeyError))
    else
      var p := DoiPhase(lookup, items, server, row, row["Local ID"], commit);
      match p.next
      case Stop(r) => Effect(p.counted, p.query, p.logged, r)
      case Go(doi, created) => WithDoi(p.counted, p.query, p.logged, doi, Sync(server, doi, created, row, commit, force, today))
  }

  /** A row of the DOI update tsv: a local id the lookup did not have, and a DOI that is not empty. */
  predicate Logged(lookup: map<string, string>, r: Row) {
    r.Keys == {"Local ID", "DOI"} && r["Local ID"] !in lookup && r["DOI"] != ""
  }

  /** The counters `update` itself increments. */
  const RowCounters: set<string> := {"create", "unchanged", "update"}

  /**
   * Incrementing counters `update` owns leaves the driver's counters as they
   * were: none of them is among the names.
   */
  lemma DriverCountersKept(names: seq<string>)
    requires forall i :: 0 <= i < |names| ==> names[i] in RowCounters
    ensures forall k :: k in Kinds || k == "total" ==> multiset(names)[k] == 0
  {
    forall k | k in Kinds || k == "total"
      ensures multiset(names)[k] == 0
    {
      assert k !in RowCounters;
    }
  }

  /** `total`, then the counters of `update`, then the counter of the outcome: one more `total` and one more of its kind. */
  lemma RowCountersKept(c0: multiset<string>, c1: multiset<string>, c2: multiset<string>, c3: multiset<string>,
                        names: seq<string>, o: Outcome)
    requires forall i :: 0 <= i < |names| ==> names[i] in RowCounters
    requires c1 == c0 + multiset{"total"} && c2 == c1 + multiset(names) && c3 == c2 + multiset{Kind(o)}
    ensures c3["total"] == c0["total"] + 1
    ensures forall k :: k in Kinds ==> c3[k] == c0[k] + (if Kind(o) == k then 1 else 0)
  {
    DriverCountersKept(names);
    KindCounter(o);
  }

  /** `update` itself increments only `create`, `unchanged` and `update`. */
  lemma RowEffectCounters(lookup: map<string, string>, items: string -> Result<seq<SearchItem>, PyError>, server: Server,
                          row: Row, commit: bool, force: bool, today: string)
    ensures var e := RowEffect(lookup, items, server, row, commit, force, today);
      forall i :: 0 <= i < |e.counted| ==> e.counted[i] in RowCounters
  {
    if "Local ID" in row {
      var p := DoiPhase(lookup, items, server, row, row["Local ID"], commit);
      if p.next.Go? {
        var t := Sync(server, p.next.doi, p.next.created, row, commit, force, today);
        assert RowEffect(lookup, items, server, row, commit, force, today).counted == p.counted + t.counted;
      }
    }
  }

  // ---------------------------------------------------------------------------
  // what a row does

  /**
   * Unless forced, the local metadata keeps each date of the published
   * citation block: `dateOfDeposit` and `distributionDate` compare equal
   * whatever the row says.
   */
  lemma KeepsPublishedDates(published: JValue, row: Row, today: string, f: string)
    requires LocalMetadata(published, row, false, today).Ok? && f in Update.DateFields
    requires Update.LastNamed(Update.Fields(published), f).Some?
    requires Update.ValueOf(Update.Fields(published)[Update.LastNamed(Update.Fields(published), f).value]) != JNull
    ensures var d := Update.CitationNode(LocalMetadata(published, row, false, today).value);
      d.JList? && Update.Has(d.items, f, Update.ValueOf(Update.Fields(published)[Update.LastNamed(Update.Fields(published), f).value]))
  {
    var base := Base(published).value;
    var local := JsonFormatter.SetRow(row, base, today).value;
    assert LocalMetadata(published, row, false, today) == Update.AvoidDatesAsWritten(published, local);
    Update.AsWrittenAgrees(published, local);
    Update.DatesCarried(published, local, f);
  }

  /** A row is counted as a new study exactly when its local id is new and the search finds no DOI. */
  lemma CreateCounted(lookup: map<string, string>, items: string -> Result<seq<SearchItem>, PyError>, server: Server,
                      row: Row, id: string, commit: bool)
    ensures var p := DoiPhase(lookup, items, server, row, id, commit);
      p.counted == ["create"] <==> id !in lookup && Resolution(items, row).Ok? && Falsy(Resolution(items, row).value)
  {
  }

  /**
   * Without `commit` a row that would need a new study ends with what the
   * search answered, and nothing is logged.
   */
  lemma PreviewReturnsSearch(lookup: map<string, string>, items: string -> Result<seq<SearchItem>, PyError>, server: Server,
                             row: Row, id: string)
    requires DoiPhase(lookup, items, server, row, id, false).counted == ["create"]
    ensures var p := DoiPhase(lookup, items, server, row, id, false);
      p.next == Stop(Resolution(items, row)) && p.logged == None && Falsy(Resolution(items, row).value)
  {
    CreateCounted(lookup, items, server, row, id, false);
  }

  /**
   * A new study whose `doi` raises on all three reads stops the row with
   * `RuntimeError('Failed to create new study for ID: ...')`, and nothing is logged.
   */
  lemma CreateFailsWithoutDoi(lookup: map<string, string>, items: string -> Result<seq<SearchItem>, PyError>, server: Server,
                              row: Row, id: string, attempts: nat -> Option<string>)
    requires DoiPhase(lookup, items, server, row, id, true).counted == ["create"]
    requires "Title" in row && "Description" in row
    requires server.create(row["Title"], row["Description"]) == Ok(attempts)
    requires forall j :: 0 <= j < DoiReads ==> attempts(j).None?
    ensures var p := DoiPhase(lookup, items, server, row, id, true);
      p.next == Stop(Err(RuntimeError("Failed to create new study for ID: " + id + "."))) && p.logged == None
  {
    CreateCounted(lookup, items, server, row, id, true);
    FirstReadMeaning(attempts, 0);
    assert Created(server, row) == Ok(None);
  }

  /**
   * A row is logged only for a local id the DOI tsv did not have, with a DOI
   * that is not empty, and the row goes on with that DOI.
   */
  lemma LoggedIsNew(lookup: map<string, string>, items: string -> Result<seq<SearchItem>, PyError>, server: Server,
                    row: Row, id: string, commit: bool)
    ensures var p := DoiPhase(lookup, items, server, row, id, commit);
      p.logged.Some? ==>
        && Logged(lookup, p.logged.value) && p.logged.value["Local ID"] == id
        && p.next.Go? && p.next.doi == p.logged.value["DOI"]
  {
    var p := DoiPhase(lookup, items, server, row, id, commit);
    if p.logged.Some? {
      assert p.logged.value == DoiRow(id, p.next.doi);
      assert DoiRow(id, p.next.doi).Keys == {"Local ID", "DOI"};
    }
  }

  /**
   * Having both metadata, a row that ends without an exception is counted
   * once, as unchanged or as an update; it is unchanged exactly when the
   * metadata blocks compare equal, the published study has a file and the
   * update is not forced.
   */
  lemma DecisionCounted(server: Server, doi: string, created: bool, published: JValue, local: JValue, commit: bool, force: bool)
    ensures var t := Decision(server, doi, created, published, local, commit, force);
      && (t.result.Ok? ==> t.counted == ["unchanged"] || t.counted == ["update"])
      && (t.counted == ["unchanged"] <==> NoUpdateRequired(published, local, force) == Ok(true))
      && (t.counted == ["unchanged"] ==> !force && published.fields["metadataBlocks"] == local.fields["metadataBlocks"])
  {
  }

  /** Once the DOI is known, the row is counted only when both metadata are at hand, and then as `Decision` says. */
  lemma SyncCounted(server: Server, doi: string, created: bool, row: Row, commit: bool, force: bool, today: string)
    ensures var t := Sync(server, doi, created, row, commit, force, today);
      t.counted != [] ==>
        && server.published(doi).Ok?
        && LocalMetadata(server.published(doi).value, row, force, today).Ok?
        && t == Decision(server, doi, created, server.published(doi).value,
                         LocalMetadata(server.published(doi).value, row, force, today).value, commit, force)
  {
  }

  /**
   * A committed update that ends without an exception stored exactly the
   * local metadata blocks on the server, and uploaded and published the study.
   */
  lemma CommitStoresLocal(server: Server, doi: string, created: bool, published: JValue, local: JValue, force: bool)
    requires Decision(server, doi, created, published, local, true, force) == Tail(["update"], Ok(()))
    ensures server.put(doi, created, local).Ok?
    ensures var stored := server.put(doi, created, local).value;
      local.JObj? && stored.JObj? && "metadataBlocks" in local.fields && "metadataBlocks" in stored.fields
      && stored.fields["metadataBlocks"] == local.fields["metadataBlocks"]
    ensures server.upload(doi) == Ok(())
  {
    var stored := server.put(doi, created, local).value;
    JsonDiffIsEquality(local.fields["metadataBlocks"], stored.fields["metadataBlocks"]);
  }

  /** Without `commit` nothing is sent to the server: a counted row ends without an exception. */
  lemma PreviewNeverPushes(server: Server, doi: string, created: bool, published: JValue, local: JValue, force: bool)
    ensures var t := Decision(server, doi, created, published, local, false, force);
      t.counted != [] ==> t.result == Ok(())
  {
  }

  // ---------------------------------------------------------------------------
  // the driver loop

  /** How `timeout.timeout(f, 180)` ends for one row. */
  datatype Outcome = Succeeded | TimedOut | Failed(error: PyError)

  /** The counter the driver increments for an outcome. */
  function Kind(o: Outcome): string {
    match o
    case Succeeded => "success"
    case TimedOut => "timeout"
    case Failed(_) => "error"
  }

  /** How many outcomes of the log are of a kind. */
  function Tally(log: seq<Outcome>, kind: string): nat
    decreases |log|
  {
    if log == [] then 0
    else Tally(log[..|log| - 1], kind) + (if Kind(log[|log| - 1]) == kind then 1 else 0)
  }

  /** The outcome of row `i`: the alarm going off, or how its update ends. */
  function RowOutcome(lookup: map<string, string>, items: string -> Result<seq<SearchItem>, PyError>, server: Server,
                      row: Row, i: nat, commit: bool, force: bool, today: string, alarm: nat -> bool): Outcome
  {
    if alarm(i) then TimedOut
    else
      var e := RowEffect(lookup, items, server, row, commit, force, today);
      if e.result.Ok? then Succeeded else Failed(e.result.error)
  }

  /** The log holds, row by row from the first, the outcome of each row. */
  predicate Logs(lookup: map<string, string>, items: string -> Result<seq<SearchItem>, PyError>, server: Server,
                 rows: seq<Row>, commit: bool, force: bool, today: string, alarm: nat -> bool, log: seq<Outcome>)
  {
    && |log| <= |rows|
    && forall i {:trigger RowOutcome(lookup, items, server, rows[i], i, commit, force, today, alarm)} ::
         0 <= i < |log| ==> log[i] == RowOutcome(lookup, items, server, rows[i], i, commit, force, today, alarm)
  }

  /** The log of one more row. */
  lemma LogsMore(lookup: map<string, string>, items: string -> Result<seq<SearchItem>, PyError>, server: Server,
                 rows: seq<Row>, commit: bool, force: bool, today: string, alarm: nat -> bool, log: seq<Outcome>, o: Outcome)
    requires Logs(lookup, items, server, rows, commit, force, today, alarm, log) && |log| < |rows|
    requires o == RowOutcome(lookup, items, server, rows[|log|], |log|, commit, force, today, alarm)
    ensures Logs(lookup, items, server, rows, commit, force, today, alarm, log + [o])
  {
  }

  /** Every row has a local id. */
  predicate Identified(rows: seq<Row>) {
    forall i :: 0 <= i < |rows| ==> "Local ID" in rows[i]
  }

  lemma IdentifiedMore(rows: seq<Row>, n: nat)
    requires n < |rows| && Identified(rows[..n]) && "Local ID" in rows[n]
    ensures Identified(rows[..n + 1])
  {
  }

  /** The counters of the kinds after one more row. */
  lemma TallyStep(c0: multiset<string>, c1: multiset<string>, c2: multiset<string>, log: seq<Outcome>, o: Outcome)
    requires forall k :: k in Kinds ==> c1[k] == c0[k] + Tally(log, k)
    requires forall k :: k in Kinds ==> c2[k] == c1[k] + (if Kind(o) == k then 1 else 0)
    ensures forall k :: k in Kinds ==> c2[k] == c0[k] + Tally(log + [o], k)
  {
    forall k | k in Kinds
      ensures c2[k] == c0[k] + Tally(log + [o], k)
    {
      TallyLast(log, o, k);
    }
  }

  /** `last_fail_timeout` after the rows logged, when it is kept from row to row. */
  function LastFailTimeout(log: seq<Outcome>): bool
    decreases |log|
  {
    if log == [] then false
    else match log[|log| - 1]
      case TimedOut => true
      case Succeeded => false
      case Failed(_) => LastFailTimeout(log[..|log| - 1])
  }

  /**
   * The waits of 30 seconds before the rows logged. As written the flag is
   * set to `False` at the top of each row, before it is read.
   */
  function Waits(log: seq<Outcome>, asWritten: bool): nat
    decreases |log|
  {
    if log == [] then 0
    else
      var front := log[..|log| - 1];
      Waits(front, asWritten) + (if !asWritten && LastFailTimeout(front) then 1 else 0)
  }

  /** The counters the driver increments for the outcomes. */
  const Kinds: set<string> := {"success", "timeout", "error"}

  /** The counter of an outcome is one of the driver's, and not `total`. */
  lemma KindCounter(o: Outcome)
    ensures Kind(o) in Kinds && Kind(o) != "total"
  {
  }

  lemma TallyLast(log: seq<Outcome>, o: Outcome, kind: string)
    ensures Tally(log + [o], kind) == Tally(log, kind) + (if Kind(o) == kind then 1 else 0)
  {
    assert (log + [o])[..|log|] == log;
  }

  /** Every outcome is counted once: successes, time-outs and errors add up to the rows. */
  lemma {:induction false} TallyTotal(log: seq<Outcome>)
    ensures Tally(log, "success") + Tally(log, "timeout") + Tally(log, "error") == |log|
    decreases |log|
  {
    if log != [] {
      TallyTotal(log[..|log| - 1]);
    }
  }

  /** The driver's counters after the rows logged: one `total` per row, and one of each row's kind. */
  predicate Tallied(c0: multiset<string>, c: multiset<string>, log: seq<Outcome>) {
    && c["total"] == c0["total"] + |log|
    && forall k :: k in Kinds ==> c[k] == c0[k] + Tally(log, k)
  }

  /**
   * The state of the driver loop after the rows logged: they all had a local
   * id, they are counted, and the waits and the time-out flag are those of the log.
   */
  predicate Driven(c0: multiset<string>, c: multiset<string>, rows: seq<Row>, log: seq<Outcome>, waits: nat,
                   lastFailTimeout: bool, asWritten: bool)
  {
    && |log| <= |rows| && Identified(rows[..|log|]) && Tallied(c0, c, log)
    && waits == Waits(log, asWritten)
    && (!asWritten ==> lastFailTimeout == LastFailTimeout(log))
  }

  /** One more row of the driver loop. */
  lemma DrivenMore(c0: multiset<string>, c1: multiset<string>, c2: multiset<string>, rows: seq<Row>, log: seq<Outcome>,
                   o: Outcome, w1: nat, w2: nat, f1: bool, f2: bool, asWritten: bool)
    requires Driven(c0, c1, rows, log, w1, f1, asWritten) && |log| < |rows| && "Local ID" in rows[|log|]
    requires c2["total"] == c1["total"] + 1
    requires forall k :: k in Kinds ==> c2[k] == c1[k] + (if Kind(o) == k then 1 else 0)
    requires w2 == w1 + (if !asWritten && f1 then 1 else 0)
    requires f2 == (if o.TimedOut? then true else if o.Succeeded? then false else !asWritten && f1)
    ensures Driven(c0, c2, rows, log + [o], w2, f2, asWritten)
  {
    WaitsLast(log, o, asWritten);
    TallyStep(c0, c1, c2, log, o);
    IdentifiedMore(rows, |log|);
  }

  lemma WaitsLast(log: seq<Outcome>, o: Outcome, asWritten: bool)
    ensures Waits(log + [o], asWritten) == Waits(log, asWritten) + (if !asWritten && LastFailTimeout(log) then 1 else 0)
    ensures LastFailTimeout(log + [o]) == (o.TimedOut? || (o.Failed? && LastFailTimeout(log)))
  {
    assert (log + [o])[..|log|] == log;
  }

  /**
   * The flag is set after a row exactly when some row timed out and every
   * row after it ended in an error.
   */
  lemma {:induction false} LastFailTimeoutMeaning(log: seq<Outcome>)
    ensures LastFailTimeout(log) <==>
      exists j :: 0 <= j < |log| && log[j] == TimedOut && forall k :: j < k < |log| ==> log[k].Failed?
    decreases |log|
  {
    if log != [] {
      var n := |log| - 1;
      var front := log[..n];
      LastFailTimeoutMeaning(front);
      if log[n].Failed? {
        if LastFailTimeout(front) {
          var j :| 0 <= j < |front| && front[j] == TimedOut && forall k :: j < k < |front| ==> front[k].Failed?;
          assert log[j] == TimedOut && forall k :: j < k < |log| ==> log[k].Failed?;
        }
        if exists j :: 0 <= j < |log| && log[j] == TimedOut && forall k :: j < k < |log| ==> log[k].Failed? {
          var j :| 0 <= j < |log| && log[j] == TimedOut && forall k :: j < k < |log| ==> log[k].Failed?;
          assert j < n;
          assert front[j] == TimedOut && forall k :: j < k < |front| ==> front[k].Failed?;
        }
      } else if log[n].TimedOut? {
        assert log[n] == TimedOut;
      }
    }
  }

  /** As written, the driver never waits after a time-out. */
  lemma {:induction false} NeverWaits(log: seq<Outcome>)
    ensures Waits(log, true) == 0
    decreases |log|
  {
    if log != [] {
      NeverWaits(log[..|log| - 1]);
    }
  }

  /** A row that times out and a row after it: the driver as written goes straight on, the corrected one waits once. */
  lemma WaitAfterTimeOut()
    ensures Waits([TimedOut, Succeeded], true) == 0 && Waits([TimedOut, Succeeded], false) == 1
  {
    assert [TimedOut, Succeeded][..1] == [TimedOut];
    assert [TimedOut][..0] == [];
  }

  class Script {
    const doiLookup: map<string, string>
    var counters: multiset<string>
    var doiUpdateRows: seq<Row>
    var doiUpdateFile: seq<Row>

    /**
     * The DOI update tsv always holds every row appended so far, and each of
     * them is a new local id with its DOI.
     */
    ghost predicate Valid()
      reads this
    {
      doiUpdateFile == doiUpdateRows &&
      forall i :: 0 <= i < |doiUpdateRows| ==> Logged(doiLookup, doiUpdateRows[i])
    }

    constructor(doiLookup: map<string, string>)
      ensures Valid()
      ensures this.doiLookup == doiLookup && counters == multiset{} && doiUpdateRows == []
    {
      this.doiLookup := doiLookup;
      counters := multiset{};
      doiUpdateRows := [];
      doiUpdateFile := [];
    }

    /** `counters[name] += 1` on a `defaultdict(int)`. */
    method Bump(name: string)
      modifies this
      ensures counters == old(counters) + multiset{name}
      ensures doiUpdateRows == old(doiUpdateRows) && doiUpdateFile == old(doiUpdateFile)
    {
      counters := counters + multiset{name};
    }

    /** The part of `update` after the DOI is known. */
    method SyncRow(server: Server, doi: string, created: bool, row: Row, commit: bool, force: bool, today: string)
      returns (r: Result<(), PyError>)
      modifies this
      ensures var t := Sync(server, doi, created, row, commit, force, today);
        r == t.result && counters == old(counters) + multiset(t.counted)
      ensures doiUpdateRows == old(doiUpdateRows) && doiUpdateFile == old(doiUpdateFile)
    {
      var published :- server.published(doi);
      var local :- Metadata(published, row, force, today);
      r := Decide(server, doi, created, published, local, commit, force);
    }

    method Decide(server: Server, doi: string, created: bool, published: JValue, local: JValue, commit: bool, force: bool)
      returns (r: Result<(), PyError>)
      modifies this
      ensures var t := Decision(server, doi, created, published, local, commit, force);
        r == t.result && counters == old(counters) + multiset(t.counted)
      ensures doiUpdateRows == old(doiUpdateRows) && doiUpdateFile == old(doiUpdateFile)
    {
      var same :- NoUpdateRequired(published, local, force);
      if same {
        Bump("unchanged");
        return Ok(());
      }
      Bump("update");
      if commit {
        r := Push(server, doi, created, local);
      } else {
        r := Ok(());
      }
    }

    /** Appending a row to `doi_update_rows` and rewriting the DOI update tsv with all of them. */
    method Log(id: string, doi: string)
      requires Valid() && id !in doiLookup && doi != ""
      modifies this
      ensures Valid()
      ensures doiUpdateRows == old(doiUpdateRows) + [DoiRow(id, doi)] && counters == old(counters)
    {
      doiUpdateRows := doiUpdateRows + [DoiRow(id, doi)];
      doiUpdateFile := doiUpdateRows;
    }

    /** Finding the DOI of the row whose local id is `id`, and logging a new one. */
    method FindDoi(row: Row, id: string, commit: bool, search: DoiSearch, server: Server) returns (next: Lookup)
      requires Valid() && "Local ID" in row && row["Local ID"] == id
      modifies this, search
      ensures Valid()
      ensures var p := DoiPhase(doiLookup, search.items, server, row, id, commit);
        && next == p.next
        && counters == old(counters) + multiset(p.counted)
        && doiUpdateRows == old(doiUpdateRows) + (if p.logged.Some? then [p.logged.value] else [])
        && search.queries == old(search.queries) + (if p.query.Some? then [p.query.value] else [])
    {
      if id in doiLookup {
        return Go(doiLookup[id], false);
      }
      var found := Resolve(search, row);
      if found.Err? {
        return Stop(Err(found.error));
      }
      if !Falsy(found.value) {
        Log(id, found.value.value);
        return Go(found.value.value, false);
      }
      Bump("create");
      if !commit {
        return Stop(found);
      }
      var created := CreateStudy(server, row);
      if created.Err? {
        return Stop(Err(created.error));
      }
      var doi := created.value;
      if Falsy(doi) {
        return Stop(Err(RuntimeError("Failed to create new study for ID: " + id + ".")));
      }
      Log(id, doi.value);
      next := Go(doi.value, true);
    }

    /** `update(row, ...)`. */
    method UpdateRow(row: Row, commit: bool, force: bool, today: string, search: DoiSearch, server: Server)
      returns (r: Result<Option<string>, PyError>)
      requires Valid()
      modifies this, search
      ensures Valid()
      ensures var e := RowEffect(doiLookup, search.items, server, row, commit, force, today);
        && r == e.result
        && counters == old(counters) + multiset(e.counted)
        && doiUpdateRows == old(doiUpdateRows) + (if e.logged.Some? then [e.logged.value] else [])
        && search.queries == old(search.queries) + (if e.query.Some? then [e.query.value] else [])
    {
      if "Local ID" !in row {
        return Err(KeyError);
      }
      var next := FindDoi(row, row["Local ID"], commit, search, server);
      if next.Stop? {
        return next.result;
      }
      var t := SyncRow(server, next.doi, next.created, row, commit, force, today);
      r := if t.Ok? then Ok(Some(next.doi)) else Err(t.error);
    }

    /**
     * One row of the driver loop: `counters['total'] += 1`, then the update
     * run under the alarm, and the counter of its outcome.
     */
    method ProcessRow(rows: seq<Row>, ctr: nat, commit: bool, force: bool, today: string, search: DoiSearch, server: Server,
                      alarm: nat -> bool, ghost log: seq<Outcome>) returns (outcome: Outcome)
      requires Valid() && ctr == |log| < |rows|
      requires Logs(doiLookup, search.items, server, rows, commit, force, today, alarm, log)
      modifies this, search
      ensures Valid()
      ensures Logs(doiLookup, search.items, server, rows, commit, force, today, alarm, log + [outcome])
      ensures counters["total"] == old(counters)["total"] + 1
      ensures forall k :: k in Kinds ==> counters[k] == old(counters)[k] + (if Kind(outcome) == k then 1 else 0)
    {
      ghost var c0 := counters;
      Bump("total");
      ghost var c1 := counters;
      ghost var names: seq<string> := [];
      if alarm(ctr) {
        outcome := TimedOut;
      } else {
        var u := UpdateRow(rows[ctr], commit, force, today, search, server);
        names := RowEffect(doiLookup, search.items, server, rows[ctr], commit, force, today).counted;
        RowEffectCounters(doiLookup, search.items, server, rows[ctr], commit, force, today);
        outcome := if u.Ok? then Succeeded else Failed(u.error);
      }
      LogsMore(doiLookup, search.items, server, rows, commit, force, today, alarm, log, outcome);
      ghost var c2 := counters;
      Bump(Kind(outcome));
      RowCountersKept(c0, c1, c2, counters, names, outcome);
    }

    /**
     * The driver loop: a row without a local id stops the script with a
     * `KeyError`; every other row is counted, updated under the alarm, and
     * counted again by how that ended. `asWritten` resets the time-out flag
     * at the top of each row, before the cooldown tests it.
     */
    method ProcessRows(rows: seq<Row>, commit: bool, force: bool, today: string, search: DoiSearch, server: Server,
                       alarm: nat -> bool, asWritten: bool)
      returns (r: Result<(), PyError>, outcomes: seq<Outcome>, waits: nat)
      requires Valid()
      modifies this, search
      ensures Valid()
      ensures Logs(doiLookup, search.items, server, rows, commit, force, today, alarm, outcomes)
      ensures r.Ok? ==> |outcomes| == |rows|
      ensures r.Err? ==> r == Err(KeyError) && |outcomes| < |rows| && "Local ID" !in rows[|outcomes|]
      ensures Identified(rows[..|outcomes|]) && Tallied(old(counters), counters, outcomes)
      ensures waits == Waits(outcomes, asWritten)
    {
      r := Ok(());
      outcomes := [];
      waits := 0;
      var lastFailTimeout := false;
      while |outcomes| < |rows|
        invariant Valid()
        invariant Logs(doiLookup, search.items, server, rows, commit, force, today, alarm, outcomes)
        invariant Driven(old(counters), counters, rows, outcomes, waits, lastFailTimeout, asWritten)
        decreases |rows| - |outcomes|
      {
        var ctr := |outcomes|;
        if "Local ID" !in rows[ctr] {
          r := Err(KeyError);
          return;
        }
        ghost var before := (counters, waits, lastFailTimeout);
        if asWritten {
          lastFailTimeout := false;
        }
        if lastFailTimeout {
          waits := waits + 1;
        }
        var outcome := ProcessRow(rows, ctr, commit, force, today, search, server, alarm, outcomes);
        if outcome.TimedOut? {
          lastFailTimeout := true;
        } else if outcome.Succeeded? {
          lastFailTimeout := false;
        }
        DrivenMore(old(counters), before.0, counters, rows, outcomes, outcome, before.1, waits, before.2, lastFailTimeout,
          asWritten);
        outcomes := outcomes + [outcome];
      }
    }
  }
}
