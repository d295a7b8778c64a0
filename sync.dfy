/**
 * One sync cycle (`executeVacuum`): fetch the remote queue, then for each
 * fetched record in order validate it, write its CSV artifact, insert its row
 * locally and delete it remotely, catching any failure record by record.
 *
 * The network, the file system and the database never appear directly: the
 * outcome of each effect is an input (`FetchOutcome`, one `StepOutcome` per
 * record). The cycle's meaning is the pure `CycleState`/`CycleTrace`; the
 * method `SyncManager.ExecuteVacuum` performs it step by step on the state
 * it holds and is proved to agree with them. The lemmas state the cycle's
 * ordering and safety properties over the resulting state and event trace.
 */
module Sync {
  import opened Optional
  import opened Entity
  import opened Dao
  import opened Remote
  import opened Csv

  /** Whether `select()` plus `decodeList` on the remote table succeeded. */
  datatype FetchOutcome = FetchFailed | FetchOk

  /** What happens to one record: the `HHmmss` clock reading, and whether the CSV write, the insert and the remote delete succeed. */
  datatype StepOutcome = StepOutcome(time: string, csvOk: bool, insertOk: bool, deleteOk: bool)

  /** What a cycle did, in order. Per-record events carry the record's position `at` in the fetched list. */
  datatype Event =
    | ConnectionError
    | NoNewData
    | Found(count: nat)
    | Skipped(at: nat)
    | CsvFailed(at: nat)
    | CsvWritten(at: nat, path: string)
    | InsertFailed(at: nat)
    | Inserted(at: nat, key: string)
    | DeleteFailed(at: nat)
    | Deleted(at: nat, key: string)
  {
    predicate PerRecord() {
      !ConnectionError? && !NoNewData? && !Found?
    }

    /** A remote delete was sent, whether or not it then succeeded. */
    predicate IsDeleteRequest() {
      Deleted? || DeleteFailed?
    }
  }

  /** Everything a cycle touches: the remote queue, the local table and the artifact files (path to content). */
  datatype World = World(remote: seq<RemoteData>, table: Table, files: map<string, string>)

  /** The entity built from a valid record (step B): null texts get their defaults, the id is left to the store. */
  function ToEntity(d: RemoteData, path: string): (r: MessageEntity)
    requires WellFormed(d)
    ensures r.id == 0
    ensures Some(r.supabaseId) == d.id && Some(r.timestamp) == d.createdAt && r.filePath == path
    ensures d.sourceApp.Some? ==> r.sourceApp == d.sourceApp.value
    ensures d.sourceApp.None? ==> r.sourceApp == "Unknown"
    ensures d.header.Some? ==> r.header == d.header.value
    ensures d.header.None? ==> r.header == "No Header"
    ensures d.payload.Some? ==> r.payload == d.payload.value
    ensures d.payload.None? ==> r.payload == ""
  {
    MessageEntity(
      0,
      d.id.value,
      if d.sourceApp.Some? then d.sourceApp.value else "Unknown",
      if d.header.Some? then d.header.value else "No Header",
      if d.payload.Some? then d.payload.value else "",
      d.createdAt.value,
      path)
  }

  /** A record whose every step succeeds. */
  predicate Synced(d: RemoteData, o: StepOutcome) {
    WellFormed(d) && o.csvOk && o.insertOk && o.deleteOk
  }

  // ---------------------------------------------------------------------------
  // The meaning of one cycle
  // ---------------------------------------------------------------------------

  /** The events one record produces; they depend on that record and its own outcomes only. */
  function RecordTrace(dir: string, at: nat, d: RemoteData, o: StepOutcome): (r: seq<Event>)
    ensures r != []
    ensures forall e :: e in r ==> e.PerRecord() && e.at == at
  {
    if !WellFormed(d) then [Skipped(at)]
    else if !o.csvOk then [CsvFailed(at)]
    else
      [CsvWritten(at, ArtifactPath(dir, d, o.time))] +
      if !o.insertOk then [InsertFailed(at)]
      else [Inserted(at, d.id.value)] + if o.deleteOk then [Deleted(at, d.id.value)] else [DeleteFailed(at)]
  }

  /** The state after one record: each step runs only if the ones before it succeeded. */
  function ProcessRecord(w: World, dir: string, d: RemoteData, o: StepOutcome): (r: World)
    requires Consistent(w.table)
    ensures Consistent(r.table)
  {
    if !WellFormed(d) || !o.csvOk then w
    else
      var path := ArtifactPath(dir, d, o.time);
      var written := w.(files := w.files[path := Content(d)]);
      if !o.insertOk then written
      else
        var saved := written.(table := InsertReplace(written.table, ToEntity(d, path)));
        if !o.deleteOk then saved
        else saved.(remote := WithoutId(saved.remote, d.id.value))
  }

  /** The state after processing `items` in order. */
  function Drain(w: World, dir: string, items: seq<RemoteData>, outs: seq<StepOutcome>): (r: World)
    requires |outs| == |items| && Consistent(w.table)
    ensures Consistent(r.table)
    decreases |items|
  {
    if items == [] then w
    else
      var n := |items| - 1;
      ProcessRecord(Drain(w, dir, items[..n], outs[..n]), dir, items[n], outs[n])
  }

  /** The events of processing `items` in order. */
  function Traces(dir: string, items: seq<RemoteData>, outs: seq<StepOutcome>): (r: seq<Event>)
    requires |outs| == |items|
    ensures |r| >= |items|
    decreases |items|
  {
    if items == [] then []
    else
      var n := |items| - 1;
      Traces(dir, items[..n], outs[..n]) + RecordTrace(dir, n, items[n], outs[n])
  }

  /** The state after a cycle: the fetch returns the queue as it stands. */
  function CycleState(w: World, dir: string, fetch: FetchOutcome, outs: seq<StepOutcome>): (r: World)
    requires Consistent(w.table)
    requires fetch.FetchOk? ==> |outs| == |w.remote|
    ensures Consistent(r.table)
  {
    if fetch.FetchFailed? || w.remote == [] then w
    else Drain(w, dir, w.remote, outs)
  }

  /** The events of a cycle. */
  function CycleTrace(w: World, dir: string, fetch: FetchOutcome, outs: seq<StepOutcome>): seq<Event>
    requires fetch.FetchOk? ==> |outs| == |w.remote|
  {
    if fetch.FetchFailed? then [ConnectionError]
    else if w.remote == [] then [NoNewData]
    else [Found(|w.remote|)] + Traces(dir, w.remote, outs)
  }

  // ---------------------------------------------------------------------------
  // The trace: ordering and isolation
  // ---------------------------------------------------------------------------

  /** The events about the record at position `k`, in order. */
  function EventsAbout(trace: seq<Event>, k: nat): seq<Event> {
    if trace == [] then []
    else (if trace[0].PerRecord() && trace[0].at == k then [trace[0]] else []) + EventsAbout(trace[1..], k)
  }

  lemma {:induction false} EventsAboutConcat(a: seq<Event>, b: seq<Event>, k: nat)
    ensures EventsAbout(a + b, k) == EventsAbout(a, k) + EventsAbout(b, k)
  {
    if a != [] {
      assert (a + b)[1..] == a[1..] + b;
      EventsAboutConcat(a[1..], b, k);
    } else {
      assert a + b == b;
    }
  }

  lemma {:induction false} EventsAboutOthers(trace: seq<Event>, k: nat)
    requires forall e :: e in trace ==> e.PerRecord() && e.at != k
    ensures EventsAbout(trace, k) == []
  {
    if trace != [] {
      EventsAboutOthers(trace[1..], k);
    }
  }

  lemma {:induction false} EventsAboutOnly(trace: seq<Event>, k: nat)
    requires forall e :: e in trace ==> e.PerRecord() && e.at == k
    ensures EventsAbout(trace, k) == trace
  {
    if trace != [] {
      EventsAboutOnly(trace[1..], k);
      assert [trace[0]] + trace[1..] == trace;
    }
  }

  lemma {:induction false} TracesBounded(dir: string, items: seq<RemoteData>, outs: seq<StepOutcome>)
    requires |outs| == |items|
    ensures forall e :: e in Traces(dir, items, outs) ==> e.PerRecord() && e.at < |items|
    decreases |items|
  {
    if items != [] {
      var n := |items| - 1;
      TracesBounded(dir, items[..n], outs[..n]);
    }
  }

  /**
   * Failure isolation: the events about the record at position `k` are exactly the ones that
   * record and its own outcomes produce, whatever happened to the records before or after it.
   */
  lemma {:induction false} RecordEventsIndependent(dir: string, items: seq<RemoteData>, outs: seq<StepOutcome>, k: nat)
    requires |outs| == |items| && k < |items|
    ensures EventsAbout(Traces(dir, items, outs), k) == RecordTrace(dir, k, items[k], outs[k])
    decreases |items|
  {
    var n := |items| - 1;
    var prefix := Traces(dir, items[..n], outs[..n]);
    var last := RecordTrace(dir, n, items[n], outs[n]);
    EventsAboutConcat(prefix, last, k);
    TracesBounded(dir, items[..n], outs[..n]);
    if k == n {
      EventsAboutOthers(prefix, k);
      EventsAboutOnly(last, k);
    } else {
      RecordEventsIndependent(dir, items[..n], outs[..n], k);
      assert items[..n][k] == items[k] && outs[..n][k] == outs[k];
      EventsAboutOthers(last, k);
    }
  }

  /** Per-record events appear in fetch order. */
  predicate InFetchOrder(trace: seq<Event>) {
    forall p, q :: 0 <= p < q < |trace| && trace[p].PerRecord() && trace[q].PerRecord() ==> trace[p].at <= trace[q].at
  }

  lemma {:induction false} TracesInFetchOrder(dir: string, items: seq<RemoteData>, outs: seq<StepOutcome>)
    requires |outs| == |items|
    ensures InFetchOrder(Traces(dir, items, outs))
    decreases |items|
  {
    if items != [] {
      var n := |items| - 1;
      var prefix := Traces(dir, items[..n], outs[..n]);
      var last := RecordTrace(dir, n, items[n], outs[n]);
      TracesInFetchOrder(dir, items[..n], outs[..n]);
      TracesBounded(dir, items[..n], outs[..n]);
      var t := prefix + last;
      forall p, q | 0 <= p < q < |t| && t[p].PerRecord() && t[q].PerRecord() ensures t[p].at <= t[q].at {
        if q < |prefix| {
          assert t[p] == prefix[p] && t[q] == prefix[q];
        } else if p < |prefix| {
          assert t[p] == prefix[p] && t[p] in prefix;
          assert t[q] == last[q - |prefix|] && t[q] in last;
        } else {
          assert t[p] == last[p - |prefix|] && t[p] in last;
          assert t[q] == last[q - |prefix|] && t[q] in last;
        }
      }
    }
  }

  /** A remote delete is always immediately preceded by the same record's successful insert, and that by its CSV write. */
  predicate DeleteFollowsInsert(trace: seq<Event>) {
    forall p :: 0 <= p < |trace| && trace[p].IsDeleteRequest() ==> RequestFollowsInsert(trace, p)
  }

  /**
   * The delete request at `p` comes directly after the same record's successful insert, which comes
   * directly after its CSV write; a delete that succeeded names the key that was inserted.
   */
  predicate RequestFollowsInsert(trace: seq<Event>, p: nat)
    requires p < |trace| && trace[p].IsDeleteRequest()
  {
    2 <= p && trace[p - 1].Inserted? && trace[p - 1].at == trace[p].at &&
    (trace[p].Deleted? ==> trace[p - 1].key == trace[p].key) &&
    trace[p - 2].CsvWritten? && trace[p - 2].at == trace[p].at
  }

  lemma {:induction false} TracesDeleteFollowsInsert(dir: string, items: seq<RemoteData>, outs: seq<StepOutcome>)
    requires |outs| == |items|
    ensures DeleteFollowsInsert(Traces(dir, items, outs))
    decreases |items|
  {
    if items != [] {
      var n := |items| - 1;
      var prefix := Traces(dir, items[..n], outs[..n]);
      var last := RecordTrace(dir, n, items[n], outs[n]);
      TracesDeleteFollowsInsert(dir, items[..n], outs[..n]);
      var t := prefix + last;
      forall p | 0 <= p < |t| && t[p].IsDeleteRequest() ensures RequestFollowsInsert(t, p) {
        if p < |prefix| {
          assert t[p] == prefix[p] && t[p - 1] == prefix[p - 1] && t[p - 2] == prefix[p - 2];
        } else {
          var i := p - |prefix|;
          assert t[p] == last[i];
          assert i == 2 && |last| == 3;
          assert t[p - 1] == last[1] && t[p - 2] == last[0];
        }
      }
    }
  }

  // ---------------------------------------------------------------------------
  // The state: nothing lost, nothing deleted before it is stored
  // ---------------------------------------------------------------------------

  /** Every row points at an artifact that exists. */
  predicate ArtifactsPresent(w: World) {
    forall x :: x in w.table.rows ==> x.filePath in w.files
  }

  /** One record never removes a stored remote id, a file or an artifact, and never adds a remote record. */
  lemma RecordKeepsWhatExists(w: World, dir: string, d: RemoteData, o: StepOutcome)
    requires Consistent(w.table)
    ensures var r := ProcessRecord(w, dir, d, o);
      KeysOf(w.table.rows) <= KeysOf(r.table.rows) &&
      w.files.Keys <= r.files.Keys &&
      (forall x :: x in r.remote ==> x in w.remote) &&
      (ArtifactsPresent(w) ==> ArtifactsPresent(r))
  {
    if WellFormed(d) && o.csvOk && o.insertOk {
      var path := ArtifactPath(dir, d, o.time);
      AutoInsertKeys(w.table, ToEntity(d, path));
    }
  }

  /** A record whose CSV write and insert succeed leaves its remote id stored and its artifact on disk. */
  lemma {:induction false} DrainStoresWritten(w: World, dir: string, items: seq<RemoteData>, outs: seq<StepOutcome>, k: nat)
    requires |outs| == |items| && Consistent(w.table) && k < |items|
    requires WellFormed(items[k]) && outs[k].csvOk && outs[k].insertOk
    ensures var r := Drain(w, dir, items, outs);
      items[k].id.value in KeysOf(r.table.rows) && ArtifactPath(dir, items[k], outs[k].time) in r.files
    decreases |items|
  {
    var n := |items| - 1;
    var before := Drain(w, dir, items[..n], outs[..n]);
    RecordKeepsWhatExists(before, dir, items[n], outs[n]);
    if k == n {
      var path := ArtifactPath(dir, items[k], outs[k].time);
      AutoInsertKeys(before.table, ToEntity(items[k], path));
    } else {
      assert items[..n][k] == items[k] && outs[..n][k] == outs[k];
      DrainStoresWritten(w, dir, items[..n], outs[..n], k);
    }
  }

  /** Only a record that went through every step changes the remote queue, and then only by its own event id. */
  lemma RecordRemote(w: World, dir: string, d: RemoteData, o: StepOutcome)
    requires Consistent(w.table)
    ensures ProcessRecord(w, dir, d, o).remote == if Synced(d, o) then WithoutId(w.remote, d.id.value) else w.remote
  {
  }

  /**
   * A record leaves the remote queue only when some fetched record with the same event id
   * went through every step; no record is ever added to the queue.
   */
  lemma {:induction false} DrainRemovesOnlySynced(w: World, dir: string, items: seq<RemoteData>, outs: seq<StepOutcome>)
    requires |outs| == |items| && Consistent(w.table)
    ensures var r := Drain(w, dir, items, outs);
      (forall x :: x in r.remote ==> x in w.remote) &&
      forall x :: x in w.remote && x !in r.remote ==>
        exists k :: 0 <= k < |items| && Synced(items[k], outs[k]) && items[k].id == x.id
    decreases |items|
  {
    if items != [] {
      var n := |items| - 1;
      var before := Drain(w, dir, items[..n], outs[..n]);
      var r := ProcessRecord(before, dir, items[n], outs[n]);
      assert r == Drain(w, dir, items, outs);
      DrainRemovesOnlySynced(w, dir, items[..n], outs[..n]);
      RecordRemote(before, dir, items[n], outs[n]);
      forall x | x in w.remote && x !in r.remote
        ensures exists k :: 0 <= k < |items| && Synced(items[k], outs[k]) && items[k].id == x.id
      {
        if x in before.remote {
          assert Synced(items[n], outs[n]) && items[n].id == x.id;
        } else {
          var k :| 0 <= k < n && Synced(items[..n][k], outs[..n][k]) && items[..n][k].id == x.id;
          assert items[..n][k] == items[k] && outs[..n][k] == outs[k];
        }
      }
    }
  }

  /**
   * Counted with multiplicity: no copy of a record is ever added to the queue, and a record keeps
   * every one of its copies unless some fetched record with the same event id went through every step.
   */
  lemma {:induction false} DrainQueueCopies(w: World, dir: string, items: seq<RemoteData>, outs: seq<StepOutcome>, x: RemoteData)
    requires |outs| == |items| && Consistent(w.table)
    ensures var r := Drain(w, dir, items, outs);
      multiset(r.remote)[x] <= multiset(w.remote)[x] &&
      ((forall k :: 0 <= k < |items| && Synced(items[k], outs[k]) ==> items[k].id != x.id) ==>
        multiset(r.remote)[x] == multiset(w.remote)[x])
    decreases |items|
  {
    if items != [] {
      var n := |items| - 1;
      var before := Drain(w, dir, items[..n], outs[..n]);
      DrainQueueCopies(w, dir, items[..n], outs[..n], x);
      RecordRemote(before, dir, items[n], outs[n]);
      if forall k :: 0 <= k < |items| && Synced(items[k], outs[k]) ==> items[k].id != x.id {
        forall k | 0 <= k < n && Synced(items[..n][k], outs[..n][k]) ensures items[..n][k].id != x.id {
          assert items[..n][k] == items[k] && outs[..n][k] == outs[k];
        }
      }
    }
  }

  lemma {:induction false} DrainKeepsArtifacts(w: World, dir: string, items: seq<RemoteData>, outs: seq<StepOutcome>)
    requires |outs| == |items| && Consistent(w.table) && ArtifactsPresent(w)
    ensures ArtifactsPresent(Drain(w, dir, items, outs))
    decreases |items|
  {
    if items != [] {
      var n := |items| - 1;
      DrainKeepsArtifacts(w, dir, items[..n], outs[..n]);
      RecordKeepsWhatExists(Drain(w, dir, items[..n], outs[..n]), dir, items[n], outs[n]);
    }
  }

  /** The artifact paths a run over `items` writes: one per valid record whose CSV write succeeds. */
  function WrittenPaths(dir: string, items: seq<RemoteData>, outs: seq<StepOutcome>): set<string>
    requires |outs| == |items|
    decreases |items|
  {
    if items == [] then {}
    else
      var n := |items| - 1;
      WrittenPaths(dir, items[..n], outs[..n]) +
        if WellFormed(items[n]) && outs[n].csvOk then {ArtifactPath(dir, items[n], outs[n].time)} else {}
  }

  lemma {:induction false} DrainFiles(w: World, dir: string, items: seq<RemoteData>, outs: seq<StepOutcome>)
    requires |outs| == |items| && Consistent(w.table)
    ensures Drain(w, dir, items, outs).files.Keys == w.files.Keys + WrittenPaths(dir, items, outs)
    decreases |items|
  {
    if items != [] {
      var n := |items| - 1;
      DrainFiles(w, dir, items[..n], outs[..n]);
      RecordFiles(Drain(w, dir, items[..n], outs[..n]), dir, items[n], outs[n]);
    }
  }

  /** Only a valid record whose CSV write succeeds changes the files: its artifact is (re)written. */
  lemma RecordFiles(w: World, dir: string, d: RemoteData, o: StepOutcome)
    requires Consistent(w.table)
    ensures ProcessRecord(w, dir, d, o).files ==
      if WellFormed(d) && o.csvOk then w.files[ArtifactPath(dir, d, o.time) := Content(d)] else w.files
  {
  }

  /** Every event of a run comes from the record at its position. */
  lemma {:induction false} TraceEventOrigin(dir: string, items: seq<RemoteData>, outs: seq<StepOutcome>, e: Event)
    requires |outs| == |items| && e in Traces(dir, items, outs)
    ensures e.PerRecord() && e.at < |items| && e in RecordTrace(dir, e.at, items[e.at], outs[e.at])
    decreases |items|
  {
    var n := |items| - 1;
    var prefix := Traces(dir, items[..n], outs[..n]);
    if e in prefix {
      TraceEventOrigin(dir, items[..n], outs[..n], e);
      assert items[..n][e.at] == items[e.at] && outs[..n][e.at] == outs[e.at];
    }
  }

  /** A deleted event id belongs to a record that was stored, so its row is in the table afterwards. */
  lemma DeletedKeyStored(w: World, dir: string, items: seq<RemoteData>, outs: seq<StepOutcome>, e: Event)
    requires |outs| == |items| && Consistent(w.table)
    requires e in Traces(dir, items, outs) && e.Deleted?
    ensures e.key in KeysOf(Drain(w, dir, items, outs).table.rows)
  {
    TraceEventOrigin(dir, items, outs, e);
    DrainStoresWritten(w, dir, items, outs, e.at);
  }

  // ---------------------------------------------------------------------------
  // Properties of a whole cycle
  // ---------------------------------------------------------------------------

  /** A failed fetch or decode ends the cycle: no file, no insert, no delete. */
  lemma FetchFailureChangesNothing(w: World, dir: string, outs: seq<StepOutcome>)
    requires Consistent(w.table)
    ensures CycleState(w, dir, FetchFailed, outs) == w
    ensures CycleTrace(w, dir, FetchFailed, outs) == [ConnectionError]
  {
  }

  /** An empty fetch result leaves the queue, the table and the files as they were. */
  lemma EmptyFetchChangesNothing(w: World, dir: string)
    requires Consistent(w.table) && w.remote == []
    ensures CycleState(w, dir, FetchOk, []) == w
    ensures CycleTrace(w, dir, FetchOk, []) == [NoNewData]
  {
  }

  /**
   * Isolation and order: after the fetch, every fetched record gets its own events, in fetch order,
   * and the events about record `k` depend only on record `k` and its own outcomes, so a failure
   * in one record neither stops nor alters the processing of any later one.
   */
  lemma EveryRecordProcessedInOrder(w: World, dir: string, outs: seq<StepOutcome>)
    requires Consistent(w.table) && |outs| == |w.remote| && w.remote != []
    ensures var trace := CycleTrace(w, dir, FetchOk, outs);
      trace[0] == Found(|w.remote|) && InFetchOrder(trace) &&
      forall k :: 0 <= k < |w.remote| ==> EventsAbout(trace, k) == RecordTrace(dir, k, w.remote[k], outs[k])
  {
    var body := Traces(dir, w.remote, outs);
    var trace := [Found(|w.remote|)] + body;
    TracesInFetchOrder(dir, w.remote, outs);
    forall p, q | 0 <= p < q < |trace| && trace[p].PerRecord() && trace[q].PerRecord()
      ensures trace[p].at <= trace[q].at
    {
      assert trace[p] == body[p - 1] && trace[q] == body[q - 1];
    }
    forall k | 0 <= k < |w.remote| ensures EventsAbout(trace, k) == RecordTrace(dir, k, w.remote[k], outs[k]) {
      EventsAboutConcat([Found(|w.remote|)], body, k);
      assert EventsAbout([Found(|w.remote|)], k) == [];
      RecordEventsIndependent(dir, w.remote, outs, k);
    }
  }

  /**
   * A record without an event id or a timestamp is only logged as skipped: no CSV, no insert,
   * no delete for it; and one without an event id stays in the remote queue.
   */
  lemma MalformedRecordUntouched(w: World, dir: string, outs: seq<StepOutcome>, k: nat)
    requires Consistent(w.table) && |outs| == |w.remote| && k < |w.remote|
    requires !WellFormed(w.remote[k])
    ensures EventsAbout(CycleTrace(w, dir, FetchOk, outs), k) == [Skipped(k)]
    ensures w.remote[k].id.None? ==> w.remote[k] in CycleState(w, dir, FetchOk, outs).remote
  {
    EveryRecordProcessedInOrder(w, dir, outs);
    DrainRemovesOnlySynced(w, dir, w.remote, outs);
  }

  /**
   * Every remote delete request, whether it then succeeds or fails, is sent right after the same
   * record's successful insert, which itself follows its successful CSV write; and every event id
   * deleted successfully has a row in the table afterwards.
   */
  lemma DeleteOnlyAfterInsert(w: World, dir: string, outs: seq<StepOutcome>)
    requires Consistent(w.table) && |outs| == |w.remote|
    ensures var trace := CycleTrace(w, dir, FetchOk, outs);
      DeleteFollowsInsert(trace) &&
      forall p :: 0 <= p < |trace| && trace[p].Deleted? ==>
        trace[p].key in KeysOf(CycleState(w, dir, FetchOk, outs).table.rows)
  {
    if w.remote != [] {
      var body := Traces(dir, w.remote, outs);
      var trace := [Found(|w.remote|)] + body;
      TracesDeleteFollowsInsert(dir, w.remote, outs);
      forall p | 0 <= p < |trace| && trace[p].IsDeleteRequest() ensures RequestFollowsInsert(trace, p) {
        assert trace[p] == body[p - 1];
        assert RequestFollowsInsert(body, p - 1);
        assert trace[p - 1] == body[p - 2] && trace[p - 2] == body[p - 3];
      }
      forall p | 0 <= p < |trace| && trace[p].Deleted?
        ensures trace[p].key in KeysOf(CycleState(w, dir, FetchOk, outs).table.rows)
      {
        var e := trace[p];
        assert e == body[p - 1];
        DeletedKeyStored(w, dir, w.remote, outs, e);
      }
    }
  }

  /**
   * Nothing is lost: after a cycle, every record that was queued is either still queued with all
   * its copies or has a row with its event id in the local table.
   */
  lemma NoRecordLost(w: World, dir: string, fetch: FetchOutcome, outs: seq<StepOutcome>)
    requires Consistent(w.table) && (fetch.FetchOk? ==> |outs| == |w.remote|)
    ensures var r := CycleState(w, dir, fetch, outs);
      forall x :: x in w.remote ==>
        multiset(r.remote)[x] == multiset(w.remote)[x] || (x.id.Some? && x.id.value in KeysOf(r.table.rows))
  {
    if fetch.FetchOk? && w.remote != [] {
      var r := Drain(w, dir, w.remote, outs);
      forall x | x in w.remote && multiset(r.remote)[x] != multiset(w.remote)[x]
        ensures x.id.Some? && x.id.value in KeysOf(r.table.rows)
      {
        DrainQueueCopies(w, dir, w.remote, outs, x);
        var k :| 0 <= k < |w.remote| && Synced(w.remote[k], outs[k]) && w.remote[k].id == x.id;
        DrainStoresWritten(w, dir, w.remote, outs, k);
      }
    }
  }

  /**
   * At-least-once delivery: a fetched record that did not go through every step stays in the
   * remote queue for the next cycle, with all its copies, unless another fetched record with the
   * same event id did.
   */
  lemma UnsyncedRecordStaysQueued(w: World, dir: string, outs: seq<StepOutcome>, k: nat)
    requires Consistent(w.table) && |outs| == |w.remote| && k < |w.remote|
    requires forall j :: 0 <= j < |w.remote| && Synced(w.remote[j], outs[j]) ==> w.remote[j].id != w.remote[k].id
    ensures var r := CycleState(w, dir, FetchOk, outs);
      w.remote[k] in r.remote && multiset(r.remote)[w.remote[k]] == multiset(w.remote)[w.remote[k]]
  {
    DrainQueueCopies(w, dir, w.remote, outs, w.remote[k]);
  }

  /**
   * The cycle writes exactly one artifact path per valid record whose CSV write succeeds, and no
   * other; and every row still points at an artifact that was written.
   */
  lemma CycleArtifacts(w: World, dir: string, outs: seq<StepOutcome>)
    requires Consistent(w.table) && |outs| == |w.remote|
    ensures var r := CycleState(w, dir, FetchOk, outs);
      r.files.Keys == w.files.Keys + WrittenPaths(dir, w.remote, outs) &&
      (ArtifactsPresent(w) ==> ArtifactsPresent(r))
  {
    if w.remote != [] {
      DrainFiles(w, dir, w.remote, outs);
      if ArtifactsPresent(w) {
        DrainKeepsArtifacts(w, dir, w.remote, outs);
      }
    }
  }

  /**
   * The row stored for a valid record: its remote id, timestamp and artifact path, the defaults
   * "Unknown", "No Header" and "" for a null source, header and payload, and a new highest local id;
   * it is the only row with that remote id.
   */
  lemma StoredRowMatchesRecord(w: World, dir: string, d: RemoteData, o: StepOutcome)
    requires Consistent(w.table) && WellFormed(d) && o.csvOk && o.insertOk
    ensures var r := ProcessRecord(w, dir, d, o);
      var path := ArtifactPath(dir, d, o.time);
      exists row :: RowsWithKey(r.table.rows, d.id.value) == [row] &&
        row.id > w.table.lastId &&
        row.supabaseId == d.id.value && row.timestamp == d.createdAt.value && row.filePath == path &&
        row.sourceApp == (if d.sourceApp.None? then "Unknown" else d.sourceApp.value) &&
        row.header == (if d.header.None? then "No Header" else d.header.value) &&
        row.payload == (if d.payload.None? then "" else d.payload.value) &&
        r.files[path] == Content(d)
  {
    var r := ProcessRecord(w, dir, d, o);
    var path := ArtifactPath(dir, d, o.time);
    var row := Stored(w.table, ToEntity(d, path));
    RowsWithKeyUnique(r.table.rows, row);
  }

  /**
   * The artifact and the row agree on present fields but not on missing ones: the artifact prints
   * a null header or payload as "null" where the row holds "No Header" or "".
   */
  lemma ArtifactVersusRow(d: RemoteData, path: string)
    requires WellFormed(d)
    requires '"' !in Show(d.header) && '"' !in Show(d.payload) && '"' !in Show(d.createdAt)
    ensures var row := ToEntity(d, path);
      ParseContent(Content(d)) == Some((
        if d.header.Some? then row.header else "null",
        if d.payload.Some? then row.payload else "null",
        row.timestamp))
  {
    ContentRoundTrip(d);
  }

  /** The first record of the scenario below goes through every step. */
  lemma ScenarioFirstRecord(w: World, a1: RemoteData, ok: StepOutcome)
    requires a1 == RemoteData(Some("a1"), None, None, Some("x"), Some("2024-01-01T00:00:00Z"))
    requires ok == StepOutcome("120000", true, true, true)
    requires w.table == Table([], 0) && w.files == map[] && |w.remote| == 2 && w.remote[0] == a1
    requires w.remote[1].id != Some("a1")
    ensures var r := ProcessRecord(w, "/vault", a1, ok);
      var path := "/vault/null_a1_120000.csv";
      r.table.rows == [MessageEntity(1, "a1", "Unknown", "No Header", "x", "2024-01-01T00:00:00Z", path)] &&
      r.remote == [w.remote[1]] && r.files == map[path := Content(a1)]
  {
    ScenarioPath(a1);
    var path := ArtifactPath("/vault", a1, "120000");
    InsertIntoEmptyTable(ToEntity(a1, path));
    assert w.remote[1..] == [w.remote[1]] && [w.remote[1]][1..] == [];
    assert WithoutId(w.remote, "a1") == [w.remote[1]];
  }

  lemma ScenarioPath(a1: RemoteData)
    requires a1.sourceApp == None && a1.id == Some("a1")
    ensures ArtifactPath("/vault", a1, "120000") == "/vault/null_a1_120000.csv"
  {
    assert FileName(a1, "120000") == "null_a1_120000.csv";
  }

  /** The first insert into an empty table with a fresh counter stores the row under id 1. */
  lemma InsertIntoEmptyTable(e: MessageEntity)
    requires e.id == 0
    ensures InsertReplace(Table([], 0), e) == Table([e.(id := 1)], 1)
  {
    assert Place(Purge([], 1, e.supabaseId), e.(id := 1)) == [e.(id := 1)];
  }

  /**
   * The queue holds a valid record "a1" and one without a timestamp, "a2"; every step succeeds.
   * After one cycle the table holds one row, for "a1"; the queue holds only "a2"; one artifact exists.
   */
  lemma EndToEndScenario(a1: RemoteData, a2: RemoteData, ok: StepOutcome)
    requires a1 == RemoteData(Some("a1"), None, None, Some("x"), Some("2024-01-01T00:00:00Z"))
    requires a2 == RemoteData(Some("a2"), None, None, Some("y"), None)
    requires ok == StepOutcome("120000", true, true, true)
    ensures
      var r := CycleState(World([a1, a2], Table([], 0), map[]), "/vault", FetchOk, [ok, ok]);
      var path := "/vault/null_a1_120000.csv";
      r.table.rows == [MessageEntity(1, "a1", "Unknown", "No Header", "x", "2024-01-01T00:00:00Z", path)] &&
      r.remote == [a2] &&
      r.files == map[path := Content(a1)]
  {
    var w := World([a1, a2], Table([], 0), map[]);
    ScenarioFirstRecord(w, a1, ok);
    DrainTwo(w, "/vault", a1, a2, ok, ok);
    var w1 := ProcessRecord(w, "/vault", a1, ok);
    assert ProcessRecord(w1, "/vault", a2, ok) == w1;
  }

  /** Processing two records is processing the first, then the second. */
  lemma DrainTwo(w: World, dir: string, a: RemoteData, b: RemoteData, oa: StepOutcome, ob: StepOutcome)
    requires Consistent(w.table)
    ensures Drain(w, dir, [a, b], [oa, ob]) == ProcessRecord(ProcessRecord(w, dir, a, oa), dir, b, ob)
  {
    assert [a, b][..1] == [a] && [oa, ob][..1] == [oa];
    assert [a][..0] == [] && [oa][..0] == [];
    assert Drain(w, dir, [a], [oa]) == ProcessRecord(w, dir, a, oa);
  }

  /** Processing one more record extends the state and the trace by that record's step. */
  lemma PrefixStep(w: World, dir: string, items: seq<RemoteData>, outs: seq<StepOutcome>, i: nat)
    requires |outs| == |items| && i < |items| && Consistent(w.table)
    ensures Drain(w, dir, items[..i + 1], outs[..i + 1]) ==
      ProcessRecord(Drain(w, dir, items[..i], outs[..i]), dir, items[i], outs[i])
    ensures Traces(dir, items[..i + 1], outs[..i + 1]) ==
      Traces(dir, items[..i], outs[..i]) + RecordTrace(dir, i, items[i], outs[i])
  {
    assert items[..i + 1][..i] == items[..i] && outs[..i + 1][..i] == outs[..i];
  }

  // ---------------------------------------------------------------------------
  // The sync manager
  // ---------------------------------------------------------------------------

  /** The state one `SyncManager` works on: the remote queue, the local table and the vault directory's files. */
  class SyncManager {
    const dao: MessageDao
    const vaultDir: string
    var remote: seq<RemoteData>
    var files: map<string, string>

    ghost predicate Valid()
      reads this, dao
    {
      dao.Valid()
    }

    function State(): World
      reads this, dao
    {
      World(remote, dao.Snapshot(), files)
    }

    constructor (dao: MessageDao, vaultDir: string, remote: seq<RemoteData>, files: map<string, string>)
      requires dao.Valid()
      ensures Valid()
      ensures this.dao == dao && this.vaultDir == vaultDir && this.remote == remote && this.files == files
    {
      this.dao := dao;
      this.vaultDir := vaultDir;
      this.remote := remote;
      this.files := files;
    }

    /** The body of the per-record `try` block: validate, write the CSV, insert, delete, stopping at the first failure. */
    method SyncRecord(at: nat, item: RemoteData, o: StepOutcome) returns (events: seq<Event>)
      requires Valid()
      modifies this, dao
      ensures Valid()
      ensures State() == ProcessRecord(old(State()), vaultDir, item, o)
      ensures events == RecordTrace(vaultDir, at, item, o)
    {
      if item.id.None? || item.createdAt.None? {
        events := [Skipped(at)];
        return;
      }
      if !o.csvOk {
        events := [CsvFailed(at)];
        return;
      }
      var path := ArtifactPath(vaultDir, item, o.time);
      files := files[path := Content(item)];
      if !o.insertOk {
        events := [CsvWritten(at, path), InsertFailed(at)];
        return;
      }
      dao.Insert(ToEntity(item, path));
      if !o.deleteOk {
        events := [CsvWritten(at, path), Inserted(at, item.id.value), DeleteFailed(at)];
        return;
      }
      remote := WithoutId(remote, item.id.value);
      events := [CsvWritten(at, path), Inserted(at, item.id.value), Deleted(at, item.id.value)];
    }

    /** The `forEach` over the fetched list: every record in order, each in its own `try`. */
    method ProcessList(list: seq<RemoteData>, outs: seq<StepOutcome>) returns (trace: seq<Event>)
      requires Valid() && |outs| == |list|
      modifies this, dao
      ensures Valid()
      ensures State() == Drain(old(State()), vaultDir, list, outs)
      ensures trace == Traces(vaultDir, list, outs)
    {
      ghost var w0 := State();
      trace := [];
      var i := 0;
      while i < |list|
        invariant 0 <= i <= |list|
        invariant Valid()
        invariant State() == Drain(w0, vaultDir, list[..i], outs[..i])
        invariant trace == Traces(vaultDir, list[..i], outs[..i])
      {
        PrefixStep(w0, vaultDir, list, outs, i);
        var events := SyncRecord(i, list[i], outs[i]);
        trace := trace + events;
        i := i + 1;
      }
      assert list[..i] == list && outs[..i] == outs;
    }

    /** `executeVacuum`: one cycle, effect by effect, with the outcome of each effect given. */
    method ExecuteVacuum(fetch: FetchOutcome, outs: seq<StepOutcome>) returns (trace: seq<Event>)
      requires Valid()
      requires fetch.FetchOk? ==> |outs| == |remote|
      modifies this, dao
      ensures Valid()
      ensures State() == CycleState(old(State()), vaultDir, fetch, outs)
      ensures trace == CycleTrace(old(State()), vaultDir, fetch, outs)
    {
      if fetch.FetchFailed? {
        trace := [ConnectionError];
        return;
      }
      var list := remote;
      if list == [] {
        trace := [NoNewData];
        return;
      }
      var events := ProcessList(list, outs);
      trace := [Found(|list|)] + events;
    }
  }
}
