/** The incremental sync shared by `Aranet4Archiver.fetch` and fetch.py:
    the device call retried up to `num_retries` times with the filter
    rebuilt before each attempt, the co2 sentinel filter, and the merge of
    the surviving samples into the table. */
module Sync {
  import opened Basics
  import opened Store

  /** One history record reported by the device. */
  datatype Entry = Entry(timestamp: int, reading: Reading)

  /** `entry_filter`: `start` is the checkpoint (absent when the device has
      no row yet), `end` the clock read just before the attempt. */
  datatype Filter = Filter(start: Option<int>, end: int)

  /** What one call of the device client gives back: it raised, or it
      returned a history (possibly empty). */
  datatype Outcome = Fail | Ok(history: seq<Entry>)

  /** The device client `aranet4.client.get_all_records`, bound to the
      device's address: its answer to the n-th attempt with a filter. */
  type Device = (nat, Filter) -> Outcome

  /** `datetime.now`, read just before the n-th attempt (epoch seconds). */
  type Clock = nat -> int

  /** Python's `range(n)` has no element when `n <= 0`. */
  function Attempts(numRetries: int): nat
  {
    if numRetries > 0 then numRetries else 0
  }

  /** The sentinel test: a negative co2 value means "no reading". */
  predicate HasReading(e: Entry)
  {
    e.reading.co2 >= 0
  }

  /** Each entry as a row of `device`. */
  function Tagged(device: string, entries: seq<Entry>): (rows: seq<Row>)
    ensures |rows| == |entries|
    ensures forall i :: 0 <= i < |entries| ==> rows[i] == Row(device, entries[i].timestamp, entries[i].reading)
  {
    if entries == [] then []
    else
      var init, last := entries[..|entries| - 1], entries[|entries| - 1];
      Tagged(device, init) + [Row(device, last.timestamp, last.reading)]
  }

  lemma TaggedSnoc(device: string, entries: seq<Entry>, e: Entry)
    ensures Tagged(device, entries + [e]) == Tagged(device, entries) + [Row(device, e.timestamp, e.reading)]
  {
    assert (entries + [e])[..|entries|] == entries;
  }

  /** The rows a successful fetch hands to the merge: the entries that
      carry a reading, in fetch order, tagged with the device name. */
  function Batch(device: string, history: seq<Entry>): seq<Row>
  {
    Tagged(device, Select(history, HasReading))
  }

  /** The sentinel filter drops exactly the entries with `co2 < 0`, keeps
      the others, and tags every row with the device. */
  lemma BatchIsFilteredHistory(device: string, history: seq<Entry>)
    ensures forall r :: r in Batch(device, history) ==> r.device == device && r.reading.co2 >= 0
    ensures forall e :: e in history ==>
              (Row(device, e.timestamp, e.reading) in Batch(device, history) <==> e.reading.co2 >= 0)
  {
    var kept := Select(history, HasReading);
    var batch := Batch(device, history);
    forall r | r in batch ensures r.device == device && r.reading.co2 >= 0 {
      var i :| 0 <= i < |batch| && batch[i] == r;
      assert kept[i] in kept;
    }
    forall e | e in history
      ensures Row(device, e.timestamp, e.reading) in batch <==> e.reading.co2 >= 0
    {
      var r := Row(device, e.timestamp, e.reading);
      if e.reading.co2 >= 0 {
        assert HasReading(e);
        assert e in kept;
        var i :| 0 <= i < |kept| && kept[i] == e;
        assert batch[i] == r;
      }
      if r in batch {
        var i :| 0 <= i < |batch| && batch[i] == r;
        assert kept[i] == e;
        assert kept[i] in kept;
      }
    }
  }

  /** The kept rows stay in fetch order. */
  lemma BatchKeepsOrder(device: string, history: seq<Entry>)
    ensures Subsequence(Batch(device, history), Tagged(device, history))
  {
    SelectIsSubsequence(history, HasReading);
    var idx := SelectedIndices(history, HasReading);
    assert SubsequenceAt(Batch(device, history), Tagged(device, history), idx);
  }

  /** `for entry in history.value: if entry.co2 < 0: continue; data.append(...)`. */
  method BuildBatch(device: string, history: seq<Entry>) returns (data: seq<Row>)
    ensures data == Batch(device, history)
  {
    data := [];
    var i := 0;
    while i < |history|
      invariant 0 <= i <= |history|
      invariant data == Tagged(device, Select(history[..i], HasReading))
    {
      var entry := history[i];
      assert history[..i + 1] == history[..i] + [entry];
      SelectSnoc(history[..i], entry, HasReading);
      if entry.reading.co2 < 0 {
        i := i + 1;
        continue;
      }
      TaggedSnoc(device, Select(history[..i], HasReading), entry);
      data := data + [Row(device, entry.timestamp, entry.reading)];
      i := i + 1;
    }
    assert history[..|history|] == history;
  }

  /** The retry loop: `for attempt in range(num_retries)`, the filter's
      `end` re-read from the clock before each call, leaving the loop at the
      first call that does not raise. `calls` records the filter of every
      call made, in order. */
  method FetchWithRetries(start: Option<int>, numRetries: int, clock: Clock, device: Device)
    returns (calls: seq<Filter>, history: Option<seq<Entry>>)
    ensures Retried(calls, history, start, numRetries, clock, device)
  {
    calls := [];
    history := None;
    var attempt := 0;
    while attempt < numRetries
      invariant 0 <= attempt <= Attempts(numRetries)
      invariant |calls| == attempt
      invariant forall i :: 0 <= i < attempt ==> calls[i] == Filter(start, clock(i)) && device(i, calls[i]).Fail?
      invariant history == None
    {
      var filter := Filter(start, clock(attempt));
      calls := calls + [filter];
      var outcome := device(attempt, filter);
      if outcome.Ok? {
        history := Some(outcome.history);
        break;
      }
      attempt := attempt + 1;
    }
  }

  /** `calls` and `history` are what the retry loop produces: one call
      per attempt with the filter `(start, clock(attempt))`, every call but
      the last one raised, and `history` is the answer of the last call
      when it did not raise, in which case the loop left early. */
  ghost predicate Retried(calls: seq<Filter>, history: Option<seq<Entry>>, start: Option<int>,
                          numRetries: int, clock: Clock, device: Device)
  {
    && |calls| <= Attempts(numRetries)
    && (forall i :: 0 <= i < |calls| ==> calls[i] == Filter(start, clock(i)))
    && (forall i :: 0 <= i < |calls| - 1 ==> device(i, calls[i]).Fail?)
    && (history.Some? <==> |calls| > 0 && device(|calls| - 1, calls[|calls| - 1]).Ok?)
    && (history.Some? ==> history.value == device(|calls| - 1, calls[|calls| - 1]).history)
    && (history.None? ==> |calls| == Attempts(numRetries))
  }

  /** How a sync ends. `Crashed` is an exception after the fetch and
      before the insert. */
  datatype SyncResult =
    | NameNotSet
    | MacNotSet
    | AllAttemptsFailed(calls: seq<Filter>)
    | Synced(calls: seq<Filter>, history: seq<Entry>, batch: seq<Row>)
    | Crashed(calls: seq<Filter>, history: seq<Entry>)

  /** The table after a successful fetch of `history` for `device`. */
  function Merge(t: Table, device: string, history: seq<Entry>): Table
  {
    InsertAll(t, Batch(device, history))
  }

  /** Readings of new keys come from the batch. */
  lemma {:induction false} InsertAllNewValues(t: Table, batch: seq<Row>, k: Key)
    requires k in InsertAll(t, batch) && k !in t
    ensures exists i :: 0 <= i < |batch| && batch[i].PrimaryKey() == k && batch[i].reading == InsertAll(t, batch)[k]
  {
    var init, last := batch[..|batch| - 1], batch[|batch| - 1];
    assert batch == init + [last];
    if k in InsertAll(t, init) {
      InsertAllNewValues(t, init, k);
      var i :| 0 <= i < |init| && init[i].PrimaryKey() == k && init[i].reading == InsertAll(t, init)[k];
      assert batch[i] == init[i];
    } else {
      assert batch[|batch| - 1].PrimaryKey() == k;
    }
  }

  /** No stored reading is the sentinel. */
  ghost predicate Clean(t: Table)
  {
    forall k :: k in t ==> t[k].co2 >= 0
  }

  /** A sync never stores a sentinel reading: merging keeps a clean table clean. */
  lemma MergeKeepsClean(t: Table, device: string, history: seq<Entry>)
    requires Clean(t)
    ensures Clean(Merge(t, device, history))
  {
    var batch := Batch(device, history);
    BatchIsFilteredHistory(device, history);
    forall k | k in Merge(t, device, history) ensures Merge(t, device, history)[k].co2 >= 0 {
      if k !in t {
        InsertAllNewValues(t, batch, k);
        var i :| 0 <= i < |batch| && batch[i].PrimaryKey() == k && batch[i].reading == Merge(t, device, history)[k];
        assert batch[i] in batch;
      }
    }
  }

  /** After a merge every fetched sample that carries a reading is stored
      under (device, timestamp), and every earlier row is unchanged. */
  lemma MergeStoresEveryReading(t: Table, device: string, history: seq<Entry>)
    ensures forall e :: e in history && e.reading.co2 >= 0 ==> Key(device, e.timestamp) in Merge(t, device, history)
    ensures forall k :: k in t ==> k in Merge(t, device, history) && Merge(t, device, history)[k] == t[k]
  {
    var batch := Batch(device, history);
    BatchIsFilteredHistory(device, history);
    forall e | e in history && e.reading.co2 >= 0 ensures Key(device, e.timestamp) in Merge(t, device, history) {
      var r := Row(device, e.timestamp, e.reading);
      assert r in batch;
      var i :| 0 <= i < |batch| && batch[i] == r;
      assert r.PrimaryKey() in RowKeys(batch);
    }
  }

  /** Re-running a sync that fetches the same history changes nothing more. */
  lemma MergeIdempotent(t: Table, device: string, history: seq<Entry>)
    ensures Merge(Merge(t, device, history), device, history) == Merge(t, device, history)
  {
    InsertAllIdempotent(t, Batch(device, history));
  }

  lemma SelectSkipsFirst(e1: Entry, e2: Entry, e3: Entry)
    requires !HasReading(e1) && HasReading(e2) && HasReading(e3)
    ensures Select([e1, e2, e3], HasReading) == [e2, e3]
  {
    var s1, s2 := [e1], [e1, e2];
    assert s1 == [] + [e1];
    SelectSnoc([], e1, HasReading);
    var k1 := Select(s1, HasReading);
    assert k1 == [];
    assert s2 == s1 + [e2];
    SelectSnoc(s1, e2, HasReading);
    var k2 := Select(s2, HasReading);
    assert k2 == [e2];
    assert [e1, e2, e3] == s2 + [e3];
    SelectSnoc(s2, e3, HasReading);
  }

  /** Sample run, first half: of three samples the first carries the
      sentinel, so the batch holds the other two, tagged "office". */
  lemma OfficeBatch(r: Reading)
    ensures Batch("office", [Entry(100, r.(co2 := -1)), Entry(200, r.(co2 := 400)), Entry(300, r.(co2 := 410))])
         == [Row("office", 200, r.(co2 := 400)), Row("office", 300, r.(co2 := 410))]
  {
    var e1, e2, e3 := Entry(100, r.(co2 := -1)), Entry(200, r.(co2 := 400)), Entry(300, r.(co2 := 410));
    SelectSkipsFirst(e1, e2, e3);
    var b := Tagged("office", [e2, e3]);
    assert b[0] == Row("office", 200, r.(co2 := 400));
    assert b[1] == Row("office", 300, r.(co2 := 410));
  }

  /** Sample run, second half: merged into an empty store, the batch gives
      two rows and the next run's checkpoint is 300. */
  lemma OfficeScenario(r: Reading)
    ensures var t := Merge(map[], "office", [Entry(100, r.(co2 := -1)), Entry(200, r.(co2 := 400)), Entry(300, r.(co2 := 410))]);
      && t.Keys == {Key("office", 200), Key("office", 300)}
      && Checkpoint(t, Some("office")) == Some(300)
  {
    var history := [Entry(100, r.(co2 := -1)), Entry(200, r.(co2 := 400)), Entry(300, r.(co2 := 410))];
    OfficeBatch(r);
    var batch := Batch("office", history);
    var keys := {Key("office", 200), Key("office", 300)};
    assert RowKeys(batch) == keys by {
      assert batch[0].PrimaryKey() == Key("office", 200);
      assert batch[1].PrimaryKey() == Key("office", 300);
    }
    var t := Merge(map[], "office", history);
    assert t.Keys == keys;
    CheckpointIsLatest(t, "office", 300);
  }
}
