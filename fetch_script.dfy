/** fetch.py: the stand-alone sync. It runs the same retry loop, sentinel
    filter and `INSERT OR IGNORE` merge as the archiver class, but checks
    neither setting, always opens (and if needed creates) the database and
    table, and writes its summary log line, which reads the filter's
    `start`, before the insert. */
module FetchScript {
  import opened Basics
  import opened Store
  import opened Sync

  /** The table after a run that fetched `history`. The log line before
      the insert reads the filter's `start`, which exists only when the
      device already has a row; without it the run stops with a `KeyError`
      and nothing is inserted. */
  function StoredAfter(t: Table, deviceName: Option<string>, history: Option<seq<Entry>>): (r: Table)
    ensures forall k :: k in t ==> k in r && r[k] == t[k]
    ensures Checkpoint(t, deviceName).None? ==> r == t
    ensures history.None? ==> r == t
    ensures history.Some? && Checkpoint(t, deviceName).Some? ==> r == Merge(t, deviceName.value, history.value)
  {
    if history.Some? && Checkpoint(t, deviceName).Some? then Merge(t, deviceName.value, history.value) else t
  }

  /** `main(num_retries)`: connect, create the table if absent, read the
      checkpoint, fetch with retries, then filter and insert. */
  method Run(deviceName: Option<string>, numRetries: int, clock: Clock, device: Device, db: Database)
    returns (result: SyncResult)
    requires db.Valid()
    modifies db
    ensures db.Valid() && db.fileExists && db.hasTable
    ensures result.AllAttemptsFailed? || result.Synced? || result.Crashed?
    ensures result.AllAttemptsFailed? ==>
      && Retried(result.calls, None, Checkpoint(old(db.rows), deviceName), numRetries, clock, device)
      && db.rows == old(db.rows)
    ensures result.Synced? || result.Crashed? ==>
      && Retried(result.calls, Some(result.history), Checkpoint(old(db.rows), deviceName), numRetries, clock, device)
      && db.rows == StoredAfter(old(db.rows), deviceName, Some(result.history))
    ensures result.Crashed? <==> !result.AllAttemptsFailed? && Checkpoint(old(db.rows), deviceName).None?
    ensures result.Synced? ==> deviceName.Some? && result.batch == Batch(deviceName.value, result.history)
  {
    db.Connect();
    db.CreateTableIfNotExists();
    var start := Checkpoint(db.rows, deviceName);
    var calls, history := FetchWithRetries(start, numRetries, clock, device);
    if history.None? {
      return AllAttemptsFailed(calls);
    }
    if start.None? {
      return Crashed(calls, history.value);
    }
    var data := BuildBatch(deviceName.value, history.value);
    db.InsertOrIgnoreMany(data);
    result := Synced(calls, history.value, data);
  }

  /** The first run for a device stores nothing: with the sample history
      of `Sync.OfficeScenario`, an empty store stays empty here, while the
      merge the archiver performs stores two rows. */
  lemma FirstRunDropsOfficeSamples(r: Reading)
    ensures var history := [Entry(100, r.(co2 := -1)), Entry(200, r.(co2 := 400)), Entry(300, r.(co2 := 410))];
      && StoredAfter(map[], Some("office"), Some(history)) == map[]
      && |Merge(map[], "office", history).Keys| == 2
  {
    var history := [Entry(100, r.(co2 := -1)), Entry(200, r.(co2 := 400)), Entry(300, r.(co2 := 410))];
    OfficeScenario(r);
    assert Key("office", 200) != Key("office", 300);
  }
}
