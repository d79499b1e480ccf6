/** The `measurements` table: rows keyed by (device, timestamp), the
    `INSERT OR IGNORE` merge, the per-device checkpoint query and the
    ordered scans the reading scripts issue. */
module Store {
  import opened Basics

  /** The sensor columns of one sample. The model carries them and looks
      only at `co2`, whose negative values are the device's "no reading". */
  datatype Reading = Reading(temperature: real, humidity: int, pressure: real, co2: int)

  /** The table's primary key, `PRIMARY KEY(device, timestamp)`. */
  datatype Key = Key(device: string, timestamp: int)

  /** One row of `measurements`, timestamp in epoch seconds (UTC). */
  datatype Row = Row(device: string, timestamp: int, reading: Reading)
  {
    function PrimaryKey(): Key { Key(device, timestamp) }
  }

  /** The table's content: at most one reading per key. */
  type Table = map<Key, Reading>

  /** The keys carried by a sequence of rows. */
  function RowKeys(rows: seq<Row>): set<Key>
  {
    set i | 0 <= i < |rows| :: rows[i].PrimaryKey()
  }

  lemma RowKeysSnoc(rows: seq<Row>, row: Row)
    ensures RowKeys(rows + [row]) == RowKeys(rows) + {row.PrimaryKey()}
  {
    var ext := rows + [row];
    assert ext[|rows|] == row;
    forall k | k in RowKeys(rows) ensures k in RowKeys(ext) {
      var i :| 0 <= i < |rows| && rows[i].PrimaryKey() == k;
      assert ext[i] == rows[i];
    }
  }

  // ---------------------------------------------------------------------
  // INSERT OR IGNORE
  // ---------------------------------------------------------------------

  /** One `INSERT OR IGNORE`: a row whose key is present changes nothing. */
  function InsertOrIgnore(t: Table, row: Row): Table
  {
    if row.PrimaryKey() in t then t else t[row.PrimaryKey() := row.reading]
  }

  /** `executemany('INSERT OR IGNORE ...', batch)`: the rows applied one
      after the other, in batch order. Existing rows never change, and
      the new key set is the old one plus the batch's keys. */
  function InsertAll(t: Table, batch: seq<Row>): (r: Table)
    ensures r.Keys == t.Keys + RowKeys(batch)
    ensures forall k :: k in t ==> r[k] == t[k]
    decreases |batch|
  {
    if batch == [] then t
    else
      var init, last := batch[..|batch| - 1], batch[|batch| - 1];
      assert batch == init + [last];
      RowKeysSnoc(init, last);
      InsertOrIgnore(InsertAll(t, init), last)
  }

  /** Inside one batch the first row with a given new key is the one kept. */
  lemma {:induction false} InsertAllFirstWins(t: Table, batch: seq<Row>, i: int)
    requires 0 <= i < |batch|
    requires batch[i].PrimaryKey() !in t
    requires forall j :: 0 <= j < i ==> batch[j].PrimaryKey() != batch[i].PrimaryKey()
    ensures InsertAll(t, batch)[batch[i].PrimaryKey()] == batch[i].reading
  {
    var init, last := batch[..|batch| - 1], batch[|batch| - 1];
    assert batch == init + [last];
    var k := batch[i].PrimaryKey();
    if i == |batch| - 1 {
      forall j | 0 <= j < |init| ensures init[j].PrimaryKey() != k {
        assert init[j] == batch[j];
      }
      assert k !in RowKeys(init);
    } else {
      assert init[i] == batch[i];
      InsertAllFirstWins(t, init, i);
    }
  }

  /** A batch whose keys are all stored already is a no-op. */
  lemma {:induction false} InsertAllOfPresentKeys(t: Table, batch: seq<Row>)
    requires RowKeys(batch) <= t.Keys
    ensures InsertAll(t, batch) == t
  {
    if batch != [] {
      var init, last := batch[..|batch| - 1], batch[|batch| - 1];
      assert batch == init + [last];
      RowKeysSnoc(init, last);
      InsertAllOfPresentKeys(t, init);
    }
  }

  /** Merging the same batch twice leaves the table as merging it once. */
  lemma InsertAllIdempotent(t: Table, batch: seq<Row>)
    ensures InsertAll(InsertAll(t, batch), batch) == InsertAll(t, batch)
  {
    InsertAllOfPresentKeys(InsertAll(t, batch), batch);
  }

  // ---------------------------------------------------------------------
  // Checkpoint: SELECT timestamp ... WHERE device = ? ORDER BY timestamp DESC LIMIT 1
  // ---------------------------------------------------------------------

  /** The keys stored for one device. */
  function DeviceKeys(t: Table, device: string): set<Key>
  {
    set k | k in t && k.device == device
  }

  /** `a` comes no later than `b` in the requested order. */
  predicate InOrder(a: int, b: int, ascending: bool)
  {
    if ascending then a <= b else b <= a
  }

  /** `k` comes first among `keys` in the requested order. */
  predicate IsFirst(k: Key, keys: set<Key>, ascending: bool)
  {
    k in keys && forall k' :: k' in keys ==> InOrder(k.timestamp, k'.timestamp, ascending)
  }

  /** A non-empty set of keys has a first key in either order. */
  lemma {:induction false} FirstKeyExists(keys: set<Key>, ascending: bool)
    requires keys != {}
    ensures exists k :: IsFirst(k, keys, ascending)
  {
    var y :| y in keys;
    var rest := keys - {y};
    if rest == {} {
      assert keys == {y};
      assert IsFirst(y, keys, ascending);
    } else {
      FirstKeyExists(rest, ascending);
      var m :| IsFirst(m, rest, ascending);
      var first := if InOrder(y.timestamp, m.timestamp, ascending) then y else m;
      assert keys == rest + {y};
      assert IsFirst(first, keys, ascending);
    }
  }

  /** The checkpoint of a sync: the newest timestamp stored for `device`,
      absent when the device has no row. A NULL device (`None`) matches
      no row, as `device = NULL` is never true in SQL. */
  function Checkpoint(t: Table, device: Option<string>): (r: Option<int>)
    ensures r.None? <==> device.None? || DeviceKeys(t, device.value) == {}
    ensures r.Some? ==> Key(device.value, r.value) in t
    ensures r.Some? ==> forall k :: k in t && k.device == device.value ==> k.timestamp <= r.value
  {
    if device.None? then None
    else
      var keys := DeviceKeys(t, device.value);
      if keys == {} then None
      else
        FirstKeyExists(keys, false);
        var k :| IsFirst(k, keys, false);
        Some(k.timestamp)
  }

  /** The checkpoint is exactly the latest stored timestamp of the device. */
  lemma CheckpointIsLatest(t: Table, device: string, ts: int)
    requires Key(device, ts) in t
    requires forall k :: k in t && k.device == device ==> k.timestamp <= ts
    ensures Checkpoint(t, Some(device)) == Some(ts)
  {
    assert Key(device, ts) in DeviceKeys(t, device);
    var c := Checkpoint(t, Some(device));
    assert c.value <= ts && ts <= c.value;
  }

  /** Rows of other devices never move a device's checkpoint. */
  lemma CheckpointIsPerDevice(t1: Table, t2: Table, device: string)
    requires DeviceKeys(t1, device) == DeviceKeys(t2, device)
    ensures Checkpoint(t1, Some(device)) == Checkpoint(t2, Some(device))
  {
    var c1, c2 := Checkpoint(t1, Some(device)), Checkpoint(t2, Some(device));
    if c1.Some? && c2.Some? {
      assert Key(device, c1.value) in DeviceKeys(t2, device);
      assert Key(device, c2.value) in DeviceKeys(t1, device);
    }
  }

  /** A merge never moves a checkpoint backwards. */
  lemma CheckpointMonotone(t: Table, batch: seq<Row>, device: string)
    ensures Checkpoint(t, Some(device)).Some? ==>
      Checkpoint(InsertAll(t, batch), Some(device)).Some? &&
      Checkpoint(t, Some(device)).value <= Checkpoint(InsertAll(t, batch), Some(device)).value
  {
    var c := Checkpoint(t, Some(device));
    if c.Some? {
      assert Key(device, c.value) in DeviceKeys(InsertAll(t, batch), device);
    }
  }

  // ---------------------------------------------------------------------
  // Ordered scans: SELECT ... [WHERE ...] ORDER BY timestamp [ASC|DESC]
  // ---------------------------------------------------------------------

  /** No key occurs twice. */
  ghost predicate DistinctKeys(rows: seq<Row>)
  {
    forall i, j :: 0 <= i < j < |rows| ==> rows[i].PrimaryKey() != rows[j].PrimaryKey()
  }

  /** Every row is a stored row of `t`, with its stored reading. */
  ghost predicate StoredIn(rows: seq<Row>, t: Table)
  {
    forall i :: 0 <= i < |rows| ==> rows[i].PrimaryKey() in t && t[rows[i].PrimaryKey()] == rows[i].reading
  }

  /** `rows` lists the stored rows whose keys are `keys`, each exactly once. */
  ghost predicate Enumerates(rows: seq<Row>, t: Table, keys: set<Key>)
  {
    RowKeys(rows) == keys && DistinctKeys(rows) && StoredIn(rows, t)
  }

  /** `ORDER BY timestamp ASC` (or `DESC`); rows with equal timestamps,
      from different devices, may come in any order. */
  ghost predicate Ordered(rows: seq<Row>, ascending: bool)
  {
    forall i, j :: 0 <= i < j < |rows| ==> InOrder(rows[i].timestamp, rows[j].timestamp, ascending)
  }

  /** `WHERE timestamp >= start AND timestamp < end`. */
  function WindowKeys(t: Table, start: int, end: int): (keys: set<Key>)
    ensures forall k :: k in keys <==> k in t && start <= k.timestamp < end
  {
    set k | k in t && start <= k.timestamp < end
  }

  /** Adjacent windows share no key and together cover the window that
      spans both. */
  lemma WindowKeysSplit(t: Table, start: int, mid: int, end: int)
    requires start <= mid <= end
    ensures WindowKeys(t, start, end) == WindowKeys(t, start, mid) + WindowKeys(t, mid, end)
    ensures WindowKeys(t, start, mid) !! WindowKeys(t, mid, end)
  {
  }

  /** Distinct keys: as many keys as rows. */
  lemma {:induction false} DistinctKeysCount(rows: seq<Row>)
    requires DistinctKeys(rows)
    ensures |RowKeys(rows)| == |rows|
  {
    if rows != [] {
      var init, last := rows[..|rows| - 1], rows[|rows| - 1];
      assert rows == init + [last];
      RowKeysSnoc(init, last);
      forall k | k in RowKeys(init) ensures k != last.PrimaryKey() {
        var i :| 0 <= i < |init| && init[i].PrimaryKey() == k;
        assert rows[i] == init[i];
      }
      DistinctKeysCount(init);
    }
  }

  /** The measurements database file, as the scripts see it. */
  class Database {
    /** The file is present on disk. */
    var fileExists: bool
    /** The `measurements` table has been created. */
    var hasTable: bool
    var rows: Table

    ghost predicate Valid()
      reads this
    {
      (hasTable ==> fileExists) && (!hasTable ==> rows == map[])
    }

    constructor (fileExists: bool, hasTable: bool, rows: Table)
      requires hasTable ==> fileExists
      requires !hasTable ==> rows == map[]
      ensures Valid()
      ensures this.fileExists == fileExists && this.hasTable == hasTable && this.rows == rows
    {
      this.fileExists := fileExists;
      this.hasTable := hasTable;
      this.rows := rows;
    }

    /** `sqlite3.connect`: a missing file is created, empty. */
    method Connect()
      requires Valid()
      modifies this
      ensures Valid() && fileExists
      ensures hasTable == old(hasTable) && rows == old(rows)
    {
      fileExists := true;
    }

    /** `CREATE TABLE IF NOT EXISTS measurements(..., PRIMARY KEY(device, timestamp))`:
        creates the empty table once; on an existing table it changes nothing. */
    method CreateTableIfNotExists()
      requires Valid() && fileExists
      modifies this
      ensures Valid() && fileExists && hasTable
      ensures rows == old(rows)
    {
      hasTable := true;
    }

    /** `executemany('INSERT OR IGNORE INTO measurements VALUES(...)', batch)`. */
    method InsertOrIgnoreMany(batch: seq<Row>)
      requires Valid() && hasTable
      modifies this
      ensures Valid() && fileExists && hasTable
      ensures rows == InsertAll(old(rows), batch)
    {
      var i := 0;
      while i < |batch|
        invariant 0 <= i <= |batch|
        invariant Valid() && fileExists && hasTable
        invariant rows == InsertAll(old(rows), batch[..i])
      {
        assert batch[..i + 1][..i] == batch[..i];
        rows := InsertOrIgnore(rows, batch[i]);
        i := i + 1;
      }
      assert batch[..|batch|] == batch;
    }

    /** The rows whose keys are `keys`, each once, ordered by timestamp:
        the result of a `SELECT ... ORDER BY timestamp` whose `WHERE`
        clause selects `keys`. */
    method Scan(keys: set<Key>, ascending: bool) returns (result: seq<Row>)
      requires keys <= rows.Keys
      ensures Enumerates(result, rows, keys) && Ordered(result, ascending)
    {
      var pending := keys;
      result := [];
      while pending != {}
        invariant pending <= keys
        invariant RowKeys(result) + pending == keys
        invariant RowKeys(result) !! pending
        invariant DistinctKeys(result) && StoredIn(result, rows) && Ordered(result, ascending)
        invariant forall i, k :: 0 <= i < |result| && k in pending ==>
                    InOrder(result[i].timestamp, k.timestamp, ascending)
        decreases pending
      {
        FirstKeyExists(pending, ascending);
        var k :| IsFirst(k, pending, ascending);
        var row := Row(k.device, k.timestamp, rows[k]);
        assert row.PrimaryKey() == k;
        RowKeysSnoc(result, row);
        result := result + [row];
        pending := pending - {k};
      }
    }
  }
}
