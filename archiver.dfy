/** `Aranet4Archiver`: one object holding the device settings, the local
    zone and the database, with the fetch, plot and print commands. */
module Archiver {
  import opened Basics
  import opened Store
  import opened Sync
  import opened Window
  import opened Sensors
  import opened Decimation
  import opened Plotting
  import opened Listing

  /** A setting read from the environment that is present, non-empty and
      not the `XXX` placeholder of the sample configuration. */
  predicate Configured(v: Option<string>)
  {
    v.Some? && v.value != "" && v.value != "XXX"
  }

  class Aranet4Archiver {
    const deviceName: Option<string>
    const deviceMac: Option<string>
    /** The local zone's name, and its offset east of UTC in seconds. */
    const localTimezone: string
    const utcOffset: int
    const db: Database

    /** Reads the settings and opens the database: the file is created if
        missing and the table is created if absent, rows untouched. */
    constructor (deviceName: Option<string>, deviceMac: Option<string>, localTimezone: string, utcOffset: int, db: Database)
      requires db.Valid()
      modifies db
      ensures this.deviceName == deviceName && this.deviceMac == deviceMac
      ensures this.localTimezone == localTimezone && this.utcOffset == utcOffset && this.db == db
      ensures db.Valid() && db.fileExists && db.hasTable && db.rows == old(db.rows)
    {
      this.deviceName := deviceName;
      this.deviceMac := deviceMac;
      this.localTimezone := localTimezone;
      this.utcOffset := utcOffset;
      this.db := db;
      new;
      db.Connect();
      db.CreateTableIfNotExists();
    }

    /** `fetch`: both settings are checked before the database is touched;
        then the checkpoint is read, the device is called with retries, the
        sentinel samples are dropped and the rest merged with
        `INSERT OR IGNORE`. */
    method Fetch(numRetries: int, clock: Clock, device: Device) returns (result: SyncResult)
      requires db.Valid() && db.hasTable
      modifies db
      ensures db.Valid() && db.hasTable
      ensures !Configured(deviceName) ==> result == NameNotSet
      ensures Configured(deviceName) && !Configured(deviceMac) ==> result == MacNotSet
      ensures Configured(deviceName) && Configured(deviceMac) ==> result.AllAttemptsFailed? || result.Synced?
      ensures result.NameNotSet? || result.MacNotSet? || result.AllAttemptsFailed? ==> db.rows == old(db.rows)
      ensures result.AllAttemptsFailed? ==>
        Retried(result.calls, None, Checkpoint(old(db.rows), deviceName), numRetries, clock, device)
      ensures result.Synced? ==>
        && Configured(deviceName) && Configured(deviceMac)
        && Retried(result.calls, Some(result.history), Checkpoint(old(db.rows), deviceName), numRetries, clock, device)
        && result.batch == Batch(deviceName.value, result.history)
        && db.rows == Merge(old(db.rows), deviceName.value, result.history)
      ensures !result.Crashed?
    {
      if !Configured(deviceName) {
        return NameNotSet;
      }
      if !Configured(deviceMac) {
        return MacNotSet;
      }
      var name := deviceName.value;
      var start := Checkpoint(db.rows, deviceName);
      var calls, history := FetchWithRetries(start, numRetries, clock, device);
      if history.Some? {
        var data := BuildBatch(name, history.value);
        db.InsertOrIgnoreMany(data);
        result := Synced(calls, history.value, data);
      } else {
        result := AllAttemptsFailed(calls);
      }
    }

    /** `plot`: the sensors are normalised from the argument (a single
        string counts as one name), the window is resolved in the local
        zone, and the frame is thinned to `maxMeasures` rows. */
    method Plot(sensors: SensorArg, days: int, startArg: DateArg, endArg: DateArg, maxMeasures: int, now: int)
      returns (result: PlotResult)
      requires db.Valid()
      ensures var selected := Select(RequestedSensors(sensors), IsValidSensor);
        var window := ResolveWindow(now, utcOffset, startArg, endArg, days);
        && (selected == [] <==> result == NoValidSensors)
        && (selected != [] && window.Failure? ==> result == BadDate(window.error))
        && (result.Hangs? || result.NoData? || result.Plotted? ==> window.Success? && result.window == window.value)
        && (result.Plotted? ==>
             && result.sensors == selected
             && Enumerates(result.queried, db.rows, WindowKeys(db.rows, window.value.start, window.value.end))
             && Ordered(result.queried, true)
             && (maxMeasures >= 1 || |result.queried| <= maxMeasures)
             && result.shown == Decimated(Project(result.queried, selected), maxMeasures))
      ensures result.Hangs? ==> maxMeasures <= 0
      ensures Loads(result, db.hasTable, db.rows, RequestedSensors(sensors),
                    ResolveWindow(now, utcOffset, startArg, endArg, days), Some(maxMeasures))
    {
      var window := ResolveWindow(now, utcOffset, startArg, endArg, days);
      result := LoadFrame(db, RequestedSensors(sensors), window, Some(maxMeasures));
    }

    /** `print`: the newest (or, with `oldest`, the oldest) `n` rows. */
    method Print(oldest: bool, n: int, formatTime: int -> string) returns (result: PrintResult)
      requires db.Valid()
      modifies db
      ensures db.Valid() && db.rows == old(db.rows) && db.hasTable == old(db.hasTable)
      ensures db.fileExists == (old(db.fileExists) || localTimezone != "")
      ensures localTimezone == "" <==> result == PrintResult.TimezoneUnset
      ensures localTimezone != "" && !db.hasTable ==> result == NoTable
      ensures localTimezone != "" && db.hasTable ==> Lists(result, db.rows, oldest, n, formatTime)
    {
      if localTimezone == "" {
        return PrintResult.TimezoneUnset;
      }
      db.Connect();
      if !db.hasTable {
        return NoTable;
      }
      var rows, lines := ListOrdered(db, oldest, n, formatTime);
      result := Listed(Header(Columns), Separator(Columns), rows, lines);
    }
  }
}
