/** plot_db.py: the older plot, with the database path and the display
    zone as arguments, a fixed seven-day default window and no thinning.
    Its `sensors` argument is iterated as it stands. */
module PlotDbScript {
  import opened Basics
  import opened Store
  import opened Window
  import opened Sensors
  import opened Plotting

  /** The default window length, in days. */
  const DefaultDays := 7

  /** `main(db_path, start_date, end_date, sensors, plot_timezone)`. */
  method Run(db: Database, startArg: DateArg, endArg: DateArg, sensors: SensorArg, utcOffset: int, now: int)
    returns (result: PlotResult)
    requires db.Valid()
    ensures !db.fileExists <==> result == PlotResult.DatabaseMissing
    ensures db.fileExists ==>
      Loads(result, db.hasTable, db.rows, IteratedSensors(sensors),
            ResolveWindow(now, utcOffset, startArg, endArg, DefaultDays), None)
  {
    if !db.fileExists {
      return PlotResult.DatabaseMissing;
    }
    var window := ResolveWindow(now, utcOffset, startArg, endArg, DefaultDays);
    result := LoadFrame(db, IteratedSensors(sensors), window, None);
  }

  /** A single sensor string, the default `"CO2"` included, always ends
      with no valid sensor: its characters are matched one by one. */
  lemma StringArgumentPlotsNothing(result: PlotResult, text: string)
    requires ChecksSensors(result, IteratedSensors(One(text)))
    ensures result == NoValidSensors
  {
    IteratedStringSelectsNothing(text);
  }
}
