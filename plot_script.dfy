/** plot.py: the stand-alone plot. The database path and the local zone
    come from the environment; a single sensor string is wrapped in a list
    before it is normalised; the frame is thinned to `max_measures` rows. */
module PlotScript {
  import opened Basics
  import opened Store
  import opened Window
  import opened Sensors
  import opened Plotting

  /** `main(sensors, days, start_date, end_date, max_measures)`: the file
      check, then the zone check, then the frame. */
  method Run(db: Database, localTimezone: string, utcOffset: int, sensors: SensorArg, days: int,
             startArg: DateArg, endArg: DateArg, maxMeasures: int, now: int)
    returns (result: PlotResult)
    requires db.Valid()
    ensures !db.fileExists <==> result == PlotResult.DatabaseMissing
    ensures db.fileExists && localTimezone == "" <==> result == PlotResult.TimezoneUnset
    ensures db.fileExists && localTimezone != "" ==>
      Loads(result, db.hasTable, db.rows, RequestedSensors(sensors),
            ResolveWindow(now, utcOffset, startArg, endArg, days), Some(maxMeasures))
  {
    if !db.fileExists {
      return PlotResult.DatabaseMissing;
    }
    if localTimezone == "" {
      return PlotResult.TimezoneUnset;
    }
    var window := ResolveWindow(now, utcOffset, startArg, endArg, days);
    result := LoadFrame(db, RequestedSensors(sensors), window, Some(maxMeasures));
  }

  /** With the default sensor argument the CO2 column is plotted: the
      command never reports that no sensor is valid. */
  lemma DefaultSensorPlotsCo2(result: PlotResult)
    ensures ChecksSensors(result, RequestedSensors(One("CO2"))) ==>
      result != NoValidSensors && (result.Plotted? ==> result.sensors == ["CO2"])
  {
    DefaultSensorWrapped();
  }
}
