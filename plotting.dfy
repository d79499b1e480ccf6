/** The data-loading half of the plotting commands: validate the sensors,
    take the resolved window, query `[start, end)` in ascending timestamp
    order, project the sensor columns and, when a bound is given, thin the
    frame. Drawing the figure is not modelled. */
module Plotting {
  import opened Basics
  import opened Store
  import opened Window
  import opened Sensors
  import opened Decimation

  /** One plotted row: its timestamp and the selected columns, in order. */
  datatype Point = Point(timestamp: int, values: seq<real>)

  /** The value of a sensor column in a reading. */
  function Column(r: Reading, sensor: string): real
  {
    if sensor == "temperature" then r.temperature
    else if sensor == "humidity" then r.humidity as real
    else if sensor == "pressure" then r.pressure
    else r.co2 as real
  }

  /** `SELECT timestamp, <sensors>`: one point per row, same order. */
  function Project(rows: seq<Row>, sensors: seq<string>): (points: seq<Point>)
    ensures |points| == |rows|
    ensures forall i :: 0 <= i < |rows| ==> points[i].timestamp == rows[i].timestamp
  {
    seq(|rows|, i requires 0 <= i < |rows| =>
      Point(rows[i].timestamp, seq(|sensors|, j requires 0 <= j < |sensors| => Column(rows[i].reading, sensors[j]))))
  }

  datatype PlotResult =
    | DatabaseMissing
    | TimezoneUnset
    | NoValidSensors
    | BadDate(error: WindowError)
    | LoadError
    | Hangs(window: Span, queried: seq<Row>)
    | NoData(window: Span)
    | Plotted(sensors: seq<string>, window: Span, queried: seq<Row>, shown: seq<Point>)

  /** The sensor check: the command stops with `NoValidSensors` exactly
      when no requested name is valid, and plots the valid ones in request
      order. */
  ghost predicate ChecksSensors(result: PlotResult, requested: seq<string>)
  {
    var selected := Select(requested, IsValidSensor);
    && (selected == [] <==> result == NoValidSensors)
    && (result.Plotted? ==> result.sensors == selected)
  }

  /** What loading a frame yields from a table `t` (absent when
      `hasTable` is false): the sensor check comes first, then the window,
      then the query. A frame is `Hangs`, `NoData` or `Plotted`; the
      queried rows are the stored rows of the window, each once, oldest
      first; the shown points are those rows' selected columns, thinned
      when a bound is given. */
  ghost predicate Loads(result: PlotResult, hasTable: bool, t: Table, requested: seq<string>,
                        window: Result<Span, WindowError>, maxMeasures: Option<int>)
  {
    var selected := Select(requested, IsValidSensor);
    && ChecksSensors(result, requested)
    && (selected != [] && window.Failure? ==> result == BadDate(window.error))
    && (selected != [] && window.Success? && !hasTable ==> result == LoadError)
    && (selected != [] && window.Success? && hasTable ==> result.Hangs? || result.NoData? || result.Plotted?)
    && (result.Hangs? || result.NoData? || result.Plotted? ==>
          && window.Success? && result.window == window.value
          && (result.NoData? ==> WindowKeys(t, window.value.start, window.value.end) == {}))
    && (result.Hangs? || result.Plotted? ==>
          && Enumerates(result.queried, t, WindowKeys(t, window.value.start, window.value.end))
          && Ordered(result.queried, true))
    && (result.Hangs? ==>
          && maxMeasures.Some? && maxMeasures.value <= 0
          && forall k: nat :: |Halve(Project(result.queried, selected), k)| > maxMeasures.value)
    && (result.NoData? ==> maxMeasures.None? || maxMeasures.value >= 0)
    && (result.Plotted? ==>
          && result.queried != [] && result.shown != []
          && (maxMeasures.Some? ==> maxMeasures.value >= 1 || |result.queried| <= maxMeasures.value)
          && var points := Project(result.queried, result.sensors);
             result.shown == if maxMeasures.Some? then Decimated(points, maxMeasures.value) else points)
  }

  /** Sensor validation, the window query and the optional thinning loop.
      `maxMeasures` is `None` for the command that does not thin. A
      non-positive bound the frame exceeds makes the thinning loop spin
      forever; that outcome is `Hangs`. */
  method LoadFrame(db: Database, requested: seq<string>, window: Result<Span, WindowError>, maxMeasures: Option<int>)
    returns (result: PlotResult)
    requires db.Valid()
    ensures Loads(result, db.hasTable, db.rows, requested, window, maxMeasures)
  {
    var selected := SelectSensors(requested);
    if selected == [] {
      return NoValidSensors;
    }
    if window.Failure? {
      return BadDate(window.error);
    }
    if !db.hasTable {
      return LoadError;
    }
    var span := window.value;
    var queried := db.Scan(WindowKeys(db.rows, span.start, span.end), true);
    var points := Project(queried, selected);
    var shown := points;
    if maxMeasures.Some? {
      var m := maxMeasures.value;
      if !(m >= 1 || |points| <= m) {
        forall k: nat ensures |Halve(points, k)| > m {
          DecimationNeverEnds(points, m, k);
        }
        return Hangs(span, queried);
      }
      shown := Decimate(points, m);
    }
    if shown == [] {
      return NoData(span);
    }
    result := Plotted(selected, span, queried, shown);
  }
}
