# aranet4-archiver, modelled in Dafny

aranet4-archiver copies the history of an Aranet4 air-quality sensor into a
SQLite table `measurements(device, timestamp, temperature, humidity,
pressure, CO2)` keyed by `(device, timestamp)`, and reads it back as plots
and console listings. The same logic appears in the `Aranet4Archiver` class
(`aranet.py`) and in the stand-alone scripts `fetch.py`, `plot.py`,
`plot_db.py`, `tail.py` and `print.py`. This project models that logic once
and then states each command as a variant of it:

- `Basics`: `Option`, `Result`, an order-keeping filter `Select` and the
  subsequence predicates.
- `Store`: the table as a map from key to reading, the `INSERT OR IGNORE`
  merge, the per-device checkpoint, and the ordered scans. `Database` is a
  class whose methods change the file flag, the table flag and the rows.
- `Sync`: the retry loop against a device oracle, the filter that drops the
  `co2 < 0` sentinel samples, and the merge.
- `Window`: the query window `[start, end)` in epoch seconds. The current
  instant and the local zone's UTC offset are parameters. An explicit date
  is local midnight, seen in UTC, floored to a UTC midnight and moved one
  day forward. The model keeps that extra day as the code has it, so a
  start date west of UTC leaves out that date's UTC day, which is all of
  the local day except its last |offset| hours (`Window.DateBoundWestOfUtc`).
- `Sensors`: name normalisation (strip, ASCII lower-case, `co2` to `CO2`)
  and the allow-list selection.
- `Decimation`: the `iloc[::2]` thinning loop, including the bound for
  which it never ends.
- `Listing`: the header and its dashed separator, the timestamp
  replacement in a printed row, `LIMIT n`, and the last-n loop.
- `Plotting`: the shared data-loading half of the plot commands.
- `Archiver`: the `Aranet4Archiver` class.
- `FetchScript`, `PlotScript`, `PlotDbScript`, `TailScript` and
  `PrintScript`: one module per script.

The device client is an oracle `(attempt, filter) -> Fail | Ok(history)`.
The clock is a function from the attempt number to epoch seconds.
Timestamp formatting is a function parameter `formatTime`.

## Model

| member | source | states |
|---|---|---|
| Store.InsertAll | aranet.py:131-134 | after `executemany` of `INSERT OR IGNORE` the key set is the old one plus the batch's keys, and every existing row keeps its reading |
| Store.InsertAllFirstWins | aranet.py:131-133 | within one batch the first row carrying a new key is the one stored |
| Store.InsertAllOfPresentKeys | fetch.py:74-76 | a batch whose keys are all stored already leaves the table unchanged |
| Store.InsertAllIdempotent | fetch.py:74-77 | inserting the same batch twice gives the table that inserting it once gives |
| Store.Checkpoint | aranet.py:91-105 | the checkpoint is absent exactly when the name is unset or the device has no row; otherwise it is a stored timestamp of that device, and no row of the device is later |
| Store.CheckpointIsLatest | fetch.py:44-48 | a stored timestamp that no row of the device exceeds is the checkpoint |
| Store.CheckpointIsPerDevice | aranet.py:91-101 | two tables with the same keys for a device give it the same checkpoint, whatever other devices store |
| Store.CheckpointMonotone | aranet.py:101-105 | a merge never moves a device's checkpoint backwards or removes it |
| Store.WindowKeysSplit | aranet.py:218-224 | the half-open window `[start, end)` is the disjoint union of `[start, mid)` and `[mid, end)`: adjacent windows neither overlap nor leave a gap |
| Store.Database.Connect | fetch.py:28-29 | connecting creates a missing file and changes neither the table nor its rows |
| Store.Database.CreateTableIfNotExists | fetch.py:30-42 | afterwards the table exists; an existing table keeps all its rows |
| Store.Database.InsertOrIgnoreMany | fetch.py:74-77 | the rows become `InsertAll` of the old rows and the batch, applied one row at a time |
| Store.Database.Scan | aranet.py:327-334 | the result holds each selected stored row exactly once, with its stored reading, ordered by timestamp ascending or descending |
| Sync.FetchWithRetries | aranet.py:107-114 | at most `num_retries` calls, none when it is not positive; call i carries the checkpoint and the clock read before attempt i; every call but the last failed; a history is returned exactly when the last call succeeded, and otherwise every attempt was used |
| Sync.BuildBatch | aranet.py:116-129 | the rows built are the entries with `co2 >= 0`, in fetch order, tagged with the device name |
| Sync.BatchIsFilteredHistory | fetch.py:58-71 | every batch row carries the device name and a non-negative co2; a fetched entry appears in the batch exactly when its co2 is non-negative |
| Sync.BatchKeepsOrder | aranet.py:117-129 | the batch is an order-keeping subsequence of all the fetched entries, tagged |
| Sync.MergeKeepsClean | aranet.py:116-134 | a sync never stores a sentinel reading: a table without one stays without one |
| Sync.MergeStoresEveryReading | aranet.py:131-134 | after a merge the key of every fetched entry with a reading is stored, and every earlier row is unchanged |
| Sync.MergeIdempotent | fetch.py:74-77 | a second sync that fetches the same history changes nothing |
| Sync.OfficeBatch | aranet.py:117-129 | of three samples where the first carries the sentinel, the batch is the other two, tagged "office" |
| Sync.OfficeScenario | aranet.py:91-134 | merged into an empty table those two rows are stored, and the next checkpoint is the later timestamp, 300 |
| Window.MidnightOf | aranet.py:190-191 | the result is a UTC midnight and the start of the UTC day that holds the instant |
| Window.DefaultEnd | aranet.py:188-192 | the default end is a UTC midnight that comes after now by at most one day |
| Window.DateBound | aranet.py:195-198 | an explicit date gives a UTC midnight at most one day after the date's local midnight seen in UTC |
| Window.ResolveWindow | aranet.py:188-214 | a malformed end fails first, and a malformed start fails only if the end is well formed; on success both bounds are UTC midnights, the default end follows now, and the default start is `days + 1` days before the end |
| Window.DefaultEndIsNextMidnight | plot.py:79-83 | the default end is the only UTC midnight in `(now, now + 1 day]` |
| Window.DateBoundEastOfUtc | plot.py:85-89 | east of UTC an explicit date maps to its own UTC midnight |
| Window.DateBoundWestOfUtc | plot.py:97-102 | at or west of UTC an explicit date maps to the next UTC midnight |
| Window.ThreeDaysOnJuneTenth | plot.py:94-95 | with the defaults on 2024-06-10 the window is 2024-06-07 to 2024-06-11 UTC, whatever the zone |
| Sensors.LeadingSpaces | aranet.py:169 | the longest prefix of whitespace characters |
| Sensors.TrailingSpaces | aranet.py:169 | the longest suffix of whitespace characters |
| Sensors.Strip | aranet.py:169 | the stripped name neither starts nor ends with whitespace |
| Sensors.StripIsInfix | plot.py:60 | stripping removes whitespace from the two ends only |
| Sensors.Lower | aranet.py:169 | no capital is left; each capital becomes its small letter and every other character is kept |
| Sensors.ReplaceCo2 | aranet.py:169 | every non-overlapping `co2`, scanned left to right, becomes `CO2`; every other character is kept |
| Sensors.ReplaceCo2LeavesNone | plot.py:60 | no `co2` is left after the replacement |
| Sensors.Normalize | plot_db.py:43 | a normalised name is no longer than the requested one |
| Sensors.NormalizeAccepts | aranet.py:169-174 | a requested name is accepted exactly when, stripped, it equals a column name ignoring ASCII case |
| Sensors.SelectSensors | aranet.py:170-176 | the loop keeps exactly the valid requested names, in request order |
| Sensors.SelectionKeepsValidInOrder | plot.py:59-67 | a name is selected exactly when it is requested and valid; the selection is a subsequence of the request |
| Sensors.DefaultSensorWrapped | plot.py:54-57 | the default `"CO2"`, wrapped in a list, selects the CO2 column |
| Sensors.IteratedStringSelectsNothing | plot_db.py:43-54 | a single string iterated as it stands selects no sensor |
| Decimation.EveryOther | aranet.py:236 | `iloc[::2]` keeps `ceil(n/2)` rows, row i being input row 2i |
| Decimation.HalveIsStrided | plot.py:123-125 | after k rounds row i is the input row at `Position(k, i)` |
| Decimation.PositionIsScaled | aranet.py:236 | that position is `i * 2^k`: each round doubles it |
| Decimation.PositionIncreasing | plot.py:125 | later surviving rows come from later input rows |
| Decimation.Decimated | aranet.py:234-236 | the result fits the bound, is the input when that already fits, is not halved once too often, and keeps the first row |
| Decimation.DecimatedIsSubsequence | aranet.py:234-236 | the surviving rows are the input rows at a power-of-two stride, an order-keeping subsequence |
| Decimation.DecimationNeverEnds | plot.py:123 | with `max_measures <= 0` and more rows than the bound, the loop condition holds after every round |
| Decimation.Decimate | plot.py:123-125 | the loop ends exactly at `Decimated` of its input |
| Decimation.BoundedFrame | aranet.py:234-236 | the intended thinning: equal to the loop's result wherever the loop ends, within a positive bound, the whole frame for a bound below one, and an order-keeping subsequence keeping the first row |
| Listing.JoinLength | tail.py:32 | a joined line is the parts' total length plus one separator per gap |
| Listing.Dashes | tail.py:33 | `'-' * n` is n dashes, and empty when n is not positive |
| Listing.SeparatorMatchesHeader | tail.py:31-33 | the separator is exactly as long as the header, for any column list |
| Listing.ListingHeaderWidth | print.py:41-43 | for the six columns both lines are 60 characters |
| Listing.DisplayRow | tail.py:37-40 | column 1 becomes the formatted timestamp and every other column keeps its value |
| Listing.Limit | print.py:37 | `LIMIT n` keeps the first `n` rows, or all rows when fewer are stored or `n` is negative |
| Listing.PrefixComesFirst | print.py:32-39 | no row that the limit leaves out comes before a listed one in the scan order |
| Listing.TailLines | tail.py:42-44 | the loop prints the last `min(n, len)` rows, in scan order, and none when `n <= 0` |
| Listing.ListOrdered | print.py:30-50 | the rows are stored rows, each once, in the requested order, `n` of them or all; no row left out comes first; each line shows its row |
| Plotting.Project | aranet.py:217-224 | one point per queried row, in the same order and with the same timestamp |
| Plotting.LoadFrame | aranet.py:163-253 | the sensor check comes before the window, and the window before the query; the queried rows are the window's rows, each once, ascending; the frame is thinned to `Decimated`, never ends for a non-positive bound, and an empty frame gives no data |
| Archiver.Aranet4Archiver.constructor | aranet.py:28-66 | the database file and table exist afterwards and the stored rows are kept |
| Archiver.Aranet4Archiver.Fetch | aranet.py:69-141 | an unset or placeholder name, then mac, returns with the table untouched; with both set the fetch always runs and ends failed or synced, never crashed; the checkpoint and retries happen as `Retried`, a failed fetch writes nothing, and a successful one merges the filtered batch, also on a first run |
| Archiver.Aranet4Archiver.Plot | aranet.py:144-253 | the wrapped sensor argument is validated, the window resolved in the local offset, and the whole frame load follows `Loads`: a missing table, no data, a hang when the bound is below one, and otherwise the shown frame is `Decimated` of the window's rows |
| Archiver.Aranet4Archiver.Print | aranet.py:312-349 | the stored rows and the table are unchanged, and the file exists afterwards exactly when it did before or the zone is set (the connect creates it); an empty zone name returns first; a missing table stops the command; otherwise the listing follows `Lists` |
| FetchScript.StoredAfter | fetch.py:73-77 | a fetched history is merged only when the device already had a row; without a fetched history or without a checkpoint the table is unchanged; existing rows never change |
| FetchScript.Run | fetch.py:19-81 | the file and table are created, the retries happen as `Retried`, all failures write nothing, and a success on a device with no row stops before the insert |
| FetchScript.FirstRunDropsOfficeSamples | fetch.py:73 | for the sample history an empty table stays empty, while the archiver's merge stores two rows |
| PlotScript.Run | plot.py:40-142 | a missing file returns first, then an empty zone name; otherwise the frame follows `Loads` for the wrapped sensor argument and `max_measures` |
| PlotScript.DefaultSensorPlotsCo2 | plot.py:54-71 | with the default sensor argument the command never reports that no sensor is valid, and it plots CO2 |
| PlotDbScript.Run | plot_db.py:37-119 | a missing file returns first; otherwise the frame follows `Loads` for the iterated sensor argument, a seven-day default and no thinning |
| PlotDbScript.StringArgumentPlotsNothing | plot_db.py:43-54 | any single sensor string, the default included, ends with no valid sensor |
| TailScript.FooterAsWritten | tail.py:46 | the footer's total is the row count; what its printed count is worth is stated by FooterAsWrittenRightOnlyInRange and FooterOvercounts |
| TailScript.IntendedFooter | tail.py:42-46 | the printed count lies between 0 and the total, and equals `n` when `0 <= n <= total` |
| TailScript.FooterAsWrittenRightOnlyInRange | tail.py:46 | the written footer is right exactly when `0 <= n <= total` |
| TailScript.FooterOvercounts | tail.py:46 | with `n = 30` and five rows the footer says 30 where five were printed |
| TailScript.Run | tail.py:12-48 | a missing table stops the script; an unset zone stops it after the header exactly when at least one row is to be printed; otherwise all rows are scanned once, ascending, the last `min(n, len)` are printed, and the footer is the written one |
| PrintScript.Run | print.py:18-52 | the rows, the table and the file flag are unchanged; a missing file returns first, then an empty zone name, then a missing table; otherwise the listing follows `Lists` |

## Left out

- The Bluetooth client is an oracle parameter. Its own retries, timeouts and record decoding are not modelled.
- SQLite itself is left out: cursors, commits, closing, and errors other than a missing table.
- `sqlite3.Error` raised during table creation is caught and logged at aranet.py:65-66. That path is not modelled.
- Zone names, `ZoneInfo`, `tzlocal` and the pandas zone conversions are left out. A zone is a fixed UTC offset in seconds, so DST gaps and overlaps are not modelled.
- The local zone name is kept only as the empty-or-not guard. In tail.py an empty name fails when the first row is formatted; a name that is set but unknown to `ZoneInfo` is not modelled.
- `datetime.now` and `strptime` are not modelled. The instant is a parameter, and a date argument is already parsed into a day number or `Malformed`.
- Sub-second instants are not modelled. Timestamps are integers, while the device's `entry.date.timestamp()` is a float.
- Listing.DisplayRow: the row is a sequence of typed cells. `str()` of floats, `strftime` and the `' | '` join of a row are not modelled, and the timestamp text comes from the parameter `formatTime`.
- Sensors.Lower: only ASCII letters are lower-cased. Python's Unicode case mapping is not modelled.
- Rendering is left out: the matplotlib figure, the zone conversion of the plotted column, titles and labels.
- Console messages, logging, `.env` loading and `fire`'s argument parsing are left out. A comma-separated sensor list arrives as `SensorArg.Many`.
- print_db.py is not part of this model.
- Store.Database.Scan: rows with equal timestamps, which must come from different devices, come in any order, as the query leaves them unordered.
- tail.py connects to `DB_PATH` without checking the file, and that path defaults to the empty string, for which SQLite opens a temporary database. The model takes the database as given, so that case is a database without the table.
- The archiver constructor prints a message when the file is missing, and then creates the file anyway. Only the creation is modelled.

## Findings

| source | as written | input that shows it | evidently intended | confidence | as-written member | corrected member |
|---|---|---|---|---|---|---|
| fetch.py:73 | the log line before the insert reads `entry_filter['start']`, which is set only when the device already has a row | a first run against an empty table with a successful fetch: `KeyError`, nothing is inserted, and every later run is the same | log `beginning` when there is no start, then insert, as aranet.py:136 does | not executed | FetchScript.FirstRunDropsOfficeSamples | Archiver.Aranet4Archiver.Fetch |
| plot_db.py:43 | the comprehension iterates `sensors` as it stands | the default `sensors="CO2"` yields the names `c`, `o`, `2`; none is valid, so the script always reports no valid sensor | wrap a single string in a list, as plot.py:54-57 does | not executed | PlotDbScript.StringArgumentPlotsNothing | PlotScript.DefaultSensorPlotsCo2 |
| aranet.py:234, plot.py:123 | the thinning loop runs while `len(df) > max_measures` and halves the frame each round | `max_measures = 0` with one stored row in the window: the frame never gets below one row, so the loop never ends | a bound below one leaves the frame unthinned (or is rejected) | not executed | Decimation.DecimationNeverEnds | Decimation.BoundedFrame |
| tail.py:46 | the footer prints the requested `n` as the printed count | `n = 30` with five rows prints five rows and reports 30; `n = -1` prints none and reports -1 | report `min(max(n, 0), len(rows))`, the number of rows the loop printed | not executed | TailScript.FooterOvercounts | TailScript.IntendedFooter |
