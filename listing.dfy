/** Console listing of stored rows: the `' | '`-joined header, the dashed
    separator under it, one line per row with its timestamp replaced by a
    local-time text, `LIMIT n` and the last-n selection. */
module Listing {
  import opened Basics
  import opened Store

  /** The columns of `SELECT device, timestamp, temperature, humidity,
      pressure, CO2`, as the cursor describes them. */
  const Columns: seq<string> := ["device", "timestamp", "temperature", "humidity", "pressure", "CO2"]

  /** `sep.join(parts)`. */
  function Join(sep: string, parts: seq<string>): string
  {
    if |parts| == 0 then ""
    else if |parts| == 1 then parts[0]
    else Join(sep, parts[..|parts| - 1]) + sep + parts[|parts| - 1]
  }

  function SumLengths(parts: seq<string>): nat
  {
    if parts == [] then 0 else SumLengths(parts[..|parts| - 1]) + |parts[|parts| - 1]|
  }

  /** A joined line is as long as its parts plus one separator between
      each two of them. */
  lemma {:induction false} JoinLength(sep: string, parts: seq<string>)
    ensures |parts| == 0 ==> |Join(sep, parts)| == 0
    ensures |parts| >= 1 ==> |Join(sep, parts)| == SumLengths(parts) + |sep| * (|parts| - 1)
  {
    if |parts| == 1 {
      assert parts[..0] == [];
    } else if |parts| > 1 {
      JoinLength(sep, parts[..|parts| - 1]);
    }
  }

  /** `'-' * n`, which is empty for `n <= 0`. */
  function Dashes(n: int): (r: string)
    ensures |r| == if n <= 0 then 0 else n
    ensures forall i :: 0 <= i < |r| ==> r[i] == '-'
  {
    if n <= 0 then "" else seq(n, _ => '-')
  }

  function Header(names: seq<string>): string
  {
    Join(" | ", names)
  }

  /** The dashes under the header: the names' total length plus three
      per gap between two names. */
  function Separator(names: seq<string>): string
  {
    Dashes(SumLengths(names) + 3 * (|names| - 1))
  }

  /** The separator is exactly as long as the header, for any column list
      (with no column both are empty). */
  lemma SeparatorMatchesHeader(names: seq<string>)
    ensures |Separator(names)| == |Header(names)|
  {
    JoinLength(" | ", names);
  }

  /** The listing's header, and so its separator, is 60 characters wide. */
  lemma ListingHeaderWidth()
    ensures |Header(Columns)| == 60 && |Separator(Columns)| == 60
  {
    JoinLength(" | ", Columns);
    var c := Columns;
    assert c[..5] == ["device", "timestamp", "temperature", "humidity", "pressure"];
    assert c[..4] == c[..5][..4] == ["device", "timestamp", "temperature", "humidity"];
    assert c[..3] == c[..4][..3] == ["device", "timestamp", "temperature"];
    assert c[..2] == c[..3][..2] == ["device", "timestamp"];
    assert c[..1] == c[..2][..1] == ["device"];
    assert c[..1][..0] == [];
    assert SumLengths(c[..1]) == 6;
    assert SumLengths(c[..2]) == 15;
    assert SumLengths(c[..3]) == 26;
    assert SumLengths(c[..4]) == 34;
    assert SumLengths(c[..5]) == 42;
    assert SumLengths(c) == 45;
  }

  /** A printed value: `str()` of a text, an integer or a float column. */
  datatype Cell = Text(text: string) | Integer(i: int) | Decimal(x: real)

  /** The values of a fetched row, in column order. */
  function Cells(row: Row): (r: seq<Cell>)
    ensures |r| == |Columns|
  {
    [Text(row.device), Integer(row.timestamp), Decimal(row.reading.temperature),
     Integer(row.reading.humidity), Decimal(row.reading.pressure), Integer(row.reading.co2)]
  }

  /** `shown` is `row` as printed: column 1 holds the formatted timestamp,
      every other column its own value. */
  predicate DisplaysRow(shown: seq<Cell>, row: Row, formatTime: int -> string)
  {
    && |shown| == |Columns|
    && shown[1] == Text(formatTime(row.timestamp))
    && forall i :: 0 <= i < |shown| && i != 1 ==> shown[i] == Cells(row)[i]
  }

  /** `row = list(row); row[1] = format_time(row[1], ...)`. */
  method DisplayRow(row: Row, formatTime: int -> string) returns (shown: seq<Cell>)
    ensures DisplaysRow(shown, row, formatTime)
  {
    var values := Cells(row);
    var cells := new Cell[|values|](i requires 0 <= i < |values| => values[i]);
    cells[1] := Text(formatTime(cells[1].i));
    shown := cells[..];
  }

  /** The rows `LIMIT n` lets through; SQLite reads a negative limit as
      no limit at all. */
  function Limit<T>(rows: seq<T>, n: int): (r: seq<T>)
    ensures |r| == if n < 0 || n >= |rows| then |rows| else n
    ensures r == rows[..|r|]
  {
    if n < 0 || n >= |rows| then rows else rows[..n]
  }

  /** The first rows of an ordered scan are the first in that order:
      every selected key the prefix leaves out comes after all of it. */
  lemma PrefixComesFirst(rows: seq<Row>, t: Table, keys: set<Key>, ascending: bool, m: int)
    requires Enumerates(rows, t, keys) && Ordered(rows, ascending)
    requires 0 <= m <= |rows|
    ensures forall k, i :: k in keys && k !in RowKeys(rows[..m]) && 0 <= i < m ==>
      InOrder(rows[i].timestamp, k.timestamp, ascending)
  {
    forall j | 0 <= j < m ensures rows[j].PrimaryKey() in RowKeys(rows[..m]) {
      assert rows[..m][j] == rows[j];
    }
    forall k, i | k in keys && k !in RowKeys(rows[..m]) && 0 <= i < m
      ensures InOrder(rows[i].timestamp, k.timestamp, ascending)
    {
      var j :| 0 <= j < |rows| && rows[j].PrimaryKey() == k;
      assert i < j;
    }
  }

  /** How many of `len` rows the last-n loop prints. */
  function TailCount(len: nat, n: int): (c: nat)
    ensures c <= len
  {
    if n <= 0 then 0 else if n >= len then len else n
  }

  /** The loop `for i, row in enumerate(rows): if i >= len(rows) - n:
      print_row(row)`: the last `min(n, len)` rows, in scan order, and
      none when `n <= 0`. */
  method TailLines(rows: seq<Row>, n: int, formatTime: int -> string) returns (lines: seq<seq<Cell>>)
    ensures |lines| == TailCount(|rows|, n)
    ensures forall j :: 0 <= j < |lines| ==> DisplaysRow(lines[j], rows[|rows| - |lines| + j], formatTime)
  {
    var first := |rows| - TailCount(|rows|, n);
    lines := [];
    for i := 0 to |rows|
      invariant |lines| == if i <= first then 0 else i - first
      invariant forall j :: 0 <= j < |lines| ==> DisplaysRow(lines[j], rows[first + j], formatTime)
    {
      if i >= |rows| - n {
        var shown := DisplayRow(rows[i], formatTime);
        lines := lines + [shown];
      }
    }
  }

  /** How a listing command ends. */
  datatype PrintResult =
    | DatabaseMissing
    | TimezoneUnset
    | NoTable
    | Listed(header: string, separator: string, rows: seq<Row>, lines: seq<seq<Cell>>)

  /** `result` lists table `t`: the header and its separator, then the
      first `n` rows (all of them when fewer are stored or `n` is negative)
      in the requested order, each stored row at most once, no stored row
      left out coming before a listed one, each printed as `DisplaysRow`. */
  ghost predicate Lists(result: PrintResult, t: Table, oldest: bool, n: int, formatTime: int -> string)
  {
    && result.Listed?
    && result.header == Header(Columns) && result.separator == Separator(Columns)
    && |result.rows| == (if n < 0 || n >= |t| then |t| else n)
    && DistinctKeys(result.rows) && StoredIn(result.rows, t) && Ordered(result.rows, oldest)
    && (forall k, i :: k in t && k !in RowKeys(result.rows) && 0 <= i < |result.rows| ==>
          InOrder(result.rows[i].timestamp, k.timestamp, oldest))
    && |result.lines| == |result.rows|
    && (forall j :: 0 <= j < |result.rows| ==> DisplaysRow(result.lines[j], result.rows[j], formatTime))
  }

  /** `SELECT ... ORDER BY timestamp ASC|DESC LIMIT n`, then one line per
      row. The rows are stored rows, each once, in the requested order;
      there are `n` of them, or all when fewer are stored or `n` is
      negative; no stored row left out comes before a listed one. */
  method ListOrdered(db: Database, oldest: bool, n: int, formatTime: int -> string)
    returns (rows: seq<Row>, lines: seq<seq<Cell>>)
    requires db.Valid() && db.hasTable
    ensures |rows| == if n < 0 || n >= |db.rows| then |db.rows| else n
    ensures DistinctKeys(rows) && StoredIn(rows, db.rows) && Ordered(rows, oldest)
    ensures forall k, i :: k in db.rows && k !in RowKeys(rows) && 0 <= i < |rows| ==>
      InOrder(rows[i].timestamp, k.timestamp, oldest)
    ensures |lines| == |rows|
    ensures forall j :: 0 <= j < |rows| ==> DisplaysRow(lines[j], rows[j], formatTime)
  {
    var all := db.Scan(db.rows.Keys, oldest);
    DistinctKeysCount(all);
    rows := Limit(all, n);
    PrefixComesFirst(all, db.rows, db.rows.Keys, oldest, |rows|);
    lines := [];
    for j := 0 to |rows|
      invariant |lines| == j
      invariant forall i :: 0 <= i < j ==> DisplaysRow(lines[i], rows[i], formatTime)
    {
      var shown := DisplayRow(rows[j], formatTime);
      lines := lines + [shown];
    }
  }
}
