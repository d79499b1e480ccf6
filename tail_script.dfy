/** tail.py: the header, then the last `n` rows of the whole table in
    ascending timestamp order, then a footer with the counts. It checks
    neither the file nor the zone: an unset zone is only noticed when the
    first row is formatted, after the header is out. */
module TailScript {
  import opened Store
  import opened Listing

  /** The closing line: how many rows were printed, out of how many. */
  datatype Footer = Footer(printed: int, total: int)

  datatype TailResult =
    | NoTable
      /** `ZoneInfo("")` raised while formatting the first printed row;
          only the header and the separator were printed. */
    | ZoneCrash(header: string, separator: string)
    | Tailed(header: string, separator: string, rows: seq<Row>, lines: seq<seq<Cell>>, footer: Footer)

  /** The footer as the script writes it: the requested `n` stands in for
      the printed count. */
  function FooterAsWritten(n: int, total: nat): (f: Footer)
    ensures f.total == total
  {
    Footer(n, total)
  }

  /** The footer the message means: the number of rows the loop printed,
      never negative and never above the total. */
  function IntendedFooter(n: int, total: nat): (f: Footer)
    ensures 0 <= f.printed <= total && f.total == total
    ensures 0 <= n <= total ==> f.printed == n
  {
    Footer(TailCount(total, n), total)
  }

  /** The written footer is right exactly when `0 <= n <= total`. */
  lemma FooterAsWrittenRightOnlyInRange(n: int, total: nat)
    ensures FooterAsWritten(n, total) == IntendedFooter(n, total) <==> 0 <= n <= total
  {
    if FooterAsWritten(n, total) == IntendedFooter(n, total) {
      assert n == IntendedFooter(n, total).printed;
    }
  }

  /** With the default `n = 30` and five stored rows the footer says 30
      rows were printed; five were. */
  lemma FooterOvercounts()
    ensures FooterAsWritten(30, 5).printed == 30
    ensures IntendedFooter(30, 5).printed == 5
  {
  }

  /** `main(n)`: connect, scan every row oldest first, print the header,
      the last `n` rows and the footer. A missing table stops the script
      at the query; an unset `LOCAL_TIMEZONE` stops it at the first row it
      prints, and goes unnoticed when it prints none. */
  method Run(db: Database, localTimezone: string, n: int, formatTime: int -> string) returns (result: TailResult)
    requires db.Valid()
    modifies db
    ensures db.Valid() && db.fileExists && db.hasTable == old(db.hasTable) && db.rows == old(db.rows)
    ensures !db.hasTable <==> result == TailResult.NoTable
    ensures result.ZoneCrash? <==> db.hasTable && localTimezone == "" && TailCount(|db.rows|, n) > 0
    ensures result.ZoneCrash? ==> result.header == Header(Columns) && result.separator == Separator(Columns)
    ensures result.Tailed? ==>
      && result.header == Header(Columns) && result.separator == Separator(Columns)
      && Enumerates(result.rows, db.rows, db.rows.Keys) && Ordered(result.rows, true)
      && |result.rows| == |db.rows|
      && |result.lines| == IntendedFooter(n, |db.rows|).printed
      && (forall j :: 0 <= j < |result.lines| ==>
            DisplaysRow(result.lines[j], result.rows[|result.rows| - |result.lines| + j], formatTime))
      && result.footer == FooterAsWritten(n, |db.rows|)
  {
    db.Connect();
    if !db.hasTable {
      return TailResult.NoTable;
    }
    var rows := db.Scan(db.rows.Keys, true);
    DistinctKeysCount(rows);
    if localTimezone == "" && TailCount(|rows|, n) > 0 {
      return ZoneCrash(Header(Columns), Separator(Columns));
    }
    var lines := TailLines(rows, n, formatTime);
    result := Tailed(Header(Columns), Separator(Columns), rows, lines, FooterAsWritten(n, |rows|));
  }
}
