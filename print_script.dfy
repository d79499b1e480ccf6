/** print.py: the newest (or, with `oldest`, the oldest) `n` rows, after
    checking that the file exists and the local zone is set. */
module PrintScript {
  import opened Store
  import opened Listing

  /** `main(oldest, n)`. */
  method Run(db: Database, localTimezone: string, oldest: bool, n: int, formatTime: int -> string)
    returns (result: PrintResult)
    requires db.Valid()
    modifies db
    ensures db.Valid() && db.rows == old(db.rows) && db.hasTable == old(db.hasTable)
    ensures db.fileExists == old(db.fileExists)
    ensures !old(db.fileExists) <==> result == PrintResult.DatabaseMissing
    ensures old(db.fileExists) && localTimezone == "" <==> result == PrintResult.TimezoneUnset
    ensures old(db.fileExists) && localTimezone != "" && !db.hasTable ==> result == NoTable
    ensures old(db.fileExists) && localTimezone != "" && db.hasTable ==> Lists(result, db.rows, oldest, n, formatTime)
  {
    if !db.fileExists {
      return PrintResult.DatabaseMissing;
    }
    if localTimezone == "" {
      return PrintResult.TimezoneUnset;
    }
    db.Connect();
    if !db.hasTable {
      return NoTable;
    }
    var rows, lines := ListOrdered(db, oldest, n, formatTime);
    result := Listed(Header(Columns), Separator(Columns), rows, lines);
  }
}
