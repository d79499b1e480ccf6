/** The query window `[start, end)` of the plotting scripts, in integer
    epoch seconds. The current instant and the local zone's UTC offset are
    parameters; a calendar date is a day number counted from 1970-01-01. */
module Window {
  import opened Basics

  const Day: int := 86400

  /** A `YYYY-MM-DD` command-line argument: empty, unparsable, or a date. */
  datatype DateArg = Absent | Malformed | Date(day: int)

  datatype WindowError = BadEndDate | BadStartDate

  /** Rows with `start <= timestamp < end` are in the window. */
  datatype Span = Span(start: int, end: int)

  /** The UTC midnight that starts the UTC day holding `instant`
      (`replace(hour=0, minute=0, ...)`, pandas `normalize()`). */
  function MidnightOf(instant: int): (r: int)
    ensures r % Day == 0
    ensures r <= instant < r + Day
  {
    (instant / Day) * Day
  }

  /** Default end: the UTC midnight after the current UTC date. */
  function DefaultEnd(now: int): (r: int)
    ensures r % Day == 0
    ensures r - Day <= now < r
  {
    MidnightOf(now) + Day
  }

  /** An explicit date: local midnight of `day` seen in UTC, floored to a
      UTC midnight, then moved one day forward. `utcOffset` is the local
      zone's offset east of UTC, in seconds. */
  function DateBound(day: int, utcOffset: int): (r: int)
    ensures r % Day == 0
    ensures r - Day <= day * Day - utcOffset < r
  {
    MidnightOf(day * Day - utcOffset) + Day
  }

  /** Resolves the window from the arguments, end first: a malformed end is
      reported even when the start is malformed too. Without a start date
      the window spans `days + 1` days before the end. */
  function ResolveWindow(now: int, utcOffset: int, startArg: DateArg, endArg: DateArg, days: int)
    : (r: Result<Span, WindowError>)
    ensures r == Failure(BadEndDate) <==> endArg.Malformed?
    ensures r == Failure(BadStartDate) <==> !endArg.Malformed? && startArg.Malformed?
    ensures r.Success? ==> r.value.start % Day == 0 && r.value.end % Day == 0
    ensures r.Success? && endArg.Absent? ==> r.value.end - Day <= now < r.value.end
    ensures r.Success? && endArg.Date? ==> r.value.end == DateBound(endArg.day, utcOffset)
    ensures r.Success? && startArg.Absent? ==> r.value.end - r.value.start == (days + 1) * Day
    ensures r.Success? && startArg.Date? ==> r.value.start == DateBound(startArg.day, utcOffset)
  {
    if endArg.Malformed? then Failure(BadEndDate)
    else
      var end := if endArg.Absent? then DefaultEnd(now) else DateBound(endArg.day, utcOffset);
      if startArg.Malformed? then Failure(BadStartDate)
      else
        var start := if startArg.Absent? then end - (days + 1) * Day else DateBound(startArg.day, utcOffset);
        Success(Span(start, end))
  }

  /** The default end is the only UTC midnight in `(now, now + Day]`. */
  lemma DefaultEndIsNextMidnight(now: int, m: int)
    requires m % Day == 0 && m - Day <= now < m
    ensures m == DefaultEnd(now)
  {
    var e := DefaultEnd(now);
    var a, b := m / Day, e / Day;
    assert m == a * Day && e == b * Day;
    assert (a - b) * Day < Day && (b - a) * Day < Day;
  }

  /** East of UTC (Europe, Asia) an explicit date maps to its own UTC
      midnight. */
  lemma DateBoundEastOfUtc(day: int, utcOffset: int)
    requires 0 < utcOffset <= Day
    ensures DateBound(day, utcOffset) == day * Day
  {
    var r := DateBound(day, utcOffset);
    var q := r / Day;
    assert r == q * Day;
    assert (q - day) * Day <= 0 by {
      assert r <= day * Day - utcOffset + Day;
    }
    assert (day - q) * Day < Day;
  }

  /** At UTC and west of it (the Americas) an explicit date maps to the
      UTC midnight after it: a start date then leaves out its own day. */
  lemma DateBoundWestOfUtc(day: int, utcOffset: int)
    requires -Day < utcOffset <= 0
    ensures DateBound(day, utcOffset) == (day + 1) * Day
  {
    var r := DateBound(day, utcOffset);
    var q := r / Day;
    assert r == q * Day;
    assert (q - day - 1) * Day < Day by {
      assert r <= day * Day - utcOffset + Day;
    }
    assert (day + 1 - q) * Day <= 0 by {
      assert day * Day <= day * Day - utcOffset < r;
    }
  }

  /** 2024-06-10 is day 19884. Plotting the last three days at any instant
      of that UTC day queries from 2024-06-07 00:00 to 2024-06-11 00:00 UTC. */
  lemma ThreeDaysOnJuneTenth(now: int, utcOffset: int)
    requires 19884 * Day <= now < 19885 * Day
    ensures ResolveWindow(now, utcOffset, Absent, Absent, 3) == Success(Span(1717718400, 1718064000))
  {
    DefaultEndIsNextMidnight(now, 19885 * Day);
  }
}
