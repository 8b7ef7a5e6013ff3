/** The session controller (TimeTracker) and the month navigation of the
    calendar popup, with the clock, the database and the file system passed
    in as parameters. */
module Tracker {
  import opened Wrappers
  import Shift
  import opened Records
  import opened IsoCalendar
  import opened FileName
  import opened WeeklyReport

  /** The running-time display of _tick: hours, minutes and seconds of the
      elapsed time, and the band that colours the timer. */
  datatype TickView = TickView(hours: int, minutes: nat, seconds: nat, band: Shift.Band)

  /** divmod(elapsed, 3600) and then divmod(rest, 60); Python's divmod
      floors, like Dafny's division by a positive number. */
  function SplitElapsed(elapsed: int): (hms: (int, nat, nat))
    ensures hms.0 * 3600 + hms.1 * 60 + hms.2 == elapsed
    ensures hms.1 < 60 && hms.2 < 60
  {
    var rest := elapsed % 3600;
    (elapsed / 3600, rest / 60, rest % 60)
  }

  /** A completed export: the report and the path it is written to. */
  datatype Export = Export(report: Report, path: string)

  class TimeTracker {
    var clockedIn: bool
    var clockInTime: Option<nat>

    /** The two fields move together: a start time is held exactly while
        clocked in. */
    ghost predicate Valid()
      reads this
    {
      clockedIn <==> clockInTime.Some?
    }

    constructor ()
      ensures Valid() && !clockedIn && clockInTime == None
    {
      clockedIn := false;
      clockInTime := None;
    }

    /** clock_in: ignored while a session is open, otherwise opens one at
        `now`. */
    method ClockIn(now: nat)
      requires Valid()
      modifies this
      ensures Valid()
      ensures old(clockedIn) ==> clockedIn == old(clockedIn) && clockInTime == old(clockInTime)
      ensures !old(clockedIn) ==> clockedIn && clockInTime == Some(now)
    {
      if clockedIn {
        return;
      }
      clockInTime := Some(now);
      clockedIn := true;
    }

    /** clock_out: ignored while no session is open. Otherwise it classifies
        the session and writes one record; `outcome` is what the database
        does with the INSERT and the commit. Only a committed write closes
        the session. A failed INSERT leaves the table unchanged; a failed
        commit leaves the record pending on the connection with the session
        still open, so a retried clock_out writes the session a second
        time. */
    method ClockOut(now: nat, table: ShiftTable, outcome: WriteOutcome)
      requires Valid() && table.Valid()
      modifies this, table
      ensures Valid() && table.Valid()
      ensures !old(clockedIn) || outcome != Committed ==>
        clockedIn == old(clockedIn) && clockInTime == old(clockInTime)
      ensures old(clockedIn) && outcome == Committed ==> !clockedIn && clockInTime == None
      ensures table.rows ==
        if old(clockedIn) && outcome != InsertFailed
        then old(table.rows) + [ClosedRecord(NextId(old(table.rows)), old(clockInTime).value, now)]
        else old(table.rows)
    {
      if !clockedIn {
        return;
      }
      var start := clockInTime.value;
      var ok := table.Insert(start, now, outcome);
      if !ok {
        return;
      }
      clockedIn := false;
      clockInTime := None;
    }

    /** _tick: nothing while not clocked in; otherwise the elapsed time as
        h/m/s and the band the open session would get now. */
    method Tick(now: nat) returns (view: Option<TickView>)
      requires Valid()
      ensures view.None? <==> !clockedIn
      ensures view.Some? ==>
        view.value.hours * 3600 + view.value.minutes * 60 + view.value.seconds == now - clockInTime.value &&
        view.value.minutes < 60 && view.value.seconds < 60 &&
        view.value.band == Shift.Classify(clockInTime.value, now)
    {
      if !clockedIn {
        return None;
      }
      var start := clockInTime.value;
      var hms := SplitElapsed(now - start);
      var band := Shift.DetermineShift(start, now);
      view := Some(TickView(hms.0, hms.1, hms.2, band));
    }

    /** export_week_by_selected_day, with the PDF drawing replaced by the
        row values: the ISO week of the selected day, the query, the
        by-date index, the loop over the seven days accumulating the
        totals, and the file name in `home`. */
    method ExportWeekBySelectedDay(selected: nat, table: ShiftTable, home: string, existing: set<string>)
      returns (res: Result<Export, ExportError>)
      ensures res.Ok? <==> BuildReport(selected, table.rows).Ok?
      ensures res.Err? ==> res.error == BuildReport(selected, table.rows).error
      ensures res.Ok? ==>
        res.value.report == BuildReport(selected, table.rows).value &&
        res.value.path !in existing &&
        ChosenPath(existing, home, res.value.report.week, res.value.report.isoYear, res.value.path)
    {
      var isoYear, week := IsoYear(selected), IsoWeek(selected);
      IsoRoundTrip(selected);
      var monday: nat := FromIsoCalendar(isoYear, week, 1);
      var sunday := monday + 6;
      var byDate := IndexByDate(Query(table.rows, monday, sunday));
      WeekReportParts(isoYear, week, monday, table.rows);
      assert BuildReport(selected, table.rows) == WeekReport(isoYear, week, monday, table.rows);
      var rows := EmitRows(byDate, monday);
      if rows.Err? {
        return Err(rows.error);
      }
      var (dayRows, totalHours, totalOt) := rows.value;
      var report := Report(isoYear, week, monday, sunday, dayRows, totalHours, totalOt);
      var path := SafePdfFilename(week, isoYear, home, existing);
      res := Ok(Export(report, path));
    }
  }

  /** The month shown by the calendar popup. */
  class CalendarPopup {
    var year: int
    var month: int

    ghost predicate Valid()
      reads this
    {
      1 <= month <= 12
    }

    /** Months counted from year 0, January: one step of navigation moves
        this by exactly one. */
    function MonthIndex(): int
      reads this
    {
      year * 12 + (month - 1)
    }

    constructor (year: int, month: int)
      requires 1 <= month <= 12
      ensures Valid() && this.year == year && this.month == month
    {
      this.year := year;
      this.month := month;
    }

    /** prev_month: one month back, wrapping from January to December of the
        previous year. */
    method PrevMonth()
      requires Valid()
      modifies this
      ensures Valid()
      ensures MonthIndex() == old(MonthIndex()) - 1
      ensures old(month) == 1 ==> month == 12 && year == old(year) - 1
      ensures old(month) > 1 ==> month == old(month) - 1 && year == old(year)
    {
      month := month - 1;
      if month < 1 {
        month := 12;
        year := year - 1;
      }
    }

    /** next_month: one month forward, wrapping from December to January of
        the next year. */
    method NextMonth()
      requires Valid()
      modifies this
      ensures Valid()
      ensures MonthIndex() == old(MonthIndex()) + 1
      ensures old(month) == 12 ==> month == 1 && year == old(year) + 1
      ensures old(month) < 12 ==> month == old(month) + 1 && year == old(year)
    {
      month := month + 1;
      if month > 12 {
        month := 1;
        year := year + 1;
      }
    }
  }
}
