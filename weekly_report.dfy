/** The weekly export without the PDF drawing: the ISO week of the selected
    day, the rows of the table that start in it, one row value per day from
    Monday to Sunday, and the totals. */
module WeeklyReport {
  import opened Wrappers
  import opened Records
  import opened IsoCalendar

  /** The clock_in timestamp of a row (0 where it does not parse; such rows
      are never selected). */
  function InKey(r: Record): nat {
    if r.clockIn.Some? && r.clockIn.value.Readable? then r.clockIn.value.seconds else 0
  }

  /** date(clock_in) as a day number. */
  function StartDay(r: Record): nat {
    DayOf(InKey(r))
  }

  /** The WHERE clause of the export query: date(clock_in) BETWEEN monday
      AND sunday. A NULL or unparseable clock_in has no date and is never
      selected. */
  predicate InRange(r: Record, monday: nat, sunday: nat) {
    r.clockIn.Some? && r.clockIn.value.Readable? && monday <= StartDay(r) <= sunday
  }

  function Select(rows: seq<Record>, monday: nat, sunday: nat): (s: seq<Record>)
    ensures forall r :: r in s <==> r in rows && InRange(r, monday, sunday)
    decreases |rows|
  {
    if rows == [] then []
    else
      var init, last := rows[..|rows| - 1], rows[|rows| - 1];
      assert forall r :: r in rows <==> r in init || r == last;
      Select(init, monday, sunday) + (if InRange(last, monday, sunday) then [last] else [])
  }

  ghost predicate SortedByClockIn(s: seq<Record>) {
    forall i, j :: 0 <= i < j < |s| ==> InKey(s[i]) <= InKey(s[j])
  }

  /** Inserts x after every element whose clock_in is not later than x's. */
  function InsertByClockIn(x: Record, s: seq<Record>): (r: seq<Record>)
    requires SortedByClockIn(s)
    ensures SortedByClockIn(r)
    ensures forall y :: y in r <==> y == x || y in s
    decreases |s|
  {
    if s == [] then [x]
    else if InKey(x) < InKey(s[0]) then [x] + s
    else
      var rest := InsertByClockIn(x, s[1..]);
      assert s == [s[0]] + s[1..];
      assert forall y :: y in s[1..] ==> InKey(s[0]) <= InKey(y);
      ConsSorted(s[0], rest);
      [s[0]] + rest
  }

  lemma ConsSorted(x: Record, s: seq<Record>)
    requires SortedByClockIn(s)
    requires forall y :: y in s ==> InKey(x) <= InKey(y)
    ensures SortedByClockIn([x] + s)
  {
    var r := [x] + s;
    forall i, j | 0 <= i < j < |r| ensures InKey(r[i]) <= InKey(r[j]) {
      if i > 0 {
        assert r[i] == s[i - 1] && r[j] == s[j - 1];
      } else {
        assert r[j] == s[j - 1];
        assert s[j - 1] in s;
      }
    }
  }

  /** ORDER BY clock_in. */
  function SortByClockIn(s: seq<Record>): (r: seq<Record>)
    ensures SortedByClockIn(r)
    ensures forall y :: y in r <==> y in s
    decreases |s|
  {
    if s == [] then []
    else
      var init := s[..|s| - 1];
      assert forall y :: y in s <==> y in init || y == s[|s| - 1];
      InsertByClockIn(s[|s| - 1], SortByClockIn(init))
  }

  /** Inserting adds exactly one copy of x. */
  lemma {:induction false} InsertPermutes(x: Record, s: seq<Record>)
    requires SortedByClockIn(s)
    ensures multiset(InsertByClockIn(x, s)) == multiset(s) + multiset{x}
    decreases |s|
  {
    if s != [] && InKey(x) >= InKey(s[0]) {
      InsertPermutes(x, s[1..]);
      assert s == [s[0]] + s[1..];
    }
  }

  /** Sorting keeps every row, each as often as it occurs: the query's
      result is a permutation of the selected rows. */
  lemma {:induction false} SortPermutes(s: seq<Record>)
    ensures multiset(SortByClockIn(s)) == multiset(s)
    decreases |s|
  {
    if s != [] {
      var init := s[..|s| - 1];
      SortPermutes(init);
      InsertPermutes(s[|s| - 1], SortByClockIn(init));
      assert s == init + [s[|s| - 1]];
    }
  }

  /** The export query: the rows of the week in clock_in order. */
  function Query(rows: seq<Record>, monday: nat, sunday: nat): (q: seq<Record>)
    ensures SortedByClockIn(q)
    ensures forall r :: r in q <==> r in rows && InRange(r, monday, sunday)
  {
    SortByClockIn(Select(rows, monday, sunday))
  }

  /** The by_date dict comprehension: later rows overwrite earlier ones with
      the same start date. */
  function IndexByDate(s: seq<Record>): map<nat, Record>
    decreases |s|
  {
    if s == [] then map[]
    else IndexByDate(s[..|s| - 1])[StartDay(s[|s| - 1]) := s[|s| - 1]]
  }

  /** The position of the last row of s that starts on day d, or -1. */
  function LastIndexOn(s: seq<Record>, d: nat): (k: int)
    ensures -1 <= k < |s|
    ensures k >= 0 ==> StartDay(s[k]) == d
    ensures forall j :: k < j < |s| ==> StartDay(s[j]) != d
    decreases |s|
  {
    if s == [] then -1
    else if StartDay(s[|s| - 1]) == d then |s| - 1
    else LastIndexOn(s[..|s| - 1], d)
  }

  /** The dict has a day exactly when some row starts on it, and then holds
      the last such row. */
  lemma {:induction false} IndexByDateLast(s: seq<Record>, d: nat)
    ensures d in IndexByDate(s) <==> LastIndexOn(s, d) >= 0
    ensures d in IndexByDate(s) ==> IndexByDate(s)[d] == s[LastIndexOn(s, d)]
    decreases |s|
  {
    if s != [] {
      IndexByDateLast(s[..|s| - 1], d);
    }
  }

  /** In a query sorted by clock_in the surviving row has the greatest
      clock_in among the rows of its day. */
  lemma IndexByDateLatest(s: seq<Record>, d: nat, j: int)
    requires SortedByClockIn(s)
    requires 0 <= j < |s| && StartDay(s[j]) == d
    ensures d in IndexByDate(s)
    ensures InKey(s[j]) <= InKey(IndexByDate(s)[d])
  {
    IndexByDateLast(s, d);
  }

  datatype Rgb = Rgb(red: int, green: int, blue: int)

  /** PDF_ROW_RGB: the fill colour of a row by shift letter. */
  const PdfRowRgb: map<string, Rgb> :=
    map["O" := Rgb(185, 215, 255), "M" := Rgb(195, 245, 195), "N" := Rgb(255, 255, 190)]

  const White := Rgb(255, 255, 255)

  function Clamp(v: int): (c: int)
    ensures 0 <= c <= 255
    ensures 0 <= v <= 255 ==> c == v
    ensures v < 0 ==> c == 0
    ensures v > 255 ==> c == 255
  {
    if v < 0 then 0 else if v > 255 then 255 else v
  }

  /** PDF_ROW_RGB.get(letter, white), each component clamped to 0..255. */
  function RowColour(letter: string): (c: Rgb)
    ensures 0 <= c.red <= 255 && 0 <= c.green <= 255 && 0 <= c.blue <= 255
    ensures letter in PdfRowRgb ==> c == PdfRowRgb[letter]
    ensures letter !in PdfRowRgb ==> c == White
  {
    var rgb := if letter in PdfRowRgb then PdfRowRgb[letter] else White;
    Rgb(Clamp(rgb.red), Clamp(rgb.green), Clamp(rgb.blue))
  }

  /** The shift cell: the stored letter, or "" when it is NULL. */
  function ShiftText(shift: Option<string>): (s: string)
    ensures s == "" <==> shift.None? || shift.value == ""
    ensures s != "" ==> shift == Some(s)
  {
    if shift.Some? && shift.value != "" then shift.value else ""
  }

  /** max(0, hours - 8), in hundredths of an hour. */
  function Overtime(hours: int): (ot: int)
    ensures ot >= 0 && ot >= hours - 800
    ensures ot == 0 || ot == hours - 800
  {
    if hours > 800 then hours - 800 else 0
  }

  /** One table row of the export. A filled row carries the two timestamps
      (the PDF shows them as HH:MM), the hours, the overtime, the shift
      letter and the fill colour. */
  datatype DayRow =
    | Blank(date: nat)
    | Filled(date: nat, clockIn: nat, clockOut: nat, hours: int, overtime: int, shift: string, colour: Rgb)

  /** What makes the export raise before it writes anything: the row chosen
      for a day has no clock_out, one that does not parse, or no duration. */
  datatype ExportError =
    | MissingClockOut(day: nat)
    | UnreadableClockOut(day: nat)
    | MissingHours(day: nat)

  /** The body of the export loop for one day: a blank row for a day with
      no record; otherwise the record's row, or the error its first missing
      or unreadable column raises. */
  function DayRowFor(byDate: map<nat, Record>, day: nat): (row: Result<DayRow, ExportError>)
    ensures row.Ok? ==> row.value.date == day
    ensures row.Ok? && row.value.Blank? <==> day !in byDate
  {
    if day !in byDate then Ok(Blank(day))
    else
      var r := byDate[day];
      match r.clockOut
      case None => Err(MissingClockOut(day))
      case Some(Garbled) => Err(UnreadableClockOut(day))
      case Some(Readable(out)) =>
        match r.hours
        case None => Err(MissingHours(day))
        case Some(h) =>
          var letter := ShiftText(r.shift);
          Ok(Filled(day, InKey(r), out, h, Overtime(h), letter, RowColour(letter)))
  }

  /** The day of a record: its row exists exactly when clock_out is present
      and parses and the duration is present; otherwise the first of those
      that fails names the error; and a filled row shows that record's
      columns. */
  lemma DayRowCases(byDate: map<nat, Record>, day: nat)
    requires day in byDate
    ensures var row := DayRowFor(byDate, day);
      (row.Ok? <==> byDate[day].clockOut.Some? && byDate[day].clockOut.value.Readable? && byDate[day].hours.Some?)
    ensures var row := DayRowFor(byDate, day);
      byDate[day].clockOut.None? ==> row == Err(MissingClockOut(day))
    ensures var row := DayRowFor(byDate, day);
      byDate[day].clockOut == Some(Garbled) ==> row == Err(UnreadableClockOut(day))
    ensures var row := DayRowFor(byDate, day);
      byDate[day].clockOut.Some? && byDate[day].clockOut.value.Readable? && byDate[day].hours.None? ==>
      row == Err(MissingHours(day))
    ensures var row := DayRowFor(byDate, day);
      row.Ok? ==>
      var r := byDate[day];
      row.value.Filled? && row.value.clockIn == InKey(r) && r.clockOut == Some(Readable(row.value.clockOut)) &&
      r.hours == Some(row.value.hours) && row.value.shift == ShiftText(r.shift) &&
      row.value.overtime == Overtime(row.value.hours) && row.value.colour == RowColour(row.value.shift)
  {
  }

  /** The export writes one row for each day from Monday to Sunday. */
  const DaysPerWeek: nat := 7

  /** The rows of the first n days from monday; the first failing day stops
      the export. */
  function WeekRows(byDate: map<nat, Record>, monday: nat, n: nat): Result<seq<DayRow>, ExportError>
    decreases n
  {
    if n == 0 then Ok([])
    else
      match WeekRows(byDate, monday, n - 1)
      case Err(e) => Err(e)
      case Ok(rows) =>
        match DayRowFor(byDate, monday + n - 1)
        case Err(e) => Err(e)
        case Ok(row) => Ok(rows + [row])
  }

  /** The rows succeed exactly when every day's row does, and are then the
      day rows in order. */
  lemma {:induction false} WeekRowsAt(byDate: map<nat, Record>, monday: nat, n: nat)
    ensures WeekRows(byDate, monday, n).Ok? <==> forall d :: monday <= d < monday + n ==> DayRowFor(byDate, d).Ok?
    ensures WeekRows(byDate, monday, n).Ok? ==>
      |WeekRows(byDate, monday, n).value| == n &&
      forall i :: 0 <= i < n ==> WeekRows(byDate, monday, n).value[i] == DayRowFor(byDate, monday + i).value
    decreases n
  {
    if n > 0 {
      WeekRowsAt(byDate, monday, n - 1);
    }
  }

  /** An error at some day is the error of the whole week. */
  lemma {:induction false} WeekRowsErrorStays(byDate: map<nat, Record>, monday: nat, n: nat, m: nat)
    requires n <= m
    requires WeekRows(byDate, monday, n).Err?
    ensures WeekRows(byDate, monday, m) == WeekRows(byDate, monday, n)
    decreases m - n
  {
    if n < m {
      WeekRowsErrorStays(byDate, monday, n, m - 1);
    }
  }

  /** total_hours: the sum of the hours of the filled rows. */
  function SumHours(rows: seq<DayRow>): int
    decreases |rows|
  {
    if rows == [] then 0
    else SumHours(rows[..|rows| - 1]) + (if rows[|rows| - 1].Filled? then rows[|rows| - 1].hours else 0)
  }

  /** total_ot: the sum of the overtime of the filled rows. */
  function SumOvertime(rows: seq<DayRow>): int
    decreases |rows|
  {
    if rows == [] then 0
    else SumOvertime(rows[..|rows| - 1]) + (if rows[|rows| - 1].Filled? then rows[|rows| - 1].overtime else 0)
  }

  /** Overtime totals are never negative and, when no row has negative
      hours, never exceed the hour totals. */
  lemma {:induction false} TotalsBounds(rows: seq<DayRow>)
    requires forall i :: 0 <= i < |rows| && rows[i].Filled? ==> rows[i].overtime == Overtime(rows[i].hours)
    ensures SumOvertime(rows) >= 0
    ensures (forall i :: 0 <= i < |rows| && rows[i].Filled? ==> rows[i].hours >= 0) ==>
      0 <= SumOvertime(rows) <= SumHours(rows)
    decreases |rows|
  {
    if rows != [] {
      TotalsBounds(rows[..|rows| - 1]);
    }
  }

  /** The hours a row adds to the totals: its own when it is filled. */
  function RowHours(row: DayRow): int {
    if row.Filled? then row.hours else 0
  }

  /** The overtime a row adds to the totals. */
  function RowOvertime(row: DayRow): int {
    if row.Filled? then row.overtime else 0
  }

  /** One more day of the loop: a failing day ends the week's rows with
      its error, a successful one extends them by its row and adds its
      hours and overtime to the totals. */
  lemma EmitStep(byDate: map<nat, Record>, monday: nat, n: nat, rows: seq<DayRow>)
    requires WeekRows(byDate, monday, n) == Ok(rows)
    ensures DayRowFor(byDate, monday + n).Err? ==>
      WeekRows(byDate, monday, n + 1) == Err(DayRowFor(byDate, monday + n).error)
    ensures DayRowFor(byDate, monday + n).Ok? ==>
      var row := DayRowFor(byDate, monday + n).value;
      WeekRows(byDate, monday, n + 1) == Ok(rows + [row]) &&
      SumHours(rows + [row]) == SumHours(rows) + RowHours(row) &&
      SumOvertime(rows + [row]) == SumOvertime(rows) + RowOvertime(row)
  {
    if DayRowFor(byDate, monday + n).Ok? {
      var row := DayRowFor(byDate, monday + n).value;
      assert (rows + [row])[..|rows|] == rows;
    }
  }

  /** The export's `while day <= sunday` loop: one row per day, total_hours
      and total_ot accumulated over the filled rows; the first failing day
      stops it. */
  method EmitRows(byDate: map<nat, Record>, monday: nat)
    returns (res: Result<(seq<DayRow>, int, int), ExportError>)
    ensures res.Ok? <==> WeekRows(byDate, monday, DaysPerWeek).Ok?
    ensures res.Err? ==> res.error == WeekRows(byDate, monday, DaysPerWeek).error
    ensures res.Ok? ==>
      var rows := WeekRows(byDate, monday, DaysPerWeek).value;
      res.value == (rows, SumHours(rows), SumOvertime(rows))
  {
    var sunday := monday + 6;
    var dayRows: seq<DayRow> := [];
    var totalHours, totalOt := 0, 0;
    var day := monday;
    while day <= sunday
      invariant monday <= day <= sunday + 1
      invariant WeekRows(byDate, monday, day - monday) == Ok(dayRows)
      invariant totalHours == SumHours(dayRows) && totalOt == SumOvertime(dayRows)
    {
      var row := DayRowFor(byDate, day);
      EmitStep(byDate, monday, day - monday, dayRows);
      if row.Err? {
        WeekRowsErrorStays(byDate, monday, day - monday + 1, DaysPerWeek);
        return Err(row.error);
      }
      totalHours := totalHours + RowHours(row.value);
      totalOt := totalOt + RowOvertime(row.value);
      dayRows := dayRows + [row.value];
      day := day + 1;
    }
    res := Ok((dayRows, totalHours, totalOt));
  }

  datatype Report = Report(
    isoYear: int,
    week: int,
    monday: nat,
    sunday: nat,
    rows: seq<DayRow>,
    totalHours: int,
    totalOvertime: int)

  /** The report of the week from monday to monday + 6. */
  function WeekReport(isoYear: int, week: int, monday: nat, table: seq<Record>): Result<Report, ExportError> {
    var byDate := IndexByDate(Query(table, monday, monday + 6));
    match WeekRows(byDate, monday, DaysPerWeek)
    case Err(e) => Err(e)
    case Ok(rows) => Ok(Report(isoYear, week, monday, monday + 6, rows, SumHours(rows), SumOvertime(rows)))
  }

  /** The export of the week that holds day `selected`, over the table rows. */
  function BuildReport(selected: nat, table: seq<Record>): Result<Report, ExportError> {
    WeekReport(IsoYear(selected), IsoWeek(selected), MondayOf(selected), table)
  }

  /** What WeekReport is made of. */
  lemma WeekReportParts(isoYear: int, week: int, monday: nat, table: seq<Record>)
    ensures var byDate := IndexByDate(Query(table, monday, monday + 6));
      var wr := WeekRows(byDate, monday, DaysPerWeek);
      var rep := WeekReport(isoYear, week, monday, table);
      (rep.Ok? <==> wr.Ok?) &&
      (rep.Err? ==> rep.error == wr.error) &&
      (rep.Ok? ==> rep.value == Report(isoYear, week, monday, monday + 6, wr.value,
                                       SumHours(wr.value), SumOvertime(wr.value)))
  {
  }

  /** The report covers the ISO week of the selected day: seven rows, one
      per day from its Monday to its Sunday in order. */
  lemma ReportWeek(selected: nat, table: seq<Record>)
    requires BuildReport(selected, table).Ok?
    ensures var rep := BuildReport(selected, table).value;
      rep.monday % 7 == 0 && rep.monday <= selected <= rep.sunday == rep.monday + 6 &&
      rep.isoYear >= 1 && 1 <= rep.week <= WeeksIn(rep.isoYear) <= 53 &&
      rep.monday == FromIsoCalendar(rep.isoYear, rep.week, 1) &&
      rep.isoYear == IsoYear(rep.monday) && rep.week == IsoWeek(rep.monday) &&
      |rep.rows| == 7 &&
      forall i :: 0 <= i < 7 ==> rep.rows[i].date == rep.monday + i
  {
    var monday := MondayOf(selected);
    var byDate := IndexByDate(Query(table, monday, monday + 6));
    WeekReportParts(IsoYear(selected), IsoWeek(selected), monday, table);
    WeekRowsAt(byDate, monday, DaysPerWeek);
    IsoRoundTrip(selected);
    IsoFromRoundTrip(IsoYear(selected), IsoWeek(selected), 1);
    var rows := WeekRows(byDate, monday, DaysPerWeek).value;
    assert forall i :: 0 <= i < 7 ==> rows[i] == DayRowFor(byDate, monday + i).value;
  }

  /** Row `row` of day `day` comes from the table rows of the week from
      monday to sunday: it is blank exactly when no such row starts on that
      day; otherwise it shows the clock_in, clock_out, hours and shift
      letter of one that does, and that one has the greatest clock_in of
      them. */
  ghost predicate RowFromTable(row: DayRow, day: nat, monday: nat, sunday: nat, table: seq<Record>) {
    (row.Blank? <==> forall r :: r in table && InRange(r, monday, sunday) ==> StartDay(r) != day) &&
    (row.Filled? ==>
      (exists r :: r in table && InRange(r, monday, sunday) && StartDay(r) == day &&
        row.clockIn == InKey(r) && r.clockOut == Some(Readable(row.clockOut)) &&
        r.hours == Some(row.hours) && row.shift == ShiftText(r.shift)) &&
      forall r :: r in table && InRange(r, monday, sunday) && StartDay(r) == day ==>
        InKey(r) <= row.clockIn)
  }

  /** Each of the seven rows of a report comes from the table rows of its
      day, the last one in query order. */
  lemma ReportRowSource(selected: nat, table: seq<Record>, i: int)
    requires BuildReport(selected, table).Ok?
    requires 0 <= i < 7
    ensures var rep := BuildReport(selected, table).value;
      |rep.rows| == 7 && RowFromTable(rep.rows[i], rep.monday + i, rep.monday, rep.sunday, table)
  {
    WeekReportRowSource(IsoYear(selected), IsoWeek(selected), MondayOf(selected), table, i);
  }

  lemma WeekReportRowSource(isoYear: int, week: int, monday: nat, table: seq<Record>, i: int)
    requires WeekReport(isoYear, week, monday, table).Ok?
    requires 0 <= i < 7
    ensures var rep := WeekReport(isoYear, week, monday, table).value;
      rep.monday == monday && rep.sunday == monday + 6 && |rep.rows| == 7 &&
      RowFromTable(rep.rows[i], monday + i, monday, monday + 6, table)
  {
    var q := Query(table, monday, monday + 6);
    WeekReportParts(isoYear, week, monday, table);
    var rows := WeekRows(IndexByDate(q), monday, DaysPerWeek).value;
    WeekRowSource(q, IndexByDate(q), monday, table, rows, i);
  }

  /** Row i of the loop's seven rows comes from the table rows of day
      monday + i. */
  lemma WeekRowSource(q: seq<Record>, byDate: map<nat, Record>, monday: nat, table: seq<Record>,
                       rows: seq<DayRow>, i: int)
    requires q == Query(table, monday, monday + 6)
    requires byDate == IndexByDate(q)
    requires WeekRows(byDate, monday, DaysPerWeek) == Ok(rows)
    requires 0 <= i < 7
    ensures |rows| == 7 && RowFromTable(rows[i], monday + i, monday, monday + 6, table)
  {
    WeekRowsAt(byDate, monday, DaysPerWeek);
    assert DayRowFor(byDate, monday + i) == Ok(rows[i]);
    DayRowSource(q, rows[i], monday + i, monday, monday + 6, table);
  }

  /** Row i of a week's report is the day row of day monday + i. */
  lemma WeekReportRow(isoYear: int, week: int, monday: nat, table: seq<Record>, i: int)
    requires WeekReport(isoYear, week, monday, table).Ok?
    requires 0 <= i < 7
    ensures var rep := WeekReport(isoYear, week, monday, table).value;
      var byDate := IndexByDate(Query(table, monday, monday + 6));
      rep.monday == monday && rep.sunday == monday + 6 && |rep.rows| == 7 &&
      DayRowFor(byDate, monday + i) == Ok(rep.rows[i])
  {
    var byDate := IndexByDate(Query(table, monday, monday + 6));
    WeekReportParts(isoYear, week, monday, table);
    WeekRowsAt(byDate, monday, DaysPerWeek);
    assert monday <= monday + i < monday + 7;
  }

  /** The row built for one day, from the sorted query of the week. */
  lemma DayRowSource(q: seq<Record>, row: DayRow, day: nat, monday: nat, sunday: nat, table: seq<Record>)
    requires q == Query(table, monday, sunday)
    requires DayRowFor(IndexByDate(q), day) == Ok(row)
    ensures RowFromTable(row, day, monday, sunday, table)
  {
    var byDate := IndexByDate(q);
    if day in byDate {
      var rec := byDate[day];
      IndexedLatest(q, day, monday, sunday, table);
      DayRowCases(byDate, day);
      assert rec in table && InRange(rec, monday, sunday) && StartDay(rec) == day;
    } else {
      NotIndexed(q, day, monday, sunday, table);
    }
  }

  /** The row the index keeps for a day is a row of the week that starts on
      that day, with the greatest clock_in among them. */
  lemma IndexedLatest(q: seq<Record>, day: nat, monday: nat, sunday: nat, table: seq<Record>)
    requires q == Query(table, monday, sunday)
    requires day in IndexByDate(q)
    ensures var rec := IndexByDate(q)[day];
      rec in table && InRange(rec, monday, sunday) && StartDay(rec) == day &&
      forall r :: r in table && InRange(r, monday, sunday) && StartDay(r) == day ==> InKey(r) <= InKey(rec)
  {
    IndexByDateLast(q, day);
    var k := LastIndexOn(q, day);
    assert q[k] in q;
    forall r | r in table && InRange(r, monday, sunday) && StartDay(r) == day
      ensures InKey(r) <= InKey(IndexByDate(q)[day])
    {
      var j :| 0 <= j < |q| && q[j] == r;
      IndexByDateLatest(q, day, j);
    }
  }

  /** A day the index lacks has no row of the week. */
  lemma NotIndexed(q: seq<Record>, day: nat, monday: nat, sunday: nat, table: seq<Record>)
    requires q == Query(table, monday, sunday)
    requires day !in IndexByDate(q)
    ensures forall r :: r in table && InRange(r, monday, sunday) ==> StartDay(r) != day
  {
    IndexByDateLast(q, day);
    forall r | r in table && InRange(r, monday, sunday)
      ensures StartDay(r) != day
    {
      var j :| 0 <= j < |q| && q[j] == r;
    }
  }

  /** Every filled row shows max(0, hours - 8) as overtime and the colour of
      its letter; the totals are the sums over the filled rows, the
      overtime total is never negative, and with no negative hours it is at
      most the hours total. */
  lemma ReportTotals(selected: nat, table: seq<Record>)
    requires BuildReport(selected, table).Ok?
    ensures var rep := BuildReport(selected, table).value;
      (forall i :: 0 <= i < |rep.rows| && rep.rows[i].Filled? ==>
        rep.rows[i].overtime == Overtime(rep.rows[i].hours) &&
        rep.rows[i].colour == RowColour(rep.rows[i].shift)) &&
      rep.totalHours == SumHours(rep.rows) && rep.totalOvertime == SumOvertime(rep.rows) &&
      rep.totalOvertime >= 0 &&
      ((forall i :: 0 <= i < |rep.rows| && rep.rows[i].Filled? ==> rep.rows[i].hours >= 0) ==>
        rep.totalOvertime <= rep.totalHours)
  {
    WeekReportTotals(IsoYear(selected), IsoWeek(selected), MondayOf(selected), table);
  }

  lemma WeekReportTotals(isoYear: int, week: int, monday: nat, table: seq<Record>)
    requires WeekReport(isoYear, week, monday, table).Ok?
    ensures var rep := WeekReport(isoYear, week, monday, table).value;
      (forall i :: 0 <= i < |rep.rows| && rep.rows[i].Filled? ==>
        rep.rows[i].overtime == Overtime(rep.rows[i].hours) &&
        rep.rows[i].colour == RowColour(rep.rows[i].shift)) &&
      rep.totalHours == SumHours(rep.rows) && rep.totalOvertime == SumOvertime(rep.rows) &&
      rep.totalOvertime >= 0 &&
      ((forall i :: 0 <= i < |rep.rows| && rep.rows[i].Filled? ==> rep.rows[i].hours >= 0) ==>
        rep.totalOvertime <= rep.totalHours)
  {
    var byDate := IndexByDate(Query(table, monday, monday + 6));
    WeekReportParts(isoYear, week, monday, table);
    WeekRowsAt(byDate, monday, DaysPerWeek);
    var rows := WeekRows(byDate, monday, DaysPerWeek).value;
    assert forall i :: 0 <= i < |rows| ==> rows[i] == DayRowFor(byDate, monday + i).value;
    TotalsBounds(rows);
  }

  /** The export fails exactly when the row chosen for some day of the week
      is incomplete. */
  lemma ReportFails(selected: nat, table: seq<Record>)
    ensures var monday := MondayOf(selected);
      var byDate := IndexByDate(Query(table, monday, monday + 6));
      BuildReport(selected, table).Err? <==> exists d :: monday <= d < monday + 7 && DayRowFor(byDate, d).Err?
  {
    WeekReportFails(IsoYear(selected), IsoWeek(selected), MondayOf(selected), table);
  }

  lemma WeekReportFails(isoYear: int, week: int, monday: nat, table: seq<Record>)
    ensures var byDate := IndexByDate(Query(table, monday, monday + 6));
      WeekReport(isoYear, week, monday, table).Err? <==>
      exists d :: monday <= d < monday + 7 && DayRowFor(byDate, d).Err?
  {
    var byDate := IndexByDate(Query(table, monday, monday + 6));
    WeekReportParts(isoYear, week, monday, table);
    WeekRowsAt(byDate, monday, DaysPerWeek);
  }

  /** Every day of one Monday-to-Sunday week selects the same report. */
  lemma ReportSameWeek(d1: nat, d2: nat, table: seq<Record>)
    requires d1 / 7 == d2 / 7
    ensures BuildReport(d1, table) == BuildReport(d2, table)
  {
    SameWeek(d1, d2);
  }

  /** 09:00 to 17:30 is stored as 8.50 hours and gives 0.50 overtime. */
  lemma NineToHalfPastFive(day: nat)
    ensures RoundedHours((day * 86400 + 63000) - (day * 86400 + 32400)) == 850
    ensures Overtime(850) == 50
  {
  }
}
