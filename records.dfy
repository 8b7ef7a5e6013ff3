/** The shifts table: one record per completed interval, and the one-time
    backfill of the shift letter for legacy rows. */
module Records {
  import opened Wrappers
  import Shift

  /** A clock_in / clock_out text cell: either it parses with the format
      "%Y-%m-%d %H:%M:%S" (and then is a timestamp in seconds), or it does
      not. */
  datatype Stamp = Readable(seconds: nat) | Garbled

  /** A row of the shifts table. Nullable columns are Options; hours is the
      duration column in hundredths of an hour. */
  datatype Record = Record(
    id: int,
    clockIn: Option<Stamp>,
    clockOut: Option<Stamp>,
    hours: Option<int>,
    shift: Option<string>)

  /** round(seconds / 3600, 2), as hundredths of an hour (ties round up). */
  function RoundedHours(seconds: int): (h: int)
    ensures 3600 * h - 1800 <= 100 * seconds < 3600 * h + 1800
  {
    (seconds + 18) / 36
  }

  /** The record clock_out inserts for a session [start, end). */
  function ClosedRecord(id: int, start: nat, end: nat): Record {
    Record(id, Some(Readable(start)), Some(Readable(end)),
           Some(RoundedHours(end - start)), Some(Shift.Letter(Shift.Classify(start, end))))
  }

  /** The WHERE clause of the backfill query: shift NULL or empty, both
      timestamps present. */
  predicate NeedsShift(r: Record) {
    (r.shift.None? || r.shift == Some("")) && r.clockIn.Some? && r.clockOut.Some?
  }

  /** One iteration of the backfill loop: rows whose timestamps do not parse
      are skipped. */
  function BackfillRow(r: Record): Record {
    if NeedsShift(r) && r.clockIn.value.Readable? && r.clockOut.value.Readable? then
      r.(shift := Some(Shift.Letter(Shift.Classify(r.clockIn.value.seconds, r.clockOut.value.seconds))))
    else r
  }

  function BackfillAll(rows: seq<Record>): seq<Record>
    decreases |rows|
  {
    if rows == [] then []
    else BackfillAll(rows[..|rows| - 1]) + [BackfillRow(rows[|rows| - 1])]
  }

  /** The backfill works row by row and keeps the table's order and length. */
  lemma {:induction false} BackfillAllAt(rows: seq<Record>)
    ensures |BackfillAll(rows)| == |rows|
    ensures forall i :: 0 <= i < |rows| ==> BackfillAll(rows)[i] == BackfillRow(rows[i])
    decreases |rows|
  {
    if rows != [] {
      BackfillAllAt(rows[..|rows| - 1]);
    }
  }

  /** The backfill changes only the shift column, only of rows the query
      selects, and gives every selected row whose timestamps parse the
      classifier's letter. */
  lemma BackfillRowChanges(r: Record)
    ensures BackfillRow(r).(shift := r.shift) == r
    ensures !NeedsShift(r) ==> BackfillRow(r) == r
    ensures NeedsShift(r) && r.clockIn.value.Readable? && r.clockOut.value.Readable? ==>
      BackfillRow(r).shift == Some(Shift.Letter(Shift.Classify(r.clockIn.value.seconds, r.clockOut.value.seconds)))
    ensures BackfillRow(r) != r ==>
      NeedsShift(r) && r.clockIn.value.Readable? && r.clockOut.value.Readable? &&
      BackfillRow(r).shift == Some(Shift.Letter(Shift.Classify(r.clockIn.value.seconds, r.clockOut.value.seconds)))
    ensures r.shift.Some? && r.shift.value != "" ==> BackfillRow(r) == r
  {
  }

  /** After one pass no row that the pass could fill is left without a
      letter, so a second pass changes nothing. */
  lemma BackfillRowIdempotent(r: Record)
    ensures BackfillRow(BackfillRow(r)) == BackfillRow(r)
  {
    if NeedsShift(r) && r.clockIn.value.Readable? && r.clockOut.value.Readable? {
      var b := Shift.Classify(r.clockIn.value.seconds, r.clockOut.value.seconds);
      assert |Shift.Letter(b)| == 1;
    }
  }

  lemma {:induction false} BackfillIdempotent(rows: seq<Record>)
    ensures BackfillAll(BackfillAll(rows)) == BackfillAll(rows)
    decreases |rows|
  {
    if rows != [] {
      var init, last := rows[..|rows| - 1], rows[|rows| - 1];
      var once := BackfillAll(rows);
      BackfillIdempotent(init);
      BackfillAllAt(init);
      assert once[..|once| - 1] == BackfillAll(init);
      BackfillRowIdempotent(last);
    }
  }

  /** Rows with a non-empty shift keep it, every other column of every
      row is kept, and every selected row whose timestamps parse is filled
      with the classifier's letter. */
  lemma BackfillKeeps(rows: seq<Record>, i: int)
    requires 0 <= i < |rows|
    ensures |BackfillAll(rows)| == |rows|
    ensures BackfillAll(rows)[i].(shift := rows[i].shift) == rows[i]
    ensures rows[i].shift.Some? && rows[i].shift.value != "" ==> BackfillAll(rows)[i] == rows[i]
    ensures var r := rows[i];
      NeedsShift(r) && r.clockIn.value.Readable? && r.clockOut.value.Readable? ==>
      BackfillAll(rows)[i].shift == Some(Shift.Letter(Shift.Classify(r.clockIn.value.seconds, r.clockOut.value.seconds)))
  {
    BackfillAllAt(rows);
    BackfillRowChanges(rows[i]);
  }

  /** A record written by clock_out already has its letter. */
  lemma ClosedRecordComplete(id: int, start: nat, end: nat)
    ensures !NeedsShift(ClosedRecord(id, start, end))
    ensures BackfillRow(ClosedRecord(id, start, end)) == ClosedRecord(id, start, end)
  {
    assert |Shift.Letter(Shift.Classify(start, end))| == 1;
  }

  /** The largest id of a non-empty table. */
  function MaxId(rows: seq<Record>): (m: int)
    requires rows != []
    ensures forall r :: r in rows ==> r.id <= m
    ensures exists k :: 0 <= k < |rows| && rows[k].id == m
    decreases |rows|
  {
    var last := rows[|rows| - 1];
    if |rows| == 1 then last.id
    else
      var init := rows[..|rows| - 1];
      var m := MaxId(init);
      assert forall r :: r in rows ==> r in init || r == last;
      var k :| 0 <= k < |init| && init[k].id == m;
      assert rows[k] == init[k];
      if last.id > m then last.id else m
  }

  /** The id SQLite assigns to the next inserted row: 1 in an empty table,
      otherwise one past the largest id. */
  function NextId(rows: seq<Record>): (id: int)
    ensures forall r :: r in rows ==> r.id < id
    ensures rows == [] ==> id == 1
    ensures rows != [] ==> exists k :: 0 <= k < |rows| && id == rows[k].id + 1
  {
    if rows == [] then 1 else MaxId(rows) + 1
  }

  /** The id column is the table's primary key: no two rows share an id. */
  ghost predicate DistinctIds(rows: seq<Record>) {
    forall i, j :: 0 <= i < j < |rows| ==> rows[i].id != rows[j].id
  }

  /** Appending the row with the next id keeps the ids distinct. */
  lemma AppendNextId(rows: seq<Record>, r: Record)
    requires DistinctIds(rows)
    requires r.id == NextId(rows)
    ensures DistinctIds(rows + [r])
  {
    var s := rows + [r];
    forall i, j | 0 <= i < j < |s| ensures s[i].id != s[j].id {
      if j == |rows| {
        assert s[i] == rows[i] && rows[i] in rows;
      } else {
        assert s[i] == rows[i] && s[j] == rows[j];
      }
    }
  }

  /** What the database does with clock_out's write: the INSERT and the
      commit both succeed; the INSERT fails and nothing is written; or the
      INSERT succeeds and the commit fails (the database is locked, say),
      leaving the row pending in the connection's open transaction. */
  datatype WriteOutcome = Committed | InsertFailed | CommitFailed

  /** A write whose commit failed, then a retried clock_out of the same
      session: the connection ends up with two rows for that session, with
      different ids. */
  lemma RetryAfterCommitFailure(rows: seq<Record>, start: nat, end1: nat, end2: nat)
    requires DistinctIds(rows)
    ensures var first := rows + [ClosedRecord(NextId(rows), start, end1)];
      var second := first + [ClosedRecord(NextId(first), start, end2)];
      DistinctIds(second) && |second| == |rows| + 2 &&
      second[|rows|].clockIn == second[|rows| + 1].clockIn == Some(Readable(start)) &&
      second[|rows|].id != second[|rows| + 1].id
  {
    var first := rows + [ClosedRecord(NextId(rows), start, end1)];
    AppendNextId(rows, ClosedRecord(NextId(rows), start, end1));
    AppendNextId(first, ClosedRecord(NextId(first), start, end2));
  }

  /** The backfill changes no id, so it keeps them distinct. */
  lemma BackfillDistinct(rows: seq<Record>)
    requires DistinctIds(rows)
    ensures DistinctIds(BackfillAll(rows))
  {
    BackfillAllAt(rows);
    var s := BackfillAll(rows);
    forall i, j | 0 <= i < j < |s| ensures s[i].id != s[j].id {
      BackfillRowChanges(rows[i]);
      BackfillRowChanges(rows[j]);
    }
  }

  /** The table, which the program only appends to and backfills. Its id
      column is the primary key, so updating a row by id is updating it in
      place by position. */
  class ShiftTable {
    var rows: seq<Record>

    ghost predicate Valid()
      reads this
    {
      DistinctIds(rows)
    }

    constructor (rows: seq<Record>)
      requires DistinctIds(rows)
      ensures Valid()
      ensures this.rows == rows
    {
      this.rows := rows;
    }

    /** INSERT of a completed interval followed by the commit; `outcome`
        is what the database does with them. Only a committed write reports
        success, but a row whose commit failed stays pending on the
        connection, so every later statement on it sees the row. */
    method Insert(start: nat, end: nat, outcome: WriteOutcome) returns (ok: bool)
      requires Valid()
      modifies this
      ensures Valid()
      ensures ok <==> outcome == Committed
      ensures rows == if outcome == InsertFailed then old(rows)
                      else old(rows) + [ClosedRecord(NextId(old(rows)), start, end)]
    {
      ok := outcome == Committed;
      if outcome != InsertFailed {
        AppendNextId(rows, ClosedRecord(NextId(rows), start, end));
        rows := rows + [ClosedRecord(NextId(rows), start, end)];
      }
    }

    /** ensure_shift_column_and_backfill, from the SELECT on: each selected
        row gets the letter of its interval. */
    method Backfill()
      requires Valid()
      modifies this
      ensures Valid()
      ensures rows == BackfillAll(old(rows))
    {
      ghost var before := rows;
      var i := 0;
      while i < |rows|
        invariant 0 <= i <= |rows| == |before|
        invariant forall j :: 0 <= j < i ==> rows[j] == BackfillRow(before[j])
        invariant forall j :: i <= j < |rows| ==> rows[j] == before[j]
      {
        var r := rows[i];
        if NeedsShift(r) && r.clockIn.value.Readable? && r.clockOut.value.Readable? {
          var b := Shift.DetermineShift(r.clockIn.value.seconds, r.clockOut.value.seconds);
          rows := rows[i := r.(shift := Some(Shift.Letter(b)))];
        }
        assert rows[i] == BackfillRow(before[i]);
        i := i + 1;
      }
      BackfillAllAt(before);
      BackfillDistinct(before);
    }
  }
}
