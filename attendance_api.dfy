/**
 * The attendance HTTP endpoints of the FastAPI app (`api/attendance.py`): the
 * content-type check of `/mark`, the per-date counts, the validation order of
 * `/override`, the per-session recognition rate, and the analytics summary with
 * its per-day breakdown. Rounding to two decimals is not modelled.
 */
module AttendanceApi {
  import opened Wrappers
  import opened Numeric
  import opened Text
  import opened Svc = AttendanceService

  const Ok: nat := 200
  const BadRequest: nat := 400
  const NotFound: nat := 404

  // ------------------------------------------------------------------- /mark

  /** `file.content_type.startswith('image/')`. */
  predicate IsImageType(contentType: string)
  {
    StartsWith(contentType, "image/")
  }

  /** Image types pass; a bare "image", text and PDF uploads do not. */
  lemma ContentTypeExamples()
    ensures IsImageType("image/jpeg") && IsImageType("image/png")
    ensures !IsImageType("image") && !IsImageType("text/plain") && !IsImageType("application/pdf")
  {
    assert "image/jpeg"[..6] == "image/";
    assert "image/png"[..6] == "image/";
    assert "text/plain"[0] != "image/"[0];
    assert "application/pdf"[0] != "image/"[0];
  }

  /** An upload is accepted exactly when its type has six or more characters of which the first six are "image/". */
  lemma ImageTypeMeansImagePrefix(contentType: string)
    ensures IsImageType(contentType) <==>
      |contentType| >= 6 && forall i :: 0 <= i < 6 ==> contentType[i] == "image/"[i]
  {
    if |contentType| >= 6 && forall i :: 0 <= i < 6 ==> contentType[i] == "image/"[i] {
      assert contentType[..6] == "image/";
    }
  }

  /**
   * `/mark`: 400 for a non-image upload (the service is never called), 400
   * when the service reports a failure, 200 with the service's report otherwise.
   */
  function MarkResponse(contentType: string, service: Result<MarkReport, MarkError>): (r: (nat, Option<MarkReport>))
    ensures r.0 == Ok <==> IsImageType(contentType) && service.Success?
    ensures r.0 != Ok ==> r.0 == BadRequest && r.1 == None
    ensures r.0 == Ok ==> r.1 == Some(service.value)
  {
    if !IsImageType(contentType) then (BadRequest, None)
    else if service.Failure? then (BadRequest, None)
    else (Ok, Some(service.value))
  }

  // ------------------------------------------------------------ /{target_date}

  /** The rows whose status is exactly "Present". */
  function CountPresent(rows: seq<AttendanceRow>): (n: nat)
    ensures n <= |rows|
  {
    if rows == [] then 0
    else CountPresent(rows[..|rows| - 1]) + (if rows[|rows| - 1].status == "Present" then 1 else 0)
  }

  /** `get_attendance_by_date`'s query: the rows of one date, in table order. */
  function RowsOn(rows: seq<AttendanceRow>, d: int): (r: seq<AttendanceRow>)
    ensures forall x :: x in r <==> x in rows && x.date == d
    ensures |r| <= |rows|
  {
    if rows == [] then []
    else
      var n := |rows| - 1;
      RowsOn(rows[..n], d) + (if rows[n].date == d then [rows[n]] else [])
  }

  datatype DaySummary = DaySummary(totalStudents: nat, present: nat, absent: int, percentage: real)

  /**
   * The counts of `get_attendance_by_date`: present rows of the date, absent as
   * active students minus present, and the percentage (0 without students).
   */
  function ByDate(rows: seq<AttendanceRow>, d: int, activeStudents: nat): (s: DaySummary)
    ensures s.present + s.absent == s.totalStudents == activeStudents
    ensures s.present == CountPresent(RowsOn(rows, d))
    ensures activeStudents == 0 ==> s.percentage == 0.0
    ensures s.present <= activeStudents ==> s.absent >= 0 && 0.0 <= s.percentage <= 100.0
    ensures activeStudents > 0 ==> (s.percentage == 100.0 <==> s.absent == 0)
  {
    var present := CountPresent(RowsOn(rows, d));
    DaySummary(activeStudents, present, activeStudents - present, Percentage(present, activeStudents))
  }

  /**
   * The absent count is not clamped: present rows of students no longer active
   * make it negative.
   */
  lemma AbsentCanBeNegative()
    ensures ByDate([AttendanceRow(1, 5, "Present", 0, Manual)], 5, 0).absent == -1
  {
    var rows := [AttendanceRow(1, 5, "Present", 0, Manual)];
    assert rows[..0] == [];
    assert RowsOn(rows, 5) == rows;
    assert CountPresent(rows) == 1;
  }

  // ---------------------------------------------------------------- /override

  /** The two accepted statuses. */
  predicate ValidStatus(status: string)
  {
    status == "Present" || status == "Absent"
  }

  /**
   * `/override`: the student's existence is checked first (404), then the
   * status (400); the service call happens only when both pass.
   */
  method OverrideEndpoint(svc: Svc.AttendanceService, db: Database, studentId: int, date: int,
                          status: string, now: int) returns (code: nat)
    modifies db`attendance
    ensures studentId !in db.students ==> code == NotFound && db.attendance == old(db.attendance)
    ensures studentId in db.students && !ValidStatus(status) ==> code == BadRequest && db.attendance == old(db.attendance)
    ensures studentId in db.students && ValidStatus(status) ==>
      code == Ok && db.attendance == OverrideRows(old(db.attendance), studentId, date, status, now)
  {
    if studentId !in db.students {
      return NotFound;
    }
    if !ValidStatus(status) {
      return BadRequest;
    }
    var _ := svc.OverrideAttendance(studentId, date, status, now, db);
    code := Ok;
  }

  /** After an accepted override (a valid status), the status read back for that student and date is the new one. */
  lemma OverrideReadsBack(rows: seq<AttendanceRow>, studentId: int, date: int, status: string, now: int)
    requires ValidStatus(status)
    ensures StatusOn(OverrideRows(rows, studentId, date, status, now), studentId, date) == Some(status)
    ensures ValidStatus(StatusOn(OverrideRows(rows, studentId, date, status, now), studentId, date).value)
  {
    OverrideThenLookup(rows, studentId, date, status, now, studentId, date);
  }

  // ------------------------------------------------------ /sessions/{date}

  /** `recognition_rate`: recognised over detected, as a percentage; 0 when nothing was detected. */
  function RecognitionRate(s: SessionRow): (r: real)
    ensures s.totalDetected == 0 ==> r == 0.0
    ensures s.totalRecognized <= s.totalDetected ==> 0.0 <= r <= 100.0
  {
    Percentage(s.totalRecognized, s.totalDetected)
  }

  /** The sessions of one date, in table order. */
  function SessionsOn(sessions: seq<SessionRow>, d: int): (r: seq<SessionRow>)
    ensures forall x :: x in r <==> x in sessions && x.date == d
  {
    if sessions == [] then []
    else
      var n := |sessions| - 1;
      SessionsOn(sessions[..n], d) + (if sessions[n].date == d then [sessions[n]] else [])
  }

  // ------------------------------------------------------ /analytics/summary

  /** The rows with `start <= date <= end`, in table order. */
  function RowsBetween(rows: seq<AttendanceRow>, start: int, end: int): (r: seq<AttendanceRow>)
    ensures forall x :: x in r <==> x in rows && start <= x.date <= end
  {
    if rows == [] then []
    else
      var n := |rows| - 1;
      RowsBetween(rows[..n], start, end) + (if start <= rows[n].date <= end then [rows[n]] else [])
  }

  /** The distinct dates of the rows. */
  function Dates(rows: seq<AttendanceRow>): (s: set<int>)
    ensures forall r :: r in rows ==> r.date in s
    ensures forall d :: d in s ==> exists r :: r in rows && r.date == d
  {
    if rows == [] then {}
    else
      var n := |rows| - 1;
      assert rows == rows[..n] + [rows[n]];
      Dates(rows[..n]) + {rows[n].date}
  }

  function StudentIds(rows: seq<AttendanceRow>): set<int>
  {
    set r | r in rows :: r.studentId
  }

  datatype Analytics = Analytics(totalDays: nat, totalRecords: nat, presentRecords: nat, absentRecords: int,
                                 uniqueStudents: nat, averagePercentage: real)

  /** The summary part of `get_attendance_analytics`. */
  function Summary(records: seq<AttendanceRow>): (a: Analytics)
    ensures a.presentRecords + a.absentRecords == a.totalRecords == |records|
    ensures a.presentRecords == CountPresent(records) && a.absentRecords >= 0
    ensures a.totalDays == |Dates(records)| && a.uniqueStudents == |StudentIds(records)|
    ensures records == [] ==> a.averagePercentage == 0.0
    ensures 0.0 <= a.averagePercentage <= 100.0
  {
    var total := |records|;
    var present := CountPresent(records);
    Analytics(|Dates(records)|, total, present, total - present, |StudentIds(records)|, Percentage(present, total))
  }

  /** One record's effect on the per-day counters: a new day starts at (0, 0), then present or absent goes up by one. */
  function DailyStep(m: map<int, (nat, nat)>, r: AttendanceRow): map<int, (nat, nat)>
  {
    var c := if r.date in m then m[r.date] else (0, 0);
    m[r.date := if r.status == "Present" then (c.0 + 1, c.1) else (c.0, c.1 + 1)]
  }

  /** The per-day counters the analytics loop builds: present, and anything else counted as absent. */
  function Daily(records: seq<AttendanceRow>): map<int, (nat, nat)>
  {
    if records == [] then map[]
    else DailyStep(Daily(records[..|records| - 1]), records[|records| - 1])
  }

  /** The breakdown has one entry per distinct date, so `total_days` counts its days. */
  lemma {:induction false} DailyKeys(records: seq<AttendanceRow>)
    ensures Daily(records).Keys == Dates(records)
  {
    if records != [] {
      DailyKeys(records[..|records| - 1]);
    }
  }

  /** A date with no record has no rows. */
  lemma {:induction false} NoRowsOffTheDates(rows: seq<AttendanceRow>, d: int)
    requires d !in Dates(rows)
    ensures RowsOn(rows, d) == []
  {
    if rows != [] {
      var n := |rows| - 1;
      assert rows[..n] + [rows[n]] == rows;
      NoRowsOffTheDates(rows[..n], d);
    }
  }

  /** Each day of the breakdown counts exactly that day's records: its present ones, and the rest as absent. */
  lemma {:induction false} DailyCounts(records: seq<AttendanceRow>, d: int)
    requires d in Daily(records)
    ensures Daily(records)[d].0 == CountPresent(RowsOn(records, d))
    ensures Daily(records)[d].0 + Daily(records)[d].1 == |RowsOn(records, d)|
  {
    var n := |records| - 1;
    var prefix, r := records[..n], records[n];
    assert records == prefix + [r];
    if d in Daily(prefix) {
      DailyCounts(prefix, d);
    }
    if r.date == d {
      DailyCountsSameDay(prefix, r);
    } else {
      DailyCountsOtherDay(prefix, r, d);
    }
  }

  /** A record on day d: day d's counters follow its rows with the record appended. */
  lemma DailyCountsSameDay(prefix: seq<AttendanceRow>, r: AttendanceRow)
    requires r.date in Daily(prefix) ==>
      Daily(prefix)[r.date].0 == CountPresent(RowsOn(prefix, r.date))
      && Daily(prefix)[r.date].0 + Daily(prefix)[r.date].1 == |RowsOn(prefix, r.date)|
    ensures var records := prefix + [r];
      Daily(records)[r.date].0 == CountPresent(RowsOn(records, r.date))
      && Daily(records)[r.date].0 + Daily(records)[r.date].1 == |RowsOn(records, r.date)|
  {
    var records := prefix + [r];
    var d := r.date;
    var m := Daily(prefix);
    var here := RowsOn(prefix, d);
    var c := if d in m then m[d] else (0, 0);
    assert c.0 == CountPresent(here) && c.0 + c.1 == |here| by {
      if d !in m {
        DailyKeys(prefix);
        NoRowsOffTheDates(prefix, d);
      }
    }
    DailySnoc(prefix, r);
    RowsOnSnoc(prefix, r, d);
    TallyStep(Daily(records)[d], c, here, r, RowsOn(records, d));
  }

  /** The breakdown of one more record is one more step. */
  lemma DailySnoc(prefix: seq<AttendanceRow>, r: AttendanceRow)
    ensures Daily(prefix + [r]) == DailyStep(Daily(prefix), r)
  {
    assert (prefix + [r])[..|prefix|] == prefix;
  }

  /** One more record adds itself to its own day's rows and nothing to the other days. */
  lemma RowsOnSnoc(prefix: seq<AttendanceRow>, r: AttendanceRow, d: int)
    ensures RowsOn(prefix + [r], d) == RowsOn(prefix, d) + (if r.date == d then [r] else [])
  {
    assert (prefix + [r])[..|prefix|] == prefix;
  }

  /** Adding record r to a day's rows moves its counters by one, on the side of r's status. */
  lemma TallyStep(v: (nat, nat), c: (nat, nat), here: seq<AttendanceRow>, r: AttendanceRow, rows: seq<AttendanceRow>)
    requires v == (if r.status == "Present" then (c.0 + 1, c.1) else (c.0, c.1 + 1))
    requires rows == here + [r]
    requires c.0 == CountPresent(here) && c.0 + c.1 == |here|
    ensures v.0 == CountPresent(rows) && v.0 + v.1 == |rows|
  {
    assert rows[..|here|] == here;
  }

  /** A record on another day leaves day d's counters and rows as they were. */
  lemma DailyCountsOtherDay(prefix: seq<AttendanceRow>, r: AttendanceRow, d: int)
    requires r.date != d
    requires d in Daily(prefix + [r])
    ensures d in Daily(prefix)
    ensures Daily(prefix + [r])[d] == Daily(prefix)[d]
    ensures RowsOn(prefix + [r], d) == RowsOn(prefix, d)
  {
    var records := prefix + [r];
    assert records[..|prefix|] == prefix;
    assert Daily(records) == DailyStep(Daily(prefix), r);
  }

  /** The distinct dates of the rows, in order of first appearance. */
  function DateList(rows: seq<AttendanceRow>): (ds: seq<int>)
    ensures forall d :: d in ds <==> d in Dates(rows)
    ensures forall i, j :: 0 <= i < j < |ds| ==> ds[i] != ds[j]
  {
    if rows == [] then []
    else
      var n := |rows| - 1;
      var earlier := DateList(rows[..n]);
      if rows[n].date in earlier then earlier else earlier + [rows[n].date]
  }

  /** Present plus absent, added up over the given days of a breakdown. */
  function DaySum(m: map<int, (nat, nat)>, ds: seq<int>): nat
    requires forall d :: d in ds ==> d in m
  {
    if ds == [] then 0
    else
      var n := |ds| - 1;
      var last := ds[n];
      assert last in ds && forall x :: x in ds[..n] ==> x in ds;
      DaySum(m, ds[..n]) + m[last].0 + m[last].1
  }

  /** Changing one day's counters changes the sum over distinct days by exactly that day's change. */
  lemma {:induction false} DaySumUpdate(m: map<int, (nat, nat)>, ds: seq<int>, d: int, v: (nat, nat))
    requires forall x :: x in ds ==> x in m
    requires forall i, j :: 0 <= i < j < |ds| ==> ds[i] != ds[j]
    ensures d !in ds ==> DaySum(m[d := v], ds) == DaySum(m, ds)
    ensures d in ds ==> DaySum(m[d := v], ds) == DaySum(m, ds) - m[d].0 - m[d].1 + v.0 + v.1
  {
    if ds != [] {
      var n := |ds| - 1;
      assert forall x :: x in ds[..n] ==> x in ds;
      DaySumUpdate(m, ds[..n], d, v);
      if ds[n] == d {
        assert d !in ds[..n];
      } else {
        assert d in ds ==> d in ds[..n];
      }
    }
  }

  /** Counting one more record adds one to the sum over the distinct days, the new day included. */
  lemma DaySumStep(m: map<int, (nat, nat)>, ds: seq<int>, r: AttendanceRow)
    requires forall x :: x in ds <==> x in m
    requires forall i, j :: 0 <= i < j < |ds| ==> ds[i] != ds[j]
    ensures var ds' := if r.date in ds then ds else ds + [r.date];
      (forall x :: x in ds' ==> x in DailyStep(m, r)) && DaySum(DailyStep(m, r), ds') == DaySum(m, ds) + 1
  {
    var c := if r.date in m then m[r.date] else (0, 0);
    var v := if r.status == "Present" then (c.0 + 1, c.1) else (c.0, c.1 + 1);
    assert DailyStep(m, r) == m[r.date := v];
    if r.date in ds {
      DaySumOldDay(m, ds, r.date, v);
    } else {
      DaySumNewDay(m, ds, r.date, v);
    }
  }

  /** A day already listed: the sum moves by that day's change. */
  lemma DaySumOldDay(m: map<int, (nat, nat)>, ds: seq<int>, d: int, v: (nat, nat))
    requires forall x :: x in ds ==> x in m
    requires forall i, j :: 0 <= i < j < |ds| ==> ds[i] != ds[j]
    requires d in ds
    ensures forall x :: x in ds ==> x in m[d := v]
    ensures DaySum(m[d := v], ds) == DaySum(m, ds) - m[d].0 - m[d].1 + v.0 + v.1
  {
    DaySumUpdate(m, ds, d, v);
  }

  /** A new day appended at the end: the sum grows by that day's counters. */
  lemma DaySumNewDay(m: map<int, (nat, nat)>, ds: seq<int>, d: int, v: (nat, nat))
    requires forall x :: x in ds ==> x in m
    requires forall i, j :: 0 <= i < j < |ds| ==> ds[i] != ds[j]
    requires d !in ds
    ensures forall x :: x in ds + [d] ==> x in m[d := v]
    ensures DaySum(m[d := v], ds + [d]) == DaySum(m, ds) + v.0 + v.1
  {
    DaySumUpdate(m, ds, d, v);
    var ds' := ds + [d];
    assert ds'[..|ds|] == ds;
    assert ds'[|ds|] == d;
  }

  /** Over the distinct dates, present plus absent adds up to the number of records (`total_records`). */
  lemma {:induction false} DailySum(records: seq<AttendanceRow>)
    ensures DailyKeysCover(records) && DaySum(Daily(records), DateList(records)) == |records|
  {
    if records != [] {
      var n := |records| - 1;
      var prefix := records[..n];
      DailySum(prefix);
      DailyKeys(prefix);
      DaySumStep(Daily(prefix), DateList(prefix), records[n]);
    }
  }

  /** Every date of the list has counters in the breakdown. */
  predicate DailyKeysCover(records: seq<AttendanceRow>)
  {
    forall d :: d in DateList(records) ==> d in Daily(records)
  }

  /** Extending the prefix by one record is one `DailyStep`. */
  lemma DailyExtend(records: seq<AttendanceRow>, i: nat)
    requires i < |records|
    ensures Daily(records[..i + 1]) == DailyStep(Daily(records[..i]), records[i])
  {
    assert records[..i + 1][..i] == records[..i];
  }

  /** The loop body of `get_attendance_analytics`: a new day starts at (0, 0), then one counter goes up. */
  method CountRecord(daily: map<int, (nat, nat)>, record: AttendanceRow) returns (updated: map<int, (nat, nat)>)
    ensures updated == DailyStep(daily, record)
  {
    updated := daily;
    if record.date !in updated {
      updated := updated[record.date := (0, 0)];
    }
    var counts := updated[record.date];
    if record.status == "Present" {
      updated := updated[record.date := (counts.0 + 1, counts.1)];
    } else {
      updated := updated[record.date := (counts.0, counts.1 + 1)];
    }
  }

  /** `get_attendance_analytics`: the summary, then the per-day loop. */
  method GetAttendanceAnalytics(rows: seq<AttendanceRow>, start: int, end: int)
    returns (summary: Analytics, daily: map<int, (nat, nat)>)
    ensures var records := RowsBetween(rows, start, end);
      summary == Summary(records) && daily == Daily(records)
      && daily.Keys == Dates(records) && summary.totalDays == |daily.Keys|
      && (forall d :: d in daily ==> daily[d].0 + daily[d].1 == |RowsOn(records, d)|)
      && DailyKeysCover(records) && DaySum(daily, DateList(records)) == summary.totalRecords
  {
    var records := RowsBetween(rows, start, end);
    summary := Summary(records);
    daily := map[];
    for i := 0 to |records|
      invariant daily == Daily(records[..i])
    {
      DailyExtend(records, i);
      daily := CountRecord(daily, records[i]);
    }
    assert records[..|records|] == records;
    DailyKeys(records);
    forall d | d in daily
      ensures daily[d].0 + daily[d].1 == |RowsOn(records, d)|
    {
      DailyCounts(records, d);
    }
    DailySum(records);
  }
}
