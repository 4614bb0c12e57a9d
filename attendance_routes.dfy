/** The handlers of backend/routes/attendance.js.

    Check-in and check-out change the store: they load today's document (or build a
    new one), change it in place, run the schema rule and save it. The other handlers
    read a snapshot of the rows (and of the users, for `populate`) and fold it into the
    response body. Every handler reads the clock once, as `now`. */
module AttendanceRoutes {
  import opened Wrappers
  import opened Calendar
  import opened AttendanceModel
  import opened Users
  import opened Records

  const AlreadyCheckedIn: string := "Already checked in today"
  const CheckInFirst: string := "You need to check in first"
  const AlreadyCheckedOut: string := "Already checked out today"

  /** What the handlers keep true of the collection: one row per user and day, each
      dated at the midnight starting its day, and no check-out without a check-in. */
  ghost predicate WellFormed(rows: seq<AttendanceRecord>) {
    && UniqueKeys(rows)
    && (forall r :: r in rows ==> TimeInDay(r.date) == 0)
    && (forall r :: r in rows ==> r.checkOutTime.Some? ==> r.checkInTime.Some?)
  }

  // ---------------------------------------------------------------------------
  // Check-in and check-out

  /** The outcome of `POST /checkin` at `now` for the given store: an error when
      today's row already has a check-in, else the row to save. */
  function CheckInOutcome(rows: seq<AttendanceRecord>, user: UserId, now: Instant): (res: Result<AttendanceRecord, string>)
    ensures var found := FindOne(rows, user, StartOfDay(now));
      && (res.Err? <==> found.Some? && found.value.checkInTime.Some?)
      && (res.Err? ==> res.error == AlreadyCheckedIn)
      && (res.Ok? ==>
            && HasKey(res.value, user, StartOfDay(now))
            && res.value.checkInTime == Some(now)
            && res.value.status == StatusFor(Some(now)) && res.value.status != Absent)
      && (res.Ok? && found.Some? ==>
            res.value == found.value.(checkInTime := Some(now), status := StatusFor(Some(now))))
      && (res.Ok? && found.None? ==>
            res.value.checkOutTime == None && res.value.totalHours == 0 && res.value.createdAt == now)
  {
    var today := StartOfDay(now);
    match FindOne(rows, user, today)
    case Some(a) =>
      if a.checkInTime.Some? then Err(AlreadyCheckedIn)
      else Ok(WithStatus(a.(checkInTime := Some(now))))
    case None => Ok(WithStatus(NewRecord(user, today, Some(now), now)))
  }

  /** The outcome of `POST /checkout`: "check in first" takes precedence over
      "already checked out"; otherwise today's row with the check-out set and the hours
      recomputed, its check-in and status kept. */
  function CheckOutOutcome(rows: seq<AttendanceRecord>, user: UserId, now: Instant): (res: Result<AttendanceRecord, string>)
    ensures var found := FindOne(rows, user, StartOfDay(now));
      && (res == Err(CheckInFirst) <==> found.None? || found.value.checkInTime.None?)
      && (res == Err(AlreadyCheckedOut) <==>
            found.Some? && found.value.checkInTime.Some? && found.value.checkOutTime.Some?)
      && (res.Ok? <==> found.Some? && found.value.checkInTime.Some? && found.value.checkOutTime.None?)
      && (res.Ok? ==>
            res.value == found.value.(checkOutTime := Some(now),
                                      totalHours := RoundedHours(now - found.value.checkInTime.value)))
  {
    match FindOne(rows, user, StartOfDay(now))
    case None => Err(CheckInFirst)
    case Some(a) =>
      if a.checkInTime.None? then Err(CheckInFirst)
      else if a.checkOutTime.Some? then Err(AlreadyCheckedOut)
      else Ok(WithHours(a.(checkOutTime := Some(now))))
  }

  /** The store after a handler: the saved row on success, unchanged on an error. */
  function AfterSave(rows: seq<AttendanceRecord>, res: Result<AttendanceRecord, string>): seq<AttendanceRecord> {
    if res.Ok? then Upsert(rows, res.value) else rows
  }

  /** The attendance collection. */
  class AttendanceStore {
    var rows: seq<AttendanceRecord>

    ghost predicate Valid()
      reads this
    {
      WellFormed(rows)
    }

    constructor ()
      ensures Valid() && rows == []
    {
      rows := [];
    }

    /** `attendance.save()`: the document replaces the row under its key, or is added. */
    method Save(doc: Attendance)
      requires UniqueKeys(rows)
      modifies this
      ensures rows == Upsert(old(rows), doc.Record())
      ensures UniqueKeys(rows)
    {
      UpsertSpec(rows, doc.Record());
      rows := Upsert(rows, doc.Record());
    }

    /** `POST /checkin` at `now`. On an error nothing is saved. */
    method CheckIn(user: UserId, now: Instant) returns (res: Result<AttendanceRecord, string>)
      requires Valid()
      modifies this
      ensures Valid()
      ensures res == CheckInOutcome(old(rows), user, now)
      ensures rows == AfterSave(old(rows), res)
    {
      var today := StartOfDay(now);
      var attendance := FindOne(rows, user, today);
      if attendance.Some? && attendance.value.checkInTime.Some? {
        return Err(AlreadyCheckedIn);
      }
      var checkInTime := now;
      var doc: Attendance;
      if attendance.Some? {
        doc := new Attendance.Load(attendance.value);
        doc.checkInTime := Some(checkInTime);
      } else {
        doc := new Attendance(user, today, Some(checkInTime), now);
      }
      doc.DetermineStatus();
      CheckInKeepsWellFormed(rows, user, now);
      Save(doc);
      res := Ok(doc.Record());
    }

    /** `POST /checkout` at `now`. On an error nothing is saved. */
    method CheckOut(user: UserId, now: Instant) returns (res: Result<AttendanceRecord, string>)
      requires Valid()
      modifies this
      ensures Valid()
      ensures res == CheckOutOutcome(old(rows), user, now)
      ensures rows == AfterSave(old(rows), res)
    {
      var attendance := FindOne(rows, user, StartOfDay(now));
      if attendance.None? || attendance.value.checkInTime.None? {
        return Err(CheckInFirst);
      }
      if attendance.value.checkOutTime.Some? {
        return Err(AlreadyCheckedOut);
      }
      var doc := new Attendance.Load(attendance.value);
      doc.checkOutTime := Some(now);
      var _ := doc.CalculateTotalHours();
      CheckOutKeepsWellFormed(rows, user, now);
      Save(doc);
      res := Ok(doc.Record());
    }
  }

  /** A successful check-in keeps the store well formed. */
  lemma CheckInKeepsWellFormed(rows: seq<AttendanceRecord>, user: UserId, now: Instant)
    requires WellFormed(rows)
    ensures WellFormed(AfterSave(rows, CheckInOutcome(rows, user, now)))
  {
    var res := CheckInOutcome(rows, user, now);
    if res.Ok? {
      UpsertKeepsRows(rows, res.value);
    }
  }

  /** A successful check-out keeps the store well formed. */
  lemma CheckOutKeepsWellFormed(rows: seq<AttendanceRecord>, user: UserId, now: Instant)
    requires WellFormed(rows)
    ensures WellFormed(AfterSave(rows, CheckOutOutcome(rows, user, now)))
  {
    var res := CheckOutOutcome(rows, user, now);
    if res.Ok? {
      UpsertKeepsRows(rows, res.value);
    }
  }

  /** Every row after saving r is r or a row that was there before. */
  lemma UpsertKeepsRows(rows: seq<AttendanceRecord>, r: AttendanceRecord)
    requires UniqueKeys(rows)
    ensures UniqueKeys(Upsert(rows, r))
    ensures forall x :: x in Upsert(rows, r) ==> x == r || x in rows
  {
    UpsertSpec(rows, r);
    var rows' := Upsert(rows, r);
    forall x | x in rows'
      ensures x == r || x in rows
    {
      var i :| 0 <= i < |rows'| && rows'[i] == x;
      match IndexOf(rows, r.userId, r.date)
      case Some(k) => if i != k { assert rows[i] == x; }
      case None => if i < |rows| { assert rows[i] == x; }
    }
  }

  // ---------------------------------------------------------------------------
  // Today

  /** The body of `GET /today`. */
  datatype TodayResponse = TodayResponse(attendance: Option<AttendanceRecord>, isCheckedIn: bool, isCheckedOut: bool)

  function Today(rows: seq<AttendanceRecord>, user: UserId, now: Instant): (r: TodayResponse)
    ensures r.attendance == FindOne(rows, user, StartOfDay(now))
    ensures r.isCheckedIn <==> r.attendance.Some? && r.attendance.value.checkInTime.Some?
    ensures r.isCheckedOut <==> r.attendance.Some? && r.attendance.value.checkOutTime.Some?
  {
    var a := FindOne(rows, user, StartOfDay(now));
    TodayResponse(a, a.Some? && a.value.checkInTime.Some?, a.Some? && a.value.checkOutTime.Some?)
  }

  /** Where a user stands on a day: no check-in yet, checked in, or checked out. */
  datatype DayState = NotCheckedIn | CheckedInOnly | CheckedOut

  function StateOf(rows: seq<AttendanceRecord>, user: UserId, now: Instant): DayState {
    var t := Today(rows, user, now);
    if !t.isCheckedIn then NotCheckedIn else if !t.isCheckedOut then CheckedInOnly else CheckedOut
  }

  /** The day's state machine: check-in succeeds only before any check-in and moves
      to checked-in; check-out succeeds only from checked-in and moves to checked-out;
      every other request is refused with its message and changes nothing. */
  lemma Lifecycle(rows: seq<AttendanceRecord>, user: UserId, now: Instant)
    requires WellFormed(rows)
    ensures var s := StateOf(rows, user, now);
      var cin := CheckInOutcome(rows, user, now);
      var cout := CheckOutOutcome(rows, user, now);
      && (cin.Ok? <==> s == NotCheckedIn)
      && (cin.Ok? ==> StateOf(AfterSave(rows, cin), user, now) == CheckedInOnly)
      && (cin.Err? ==> cin.error == AlreadyCheckedIn)
      && (cout.Ok? <==> s == CheckedInOnly)
      && (cout.Ok? ==> StateOf(AfterSave(rows, cout), user, now) == CheckedOut)
      && (cout.Err? ==> cout.error == if s == NotCheckedIn then CheckInFirst else AlreadyCheckedOut)
  {
    var cin := CheckInOutcome(rows, user, now);
    var cout := CheckOutOutcome(rows, user, now);
    var found := FindOne(rows, user, StartOfDay(now));
    if found.Some? {
      assert found.value in rows;
    }
    if cin.Ok? {
      UpsertSpec(rows, cin.value);
    }
    if cout.Ok? {
      UpsertSpec(rows, cout.value);
    }
  }

  /** A request by one user never changes another user's day, or the same user's
      other days. */
  lemma OthersUntouched(rows: seq<AttendanceRecord>, user: UserId, now: Instant, other: UserId, day: Instant)
    requires UniqueKeys(rows)
    requires other != user || day != StartOfDay(now)
    ensures FindOne(AfterSave(rows, CheckInOutcome(rows, user, now)), other, day) == FindOne(rows, other, day)
    ensures FindOne(AfterSave(rows, CheckOutOutcome(rows, user, now)), other, day) == FindOne(rows, other, day)
  {
    var cin := CheckInOutcome(rows, user, now);
    var cout := CheckOutOutcome(rows, user, now);
    if cin.Ok? {
      UpsertSpec(rows, cin.value);
    }
    if cout.Ok? {
      UpsertSpec(rows, cout.value);
    }
  }

  /** Checking in at t and out at u the same day records the rounded hours between
      them, with the status decided at check-in. */
  lemma CheckInThenOut(rows: seq<AttendanceRecord>, user: UserId, t: Instant, u: Instant)
    requires WellFormed(rows) && StateOf(rows, user, t) == NotCheckedIn
    requires Day(t) == Day(u) && t <= u
    ensures var rows1 := AfterSave(rows, CheckInOutcome(rows, user, t));
      var out := CheckOutOutcome(rows1, user, u);
      && out.Ok?
      && out.value.checkInTime == Some(t) && out.value.checkOutTime == Some(u)
      && out.value.totalHours == RoundedHours(u - t) && out.value.totalHours >= 0
      && out.value.status == StatusFor(Some(t))
  {
    var cin := CheckInOutcome(rows, user, t);
    Lifecycle(rows, user, t);
    UpsertSpec(rows, cin.value);
    SameStartOfDay(t, u);
    var rows1 := AfterSave(rows, cin);
    assert FindOne(rows1, user, StartOfDay(u)) == Some(cin.value);
    RoundedHoursMonotone(0, u - t);
  }

  // ---------------------------------------------------------------------------
  // My summary

  /** The `while` loop of my-summary: starting at the month's first midnight, one day at
      a time while the day is not past the month's end nor past now, count the days
      that are not Saturday or Sunday. */
  method CountWorkingDaysUntil(startDate: Instant, endDate: Instant, currentDate: Instant) returns (workingDays: nat)
    requires TimeInDay(startDate) == 0
    ensures workingDays == CountWorkingDays(Day(startDate), Min(Day(endDate), Day(currentDate)))
  {
    var first := Day(startDate);
    var last := Min(Day(endDate), Day(currentDate));
    assert startDate == first * MsPerDay;
    workingDays := 0;
    var tempDate := startDate;
    ghost var d := first;
    Midnight(d, endDate);
    Midnight(d, currentDate);
    while tempDate <= endDate && tempDate <= currentDate
      invariant tempDate == d * MsPerDay && first <= d
      invariant d == first || d <= last + 1
      invariant workingDays == CountWorkingDays(first, d - 1)
      decreases endDate - tempDate
    {
      Midnight(d, endDate);
      Midnight(d, currentDate);
      var dayOfWeek := DayOfWeek(tempDate);
      if dayOfWeek != 0 && dayOfWeek != 6 {
        workingDays := workingDays + 1;
      }
      tempDate := tempDate + MsPerDay;
      d := d + 1;
    }
    Midnight(d, endDate);
    Midnight(d, currentDate);
  }

  /** The `summary` object of my-summary. */
  datatype Summary = Summary(present: nat, absent: nat, late: nat, halfDay: nat, totalHours: int)

  /** The body of `GET /my-summary`: the month asked for (1-based), its year, the
      working days counted and the summary. */
  datatype MySummaryResponse = MySummaryResponse(month: int, year: int, workingDays: nat, summary: Summary)

  /** The user's rows dated within the month asked for. */
  function MonthRecords(rows: seq<AttendanceRecord>, user: UserId, month: Option<int>, year: Option<int>, now: Instant): seq<AttendanceRecord> {
    var m := TargetMonth(month, now);
    var y := TargetYear(year, now);
    InRange(rows, Some(user), MonthStart(y, m), MonthEnd(y, m))
  }

  /** The working days counted for the month asked for: from its first day to its last
      day or today, whichever comes first. */
  function MonthWorkingDays(month: Option<int>, year: Option<int>, now: Instant): nat {
    var m := TargetMonth(month, now);
    var y := TargetYear(year, now);
    CountWorkingDays(Day(MonthStart(y, m)), Min(Day(MonthEnd(y, m)), Day(now)))
  }

  /** The summary of some records against a number of working days: status counts,
      total hours, and absence inferred as the working days no record covers. */
  function SummaryOf(recs: seq<AttendanceRecord>, workingDays: nat): (s: Summary)
    ensures s.absent >= workingDays - (s.present + s.late + s.halfDay)
    ensures s.absent == 0 || s.present + s.late + s.halfDay + s.absent == workingDays
  {
    var t := TallyOf(recs);
    var recorded := t.present + t.late + t.halfDay;
    Summary(t.present, MaxZero(workingDays as int - recorded), t.late, t.halfDay, SumHours(recs))
  }

  /** `GET /my-summary?month=&year=` for the user at `now`. */
  method MySummary(rows: seq<AttendanceRecord>, user: UserId, month: Option<int>, year: Option<int>, now: Instant)
    returns (resp: MySummaryResponse)
    ensures resp.month == TargetMonth(month, now) + 1 && resp.year == TargetYear(year, now)
    ensures resp.workingDays == MonthWorkingDays(month, year, now)
    ensures resp.summary == SummaryOf(MonthRecords(rows, user, month, year, now), resp.workingDays)
  {
    var currentDate := now;
    var targetMonth := TargetMonth(month, now);
    var targetYear := TargetYear(year, now);
    var startDate := MonthStart(targetYear, targetMonth);
    var endDate := MonthEnd(targetYear, targetMonth);
    var attendance := InRange(rows, Some(user), startDate, endDate);

    var present: nat, absent: nat, late: nat, halfDay: nat, totalHours: int := 0, 0, 0, 0, 0;
    var i := 0;
    while i < |attendance|
      invariant 0 <= i <= |attendance|
      invariant StatusTally(present, absent, late, halfDay) == TallyOf(attendance[..i])
      invariant totalHours == SumHours(attendance[..i])
    {
      var record := attendance[i];
      assert attendance[..i + 1] == attendance[..i] + [record];
      TallyAppend(attendance[..i], record);
      FoldsAppend(attendance[..i], record);
      match record.status {
        case Present => present := present + 1;
        case Absent => absent := absent + 1;
        case Late => late := late + 1;
        case HalfDay => halfDay := halfDay + 1;
      }
      totalHours := totalHours + record.totalHours;
      i := i + 1;
    }
    assert attendance[..i] == attendance;

    assert TimeInDay(startDate) == 0 by { MonthBounds(targetYear, targetMonth); }
    var workingDays := CountWorkingDaysUntil(startDate, endDate, currentDate);

    var recordedDays := present + late + halfDay;
    absent := MaxZero(workingDays as int - recordedDays);
    resp := MySummaryResponse(targetMonth + 1, targetYear, workingDays, Summary(present, absent, late, halfDay, totalHours));
    assert resp.summary == SummaryOf(attendance, workingDays);
  }

  /** The counted working days never exceed the days of the month, and are all of the
      month's working days once the month is over. */
  lemma MonthWorkingDaysBounds(month: Option<int>, year: Option<int>, now: Instant)
    ensures var m := TargetMonth(month, now);
      var y := TargetYear(year, now);
      && MonthWorkingDays(month, year, now) <= 31
      && (Day(now) >= Day(MonthEnd(y, m)) ==>
            MonthWorkingDays(month, year, now) == CountWorkingDays(Day(MonthStart(y, m)), Day(MonthEnd(y, m))))
      && (Day(now) < Day(MonthStart(y, m)) ==> MonthWorkingDays(month, year, now) == 0)
  {
    var m := TargetMonth(month, now);
    var y := TargetYear(year, now);
    MonthBounds(y, m);
    var first := Day(MonthStart(y, m));
    var last := Min(Day(MonthEnd(y, m)), Day(now));
    CountWorkingDaysAtMost(first, last);
  }

  /** Stored `absent` rows never change the summary's absence, which counts only the
      working days left without a present, late or half-day row. */
  lemma StoredAbsentIgnored(recs: seq<AttendanceRecord>, r: AttendanceRecord, workingDays: nat)
    requires r.status == Absent && r.totalHours == 0
    ensures SummaryOf(recs + [r], workingDays) == SummaryOf(recs, workingDays)
  {
    FoldsAppend(recs, r);
  }

  /** A month with a present, late or half-day row for each working day has no absence;
      each missing one is one day absent. */
  lemma SummaryAbsence(recs: seq<AttendanceRecord>, workingDays: nat)
    ensures var s := SummaryOf(recs, workingDays);
      && (s.present + s.late + s.halfDay >= workingDays ==> s.absent == 0)
      && (s.present + s.late + s.halfDay <= workingDays ==> s.absent == workingDays - (s.present + s.late + s.halfDay))
      && s.present + s.late + s.halfDay <= |recs|
  {
    StatusCountsPartition(recs);
  }

  // ---------------------------------------------------------------------------
  // Team summary

  /** The `summary` object of the team summary. */
  datatype TeamCounts = TeamCounts(totalRecords: nat, present: nat, absent: nat, late: nat, halfDay: nat)

  /** The body of `GET /summary`. */
  datatype TeamSummaryResponse = TeamSummaryResponse(month: int, year: int, summary: TeamCounts, departmentStats: map<string, StatusTally>)

  function TeamCountsOf(recs: seq<AttendanceRecord>): (c: TeamCounts)
    ensures c.present + c.absent + c.late + c.halfDay == c.totalRecords
  {
    StatusCountsPartition(recs);
    TeamCounts(|recs|, CountStatus(recs, Present), CountStatus(recs, Absent), CountStatus(recs, Late), CountStatus(recs, HalfDay))
  }

  /** The month's rows of every user, joined with their users. */
  function TeamMonth(rows: seq<AttendanceRecord>, users: seq<User>, month: Option<int>, year: Option<int>, now: Instant): seq<Joined> {
    var m := TargetMonth(month, now);
    var y := TargetYear(year, now);
    Populate(InRange(rows, None, MonthStart(y, m), MonthEnd(y, m)), users)
  }

  /** The departments of the owners of some joined records (records without a user
      have none). */
  function DepartmentsOf(js: seq<Joined>): set<string> {
    if |js| == 0 then {}
    else
      var j := js[|js| - 1];
      DepartmentsOf(js[..|js| - 1]) + (if j.user.Some? then {j.user.value.department} else {})
  }

  /** A department is listed exactly when some record's owner belongs to it. */
  lemma {:induction false} DepartmentsOfSpec(js: seq<Joined>, d: string)
    ensures d in DepartmentsOf(js) <==> exists j :: j in js && j.user.Some? && j.user.value.department == d
  {
    if |js| > 0 {
      var n := |js| - 1;
      DepartmentsOfSpec(js[..n], d);
      assert forall x :: x in js <==> x in js[..n] || x == js[n];
    }
  }

  /** The records whose owner is in department `dept`. */
  function DeptRecords(js: seq<Joined>, dept: string): seq<AttendanceRecord> {
    if |js| == 0 then []
    else
      var j := js[|js| - 1];
      DeptRecords(js[..|js| - 1], dept) + (if j.user.Some? && j.user.value.department == dept then [j.record] else [])
  }

  lemma DeptRecordsAppend(js: seq<Joined>, j: Joined, dept: string)
    ensures DeptRecords(js + [j], dept) ==
      DeptRecords(js, dept) + (if j.user.Some? && j.user.value.department == dept then [j.record] else [])
  {
    assert (js + [j])[..|js|] == js;
  }

  /** A department without an owner among the records has no records. */
  lemma {:induction false} DeptRecordsEmpty(js: seq<Joined>, dept: string)
    requires dept !in DepartmentsOf(js)
    ensures DeptRecords(js, dept) == []
  {
    if |js| > 0 {
      DeptRecordsEmpty(js[..|js| - 1], dept);
    }
  }

  /** A department's count of a status never exceeds the team's count of it: the
      department rows are among the team's rows. */
  lemma {:induction false} DeptCountsBounded(js: seq<Joined>, dept: string, s: Status)
    ensures CountStatus(DeptRecords(js, dept), s) <= CountStatus(RecordsOf(js), s)
  {
    if |js| > 0 {
      var n := |js| - 1;
      var j := js[n];
      assert RecordsOf(js) == RecordsOf(js[..n]) + [j.record];
      assert DeptRecords(js, dept) ==
        DeptRecords(js[..n], dept) + (if j.user.Some? && j.user.value.department == dept then [j.record] else []);
      DeptCountsBounded(js[..n], dept, s);
      FoldsAppend(RecordsOf(js[..n]), j.record);
      if j.user.Some? && j.user.value.department == dept {
        FoldsAppend(DeptRecords(js[..n], dept), j.record);
      } else {
        assert DeptRecords(js, dept) == DeptRecords(js[..n], dept);
      }
    }
  }

  /** `GET /summary?month=&year=` at `now`: team-wide counts, and a `departmentStats`
      object built record by record with one entry per department that has a record
      whose owner still exists. */
  method TeamSummary(rows: seq<AttendanceRecord>, users: seq<User>, month: Option<int>, year: Option<int>, now: Instant)
    returns (resp: TeamSummaryResponse)
    ensures resp.month == TargetMonth(month, now) + 1 && resp.year == TargetYear(year, now)
    ensures resp.summary == TeamCountsOf(RecordsOf(TeamMonth(rows, users, month, year, now)))
    ensures GroupedBy(resp.departmentStats, TeamMonth(rows, users, month, year, now))
  {
    var targetMonth := TargetMonth(month, now);
    var targetYear := TargetYear(year, now);
    var startDate := MonthStart(targetYear, targetMonth);
    var endDate := MonthEnd(targetYear, targetMonth);
    var attendance := Populate(InRange(rows, None, startDate, endDate), users);
    var summary := TeamCountsOf(RecordsOf(attendance));
    var departmentStats := DepartmentStats(attendance);
    resp := TeamSummaryResponse(targetMonth + 1, targetYear, summary, departmentStats);
  }

  /** The team summary's grouping: for each record whose owner exists, create its
      department's counters on first sight, then bump the counter of its status. */
  method DepartmentStats(attendance: seq<Joined>) returns (departmentStats: map<string, StatusTally>)
    ensures GroupedBy(departmentStats, attendance)
  {
    departmentStats := map[];
    var i := 0;
    while i < |attendance|
      invariant 0 <= i <= |attendance|
      invariant GroupedBy(departmentStats, attendance[..i])
    {
      var record := attendance[i];
      ghost var before := departmentStats;
      if record.user.Some? {
        var dept := record.user.value.department;
        if dept !in departmentStats {
          departmentStats := departmentStats[dept := StatusTally(0, 0, 0, 0)];
        }
        departmentStats := departmentStats[dept := Bump(departmentStats[dept], record.record.status)];
        assert GroupUpdate(before, record, departmentStats);
      }
      GroupStep(attendance[..i], record, before, departmentStats);
      assert attendance[..i + 1] == attendance[..i] + [record];
      i := i + 1;
    }
    assert attendance[..i] == attendance;
  }

  /** The department counters of some records: one entry per department with a record
      whose owner exists, holding the status counts of that department's records. */
  ghost predicate GroupedBy(stats: map<string, StatusTally>, js: seq<Joined>) {
    && stats.Keys == DepartmentsOf(js)
    && forall d :: d in stats ==> stats[d] == TallyOf(DeptRecords(js, d))
  }

  /** The counters after one step of the grouping: unchanged for a record without an
      owner; otherwise the owner's department created if new, then bumped. */
  ghost predicate GroupUpdate(before: map<string, StatusTally>, j: Joined, after: map<string, StatusTally>) {
    if j.user.None? then after == before
    else
      var dept := j.user.value.department;
      var created := if dept in before then before else before[dept := StatusTally(0, 0, 0, 0)];
      after == created[dept := Bump(created[dept], j.record.status)]
  }

  /** One step of the grouping keeps the counters right. */
  lemma GroupStep(js: seq<Joined>, j: Joined, before: map<string, StatusTally>, after: map<string, StatusTally>)
    requires GroupedBy(before, js) && GroupUpdate(before, j, after)
    ensures GroupedBy(after, js + [j])
  {
    assert (js + [j])[..|js|] == js;
    forall d | d in after
      ensures after[d] == TallyOf(DeptRecords(js + [j], d))
    {
      GroupStepAt(js, j, before, after, d);
    }
  }

  lemma GroupStepAt(js: seq<Joined>, j: Joined, before: map<string, StatusTally>, after: map<string, StatusTally>, d: string)
    requires GroupedBy(before, js) && GroupUpdate(before, j, after) && d in after
    ensures after[d] == TallyOf(DeptRecords(js + [j], d))
  {
    DeptRecordsAppend(js, j, d);
    if j.user.Some? && j.user.value.department == d {
      var dr := DeptRecords(js, d);
      if d !in before {
        DeptRecordsEmpty(js, d);
      }
      assert after[d] == Bump(TallyOf(dr), j.record.status);
      TallyAppend(dr, j.record);
    } else {
      assert d in before && after[d] == before[d];
      assert DeptRecords(js + [j], d) == DeptRecords(js, d);
    }
  }

  // ---------------------------------------------------------------------------
  // Today's status (manager view)

  /** An entry of `presentList`: the owner's fields when the owner exists. */
  datatype PresentEntry = PresentEntry(
    id: Option<UserId>,
    name: Option<string>,
    employeeId: Option<string>,
    department: Option<string>,
    checkInTime: Option<Instant>,
    checkOutTime: Option<Instant>,
    status: Status)

  /** The body of `GET /today-status`. */
  datatype TodayStatusResponse = TodayStatusResponse(
    date: Instant,
    totalEmployees: nat,
    present: nat,
    absent: nat,
    lateArrivals: nat,
    presentList: seq<PresentEntry>,
    absentList: seq<AbsentEntry>)

  /** `{ id: a.userId?._id, name: a.userId?.name, …, status: a.status }`: the owner's
      fields, or none when the owner is gone, and the row's times and status. */
  function PresentEntryOf(j: Joined): (e: PresentEntry)
    ensures e.checkInTime == j.record.checkInTime && e.checkOutTime == j.record.checkOutTime
    ensures e.status == j.record.status
    ensures j.user.Some? ==>
      e.id == Some(j.user.value.id) && e.name == Some(j.user.value.name)
      && e.employeeId == Some(j.user.value.employeeId) && e.department == Some(j.user.value.department)
    ensures j.user.None? ==> e.id.None? && e.name.None? && e.employeeId.None? && e.department.None?
  {
    match j.user
    case Some(u) => PresentEntry(Some(u.id), Some(u.name), Some(u.employeeId), Some(u.department),
                                 j.record.checkInTime, j.record.checkOutTime, j.record.status)
    case None => PresentEntry(None, None, None, None, j.record.checkInTime, j.record.checkOutTime, j.record.status)
  }

  function TodayStatus(rows: seq<AttendanceRecord>, users: seq<User>, now: Instant): (t: TodayStatusResponse)
    ensures t.date == StartOfDay(now) && t.present == |t.presentList| && t.absent == |t.absentList|
    ensures var p := CheckedIn(Populate(OnDate(rows, StartOfDay(now)), users));
      |t.presentList| == |p| && forall k :: 0 <= k < |p| ==> t.presentList[k] == PresentEntryOf(p[k])
    ensures var a := AbsentOn(rows, users, StartOfDay(now));
      |t.absentList| == |a| && forall k :: 0 <= k < |a| ==> t.absentList[k] == AbsentEntryOf(a[k])
  {
    var today := StartOfDay(now);
    var attendance := Populate(OnDate(rows, today), users);
    var allEmployees := Employees(users);
    var presentEmployees := CheckedIn(attendance);
    var absentEmployees := AbsentOn(rows, users, today);
    TodayStatusResponse(
      today,
      |allEmployees|,
      |presentEmployees|,
      |absentEmployees|,
      CountStatus(OnDate(rows, today), Late),
      seq(|presentEmployees|, i requires 0 <= i < |presentEmployees| => PresentEntryOf(presentEmployees[i])),
      seq(|absentEmployees|, i requires 0 <= i < |absentEmployees| => AbsentEntryOf(absentEmployees[i])))
  }

  /** Today's split: `present` counts today's rows with a check-in (a manager's or a
      deleted user's included), an employee is listed absent exactly when none of
      today's checked-in rows is theirs, and the absent count never exceeds the number
      of employees. */
  lemma TodayStatusSpec(rows: seq<AttendanceRecord>, users: seq<User>, now: Instant)
    ensures var t := TodayStatus(rows, users, now);
      var today := StartOfDay(now);
      && t.date == today
      && t.totalEmployees == |Employees(users)|
      && t.present == CountCheckedIn(OnDate(rows, today)) == |t.presentList|
      && t.absent == |t.absentList| <= t.totalEmployees
      && t.lateArrivals == CountStatus(OnDate(rows, today), Late)
      && (forall u :: u in users && u.role == Employee && !CheckedInOn(rows, u.id, today) ==>
            AbsentEntryOf(u) in t.absentList)
      && (forall e :: e in t.absentList ==>
            exists u :: u in users && u.role == Employee && AbsentEntryOf(u) == e && !CheckedInOn(rows, u.id, today))
  {
    var today := StartOfDay(now);
    var t := TodayStatus(rows, users, now);
    var absentEmployees := AbsentOn(rows, users, today);
    CheckedInCount(OnDate(rows, today), users);
    AbsentOnSpec(rows, users, today);
    forall u | u in users && u.role == Employee && !CheckedInOn(rows, u.id, today)
      ensures AbsentEntryOf(u) in t.absentList
    {
      var k :| 0 <= k < |absentEmployees| && absentEmployees[k] == u;
      assert t.absentList[k] == AbsentEntryOf(u);
    }
    forall e | e in t.absentList
      ensures exists u :: u in users && u.role == Employee && AbsentEntryOf(u) == e && !CheckedInOn(rows, u.id, today)
    {
      var k :| 0 <= k < |t.absentList| && t.absentList[k] == e;
      assert absentEmployees[k] in absentEmployees;
    }
  }

  // ---------------------------------------------------------------------------
  // All attendance (manager view)

  /** A query parameter that is present and not empty: `if (param)`. */
  predicate Given(param: Option<string>) {
    param.Some? && param.value != ""
  }

  /** The date condition shared by `/all` and `/export`: only when both ends are given,
      from the start of the first day to the end of the last. */
  predicate InDateWindow(r: AttendanceRecord, startDate: Option<Instant>, endDate: Option<Instant>) {
    startDate.None? || endDate.None? || StartOfDay(startDate.value) <= r.date <= EndOfDay(endDate.value)
  }

  /** `GET /all` with its optional filters: the date window and the status go to the
      query; the employee id and the department are applied after the join, and drop
      records whose owner no longer exists. */
  function AllAttendance(rows: seq<AttendanceRecord>, users: seq<User>, startDate: Option<Instant>, endDate: Option<Instant>,
                         status: Option<string>, employeeId: Option<string>, department: Option<string>): (js: seq<Joined>)
    ensures forall j :: j in js ==> j.record in rows && InDateWindow(j.record, startDate, endDate)
  {
    var byDate := Where(rows, (r: AttendanceRecord) => InDateWindow(r, startDate, endDate));
    var byStatus := if Given(status) then Where(byDate, (r: AttendanceRecord) => StatusName(r.status) == status.value) else byDate;
    var attendance := Populate(byStatus, users);
    var byEmployee :=
      if Given(employeeId) then Where(attendance, (j: Joined) => j.user.Some? && j.user.value.employeeId == employeeId.value)
      else attendance;
    if Given(department) then Where(byEmployee, (j: Joined) => j.user.Some? && j.user.value.department == department.value)
    else byEmployee
  }

  /** A joined record is listed exactly when it is a stored row with its owner, inside
      the date window when both dates are given, and matching each non-empty filter. */
  lemma AllAttendanceSpec(rows: seq<AttendanceRecord>, users: seq<User>, startDate: Option<Instant>, endDate: Option<Instant>,
                          status: Option<string>, employeeId: Option<string>, department: Option<string>, j: Joined)
    ensures j in AllAttendance(rows, users, startDate, endDate, status, employeeId, department) <==>
      && j.record in rows && j.user == FindUser(users, j.record.userId)
      && InDateWindow(j.record, startDate, endDate)
      && (Given(status) ==> StatusName(j.record.status) == status.value)
      && (Given(employeeId) ==> j.user.Some? && j.user.value.employeeId == employeeId.value)
      && (Given(department) ==> j.user.Some? && j.user.value.department == department.value)
  {
    var byDate := Where(rows, (r: AttendanceRecord) => InDateWindow(r, startDate, endDate));
    var byStatus := if Given(status) then Where(byDate, (r: AttendanceRecord) => StatusName(r.status) == status.value) else byDate;
    PopulateMember(byStatus, users, j);
  }

  /** A status filter that is none of the four status names lists nothing. */
  lemma UnknownStatusListsNothing(rows: seq<AttendanceRecord>, users: seq<User>, startDate: Option<Instant>, endDate: Option<Instant>,
                                  status: Option<string>, employeeId: Option<string>, department: Option<string>)
    requires Given(status) && status.value !in ["present", "absent", "late", "half-day"]
    ensures AllAttendance(rows, users, startDate, endDate, status, employeeId, department) == []
  {
    var all := AllAttendance(rows, users, startDate, endDate, status, employeeId, department);
    if |all| > 0 {
      AllAttendanceSpec(rows, users, startDate, endDate, status, employeeId, department, all[0]);
    }
  }

  // ---------------------------------------------------------------------------
  // Export

  /** A time column: the local time of an instant, or `N/A`. */
  datatype TimeCell = NotAvailable | LocalTime(t: Instant)

  /** One CSV row, its fields in the column order of `ExportFields`. */
  datatype ExportRow = ExportRow(
    date: Date,
    employeeId: string,
    name: string,
    department: string,
    checkIn: TimeCell,
    checkOut: TimeCell,
    status: string,
    totalHours: string)

  const ExportFields: seq<string> := ["Date", "EmployeeID", "Name", "Department", "CheckIn", "CheckOut", "Status", "TotalHours"]

  const NA: string := "N/A"

  /** `value || 'N/A'`: a missing or empty value becomes `N/A`. */
  function OrNA(value: Option<string>): (s: string)
    ensures s != ""
    ensures value.Some? && value.value != "" ==> s == value.value
    ensures value.None? || value.value == "" ==> s == NA
  {
    if value.Some? && value.value != "" then value.value else NA
  }

  function Abs(n: int): nat {
    if n < 0 then -n else n
  }

  /** The two digits of n < 100. */
  function TwoDigits(n: nat): (s: string)
    requires n < 100
    ensures |s| == 2 && IsDigits(s)
  {
    [DigitChar(n / 10), DigitChar(n % 10)]
  }

  /** `(h / 100).toFixed(2)` for h hundredths: an optional minus sign, the whole part,
      a point and exactly two decimals. */
  function Fixed2(h: int): string {
    (if h < 0 then "-" else "") + DecimalString(Abs(h) / 100) + "." + TwoDigits(Abs(h) % 100)
  }

  /** Reading a `toFixed(2)` string back: the sign is the leading minus, and the digits
      before and after the point give back the hundredths. */
  lemma Fixed2ReadsBack(h: int)
    ensures var s := Fixed2(h);
      var body := if h < 0 then s[1..] else s;
      var n := |body|;
      && (s[0] == '-' <==> h < 0)
      && n >= 4 && body[n - 3] == '.'
      && IsDigits(body[..n - 3]) && IsDigits(body[n - 2..])
      && ParseDecimal(body[..n - 3]) * 100 + ParseDecimal(body[n - 2..]) == Abs(h)
  {
    var whole := DecimalString(Abs(h) / 100);
    var frac := TwoDigits(Abs(h) % 100);
    var body := whole + "." + frac;
    PointSplits(whole, frac);
    var s := Fixed2(h);
    if h < 0 {
      assert s == "-" + body && s[1..] == body;
    } else {
      assert s == body && s[0] == whole[0] && IsDigit(whole[0]);
    }
    DecimalRoundTrip(Abs(h) / 100);
    TwoDigitsReadBack(Abs(h) % 100);
  }

  /** The whole part and the two decimals sit on either side of the point. */
  lemma PointSplits(whole: string, frac: string)
    requires |whole| >= 1 && |frac| == 2
    ensures var body := whole + "." + frac; var n := |body|;
      n >= 4 && body[n - 3] == '.' && body[..n - 3] == whole && body[n - 2..] == frac
  {
    var body := whole + "." + frac;
    assert body[..|whole|] == whole;
    assert body[|whole| + 1..] == frac;
  }

  lemma TwoDigitsReadBack(n: nat)
    requires n < 100
    ensures ParseDecimal(TwoDigits(n)) == n
  {
    var s := TwoDigits(n);
    assert s[..1] == [DigitChar(n / 10)] && s[..1][..0] == [];
    assert DigitValue(DigitChar(n / 10)) == n / 10 && DigitValue(DigitChar(n % 10)) == n % 10;
    assert ParseDecimal(s[..1]) == n / 10;
  }

  function ExportRowOf(j: Joined): (row: ExportRow)
    ensures j.user.None? ==> row.employeeId == NA && row.name == NA && row.department == NA
    ensures j.user.Some? ==>
      row.employeeId == OrNA(Some(j.user.value.employeeId)) && row.name == OrNA(Some(j.user.value.name))
      && row.department == OrNA(Some(j.user.value.department))
    ensures row.checkIn == NotAvailable <==> j.record.checkInTime.None?
    ensures row.checkOut == NotAvailable <==> j.record.checkOutTime.None?
    ensures j.record.checkInTime.Some? ==> row.checkIn == LocalTime(j.record.checkInTime.value)
    ensures j.record.checkOutTime.Some? ==> row.checkOut == LocalTime(j.record.checkOutTime.value)
    ensures row.totalHours == Fixed2(j.record.totalHours)
    ensures row.status == StatusName(j.record.status) && row.date == DateOf(j.record.date)
  {
    var u := j.user;
    ExportRow(
      DateOf(j.record.date),
      OrNA(if u.Some? then Some(u.value.employeeId) else None),
      OrNA(if u.Some? then Some(u.value.name) else None),
      OrNA(if u.Some? then Some(u.value.department) else None),
      if j.record.checkInTime.Some? then LocalTime(j.record.checkInTime.value) else NotAvailable,
      if j.record.checkOutTime.Some? then LocalTime(j.record.checkOutTime.value) else NotAvailable,
      StatusName(j.record.status),
      Fixed2(j.record.totalHours))
  }

  /** `User.findOne({ employeeId })`. */
  function FindByEmployeeId(users: seq<User>, employeeId: string): Option<User> {
    FindUserBy(users, (x: User) => x.employeeId, employeeId)
  }

  /** The rows `/export` selects: the date window when both dates are given, and the
      owner when the employee id names a user. */
  function ExportRecords(rows: seq<AttendanceRecord>, users: seq<User>, startDate: Option<Instant>, endDate: Option<Instant>,
                         employeeId: Option<string>): (selected: seq<AttendanceRecord>)
    ensures forall r :: r in selected ==> r in rows && InDateWindow(r, startDate, endDate)
  {
    var owner := if Given(employeeId) then FindByEmployeeId(users, employeeId.value) else None;
    Where(rows, (r: AttendanceRecord) => InDateWindow(r, startDate, endDate) && (owner.None? || r.userId == owner.value.id))
  }

  /** `GET /export`: one row per selected record, in the same order. */
  function Export(rows: seq<AttendanceRecord>, users: seq<User>, startDate: Option<Instant>, endDate: Option<Instant>,
                  employeeId: Option<string>): (csv: seq<ExportRow>)
    ensures var js := Populate(ExportRecords(rows, users, startDate, endDate, employeeId), users);
      |csv| == |js| && forall i :: 0 <= i < |js| ==> csv[i] == ExportRowOf(js[i])
  {
    var js := Populate(ExportRecords(rows, users, startDate, endDate, employeeId), users);
    seq(|js|, i requires 0 <= i < |js| => ExportRowOf(js[i]))
  }

  /** A known employee id restricts the export to that employee's rows; an id no user
      has restricts nothing, so the whole window is exported. */
  lemma ExportSelection(rows: seq<AttendanceRecord>, users: seq<User>, startDate: Option<Instant>, endDate: Option<Instant>,
                        employeeId: Option<string>)
    ensures Given(employeeId) && FindByEmployeeId(users, employeeId.value).Some? ==>
      forall r :: r in ExportRecords(rows, users, startDate, endDate, employeeId) <==>
        r in rows && InDateWindow(r, startDate, endDate) && r.userId == FindByEmployeeId(users, employeeId.value).value.id
    ensures Given(employeeId) && FindByEmployeeId(users, employeeId.value).None? ==>
      Export(rows, users, startDate, endDate, employeeId) == Export(rows, users, startDate, endDate, None)
  {
    if Given(employeeId) && FindByEmployeeId(users, employeeId.value).None? {
      assert ExportRecords(rows, users, startDate, endDate, employeeId) == ExportRecords(rows, users, startDate, endDate, None);
    }
  }
}
