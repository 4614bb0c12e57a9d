/** The handlers of backend/routes/dashboard.js: the employee's dashboard (today, this
    month, the recent days) and the manager's dashboard (today's overview, the weekly
    trend, the department roll-up and this month's counts). Both read a snapshot of
    the rows and of the users at one instant `now`. */
module DashboardRoutes {
  import opened Wrappers
  import opened Calendar
  import opened AttendanceModel
  import opened Users
  import opened Records

  // ---------------------------------------------------------------------------
  // Employee dashboard

  const NotCheckedInStatus: string := "not-checked-in"

  /** The `today` block. */
  datatype TodayBlock = TodayBlock(
    date: Instant,
    isCheckedIn: bool,
    isCheckedOut: bool,
    checkInTime: Option<Instant>,
    checkOutTime: Option<Instant>,
    status: string,
    totalHours: int)

  /** The `monthly` block. */
  datatype MonthlyBlock = MonthlyBlock(present: nat, absent: nat, late: nat, halfDay: nat, totalHours: int, workingDays: nat)

  /** An entry of `recentAttendance`. */
  datatype RecentEntry = RecentEntry(date: Instant, status: Status, checkInTime: Option<Instant>, checkOutTime: Option<Instant>, totalHours: int)

  datatype EmployeeDashboard = EmployeeDashboard(today: TodayBlock, monthly: MonthlyBlock, recentAttendance: seq<RecentEntry>)

  /** The `today` block for today's row, if any: without a row, not checked in, status
      `not-checked-in` and zero hours. */
  function TodayBlockOf(found: Option<AttendanceRecord>, today: Instant): (b: TodayBlock)
    ensures b.date == today
    ensures b.isCheckedIn <==> found.Some? && found.value.checkInTime.Some?
    ensures b.isCheckedOut <==> found.Some? && found.value.checkOutTime.Some?
    ensures b.status == if found.Some? then StatusName(found.value.status) else NotCheckedInStatus
    ensures b.totalHours == if found.Some? then found.value.totalHours else 0
    ensures found.None? ==> b.checkInTime.None? && b.checkOutTime.None?
    ensures found.Some? ==> b.checkInTime == found.value.checkInTime && b.checkOutTime == found.value.checkOutTime
  {
    match found
    case None => TodayBlock(today, false, false, None, None, NotCheckedInStatus, 0)
    case Some(a) =>
      TodayBlock(today, a.checkInTime.Some?, a.checkOutTime.Some?, a.checkInTime, a.checkOutTime, StatusName(a.status), a.totalHours)
  }

  /** The first midnight of the month of `now`, and 23:59:59 on its last day. */
  function CurrentMonthStart(now: Instant): (r: Instant)
    ensures TimeInDay(r) == 0
  {
    MonthBounds(DateOf(now).year, DateOf(now).month - 1);
    MonthStart(DateOf(now).year, DateOf(now).month - 1)
  }

  function CurrentMonthEnd(now: Instant): Instant {
    MonthEnd(DateOf(now).year, DateOf(now).month - 1)
  }

  /** The `monthly` block for the month's rows and its working days so far: status
      counts, the summed hours, and absence as the working days no present, late or
      half-day row covers. */
  function MonthlyOf(recs: seq<AttendanceRecord>, workingDays: nat): (m: MonthlyBlock)
    ensures m.workingDays == workingDays
    ensures m.absent >= workingDays - (m.present + m.late + m.halfDay)
    ensures m.absent == 0 || m.present + m.late + m.halfDay + m.absent == workingDays
  {
    var recorded := CountStatus(recs, Present) + CountStatus(recs, Late) + CountStatus(recs, HalfDay);
    MonthlyBlock(CountStatus(recs, Present), MaxZero(workingDays as int - recorded),
                 CountStatus(recs, Late), CountStatus(recs, HalfDay), SumHours(recs), workingDays)
  }

  function RecentEntryOf(r: AttendanceRecord): RecentEntry {
    RecentEntry(r.date, r.status, r.checkInTime, r.checkOutTime, r.totalHours)
  }

  /** The user's rows from seven days before today's midnight up to today's midnight. */
  function RecentRecords(rows: seq<AttendanceRecord>, user: UserId, now: Instant): seq<AttendanceRecord> {
    var today := StartOfDay(now);
    InRange(rows, Some(user), today - 7 * MsPerDay, today)
  }

  /** The `while` loop of the employee dashboard: from the month's first midnight, one
      day at a time while not past now, count the days that are not Saturday or Sunday. */
  method CountWorkingDaysPassed(monthStart: Instant, currentDate: Instant) returns (workingDaysPassed: nat)
    requires TimeInDay(monthStart) == 0
    ensures workingDaysPassed == CountWorkingDays(Day(monthStart), Day(currentDate))
  {
    var first := Day(monthStart);
    assert monthStart == first * MsPerDay;
    workingDaysPassed := 0;
    var tempDate := monthStart;
    ghost var d := first;
    Midnight(d, currentDate);
    while tempDate <= currentDate
      invariant tempDate == d * MsPerDay && first <= d
      invariant d == first || d <= Day(currentDate) + 1
      invariant workingDaysPassed == CountWorkingDays(first, d - 1)
      decreases currentDate - tempDate
    {
      Midnight(d, currentDate);
      var dayOfWeek := DayOfWeek(tempDate);
      if dayOfWeek != 0 && dayOfWeek != 6 {
        workingDaysPassed := workingDaysPassed + 1;
      }
      tempDate := tempDate + MsPerDay;
      d := d + 1;
    }
    Midnight(d, currentDate);
  }

  /** The `forEach` over the month's rows: a `switch` on the status bumping the
      present, late or half-day counter (an `absent` row bumps none), and the hours
      summed. */
  method MonthTally(monthAttendance: seq<AttendanceRecord>) returns (present: nat, late: nat, halfDay: nat, totalHours: int)
    ensures present == CountStatus(monthAttendance, Present)
    ensures late == CountStatus(monthAttendance, Late)
    ensures halfDay == CountStatus(monthAttendance, HalfDay)
    ensures totalHours == SumHours(monthAttendance)
  {
    present, late, halfDay, totalHours := 0, 0, 0, 0;
    var i := 0;
    while i < |monthAttendance|
      invariant 0 <= i <= |monthAttendance|
      invariant present == CountStatus(monthAttendance[..i], Present)
      invariant late == CountStatus(monthAttendance[..i], Late)
      invariant halfDay == CountStatus(monthAttendance[..i], HalfDay)
      invariant totalHours == SumHours(monthAttendance[..i])
    {
      var record := monthAttendance[i];
      assert monthAttendance[..i + 1] == monthAttendance[..i] + [record];
      FoldsAppend(monthAttendance[..i], record);
      match record.status {
        case Present => present := present + 1;
        case Late => late := late + 1;
        case HalfDay => halfDay := halfDay + 1;
        case Absent =>
      }
      totalHours := totalHours + record.totalHours;
      i := i + 1;
    }
    assert monthAttendance[..i] == monthAttendance;
  }

  /** `GET /dashboard/employee` for the user at `now`. */
  method EmployeeDashboardOf(rows: seq<AttendanceRecord>, userId: UserId, now: Instant) returns (resp: EmployeeDashboard)
    ensures resp.today == TodayBlockOf(FindOne(rows, userId, StartOfDay(now)), StartOfDay(now))
    ensures resp.monthly == MonthlyOf(InRange(rows, Some(userId), CurrentMonthStart(now), CurrentMonthEnd(now)),
                                      CountWorkingDays(Day(CurrentMonthStart(now)), Day(now)))
    ensures |resp.recentAttendance| == |RecentRecords(rows, userId, now)|
    ensures forall i :: 0 <= i < |resp.recentAttendance| ==>
      resp.recentAttendance[i] == RecentEntryOf(RecentRecords(rows, userId, now)[i])
  {
    var today := StartOfDay(now);
    var currentDate := now;
    var monthStart := CurrentMonthStart(now);
    var monthEnd := CurrentMonthEnd(now);
    var todayAttendance := FindOne(rows, userId, today);
    var monthAttendance := InRange(rows, Some(userId), monthStart, monthEnd);

    var present, late, halfDay, totalHours := MonthTally(monthAttendance);

    var workingDaysPassed := CountWorkingDaysPassed(monthStart, currentDate);
    var absent := MaxZero(workingDaysPassed as int - (present + late + halfDay));

    var sevenDaysAgo := today - 7 * MsPerDay;
    var recentAttendance := InRange(rows, Some(userId), sevenDaysAgo, today);

    var todayBlock := TodayBlockOf(todayAttendance, today);
    var monthly := MonthlyBlock(present, absent, late, halfDay, totalHours, workingDaysPassed);
    assert monthly == MonthlyOf(monthAttendance, workingDaysPassed);
    var recent := seq(|recentAttendance|, k requires 0 <= k < |recentAttendance| => RecentEntryOf(recentAttendance[k]));
    resp := EmployeeDashboard(todayBlock, monthly, recent);
  }

  /** For a year outside 0..99, the month's first midnight is the first of today's month,
      so the working days passed are those of the first `day` days of the month. */
  lemma CurrentMonthStartIsFirst(now: Instant)
    requires DateOf(now).year < 0 || DateOf(now).year > 99
    ensures TimeInDay(CurrentMonthStart(now)) == 0
    ensures Day(CurrentMonthStart(now)) == Day(now) - DateOf(now).day + 1
    ensures CountWorkingDays(Day(CurrentMonthStart(now)), Day(now)) <= DateOf(now).day
  {
    var c := DateOf(now);
    var first := MakeDay(c.year, c.month - 1, 1);
    FirstOfMonthDay(Day(now));
    assert CurrentMonthStart(now) == At(first, 0, 0, 0, 0);
    ClockOfAt(first, 0, 0, 0, 0);
    CountWorkingDaysAtMost(first, Day(now));
  }

  /** The first of the month of day z lies `day - 1` days before z. */
  lemma FirstOfMonthDay(z: int)
    ensures MakeDay(CivilFromDays(z).year, CivilFromDays(z).month - 1, 1) == z - CivilFromDays(z).day + 1
  {
    var c := CivilFromDays(z);
    CivilRoundTrip(z);
    DaysFromCivilShift(c.year, c.month, c.day);
    MonthFirstDay(c.year, c.month);
  }

  /** The recent list covers eight calendar days: today and the seven before it. */
  lemma RecentCoversEightDays(rows: seq<AttendanceRecord>, user: UserId, now: Instant, r: AttendanceRecord)
    requires TimeInDay(r.date) == 0
    ensures r in RecentRecords(rows, user, now) <==>
      r in rows && r.userId == user && Day(now) - 7 <= Day(r.date) <= Day(now)
  {
    var today := StartOfDay(now);
    var d := Day(r.date);
    assert r.date == d * MsPerDay;
    Midnight(d, today);
    Midnight(Day(now) - 7, r.date);
    assert today - 7 * MsPerDay == (Day(now) - 7) * MsPerDay;
  }

  /** Stored `absent` rows never change the monthly block. */
  lemma MonthlyIgnoresStoredAbsent(recs: seq<AttendanceRecord>, r: AttendanceRecord, workingDays: nat)
    requires r.status == Absent && r.totalHours == 0
    ensures MonthlyOf(recs + [r], workingDays) == MonthlyOf(recs, workingDays)
  {
    FoldsAppend(recs, r);
  }

  // ---------------------------------------------------------------------------
  // Manager dashboard: overview and monthly counts

  /** The `overview` block. */
  datatype Overview = Overview(totalEmployees: nat, presentToday: nat, absentToday: nat, lateToday: nat)

  /** The `monthlyStats` block: literal status counts, with no inferred absence. */
  datatype MonthlyStats = MonthlyStats(totalRecords: nat, present: nat, late: nat, halfDay: nat)

  /** `monthlyStats` of a month's rows: the rows with each stored status, out of all
      of them. */
  function MonthlyStatsOf(recs: seq<AttendanceRecord>): (m: MonthlyStats)
    ensures m.totalRecords == |recs|
    ensures m.present + m.late + m.halfDay + CountStatus(recs, Absent) == m.totalRecords
  {
    StatusCountsPartition(recs);
    MonthlyStats(|recs|, CountStatus(recs, Present), CountStatus(recs, Late), CountStatus(recs, HalfDay))
  }

  // ---------------------------------------------------------------------------
  // Manager dashboard: the weekly trend

  /** A point of `weeklyTrend`. `absent` is the roster's employee count less the day's
      checked-in rows, so it is an `int`. */
  datatype TrendPoint = TrendPoint(date: Date, dayName: string, present: nat, late: nat, absent: int, halfDay: nat)

  /** The short English weekday names, Sunday first. */
  function DayName(weekday: int): (name: string)
    requires 0 <= weekday < 7
    ensures |name| == 3
  {
    ["Sun", "Mon", "Tue", "Wed", "Thu", "Fri", "Sat"][weekday]
  }

  /** The trend point of day d for a roster of `totalEmployees` employees. */
  function PointOf(rows: seq<AttendanceRecord>, totalEmployees: nat, d: int): (p: TrendPoint)
    ensures p.date == CivilFromDays(d) && p.dayName == DayName(WeekdayOfDay(d))
    ensures p.present == CountStatus(OnDate(rows, d * MsPerDay), Present)
    ensures p.late == CountStatus(OnDate(rows, d * MsPerDay), Late)
    ensures p.halfDay == CountStatus(OnDate(rows, d * MsPerDay), HalfDay)
    ensures p.absent == totalEmployees - CountCheckedIn(OnDate(rows, d * MsPerDay))
    ensures p.absent <= totalEmployees
    ensures p.present + p.late + p.halfDay <= |OnDate(rows, d * MsPerDay)|
  {
    var day := OnDate(rows, d * MsPerDay);
    StatusCountsPartition(day);
    TrendPoint(CivilFromDays(d), DayName(WeekdayOfDay(d)), CountStatus(day, Present), CountStatus(day, Late),
               totalEmployees - CountCheckedIn(day), CountStatus(day, HalfDay))
  }

  /** The working days among first..last, in increasing order. */
  function WorkingDaysIn(first: int, last: int): (ds: seq<int>)
    ensures forall d :: d in ds <==> first <= d <= last && IsWorkingDay(d)
    ensures forall i, j :: 0 <= i < j < |ds| ==> ds[i] < ds[j]
    ensures |ds| == CountWorkingDays(first, last)
    decreases last - first
  {
    if last < first then []
    else
      var earlier := WorkingDaysIn(first, last - 1);
      assert forall i :: 0 <= i < |earlier| ==> earlier[i] <= last - 1 by {
        forall i | 0 <= i < |earlier| ensures earlier[i] <= last - 1 {
          assert earlier[i] in earlier;
        }
      }
      earlier + (if IsWorkingDay(last) then [last] else [])
  }

  /** The trend over the days first..last: one point per working day, in date order;
      Saturdays and Sundays are left out. */
  function TrendOf(rows: seq<AttendanceRecord>, totalEmployees: nat, first: int, last: int): (t: seq<TrendPoint>)
    ensures |t| == CountWorkingDays(first, last)
    decreases last - first
  {
    if last < first then []
    else TrendOf(rows, totalEmployees, first, last - 1)
         + (if IsWorkingDay(last) then [PointOf(rows, totalEmployees, last)] else [])
  }

  /** The k-th point of the trend is the point of the k-th working day of the range. */
  lemma {:induction false} TrendOfDays(rows: seq<AttendanceRecord>, totalEmployees: nat, first: int, last: int)
    ensures var t := TrendOf(rows, totalEmployees, first, last);
      && |t| == |WorkingDaysIn(first, last)|
      && forall k :: 0 <= k < |t| ==> t[k] == PointOf(rows, totalEmployees, WorkingDaysIn(first, last)[k])
    decreases last - first
  {
    if first <= last {
      TrendOfDays(rows, totalEmployees, first, last - 1);
    }
  }

  /** The `for` loop building `weeklyTrend`: i from 6 down to 0, the day i days before
      today, a point pushed only for a weekday. */
  method WeeklyTrend(rows: seq<AttendanceRecord>, totalEmployees: nat, today: Instant) returns (weeklyTrend: seq<TrendPoint>)
    requires TimeInDay(today) == 0
    ensures weeklyTrend == TrendOf(rows, totalEmployees, Day(today) - 6, Day(today))
  {
    ghost var t := Day(today);
    weeklyTrend := [];
    var i := 6;
    while i >= 0
      invariant -1 <= i <= 6
      invariant weeklyTrend == TrendOf(rows, totalEmployees, t - 6, t - i - 1)
    {
      var points := DayPoint(rows, totalEmployees, today, i);
      weeklyTrend := weeklyTrend + points;
      TrendStep(rows, totalEmployees, t - 6, t - i);
      i := i - 1;
    }
  }

  /** One pass of that loop: the point of the day i days before today, or nothing on
      a Saturday or Sunday. */
  method DayPoint(rows: seq<AttendanceRecord>, totalEmployees: nat, today: Instant, i: int) returns (points: seq<TrendPoint>)
    requires TimeInDay(today) == 0
    ensures points == if IsWorkingDay(Day(today) - i) then [PointOf(rows, totalEmployees, Day(today) - i)] else []
  {
    var date := today - i * MsPerDay;
    DaysBefore(today, i);
    var dayAttendance := OnDate(rows, StartOfDay(date));
    var dayOfWeek := DayOfWeek(date);
    points := [];
    if dayOfWeek != 0 && dayOfWeek != 6 {
      points := [TrendPoint(
        CivilFromDays(Day(date)),
        DayName(dayOfWeek),
        CountStatus(dayAttendance, Present),
        CountStatus(dayAttendance, Late),
        totalEmployees - CountCheckedIn(dayAttendance),
        CountStatus(dayAttendance, HalfDay))];
    }
  }

  /** i days before a midnight is the midnight of the day i days earlier. */
  lemma DaysBefore(today: Instant, i: int)
    requires TimeInDay(today) == 0
    ensures var date := today - i * MsPerDay;
      && StartOfDay(date) == date == (Day(today) - i) * MsPerDay
      && Day(date) == Day(today) - i && DayOfWeek(date) == WeekdayOfDay(Day(today) - i)
  {
    var t := Day(today);
    assert today == t * MsPerDay;
    Midnight(t - i, today - i * MsPerDay);
  }

  lemma TrendStep(rows: seq<AttendanceRecord>, totalEmployees: nat, first: int, last: int)
    requires first <= last
    ensures TrendOf(rows, totalEmployees, first, last) == TrendOf(rows, totalEmployees, first, last - 1)
      + (if IsWorkingDay(last) then [PointOf(rows, totalEmployees, last)] else [])
  {
  }

  /** The trend has a point for each of the five weekdays of the last seven days. */
  lemma WeeklyTrendLength(rows: seq<AttendanceRecord>, totalEmployees: nat, today: int)
    ensures |TrendOf(rows, totalEmployees, today - 6, today)| == 5
  {
    TrendOfDays(rows, totalEmployees, today - 6, today);
    WeekHasFiveWorkingDays(today - 6);
  }

  /** The trend's `absent` counts rows, not people: when the only check-in of a Monday
      is a manager's, a roster of no employees shows one absent fewer than none. */
  lemma TrendAbsentCanBeNegative()
    ensures var boss := AttendanceRecord(7, 19877 * MsPerDay, Some(19877 * MsPerDay + 9 * MsPerHour), None, Present, 0, 19877 * MsPerDay);
      IsWorkingDay(19877) && PointOf([boss], 0, 19877).absent == -1
  {
    var boss := AttendanceRecord(7, 19877 * MsPerDay, Some(19877 * MsPerDay + 9 * MsPerHour), None, Present, 0, 19877 * MsPerDay);
    assert [boss][..0] == [];
    assert OnDate([boss], 19877 * MsPerDay) == [boss];
    assert CountCheckedIn([boss]) == 1;
    assert WeekdayOfDay(19877) == 1;
  }

  // ---------------------------------------------------------------------------
  // Manager dashboard: departments

  /** The per-department counters of the JavaScript object `departmentStats`. */
  datatype DeptCount = DeptCount(total: nat, present: nat)

  /** An entry of the `departmentStats` array of the response. */
  datatype DeptEntry = DeptEntry(department: string, total: nat, present: nat, absent: int)

  /** The employees' departments, each once, in order of first appearance (the key
      order of the object built from them). */
  function DistinctDepartments(es: seq<User>): seq<string> {
    if |es| == 0 then []
    else
      var ds := DistinctDepartments(es[..|es| - 1]);
      var e := es[|es| - 1];
      if e.department in ds then ds else ds + [e.department]
  }

  /** The departments listed are exactly the employees' departments, none twice. */
  lemma {:induction false} DistinctDepartmentsSpec(es: seq<User>)
    ensures forall d :: d in DistinctDepartments(es) <==> exists u :: u in es && u.department == d
    ensures forall i, j :: 0 <= i < j < |DistinctDepartments(es)| ==> DistinctDepartments(es)[i] != DistinctDepartments(es)[j]
  {
    if |es| > 0 {
      var p, e := es[..|es| - 1], es[|es| - 1];
      DistinctDepartmentsSpec(p);
      var ds := DistinctDepartments(p);
      assert es == p + [e];
      assert forall u :: u in es <==> u in p || u == e;
      var ds' := DistinctDepartments(es);
      assert ds' == if e.department in ds then ds else ds + [e.department];
      forall d | exists u :: u in es && u.department == d
        ensures d in ds'
      {
        var u :| u in es && u.department == d;
        if u in p {
          assert exists v :: v in p && v.department == d;
          assert d in ds;
        }
      }
      forall i, j | 0 <= i < j < |ds'|
        ensures ds'[i] != ds'[j]
      {
        if j < |ds| {
          assert ds'[i] == ds[i] && ds'[j] == ds[j];
        } else {
          assert ds'[i] == ds[i] && ds[i] in ds;
        }
      }
    }
  }

  /** Number of employees of department d. */
  function CountDept(es: seq<User>, d: string): nat {
    if |es| == 0 then 0
    else CountDept(es[..|es| - 1], d) + (if es[|es| - 1].department == d then 1 else 0)
  }

  /** Number of joined records with a check-in whose user belongs to department d. */
  function CountPresentIn(js: seq<Joined>, d: string): nat {
    if |js| == 0 then 0
    else
      var j := js[|js| - 1];
      CountPresentIn(js[..|js| - 1], d) + (if j.user.Some? && j.record.checkInTime.Some? && j.user.value.department == d then 1 else 0)
  }

  /** Sum of the department sizes over the departments ds. */
  function SumTotals(es: seq<User>, ds: seq<string>): nat {
    if |ds| == 0 then 0 else SumTotals(es, ds[..|ds| - 1]) + CountDept(es, ds[|ds| - 1])
  }

  /** Number of times d occurs in ds. */
  function Occurrences(ds: seq<string>, d: string): nat {
    if |ds| == 0 then 0 else Occurrences(ds[..|ds| - 1], d) + (if ds[|ds| - 1] == d then 1 else 0)
  }

  lemma {:induction false} CountDeptAbsent(es: seq<User>, d: string)
    requires forall u :: u in es ==> u.department != d
    ensures CountDept(es, d) == 0
  {
    if |es| > 0 {
      assert es[|es| - 1] in es;
      CountDeptAbsent(es[..|es| - 1], d);
    }
  }

  lemma {:induction false} OccurrencesDistinct(ds: seq<string>, d: string)
    requires forall i, j :: 0 <= i < j < |ds| ==> ds[i] != ds[j]
    ensures Occurrences(ds, d) == if d in ds then 1 else 0
  {
    if |ds| > 0 {
      var p := ds[..|ds| - 1];
      OccurrencesDistinct(p, d);
      assert ds == p + [ds[|ds| - 1]];
      if ds[|ds| - 1] == d {
        assert d !in p;
      }
    }
  }

  /** One more employee of department x adds, to the sum over ds, one per occurrence
      of x in ds. */
  lemma {:induction false} SumTotalsAppend(es: seq<User>, e: User, ds: seq<string>)
    ensures SumTotals(es + [e], ds) == SumTotals(es, ds) + Occurrences(ds, e.department)
  {
    assert (es + [e])[..|es|] == es;
    if |ds| > 0 {
      SumTotalsAppend(es, e, ds[..|ds| - 1]);
    }
  }

  /** Every employee is counted in exactly one department: the totals add up to the
      number of employees. */
  lemma {:induction false} DepartmentTotalsSum(es: seq<User>)
    ensures SumTotals(es, DistinctDepartments(es)) == |es|
  {
    if |es| > 0 {
      var p, e := es[..|es| - 1], es[|es| - 1];
      assert es == p + [e];
      var ds := DistinctDepartments(p);
      DepartmentTotalsSum(p);
      DistinctDepartmentsSpec(p);
      SumTotalsAppend(p, e, ds);
      OccurrencesDistinct(ds, e.department);
      if e.department !in ds {
        NewDepartmentTotal(p, e, ds);
      }
    }
  }

  /** An employee whose department none before had opens it with a count of one. */
  lemma NewDepartmentTotal(p: seq<User>, e: User, ds: seq<string>)
    requires forall d :: d in ds <==> exists u :: u in p && u.department == d
    requires e.department !in ds
    ensures SumTotals(p + [e], ds + [e.department]) == SumTotals(p + [e], ds) + 1
  {
    assert forall u :: u in p ==> u.department != e.department;
    CountDeptAbsent(p, e.department);
    assert (p + [e])[..|p|] == p;
    assert (ds + [e.department])[..|ds|] == ds;
  }

  /** The object holds exactly the listed departments, each with the given counters. */
  ghost predicate Tabulates(order: seq<string>, stats: map<string, DeptCount>, es: seq<User>, js: seq<Joined>) {
    && (forall d :: d in stats <==> d in order)
    && (forall d :: d in stats ==> stats[d] == DeptCount(CountDept(es, d), CountPresentIn(js, d)))
  }

  /** The first `forEach` over the employees: create a department's counters on its
      first employee, then count the employee in. */
  method CountEmployees(employees: seq<User>) returns (order: seq<string>, stats: map<string, DeptCount>)
    ensures order == DistinctDepartments(employees)
    ensures Tabulates(order, stats, employees, [])
  {
    order, stats := [], map[];
    var i := 0;
    while i < |employees|
      invariant 0 <= i <= |employees|
      invariant order == DistinctDepartments(employees[..i])
      invariant Tabulates(order, stats, employees[..i], [])
    {
      var emp := employees[i];
      ghost var order0, stats0 := order, stats;
      if emp.department !in stats {
        stats := stats[emp.department := DeptCount(0, 0)];
        order := order + [emp.department];
      }
      stats := stats[emp.department := stats[emp.department].(total := stats[emp.department].total + 1)];
      assert employees[..i + 1] == employees[..i] + [emp];
      CountEmployeeStep(order0, stats0, employees[..i], emp);
      i := i + 1;
    }
    assert employees[..i] == employees;
  }

  /** One employee more: a new department is appended to the keys with its counters
      created, then the department's total goes up by one. */
  lemma CountEmployeeStep(order: seq<string>, stats: map<string, DeptCount>, prefix: seq<User>, emp: User)
    requires order == DistinctDepartments(prefix) && Tabulates(order, stats, prefix, [])
    ensures var x := emp.department;
      var created := if x in stats then stats else stats[x := DeptCount(0, 0)];
      var order' := if x in stats then order else order + [x];
      order' == DistinctDepartments(prefix + [emp])
      && Tabulates(order', created[x := created[x].(total := created[x].total + 1)], prefix + [emp], [])
  {
    var x := emp.department;
    var es := prefix + [emp];
    assert es[..|prefix|] == prefix;
    var created := if x in stats then stats else stats[x := DeptCount(0, 0)];
    var order' := if x in stats then order else order + [x];
    var stats' := created[x := created[x].(total := created[x].total + 1)];
    if x !in stats {
      DistinctDepartmentsSpec(prefix);
      assert forall u :: u in prefix ==> u.department != x;
      CountDeptAbsent(prefix, x);
    }
    assert created[x] == DeptCount(CountDept(prefix, x), 0);
    forall d | d in stats'
      ensures stats'[d] == DeptCount(CountDept(es, d), CountPresentIn([], d))
    {
      if d != x {
        assert stats'[d] == stats[d];
      }
    }
  }

  /** The second `forEach`, over today's joined records: a checked-in record of a user
      whose department already has counters counts one present there. */
  method CountPresent(order: seq<string>, start: map<string, DeptCount>, employees: seq<User>, todayAttendance: seq<Joined>)
    returns (stats: map<string, DeptCount>)
    requires Tabulates(order, start, employees, [])
    ensures Tabulates(order, stats, employees, todayAttendance)
  {
    stats := start;
    var i := 0;
    while i < |todayAttendance|
      invariant 0 <= i <= |todayAttendance|
      invariant Tabulates(order, stats, employees, todayAttendance[..i])
    {
      var record := todayAttendance[i];
      ghost var stats0 := stats;
      if record.user.Some? && record.record.checkInTime.Some? {
        var dept := record.user.value.department;
        if dept in stats {
          stats := stats[dept := stats[dept].(present := stats[dept].present + 1)];
        }
      }
      assert todayAttendance[..i + 1] == todayAttendance[..i] + [record];
      CountPresentStep(order, stats0, employees, todayAttendance[..i], record);
      i := i + 1;
    }
    assert todayAttendance[..i] == todayAttendance;
  }

  /** One joined record more: only a checked-in record with a user of a listed
      department changes the counters, adding one present to that department. */
  lemma CountPresentStep(order: seq<string>, stats: map<string, DeptCount>, employees: seq<User>, js: seq<Joined>, j: Joined)
    requires Tabulates(order, stats, employees, js)
    ensures var counts := j.user.Some? && j.record.checkInTime.Some? && j.user.value.department in stats;
      var x := if j.user.Some? then j.user.value.department else "";
      Tabulates(order, if counts then stats[x := stats[x].(present := stats[x].present + 1)] else stats, employees, js + [j])
  {
    assert (js + [j])[..|js|] == js;
  }

  /** `Object.entries(departmentStats).map(...)`: the departments in key order, with
      absent as total less present. */
  function DeptEntries(order: seq<string>, stats: map<string, DeptCount>): (es: seq<DeptEntry>)
    requires forall d :: d in order ==> d in stats
    ensures |es| == |order|
    ensures forall k :: 0 <= k < |order| ==>
      && es[k].department == order[k]
      && es[k].total == stats[order[k]].total && es[k].present == stats[order[k]].present
      && es[k].absent == es[k].total - es[k].present
  {
    seq(|order|, k requires 0 <= k < |order| => DeptEntry(order[k], stats[order[k]].total, stats[order[k]].present,
                                                        stats[order[k]].total - stats[order[k]].present))
  }

  /** Sum of the entries' totals. */
  function SumEntryTotals(es: seq<DeptEntry>): nat {
    if |es| == 0 then 0 else SumEntryTotals(es[..|es| - 1]) + es[|es| - 1].total
  }

  lemma {:induction false} EntryTotalsPrefix(p: seq<string>, order: seq<string>, stats: map<string, DeptCount>, employees: seq<User>, js: seq<Joined>)
    requires forall d :: d in p ==> d in order
    requires Tabulates(order, stats, employees, js)
    ensures SumEntryTotals(DeptEntries(p, stats)) == SumTotals(employees, p)
    decreases |p|
  {
    if |p| > 0 {
      var q := p[..|p| - 1];
      assert forall d :: d in q ==> d in p;
      var es := DeptEntries(p, stats);
      assert es[..|es| - 1] == DeptEntries(q, stats);
      assert p[|p| - 1] in p;
      EntryTotalsPrefix(q, order, stats, employees, js);
    }
  }

  /** The entries are one per department, in order of first appearance, each with its
      employees, its checked-in records and the difference. */
  ghost predicate ReportsDepartments(entries: seq<DeptEntry>, employees: seq<User>, todayAttendance: seq<Joined>) {
    var order := DistinctDepartments(employees);
    && |entries| == |order|
    && forall k :: 0 <= k < |order| ==>
         var d := order[k];
         var total := CountDept(employees, d);
         var present := CountPresentIn(todayAttendance, d);
         entries[k] == DeptEntry(d, total, present, total - present)
  }

  /** `departmentStats` for the employees and today's joined records: one entry per
      department, in order of first appearance, with its employees, its checked-in
      records and the difference; the totals add up to the number of employees. */
  method DepartmentStats(employees: seq<User>, todayAttendance: seq<Joined>) returns (entries: seq<DeptEntry>)
    ensures ReportsDepartments(entries, employees, todayAttendance)
    ensures SumEntryTotals(entries) == |employees|
  {
    var order, stats := CountEmployees(employees);
    stats := CountPresent(order, stats, employees, todayAttendance);
    entries := DeptEntries(order, stats);
    EntryTotalsPrefix(order, order, stats, employees, todayAttendance);
    DepartmentTotalsSum(employees);
  }

  // ---------------------------------------------------------------------------
  // Manager dashboard: the handler

  datatype ManagerDashboard = ManagerDashboard(
    overview: Overview,
    weeklyTrend: seq<TrendPoint>,
    departmentStats: seq<DeptEntry>,
    absentEmployees: seq<AbsentEntry>,
    monthlyStats: MonthlyStats)

  /** The `overview` block and `absentEmployees` for the day `today`: the roster's
      employees, the day's checked-in and late rows, and the employees no checked-in
      row of the day belongs to. */
  method TodayOverview(rows: seq<AttendanceRecord>, users: seq<User>, today: Instant)
    returns (overview: Overview, absentEmployees: seq<AbsentEntry>)
    ensures overview.totalEmployees == |Employees(users)|
    ensures overview.presentToday == CountCheckedIn(OnDate(rows, today))
    ensures overview.lateToday == CountStatus(OnDate(rows, today), Late)
    ensures overview.absentToday == |AbsentOn(rows, users, today)| == |absentEmployees|
    ensures forall k :: 0 <= k < |absentEmployees| ==> absentEmployees[k] == AbsentEntryOf(AbsentOn(rows, users, today)[k])
  {
    var allEmployees := Employees(users);
    var todayAttendance := Populate(OnDate(rows, today), users);
    var presentToday := |CheckedIn(todayAttendance)|;
    CheckedInCount(OnDate(rows, today), users);
    var lateToday := CountStatus(RecordsOf(todayAttendance), Late);
    RecordsOfPopulate(OnDate(rows, today), users);
    var absentToday := NotAmong(allEmployees, OwnerIds(CheckedIn(todayAttendance)));
    overview := Overview(|allEmployees|, presentToday, |absentToday|, lateToday);
    absentEmployees := seq(|absentToday|, k requires 0 <= k < |absentToday| => AbsentEntryOf(absentToday[k]));
  }

  /** `GET /dashboard/manager` at `now`, over the rows and the user roster. */
  method ManagerDashboardOf(rows: seq<AttendanceRecord>, users: seq<User>, now: Instant) returns (resp: ManagerDashboard)
    ensures var today := StartOfDay(now);
      && resp.overview.totalEmployees == |Employees(users)|
      && resp.overview.presentToday == CountCheckedIn(OnDate(rows, today))
      && resp.overview.lateToday == CountStatus(OnDate(rows, today), Late)
      && resp.overview.absentToday == |AbsentOn(rows, users, today)|
    ensures resp.weeklyTrend == TrendOf(rows, |Employees(users)|, Day(now) - 6, Day(now))
    ensures ReportsDepartments(resp.departmentStats, Employees(users), Populate(OnDate(rows, StartOfDay(now)), users))
    ensures SumEntryTotals(resp.departmentStats) == |Employees(users)|
    ensures |resp.absentEmployees| == |AbsentOn(rows, users, StartOfDay(now))|
    ensures forall k :: 0 <= k < |resp.absentEmployees| ==>
      resp.absentEmployees[k] == AbsentEntryOf(AbsentOn(rows, users, StartOfDay(now))[k])
    ensures resp.monthlyStats == MonthlyStatsOf(InRange(rows, None, CurrentMonthStart(now), CurrentMonthEnd(now)))
  {
    var today := StartOfDay(now);
    assert Day(today) == Day(now);
    var totalEmployees := |Employees(users)|;
    var weeklyTrend := WeeklyTrend(rows, totalEmployees, today);
    assert weeklyTrend == TrendOf(rows, totalEmployees, Day(now) - 6, Day(now));
    var overview, absentEmployees := TodayOverview(rows, users, today);
    var departmentStats := DepartmentStats(Employees(users), Populate(OnDate(rows, today), users));
    var monthAttendance := InRange(rows, None, CurrentMonthStart(now), CurrentMonthEnd(now));
    resp := ManagerDashboard(overview, weeklyTrend, departmentStats, absentEmployees, MonthlyStatsOf(monthAttendance));
  }

  /** Each department entry's present count takes the records of that department's
      users, managers included, so `absent` is negative when more of them checked in
      than the department has employees: here an employee and the department's
      manager both check in, and the one-employee department reports `absent` -1. */
  lemma DepartmentAbsentCanBeNegative(entries: seq<DeptEntry>)
    requires var emp := User(1, "A", "a@x", Employee, "EMP001", "Sales");
      var boss := User(2, "B", "b@x", Manager, "EMP002", "Sales");
      var r1 := AttendanceRecord(1, 0, Some(9 * MsPerHour), None, Present, 0, 0);
      var r2 := AttendanceRecord(2, 0, Some(9 * MsPerHour), None, Present, 0, 0);
      ReportsDepartments(entries, Employees([emp, boss]), Populate([r1, r2], [emp, boss]))
    ensures |entries| == 1 && entries[0] == DeptEntry("Sales", 1, 2, -1)
  {
    var emp := User(1, "A", "a@x", Employee, "EMP001", "Sales");
    var boss := User(2, "B", "b@x", Manager, "EMP002", "Sales");
    var r1 := AttendanceRecord(1, 0, Some(9 * MsPerHour), None, Present, 0, 0);
    var r2 := AttendanceRecord(2, 0, Some(9 * MsPerHour), None, Present, 0, 0);
    assert [emp, boss][..1] == [emp] && [emp][..0] == [];
    assert Employees([emp, boss]) == [emp];
    assert DistinctDepartments([emp]) == ["Sales"];
    assert CountDept([emp], "Sales") == 1;
    assert [emp, boss][1..] == [boss];
    assert FindUserBy([boss], (x: User) => x.id, 2) == Some(boss);
    assert FindUser([emp, boss], 1) == Some(emp);
    assert FindUser([emp, boss], 2) == Some(boss);
    var js := Populate([r1, r2], [emp, boss]);
    assert js == [Joined(r1, Some(emp)), Joined(r2, Some(boss))];
    assert js[..1] == [Joined(r1, Some(emp))] && js[..1][..0] == [];
    assert CountPresentIn(js[..1][..0], "Sales") == 0;
    assert CountPresentIn(js[..1], "Sales") == 1;
    assert js[..|js| - 1] == js[..1];
    assert CountPresentIn(js, "Sales") == 2;
  }
}
