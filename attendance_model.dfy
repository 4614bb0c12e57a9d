/** The attendance record of backend/models/Attendance.js: its fields and defaults,
    the status rule run at check-in and the worked-hours rule run at check-out.

    A stored record is the value `AttendanceRecord`; the document a handler loads,
    changes in place and saves is the class `Attendance`, whose two methods
    `DetermineStatus` and `CalculateTotalHours` update its fields as the schema
    methods do. Hours are kept as a whole number of hundredths of an hour. */
module AttendanceModel {
  import opened Wrappers
  import opened Calendar

  /** A user's database id. */
  type UserId = nat

  datatype Status = Present | Absent | Late | HalfDay

  /** The status as stored and sent: the schema's enum strings. */
  function StatusName(s: Status): (name: string)
    ensures name in ["present", "absent", "late", "half-day"]
  {
    match s
    case Present => "present"
    case Absent => "absent"
    case Late => "late"
    case HalfDay => "half-day"
  }

  lemma StatusNameInjective(s: Status, s': Status)
    ensures StatusName(s) == StatusName(s') <==> s == s'
  {
  }

  /** One row of the attendance collection. `date` is the start of the day the row
      belongs to; (userId, date) is the collection's unique key. */
  datatype AttendanceRecord = AttendanceRecord(
    userId: UserId,
    date: Instant,
    checkInTime: Option<Instant>,
    checkOutTime: Option<Instant>,
    status: Status,
    totalHours: int,
    createdAt: Instant)

  /** Default status and hours of a new row, before any rule has run. */
  const DefaultStatus: Status := Present
  const DefaultTotalHours: int := 0

  /** A new row built from the given fields; the others take the schema's defaults
      (no check-out, status present, zero hours, created now). */
  function NewRecord(userId: UserId, date: Instant, checkInTime: Option<Instant>, now: Instant): (r: AttendanceRecord)
    ensures r.userId == userId && r.date == date && r.checkInTime == checkInTime
    ensures r.checkOutTime == None && r.status == Present && r.totalHours == 0 && r.createdAt == now
  {
    AttendanceRecord(userId, date, checkInTime, None, DefaultStatus, DefaultTotalHours, now)
  }

  // ---------------------------------------------------------------------------
  // Status rule

  const LateHour: int := 9
  const LateMinute: int := 0
  const HalfDayHour: int := 12

  /** Minutes since midnight of a clock time. */
  function MinuteOfDay(t: Instant): (m: int)
    ensures 0 <= m < 24 * 60
    ensures m == Hours(t) * 60 + Minutes(t)
  {
    TimeInDay(t) / MsPerMinute
  }

  /** The status of a check-in at hour:minute: after 12:00 half-day, after 09:00 late,
      otherwise present. Seconds do not matter, so 09:00:59 is still on time. */
  function StatusAt(hour: int, minute: int): (s: Status)
    ensures s != Absent
    ensures 0 <= minute < 60 ==> (s == Present <==> hour * 60 + minute <= 9 * 60)
    ensures 0 <= minute < 60 ==> (s == Late <==> 9 * 60 < hour * 60 + minute <= 12 * 60)
    ensures 0 <= minute < 60 ==> (s == HalfDay <==> 12 * 60 < hour * 60 + minute)
  {
    if hour > HalfDayHour || (hour == HalfDayHour && minute > 0) then HalfDay
    else if hour > LateHour || (hour == LateHour && minute > LateMinute) then Late
    else Present
  }

  /** The status `determineStatus` gives a record with this check-in time. */
  function StatusFor(checkInTime: Option<Instant>): (s: Status)
    ensures checkInTime == None <==> s == Absent
  {
    match checkInTime
    case None => Absent
    case Some(t) => StatusAt(Hours(t), Minutes(t))
  }

  /** How bad a status is: present < late < half-day < absent. */
  function Rank(s: Status): nat {
    match s
    case Present => 0
    case Late => 1
    case HalfDay => 2
    case Absent => 3
  }

  /** On one day, checking in later never gives a better status. */
  lemma StatusMonotone(t: Instant, u: Instant)
    requires Day(t) == Day(u) && t <= u
    ensures Rank(StatusFor(Some(t))) <= Rank(StatusFor(Some(u)))
  {
    assert TimeInDay(t) <= TimeInDay(u);
    assert MinuteOfDay(t) <= MinuteOfDay(u);
  }

  /** Check-in times with the same hour and minute get the same status. */
  lemma StatusOnlyByClock(t: Instant, u: Instant)
    requires MinuteOfDay(t) == MinuteOfDay(u)
    ensures StatusFor(Some(t)) == StatusFor(Some(u))
  {
    var s, s' := StatusFor(Some(t)), StatusFor(Some(u));
    assert s == Present <==> s' == Present;
    assert s == Late <==> s' == Late;
  }

  // ---------------------------------------------------------------------------
  // Worked hours

  /** A duration in milliseconds as hours rounded half-up to hundredths:
      `Math.round(diff / 3600000 * 100)`, kept as the whole number of hundredths. */
  function RoundedHours(diffMs: int): (hundredths: int)
    ensures 36000 * hundredths - 18000 <= diffMs < 36000 * hundredths + 18000
  {
    (diffMs + 18000) / 36000
  }

  /** Rounding is monotone and keeps the sign of a non-negative duration. */
  lemma RoundedHoursMonotone(d: int, d': int)
    requires d <= d'
    ensures RoundedHours(d) <= RoundedHours(d')
    ensures 0 <= d ==> 0 <= RoundedHours(d)
  {
  }

  /** `calculateTotalHours`: with both times present, the rounded hours between them;
      otherwise the stored value stays. */
  function HoursFor(r: AttendanceRecord): (h: int)
    ensures r.checkInTime.Some? && r.checkOutTime.Some? ==>
      36000 * h - 18000 <= r.checkOutTime.value - r.checkInTime.value < 36000 * h + 18000
    ensures r.checkInTime.None? || r.checkOutTime.None? ==> h == r.totalHours
  {
    if r.checkInTime.Some? && r.checkOutTime.Some? then
      RoundedHours(r.checkOutTime.value - r.checkInTime.value)
    else r.totalHours
  }

  /** The two rules applied to a whole row. */
  function WithStatus(r: AttendanceRecord): (r': AttendanceRecord)
    ensures r'.status == StatusFor(r.checkInTime) && r'.(status := r.status) == r
  {
    r.(status := StatusFor(r.checkInTime))
  }

  function WithHours(r: AttendanceRecord): (r': AttendanceRecord)
    ensures r'.totalHours == HoursFor(r) && r'.(totalHours := r.totalHours) == r
  {
    r.(totalHours := HoursFor(r))
  }

  /** The worked-hours rule: exact hundredths of the time between check-in and
      check-out; missing times leave the stored hours; check-out no earlier than
      check-in never gives negative hours. */
  lemma HoursForSpec(r: AttendanceRecord)
    ensures r.checkInTime.Some? && r.checkOutTime.Some? ==>
      var d := r.checkOutTime.value - r.checkInTime.value;
      36000 * HoursFor(r) - 18000 <= d < 36000 * HoursFor(r) + 18000
    ensures r.checkInTime.None? || r.checkOutTime.None? ==> HoursFor(r) == r.totalHours
    ensures r.checkInTime.Some? && r.checkOutTime.Some? && r.checkInTime.value <= r.checkOutTime.value ==>
      HoursFor(r) >= 0
  {
    if r.checkInTime.Some? && r.checkOutTime.Some? && r.checkInTime.value <= r.checkOutTime.value {
      RoundedHoursMonotone(0, r.checkOutTime.value - r.checkInTime.value);
    }
  }

  /** Running either rule again on its own result changes nothing, and the rules do not
      interfere: the status does not depend on the hours or the hours on the status. */
  lemma RulesIdempotent(r: AttendanceRecord)
    ensures WithStatus(WithStatus(r)) == WithStatus(r)
    ensures WithHours(WithHours(r)) == WithHours(r)
    ensures WithStatus(WithHours(r)) == WithHours(WithStatus(r))
  {
  }

  /** A check-in at 09:00 and check-out at 17:30 on the same day is 8.50 hours and on
      time; 09:01 is late and 12:01 half-day. */
  lemma WorkedDayExample(d: int)
    ensures var r := NewRecord(0, At(d, 0, 0, 0, 0), Some(At(d, 9, 0, 0, 0)), At(d, 9, 0, 0, 0))
                     .(checkOutTime := Some(At(d, 17, 30, 0, 0)));
            HoursFor(r) == 850 && StatusFor(r.checkInTime) == Present
    ensures StatusFor(Some(At(d, 9, 0, 59, 999))) == Present
    ensures StatusFor(Some(At(d, 9, 1, 0, 0))) == Late
    ensures StatusFor(Some(At(d, 12, 0, 59, 0))) == Late
    ensures StatusFor(Some(At(d, 12, 1, 0, 0))) == HalfDay
  {
    ClockOfAt(d, 9, 0, 0, 0);
    ClockOfAt(d, 17, 30, 0, 0);
    ClockOfAt(d, 9, 0, 59, 999);
    ClockOfAt(d, 9, 1, 0, 0);
    ClockOfAt(d, 12, 0, 59, 0);
    ClockOfAt(d, 12, 1, 0, 0);
  }

  // ---------------------------------------------------------------------------
  // The document

  /** A loaded attendance document, changed in place by the handlers and the two
      schema methods, then saved as `Record()`. */
  class Attendance {
    var userId: UserId
    var date: Instant
    var checkInTime: Option<Instant>
    var checkOutTime: Option<Instant>
    var status: Status
    var totalHours: int
    var createdAt: Instant

    /** The row this document saves as. */
    function Record(): AttendanceRecord
      reads this
    {
      AttendanceRecord(userId, date, checkInTime, checkOutTime, status, totalHours, createdAt)
    }

    /** `new Attendance({ userId, date, checkInTime })`: the other fields take their
        defaults. */
    constructor (userId: UserId, date: Instant, checkInTime: Option<Instant>, now: Instant)
      ensures Record() == NewRecord(userId, date, checkInTime, now)
    {
      this.userId := userId;
      this.date := date;
      this.checkInTime := checkInTime;
      this.checkOutTime := None;
      this.status := DefaultStatus;
      this.totalHours := DefaultTotalHours;
      this.createdAt := now;
    }

    /** A document loaded from a stored row. */
    constructor Load(r: AttendanceRecord)
      ensures Record() == r
    {
      userId, date, checkInTime, checkOutTime := r.userId, r.date, r.checkInTime, r.checkOutTime;
      status, totalHours, createdAt := r.status, r.totalHours, r.createdAt;
    }

    /** `determineStatus`: absent without a check-in, otherwise by the check-in's
        clock time. Nothing else changes. */
    method DetermineStatus()
      modifies this
      ensures Record() == WithStatus(old(Record()))
      ensures status == StatusFor(checkInTime)
    {
      if checkInTime.None? {
        status := Absent;
        return;
      }
      var checkInHour := Hours(checkInTime.value);
      var checkInMinute := Minutes(checkInTime.value);
      if checkInHour > HalfDayHour || (checkInHour == HalfDayHour && checkInMinute > 0) {
        status := HalfDay;
      } else if checkInHour > LateHour || (checkInHour == LateHour && checkInMinute > LateMinute) {
        status := Late;
      } else {
        status := Present;
      }
    }

    /** `calculateTotalHours`: recomputes the hours when both times are set and returns
        the (possibly unchanged) hours. Nothing else changes. */
    method CalculateTotalHours() returns (hours: int)
      modifies this
      ensures Record() == WithHours(old(Record()))
      ensures hours == totalHours
    {
      if checkInTime.Some? && checkOutTime.Some? {
        var diff := checkOutTime.value - checkInTime.value;
        totalHours := (diff + 18000) / 36000;
      }
      hours := totalHours;
    }
  }
}
