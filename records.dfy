/** The record store as the route handlers use it, and the folds they share.

    The attendance collection is a sequence of rows whose (userId, date) keys are
    unique (the schema's unique index). `findOne`, `find` with equality or range
    conditions, `populate` and `save` become the functions below; counting with
    `filter(...).length` or a `forEach` of counters becomes `CountStatus` and friends. */
module Records {
  import opened Wrappers
  import opened Calendar
  import opened AttendanceModel
  import opened Users

  // ---------------------------------------------------------------------------
  // Keys and the store

  predicate HasKey(r: AttendanceRecord, user: UserId, date: Instant) {
    r.userId == user && r.date == date
  }

  /** At most one row per (userId, date). */
  ghost predicate UniqueKeys(rows: seq<AttendanceRecord>) {
    forall i, j :: 0 <= i < j < |rows| ==> !HasKey(rows[j], rows[i].userId, rows[i].date)
  }

  /** Position of the row with the given key, if any. */
  function IndexOf(rows: seq<AttendanceRecord>, user: UserId, date: Instant): (k: Option<nat>)
    ensures k.Some? ==> k.value < |rows| && HasKey(rows[k.value], user, date)
    ensures k.None? ==> forall i :: 0 <= i < |rows| ==> !HasKey(rows[i], user, date)
  {
    if |rows| == 0 then None
    else if HasKey(rows[|rows| - 1], user, date) then Some(|rows| - 1)
    else IndexOf(rows[..|rows| - 1], user, date)
  }

  /** `findOne({ userId, date })`. */
  function FindOne(rows: seq<AttendanceRecord>, user: UserId, date: Instant): (r: Option<AttendanceRecord>)
    ensures r.Some? ==> r.value in rows && HasKey(r.value, user, date)
    ensures r.None? ==> forall x :: x in rows ==> !HasKey(x, user, date)
  {
    match IndexOf(rows, user, date)
    case Some(k) => Some(rows[k])
    case None => None
  }

  /** `save()`: replaces the row with the same key, or adds the row. */
  function Upsert(rows: seq<AttendanceRecord>, r: AttendanceRecord): (saved: seq<AttendanceRecord>)
    ensures r in saved && |rows| <= |saved| <= |rows| + 1
  {
    match IndexOf(rows, r.userId, r.date)
    case Some(k) => assert rows[k := r][k] == r; rows[k := r]
    case None => rows + [r]
  }

  /** Saving keeps the keys unique, makes the saved row the one found under its key,
      leaves every other key's row alone, and adds a row only for a new key. */
  lemma UpsertSpec(rows: seq<AttendanceRecord>, r: AttendanceRecord)
    requires UniqueKeys(rows)
    ensures UniqueKeys(Upsert(rows, r))
    ensures FindOne(Upsert(rows, r), r.userId, r.date) == Some(r)
    ensures forall u, d :: !(u == r.userId && d == r.date) ==> FindOne(Upsert(rows, r), u, d) == FindOne(rows, u, d)
    ensures |Upsert(rows, r)| == |rows| + (if FindOne(rows, r.userId, r.date).None? then 1 else 0)
  {
    var rows' := Upsert(rows, r);
    assert UniqueKeys(rows');
    forall u, d | !(u == r.userId && d == r.date)
      ensures FindOne(rows', u, d) == FindOne(rows, u, d)
    {
      FindOneUnique(rows, u, d);
      FindOneUnique(rows', u, d);
      match IndexOf(rows, u, d)
      case Some(i) =>
        assert rows'[i] == rows[i];
      case None =>
        assert forall x :: x in rows' ==> !HasKey(x, u, d);
    }
    FindOneUnique(rows', r.userId, r.date);
    match IndexOf(rows, r.userId, r.date)
    case Some(k) => assert rows'[k] == r;
    case None => assert rows'[|rows|] == r;
  }

  /** With unique keys, the row found under a key is the only row with that key. */
  lemma FindOneUnique(rows: seq<AttendanceRecord>, user: UserId, date: Instant)
    requires UniqueKeys(rows)
    ensures forall i :: 0 <= i < |rows| && HasKey(rows[i], user, date) ==> FindOne(rows, user, date) == Some(rows[i])
  {
    forall i | 0 <= i < |rows| && HasKey(rows[i], user, date)
      ensures FindOne(rows, user, date) == Some(rows[i])
    {
      var k := IndexOf(rows, user, date).value;
      assert k == i;
    }
  }

  // ---------------------------------------------------------------------------
  // Queries

  /** `find(query)` on the stored rows and `array.filter(...)` on loaded ones: the
      elements satisfying the condition, in order. */
  function Where<T(!new)>(xs: seq<T>, p: T -> bool): (r: seq<T>)
    ensures forall x :: x in r <==> x in xs && p(x)
    ensures |r| <= |xs|
  {
    if |xs| == 0 then []
    else Where(xs[..|xs| - 1], p) + (if p(xs[|xs| - 1]) then [xs[|xs| - 1]] else [])
  }

  /** Filtering keeps every element that meets the condition as often as it occurs,
      and no other. */
  lemma {:induction false} WhereMultiplicity<T(!new)>(xs: seq<T>, p: T -> bool, x: T)
    ensures multiset(Where(xs, p))[x] == if p(x) then multiset(xs)[x] else 0
  {
    if |xs| > 0 {
      var n := |xs| - 1;
      assert xs == xs[..n] + [xs[n]];
      WhereMultiplicity(xs[..n], p, x);
    }
  }

  /** Filtering a concatenation filters each part and keeps them in order. */
  lemma {:induction false} WhereAppend<T(!new)>(a: seq<T>, b: seq<T>, p: T -> bool)
    ensures Where(a + b, p) == Where(a, p) + Where(b, p)
  {
    if |b| == 0 {
      assert a + b == a;
    } else {
      var n := |b| - 1;
      var last := b[n];
      assert (a + b)[..|a + b| - 1] == a + b[..n];
      assert (a + b)[|a + b| - 1] == last;
      var tail := if p(last) then [last] else [];
      assert Where(a + b, p) == Where(a + b[..n], p) + tail;
      WhereAppend(a, b[..n], p);
      assert Where(b, p) == Where(b[..n], p) + tail;
    }
  }

  /** `find({ date: day })`. */
  function OnDate(rows: seq<AttendanceRecord>, day: Instant): seq<AttendanceRecord> {
    Where(rows, (r: AttendanceRecord) => r.date == day)
  }

  /** `find({ date: { $gte: lo, $lte: hi } })`, optionally also `userId: user`. */
  function InRange(rows: seq<AttendanceRecord>, user: Option<UserId>, lo: Instant, hi: Instant): seq<AttendanceRecord> {
    Where(rows, (r: AttendanceRecord) => (user.None? || r.userId == user.value) && lo <= r.date <= hi)
  }

  // ---------------------------------------------------------------------------
  // Folds

  /** Number of records with the given stored status. */
  function CountStatus(recs: seq<AttendanceRecord>, s: Status): nat {
    if |recs| == 0 then 0
    else CountStatus(recs[..|recs| - 1], s) + (if recs[|recs| - 1].status == s then 1 else 0)
  }

  /** Number of records with a check-in time. */
  function CountCheckedIn(recs: seq<AttendanceRecord>): nat {
    if |recs| == 0 then 0
    else CountCheckedIn(recs[..|recs| - 1]) + (if recs[|recs| - 1].checkInTime.Some? then 1 else 0)
  }

  /** Sum of the records' hours (hundredths). */
  function SumHours(recs: seq<AttendanceRecord>): int {
    if |recs| == 0 then 0 else SumHours(recs[..|recs| - 1]) + recs[|recs| - 1].totalHours
  }

  /** Every record has exactly one of the four statuses, so the four counts add up to
      the number of records. */
  lemma {:induction false} StatusCountsPartition(recs: seq<AttendanceRecord>)
    ensures CountStatus(recs, Present) + CountStatus(recs, Absent) + CountStatus(recs, Late)
            + CountStatus(recs, HalfDay) == |recs|
  {
    if |recs| > 0 {
      StatusCountsPartition(recs[..|recs| - 1]);
    }
  }

  /** A status count never exceeds the number of records, nor does the checked-in count. */
  lemma {:induction false} CountsBounded(recs: seq<AttendanceRecord>, s: Status)
    ensures CountStatus(recs, s) <= |recs| && CountCheckedIn(recs) <= |recs|
  {
    if |recs| > 0 {
      CountsBounded(recs[..|recs| - 1], s);
    }
  }

  /** Appending a record adds its contribution to each fold. */
  lemma FoldsAppend(recs: seq<AttendanceRecord>, r: AttendanceRecord)
    ensures CountStatus(recs + [r], r.status) == CountStatus(recs, r.status) + 1
    ensures forall s :: s != r.status ==> CountStatus(recs + [r], s) == CountStatus(recs, s)
    ensures SumHours(recs + [r]) == SumHours(recs) + r.totalHours
    ensures CountCheckedIn(recs + [r]) == CountCheckedIn(recs) + (if r.checkInTime.Some? then 1 else 0)
  {
    assert (recs + [r])[..|recs|] == recs;
  }

  /** The four status counters of a `switch (record.status)` tally. */
  datatype StatusTally = StatusTally(present: nat, absent: nat, late: nat, halfDay: nat)

  function TallyOf(recs: seq<AttendanceRecord>): StatusTally {
    StatusTally(CountStatus(recs, Present), CountStatus(recs, Absent), CountStatus(recs, Late), CountStatus(recs, HalfDay))
  }

  /** One `case` of the switch: the counter of status s goes up by one. */
  function Bump(t: StatusTally, s: Status): StatusTally {
    match s
    case Present => t.(present := t.present + 1)
    case Absent => t.(absent := t.absent + 1)
    case Late => t.(late := t.late + 1)
    case HalfDay => t.(halfDay := t.halfDay + 1)
  }

  /** Counting one more record bumps exactly the counter of its status. */
  lemma TallyAppend(recs: seq<AttendanceRecord>, r: AttendanceRecord)
    ensures TallyOf(recs + [r]) == Bump(TallyOf(recs), r.status)
  {
    FoldsAppend(recs, r);
  }

  // ---------------------------------------------------------------------------
  // Joining records with their users (`populate('userId', ...)`)

  /** A record with its owner, or no owner when that user no longer exists. */
  datatype Joined = Joined(record: AttendanceRecord, user: Option<User>)

  /** `User.findOne`: the first user whose key is k, if any. */
  function FindUserBy<K(==)>(users: seq<User>, key: User -> K, k: K): (u: Option<User>)
    ensures u.Some? ==> u.value in users && key(u.value) == k
    ensures u.None? ==> forall x :: x in users ==> key(x) != k
  {
    if |users| == 0 then None
    else if key(users[0]) == k then Some(users[0])
    else FindUserBy(users[1..], key, k)
  }

  /** The user a record's `userId` names, as `populate('userId')` finds it. */
  function FindUser(users: seq<User>, id: UserId): Option<User> {
    FindUserBy(users, (x: User) => x.id, id)
  }

  function Populate(rows: seq<AttendanceRecord>, users: seq<User>): (js: seq<Joined>)
    ensures |js| == |rows|
    ensures forall i :: 0 <= i < |rows| ==> js[i].record == rows[i] && js[i].user == FindUser(users, rows[i].userId)
  {
    seq(|rows|, i requires 0 <= i < |rows| => Joined(rows[i], FindUser(users, rows[i].userId)))
  }

  function RecordsOf(js: seq<Joined>): (rows: seq<AttendanceRecord>)
    ensures |rows| == |js| && forall i :: 0 <= i < |js| ==> rows[i] == js[i].record
  {
    seq(|js|, i requires 0 <= i < |js| => js[i].record)
  }

  lemma RecordsOfPopulate(rows: seq<AttendanceRecord>, users: seq<User>)
    ensures RecordsOf(Populate(rows, users)) == rows
  {
  }

  /** A record belongs to the joined snapshot exactly when it is a stored row, joined
      with the user its `userId` names. */
  lemma PopulateMember(rows: seq<AttendanceRecord>, users: seq<User>, j: Joined)
    ensures j in Populate(rows, users) <==> j.record in rows && j.user == FindUser(users, j.record.userId)
  {
    var js := Populate(rows, users);
    if j.record in rows && j.user == FindUser(users, j.record.userId) {
      var i :| 0 <= i < |rows| && rows[i] == j.record;
      assert js[i] == j;
    }
  }

  /** `attendance.filter(a => a.checkInTime)`. */
  function CheckedIn(js: seq<Joined>): seq<Joined> {
    Where(js, (j: Joined) => j.record.checkInTime.Some?)
  }

  /** `map(a => a.userId?._id?.toString())`: the owner's id, or nothing for a record
      whose user is gone. */
  function OwnerIds(js: seq<Joined>): (ids: seq<Option<UserId>>)
    ensures |ids| == |js|
    ensures forall i :: 0 <= i < |js| ==> ids[i] == if js[i].user.Some? then Some(js[i].user.value.id) else None
  {
    seq(|js|, i requires 0 <= i < |js| => if js[i].user.Some? then Some(js[i].user.value.id) else None)
  }

  /** `allEmployees.filter(emp => !checkedInIds.includes(emp._id.toString()))`. */
  function NotAmong(employees: seq<User>, ids: seq<Option<UserId>>): (r: seq<User>)
    ensures forall u :: u in r <==> u in employees && Some(u.id) !in ids
    ensures |r| <= |employees|
  {
    Where(employees, (u: User) => Some(u.id) !in ids)
  }

  /** The ids of the users who checked in on a day (joined snapshot of that day). */
  function CheckedInIds(rows: seq<AttendanceRecord>, users: seq<User>, day: Instant): seq<Option<UserId>> {
    OwnerIds(CheckedIn(Populate(OnDate(rows, day), users)))
  }

  /** A roster user's id is among the day's checked-in ids exactly when a row of that
      day with a check-in belongs to that user. */
  lemma CheckedInIdsSpec(rows: seq<AttendanceRecord>, users: seq<User>, day: Instant, u: User)
    requires u in users
    ensures Some(u.id) in CheckedInIds(rows, users, day) <==>
            exists r :: r in rows && r.date == day && r.userId == u.id && r.checkInTime.Some?
  {
    var js := Populate(OnDate(rows, day), users);
    var ids := CheckedInIds(rows, users, day);
    if Some(u.id) in ids {
      var i :| 0 <= i < |ids| && ids[i] == Some(u.id);
      var j := CheckedIn(js)[i];
      PopulateMember(OnDate(rows, day), users, j);
      assert j.record in rows && j.record.date == day && j.record.userId == u.id && j.record.checkInTime.Some?;
    }
    if exists r :: r in rows && r.date == day && r.userId == u.id && r.checkInTime.Some? {
      var r :| r in rows && r.date == day && r.userId == u.id && r.checkInTime.Some?;
      var v := FindUser(users, r.userId);
      assert v.Some?;
      var j := Joined(r, v);
      PopulateMember(OnDate(rows, day), users, j);
      var cs := CheckedIn(js);
      assert j in cs;
      var i :| 0 <= i < |cs| && cs[i] == j;
      assert OwnerIds(cs)[i] == Some(u.id);
    }
  }

  /** Joining keeps the order of the rows, so the checked-in joined records are as many
      as the checked-in rows. */
  lemma {:induction false} CheckedInCount(rows: seq<AttendanceRecord>, users: seq<User>)
    ensures |CheckedIn(Populate(rows, users))| == CountCheckedIn(rows)
  {
    if |rows| > 0 {
      var n := |rows| - 1;
      assert Populate(rows, users)[..n] == Populate(rows[..n], users);
      CheckedInCount(rows[..n], users);
    }
  }

  /** `User.find({ role: 'employee' })`: the roster's employees, in roster order. */
  function Employees(users: seq<User>): (es: seq<User>)
    ensures forall u :: u in es <==> u in users && u.role == Employee
    ensures |es| <= |users|
  {
    Where(users, (u: User) => u.role == Employee)
  }

  // ---------------------------------------------------------------------------
  // Months

  /** `Math.max(0, x)`. */
  function MaxZero(x: int): (r: nat)
    ensures r >= x && (r == x || r == 0)
  {
    if x > 0 then x else 0
  }

  function Min(a: int, b: int): int {
    if a <= b then a else b
  }

  /** The 0-based month asked for, else the current one (`month ? parseInt(month) - 1
      : now.getMonth()`). */
  function TargetMonth(month: Option<int>, now: Instant): int {
    if month.Some? then month.value - 1 else DateOf(now).month - 1
  }

  /** The year asked for, else the current one. */
  function TargetYear(year: Option<int>, now: Instant): int {
    if year.Some? then year.value else DateOf(now).year
  }

  /** `new Date(year, month, 1)`: midnight starting the month. */
  function MonthStart(year: int, month: int): Instant {
    NewDate(year, month, 1, 0, 0, 0)
  }

  /** `new Date(year, month + 1, 0, 23, 59, 59)`: 23:59:59 on the month's last day. */
  function MonthEnd(year: int, month: int): Instant {
    NewDate(year, month + 1, 0, 23, 59, 59)
  }

  /** The month's bounds are a midnight and 23:59:59 of the day 27 to 30 days later. */
  lemma MonthBounds(year: int, month: int)
    ensures TimeInDay(MonthStart(year, month)) == 0
    ensures Hours(MonthEnd(year, month)) == 23 && Minutes(MonthEnd(year, month)) == 59
    ensures 27 <= Day(MonthEnd(year, month)) - Day(MonthStart(year, month)) <= 30
    ensures MonthStart(year, month) < MonthEnd(year, month)
  {
    var y := ConstructorYear(year);
    MonthLength(y, month);
    ClockOfAt(MakeDay(y, month, 1), 0, 0, 0, 0);
    ClockOfAt(MakeDay(y, month + 1, 0), 23, 59, 59, 0);
  }

  // ---------------------------------------------------------------------------
  // Who is absent today

  /** Whether a row of the day with a check-in belongs to the user. */
  ghost predicate CheckedInOn(rows: seq<AttendanceRecord>, user: UserId, day: Instant) {
    exists r :: r in rows && r.date == day && r.userId == user && r.checkInTime.Some?
  }

  /** An entry of a list of absent employees: the employee's public fields. */
  datatype AbsentEntry = AbsentEntry(id: UserId, name: string, employeeId: string, department: string)

  function AbsentEntryOf(u: User): AbsentEntry {
    AbsentEntry(u.id, u.name, u.employeeId, u.department)
  }

  /** The roster's employees who did not check in on the day: `allEmployees` filtered by
      the checked-in ids of the day's joined records. */
  function AbsentOn(rows: seq<AttendanceRecord>, users: seq<User>, day: Instant): seq<User> {
    NotAmong(Employees(users), CheckedInIds(rows, users, day))
  }

  /** An employee is listed absent exactly when no row of that day with a check-in is
      theirs; managers are never listed; the list is no longer than the roster's
      employees. */
  lemma AbsentOnSpec(rows: seq<AttendanceRecord>, users: seq<User>, day: Instant)
    ensures forall u :: u in AbsentOn(rows, users, day) <==>
      u in users && u.role == Employee && !CheckedInOn(rows, u.id, day)
    ensures |AbsentOn(rows, users, day)| <= |Employees(users)|
  {
    forall u | u in users
      ensures Some(u.id) in CheckedInIds(rows, users, day) <==> CheckedInOn(rows, u.id, day)
    {
      CheckedInIdsSpec(rows, users, day, u);
    }
  }
}
