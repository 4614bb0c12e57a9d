/** Calendar arithmetic of the backend routes: instants, day boundaries, day of week,
    the JavaScript `Date` constructor's normalisation of (year, month, day), and the
    working-day predicate and count.

    An instant is a whole number of milliseconds since 1970-01-01 00:00 in the
    server's local time zone. The zone is fixed, has no daylight-saving shifts and is
    taken to be UTC, so one calendar day is always 86,400,000 ms long and the UTC
    calendar date of an instant is also its local one. */
module Calendar {

  type Instant = int

  const MsPerSecond: int := 1000
  const MsPerMinute: int := 60 * MsPerSecond
  const MsPerHour: int := 60 * MsPerMinute
  const MsPerDay: int := 24 * MsPerHour

  /** Day number of an instant: whole days since 1970-01-01 (floor, also before 1970). */
  function Day(t: Instant): int {
    t / MsPerDay
  }

  /** Milliseconds elapsed since the local midnight that starts t's day. */
  function TimeInDay(t: Instant): (ms: int)
    ensures 0 <= ms < MsPerDay
    ensures t == Day(t) * MsPerDay + ms
  {
    t % MsPerDay
  }

  /** `Date.prototype.getHours`. */
  function Hours(t: Instant): (h: int)
    ensures 0 <= h < 24
  {
    TimeInDay(t) / MsPerHour
  }

  /** `Date.prototype.getMinutes`. */
  function Minutes(t: Instant): (m: int)
    ensures 0 <= m < 60
  {
    (TimeInDay(t) % MsPerHour) / MsPerMinute
  }

  /** `Date.prototype.getDay`: 0 is Sunday, 6 is Saturday; day 0 (1970-01-01) was a Thursday. */
  function DayOfWeek(t: Instant): (w: int)
    ensures 0 <= w < 7
  {
    WeekdayOfDay(Day(t))
  }

  function WeekdayOfDay(d: int): (w: int)
    ensures 0 <= w < 7
  {
    (d + 4) % 7
  }

  /** The instant at the given clock time on day d (JavaScript `MakeDate(d, MakeTime(...))`). */
  function At(d: int, h: int, m: int, s: int, ms: int): Instant {
    d * MsPerDay + h * MsPerHour + m * MsPerMinute + s * MsPerSecond + ms
  }

  /** `d.setHours(h, m, s, ms)` on a copy of t: same calendar day, new clock time. */
  function SetHours(t: Instant, h: int, m: int, s: int, ms: int): Instant {
    At(Day(t), h, m, s, ms)
  }

  /** `getStartOfDay` of the routes: `setHours(0, 0, 0, 0)`. */
  function StartOfDay(t: Instant): (r: Instant)
    ensures Day(r) == Day(t) && TimeInDay(r) == 0
    ensures r <= t < r + MsPerDay
  {
    SetHours(t, 0, 0, 0, 0)
  }

  /** `getEndOfDay` of the routes: `setHours(23, 59, 59, 999)`. */
  function EndOfDay(t: Instant): (r: Instant)
    ensures Day(r) == Day(t) && TimeInDay(r) == MsPerDay - 1
    ensures StartOfDay(t) <= t <= r
  {
    SetHours(t, 23, 59, 59, 999)
  }

  /** A clock time within a day reads back as that day, hour and minute. */
  lemma ClockOfAt(d: int, h: int, m: int, s: int, ms: int)
    requires 0 <= h < 24 && 0 <= m < 60 && 0 <= s < 60 && 0 <= ms < 1000
    ensures Day(At(d, h, m, s, ms)) == d
    ensures TimeInDay(At(d, h, m, s, ms)) == At(0, h, m, s, ms)
    ensures Hours(At(d, h, m, s, ms)) == h && Minutes(At(d, h, m, s, ms)) == m
  {
    var t := At(d, h, m, s, ms);
    var inDay := At(0, h, m, s, ms);
    assert t == d * MsPerDay + inDay && 0 <= inDay < MsPerDay;
    assert t / MsPerDay == d;
    assert inDay / MsPerHour == h;
    assert inDay % MsPerHour == m * MsPerMinute + s * MsPerSecond + ms;
  }

  /** The midnight starting day d: it lies in day d, and it is not after an instant t
      exactly when day d is not after t's day. */
  lemma Midnight(d: int, t: Instant)
    ensures Day(d * MsPerDay) == d && TimeInDay(d * MsPerDay) == 0
    ensures d * MsPerDay <= t <==> d <= Day(t)
  {
    ClockOfAt(d, 0, 0, 0, 0);
    var k := Day(t);
    assert t == k * MsPerDay + TimeInDay(t);
    if d <= k {
      assert d * MsPerDay <= k * MsPerDay;
    } else {
      assert d * MsPerDay >= (k + 1) * MsPerDay;
    }
  }

  /** Normalising to the start of the day twice is the same as once, and the start and
      end of a day are the start and end of the days of all its instants. */
  lemma StartOfDayIdempotent(t: Instant)
    ensures StartOfDay(StartOfDay(t)) == StartOfDay(t)
    ensures EndOfDay(StartOfDay(t)) == EndOfDay(t)
    ensures Hours(StartOfDay(t)) == 0 && Minutes(StartOfDay(t)) == 0
  {
  }

  /** Two instants have the same start of day exactly when they fall on the same day. */
  lemma SameStartOfDay(t: Instant, u: Instant)
    ensures StartOfDay(t) == StartOfDay(u) <==> Day(t) == Day(u)
  {
  }

  // ---------------------------------------------------------------------------
  // Civil dates

  datatype Date = Date(year: int, month: int, day: int)

  /** Day number of the civil date y-m-d (H. Hinnant's `days_from_civil`, which counts
      years from 1 March), for a month 1..12 and any day offset d. */
  function DaysFromCivil(y: int, m: int, d: int): int
    requires 1 <= m <= 12
  {
    var y' := if m <= 2 then y - 1 else y;
    var era := y' / 400;
    var yoe := y' - era * 400;
    var mp := (m + 9) % 12;
    var doy := (153 * mp + 2) / 5 + d - 1;
    var doe := EraYearStart(yoe) + doy;
    era * 146097 + doe - 719468
  }

  /** The calendar date of a day number (H. Hinnant's `civil_from_days`). */
  function CivilFromDays(z: int): (r: Date)
    ensures 1 <= r.month <= 12 && 1 <= r.day <= 31
  {
    var z' := z + 719468;
    var era := z' / 146097;
    DateInEra(era, z' - era * 146097)
  }

  /** The date of day doe (0..146096) of 400-year era `era`, eras counted from 1 March
      of year 0. */
  function DateInEra(era: int, doe: int): (r: Date)
    requires 0 <= doe < 146097
    ensures 1 <= r.month <= 12 && 1 <= r.day <= 31
  {
    DayOfYearBounds(doe);
    var yoe := YearOfEra(doe);
    var doy := doe - EraYearStart(yoe);
    MonthOfYearDay(doy);
    var mp := (5 * doy + 2) / 153;
    var d := doy - (153 * mp + 2) / 5 + 1;
    var m := if mp < 10 then mp + 3 else mp - 9;
    Date(yoe + era * 400 + (if m <= 2 then 1 else 0), m, d)
  }

  /** Year of a 400-year era (0..399) holding the day doe of that era, in the
      March-based years of `civil_from_days`: whole centuries of 36,524 days (the last
      one a day longer), then whole four-year cycles of 1,461 days, then whole years of
      365 days (the last of a cycle a day longer). */
  function YearOfEra(doe: int): int {
    var century := if doe / 36524 < 3 then doe / 36524 else 3;
    var inCentury := doe - 36524 * century;
    var cycle := inCentury / 1461;
    var inCycle := inCentury - 1461 * cycle;
    var year := if inCycle / 365 < 3 then inCycle / 365 else 3;
    100 * century + 4 * cycle + year
  }

  /** First day, within its era, of the March-based year yoe. */
  function EraYearStart(yoe: int): int {
    365 * yoe + yoe / 4 - yoe / 100
  }

  /** Every day of an era falls in a March-based year no more than 366 days long. */
  lemma DayOfYearBounds(doe: int)
    requires 0 <= doe < 146097
    ensures 0 <= YearOfEra(doe) <= 399
    ensures 0 <= doe - EraYearStart(YearOfEra(doe)) <= 365
  {
    var century := if doe / 36524 < 3 then doe / 36524 else 3;
    assert 0 <= century <= 3;
    var inCentury := doe - 36524 * century;
    assert 0 <= inCentury <= 36524;
    var cycle := inCentury / 1461;
    assert 0 <= cycle <= 24;
    var inCycle := inCentury - 1461 * cycle;
    assert 0 <= inCycle < 1461;
    var year := if inCycle / 365 < 3 then inCycle / 365 else 3;
    assert 0 <= year <= 3 && 0 <= inCycle - 365 * year <= 365;
    var yoe := 100 * century + 4 * cycle + year;
    assert YearOfEra(doe) == yoe;
    assert yoe / 4 == 25 * century + cycle && yoe / 100 == century;
    assert EraYearStart(yoe) == 36524 * century + 1461 * cycle + 365 * year;
  }

  /** Month m of the civil calendar is month (m + 9) % 12 of a year starting in March. */
  lemma MarchBasedMonth(mp: int)
    requires 0 <= mp <= 11
    ensures var m := if mp < 10 then mp + 3 else mp - 9; 1 <= m <= 12 && (m + 9) % 12 == mp
  {
  }

  /** A day 0..365 of a March-based year lies in month mp 0..11 of that year, as day
      0..30 of the month. */
  lemma MonthOfYearDay(doy: int)
    requires 0 <= doy <= 365
    ensures var mp := (5 * doy + 2) / 153; 0 <= mp <= 11 && 0 <= doy - (153 * mp + 2) / 5 <= 30
  {
    var mp := (5 * doy + 2) / 153;
    assert 153 * mp <= 5 * doy + 2 < 153 * mp + 153;
    var start := (153 * mp + 2) / 5;
    assert 5 * start <= 153 * mp + 2 < 5 * start + 5;
  }

  /** A year written as era and year of era gives back that era. */
  lemma EraOfYear(era: int, yoe: int)
    requires 0 <= yoe < 400
    ensures (yoe + era * 400) / 400 == era && (yoe + era * 400) - era * 400 == yoe
  {
  }

  /** `days_from_civil` of a date whose March-based year is given as era and year of era. */
  lemma DaysFromCivilParts(y: int, m: int, d: int, era: int, yoe: int)
    requires 1 <= m <= 12 && 0 <= yoe < 400
    requires (if m <= 2 then y - 1 else y) == yoe + era * 400
    ensures DaysFromCivil(y, m, d) == era * 146097 + EraYearStart(yoe) + (153 * ((m + 9) % 12) + 2) / 5 + d - 1 - 719468
  {
    EraOfYear(era, yoe);
  }

  /** The date of a day of an era gives back that day of that era. */
  lemma DateInEraRoundTrip(era: int, doe: int)
    requires 0 <= doe < 146097
    ensures var c := DateInEra(era, doe); DaysFromCivil(c.year, c.month, c.day) == era * 146097 + doe - 719468
  {
    DayOfYearBounds(doe);
    var yoe := YearOfEra(doe);
    var doy := doe - EraYearStart(yoe);
    MonthOfYearDay(doy);
    var mp := (5 * doy + 2) / 153;
    var d := doy - (153 * mp + 2) / 5 + 1;
    var m := if mp < 10 then mp + 3 else mp - 9;
    MarchBasedMonth(mp);
    var c := DateInEra(era, doe);
    assert c == Date(yoe + era * 400 + (if m <= 2 then 1 else 0), m, d);
    DaysFromCivilParts(c.year, m, d, era, yoe);
  }

  /** Converting a day to its date and back gives the same day. */
  lemma CivilRoundTrip(z: int)
    ensures var c := CivilFromDays(z); DaysFromCivil(c.year, c.month, c.day) == z
  {
    var z' := z + 719468;
    var era := z' / 146097;
    DateInEraRoundTrip(era, z' - era * 146097);
  }

  /** A day's date in the civil calendar is its day number's date. */
  function DateOf(t: Instant): Date {
    CivilFromDays(Day(t))
  }

  /** The year the `Date` constructor uses: two-digit years 0..99 mean 1900..1999. */
  function ConstructorYear(y: int): (r: int)
    ensures 0 <= y <= 99 ==> r == 1900 + y
    ensures (y < 0 || y > 99) ==> r == y
  {
    if 0 <= y <= 99 then 1900 + y else y
  }

  /** ECMAScript `MakeDay(year, month, date)`: a 0-based month outside 0..11 carries
      into the year, and day 0 or a negative day counts back from the first. */
  function MakeDay(year: int, month: int, date: int): int {
    DaysFromCivil(year + month / 12, month % 12 + 1, 1) + date - 1
  }

  /** `new Date(y, m, d, h, mi, s)` with a 0-based month m. */
  function NewDate(y: int, m: int, d: int, h: int, mi: int, s: int): Instant {
    At(MakeDay(ConstructorYear(y), m, d), h, mi, s, 0)
  }

  lemma DaysFromCivilShift(y: int, m: int, d: int)
    requires 1 <= m <= 12
    ensures DaysFromCivil(y, m, d) == DaysFromCivil(y, m, 1) + d - 1
  {
  }

  /** Day number of 1 March of year y. */
  function MarchFirst(y: int): int {
    DaysFromCivil(y, 3, 1)
  }

  /** Consecutive March-based years of an era are 365 or 366 days long. */
  lemma EraYearStartStep(yoe: int)
    requires 0 <= yoe < 399
    ensures 365 <= EraYearStart(yoe + 1) - EraYearStart(yoe) <= 366
  {
    var q4, q100 := (yoe + 1) / 4 - yoe / 4, (yoe + 1) / 100 - yoe / 100;
    assert 0 <= q4 <= 1 && 0 <= q100 <= 1;
    if q100 == 1 {
      assert (yoe + 1) % 100 == 0;
      assert (yoe + 1) % 4 == 0;
    }
  }

  /** Consecutive years' 1 March are 365 or 366 days apart. */
  lemma MarchFirstStep(y: int)
    ensures 365 <= MarchFirst(y + 1) - MarchFirst(y) <= 366
  {
    var era := y / 400;
    var yoe := y - era * 400;
    assert MarchFirst(y) == era * 146097 + EraYearStart(yoe) - 719468;
    if yoe < 399 {
      EraOfYear(era, yoe + 1);
      assert MarchFirst(y + 1) == era * 146097 + EraYearStart(yoe + 1) - 719468;
      EraYearStartStep(yoe);
    } else {
      EraOfYear(era + 1, 0);
      assert MarchFirst(y + 1) == (era + 1) * 146097 - 719468;
      assert EraYearStart(yoe) == 145731;
    }
  }

  /** Every day of a month lies the same distance from that month's anchor 1 March. */
  lemma DaysFromMarchFirst(y: int, m: int, d: int)
    requires 1 <= m <= 12
    ensures m >= 3 ==> DaysFromCivil(y, m, d) == MarchFirst(y) + (153 * (m - 3) + 2) / 5 + d - 1
    ensures m <= 2 ==> DaysFromCivil(y, m, d) == MarchFirst(y - 1) + (153 * (m + 9) + 2) / 5 + d - 1
  {
    var y' := if m <= 2 then y - 1 else y;
    var mp := (m + 9) % 12;
    assert mp == if m <= 2 then m + 9 else m - 3;
    assert DaysFromCivil(y, m, d) == MarchFirst(y') + (153 * mp + 2) / 5 + d - 1;
  }

  /** First day of the month after month m (1..12) of year y. */
  function NextMonthStart(y: int, m: int): int
    requires 1 <= m <= 12
  {
    if m == 12 then DaysFromCivil(y + 1, 1, 1) else DaysFromCivil(y, m + 1, 1)
  }

  /** Months 0..10 of a March-based year are 30 or 31 days long. */
  lemma MarchBasedMonthLength(k: int)
    requires 0 <= k <= 10
    ensures 30 <= (153 * (k + 1) + 2) / 5 - (153 * k + 2) / 5 <= 31
  {
  }

  lemma CivilMonthLength(y: int, m: int)
    requires 1 <= m <= 12
    ensures 28 <= NextMonthStart(y, m) - DaysFromCivil(y, m, 1) <= 31
  {
    if m == 12 {
      DecemberLength(y);
    } else if m == 2 {
      FebruaryLength(y);
    } else if m == 1 {
      DaysFromMarchFirst(y, 1, 1);
      DaysFromMarchFirst(y, 2, 1);
      MarchBasedMonthLength(10);
    } else {
      DaysFromMarchFirst(y, m, 1);
      DaysFromMarchFirst(y, m + 1, 1);
      MarchBasedMonthLength(m - 3);
    }
  }

  lemma DecemberLength(y: int)
    ensures DaysFromCivil(y + 1, 1, 1) - DaysFromCivil(y, 12, 1) == 31
  {
    DaysFromMarchFirst(y, 12, 1);
    DaysFromMarchFirst(y + 1, 1, 1);
    assert (153 * 9 + 2) / 5 == 275 && (153 * 10 + 2) / 5 == 306;
  }

  lemma FebruaryLength(y: int)
    ensures 28 <= DaysFromCivil(y, 3, 1) - DaysFromCivil(y, 2, 1) <= 29
  {
    DaysFromMarchFirst(y, 2, 1);
    assert DaysFromCivil(y, 3, 1) == MarchFirst(y);
    assert (153 * 11 + 2) / 5 == 337;
    MarchFirstStep(y - 1);
  }

  /** Every month has 28 to 31 days: `new Date(y, m + 1, 0)` is 27 to 30 days after
      `new Date(y, m, 1)`, for any 0-based month m, also one outside 0..11. */
  lemma MonthLength(y: int, m: int)
    ensures 28 <= MakeDay(y, m + 1, 1) - MakeDay(y, m, 1) <= 31
    ensures MakeDay(y, m + 1, 0) == MakeDay(y, m + 1, 1) - 1
  {
    var y0, m0 := y + m / 12, m % 12;
    CivilMonthLength(y0, m0 + 1);
    if m0 == 11 {
      assert (m + 1) / 12 == m / 12 + 1 && (m + 1) % 12 == 0;
    } else {
      assert (m + 1) / 12 == m / 12 && (m + 1) % 12 == m0 + 1;
    }
  }

  /** The first day of the month of any day is no later than that day. */
  lemma MonthStartNotAfter(z: int)
    ensures var c := CivilFromDays(z); MakeDay(c.year, c.month - 1, 1) <= z
  {
    var c := CivilFromDays(z);
    CivilRoundTrip(z);
    DaysFromCivilShift(c.year, c.month, c.day);
    MonthFirstDay(c.year, c.month);
  }

  /** `MakeDay(y, m - 1, 1)` of a month m in 1..12 is that month's first day. */
  lemma MonthFirstDay(y: int, m: int)
    requires 1 <= m <= 12
    ensures MakeDay(y, m - 1, 1) == DaysFromCivil(y, m, 1)
  {
    assert (m - 1) / 12 == 0 && (m - 1) % 12 + 1 == m;
  }

  // ---------------------------------------------------------------------------
  // Working days

  /** A working day is any day that is neither a Sunday (0) nor a Saturday (6). */
  predicate IsWorkingDay(d: int) {
    WeekdayOfDay(d) != 0 && WeekdayOfDay(d) != 6
  }

  /** The number of working days among the days first..last, both included. */
  function CountWorkingDays(first: int, last: int): nat
    decreases last - first
  {
    if last < first then 0
    else CountWorkingDays(first, last - 1) + (if IsWorkingDay(last) then 1 else 0)
  }

  /** The count never exceeds the number of days in the range. */
  lemma {:induction false} CountWorkingDaysAtMost(first: int, last: int)
    ensures CountWorkingDays(first, last) <= if last < first then 0 else last - first + 1
    decreases last - first
  {
    if last >= first {
      CountWorkingDaysAtMost(first, last - 1);
    }
  }

  /** Counting over a range is counting over its two halves. */
  lemma {:induction false} CountWorkingDaysSplit(first: int, mid: int, last: int)
    requires first - 1 <= mid <= last
    ensures CountWorkingDays(first, last) == CountWorkingDays(first, mid) + CountWorkingDays(mid + 1, last)
    decreases last - mid
  {
    if mid < last {
      CountWorkingDaysSplit(first, mid, last - 1);
    }
  }

  /** Extending the end of a range never lowers the count. */
  lemma CountWorkingDaysMonotone(first: int, last: int, last': int)
    requires last <= last'
    ensures CountWorkingDays(first, last) <= CountWorkingDays(first, last')
  {
    if first - 1 <= last {
      CountWorkingDaysSplit(first, last, last');
    }
  }

  lemma WeekdayStep(d: int)
    ensures WeekdayOfDay(d + 1) == (WeekdayOfDay(d) + 1) % 7
  {
  }

  /** Any seven consecutive days hold exactly five working days. */
  lemma WeekHasFiveWorkingDays(d: int)
    ensures CountWorkingDays(d, d + 6) == 5
  {
    WeekdayStep(d);
    WeekdayStep(d + 1);
    WeekdayStep(d + 2);
    WeekdayStep(d + 3);
    WeekdayStep(d + 4);
    WeekdayStep(d + 5);
    assert CountWorkingDays(d, d + 6) == CountWorkingDays(d, d + 5) + (if IsWorkingDay(d + 6) then 1 else 0);
    assert CountWorkingDays(d, d + 5) == CountWorkingDays(d, d + 4) + (if IsWorkingDay(d + 5) then 1 else 0);
    assert CountWorkingDays(d, d + 4) == CountWorkingDays(d, d + 3) + (if IsWorkingDay(d + 4) then 1 else 0);
    assert CountWorkingDays(d, d + 3) == CountWorkingDays(d, d + 2) + (if IsWorkingDay(d + 3) then 1 else 0);
    assert CountWorkingDays(d, d + 2) == CountWorkingDays(d, d + 1) + (if IsWorkingDay(d + 2) then 1 else 0);
    assert CountWorkingDays(d, d + 1) == CountWorkingDays(d, d) + (if IsWorkingDay(d + 1) then 1 else 0);
    assert CountWorkingDays(d, d) == (if IsWorkingDay(d) then 1 else 0);
  }

  /** June 2024 begins on a Saturday and has 20 working days. */
  lemma June2024WorkingDays()
    ensures MakeDay(2024, 5, 1) == 19875 && WeekdayOfDay(19875) == 6
    ensures CountWorkingDays(MakeDay(2024, 5, 1), MakeDay(2024, 6, 0)) == 20
  {
    June2024Bounds();
    WorkingDaysFromSaturday(19875);
  }

  /** The first and the last day of June 2024. */
  lemma June2024Bounds()
    ensures MakeDay(2024, 5, 1) == 19875 && MakeDay(2024, 6, 0) == 19904
  {
    assert 5 / 12 == 0 && 5 % 12 == 5 && 6 / 12 == 0 && 6 % 12 == 6;
    assert 2024 / 400 == 5 && EraYearStart(24) == 8766;
    assert DaysFromCivil(2024, 6, 1) == 5 * 146097 + 8766 + 92 - 719468;
    assert DaysFromCivil(2024, 7, 1) == 5 * 146097 + 8766 + 122 - 719468;
  }

  /** Thirty days from a Saturday hold twenty working days. */
  lemma WorkingDaysFromSaturday(first: int)
    requires WeekdayOfDay(first) == 6
    ensures CountWorkingDays(first, first + 29) == 20
  {
    WeekdayStep(first);
    assert !IsWorkingDay(first) && !IsWorkingDay(first + 1);
    assert CountWorkingDays(first, first) == 0;
    assert CountWorkingDays(first, first + 1) == 0;
    CountWorkingDaysSplit(first, first + 1, first + 29);
    CountWorkingDaysSplit(first + 2, first + 8, first + 29);
    CountWorkingDaysSplit(first + 9, first + 15, first + 29);
    CountWorkingDaysSplit(first + 16, first + 22, first + 29);
    WeekHasFiveWorkingDays(first + 2);
    WeekHasFiveWorkingDays(first + 9);
    WeekHasFiveWorkingDays(first + 16);
    WeekHasFiveWorkingDays(first + 23);
  }
}
