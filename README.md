# Employee attendance system — verified model of its core

The system lets employees check in and check out once per day. Managers see who is
present, late, on a half day or absent. An Express/Mongoose backend stores one
attendance row per user and day. Each row holds:

- a check-in and a check-out time
- a status: `present`, `late` (after 09:00), `half-day` (after 12:00) or `absent`
- the worked hours, rounded to hundredths

The backend derives these from the rows:

- an employee's month summary and dashboard, with absence inferred from the working
  days that have passed
- a team summary grouped by department
- today's present and absent lists
- a manager dashboard with a weekly trend, a department roll-up and month counts
- a filtered listing and a CSV export

New users get ids `EMP001`, `EMP002`, … The register and login pages check their forms
before they send a request.

The model has these modules:

- `Calendar` — instants, day boundaries, weekdays, the JavaScript `Date` constructor's
  normalisation, and working days.
- `AttendanceModel` — the attendance row, the status rule and the hours rule. The class
  `Attendance` is a loaded document whose methods update it in place.
- `Users` — the role enum and employee ids.
- `Records` — the collection as a sequence with unique (user, day) keys, and the
  `find`, `populate` and counting folds the handlers share.
- `AttendanceRoutes` — the handlers of `backend/routes/attendance.js`. The class
  `AttendanceStore` holds the collection that check-in and check-out change.
- `DashboardRoutes` — the two dashboard handlers.
- `AuthForms` — the two form submit handlers.

Every handler reads the clock once, as a parameter `now`. The read-only handlers take a
snapshot of the rows and of the users.

## Model

| member | source | states |
|---|---|---|
| `AttendanceModel.StatusName` | backend/models/Attendance.js:21-25 | a status is stored as one of the schema's four enum strings |
| `AttendanceModel.StatusNameInjective` | backend/models/Attendance.js:21-25 | two statuses have the same stored string exactly when they are the same status |
| `AttendanceModel.NewRecord` | backend/models/Attendance.js:3-34 | a new row keeps the given user, day and check-in; the other fields take the schema defaults (no check-out, `present`, zero hours, created now) |
| `AttendanceModel.MinuteOfDay` | backend/models/Attendance.js:55-56 | the check-in's hour and minute combine into a minute of the day in 0..1439 |
| `AttendanceModel.StatusAt` | backend/models/Attendance.js:58-71 | a check-in at hour:minute is `present` exactly up to 09:00, `late` exactly after 09:00 up to 12:00, `half-day` exactly after 12:00, and never `absent` |
| `AttendanceModel.StatusFor` | backend/models/Attendance.js:49-72 | the status is `absent` exactly when there is no check-in |
| `AttendanceModel.StatusMonotone` | backend/models/Attendance.js:49-72 | on one day, a later check-in never gets a better status |
| `AttendanceModel.StatusOnlyByClock` | backend/models/Attendance.js:55-71 | check-ins with the same hour and minute get the same status, so seconds never matter |
| `AttendanceModel.RoundedHours` | backend/models/Attendance.js:42-43 | the stored hundredths are the duration rounded to the nearest hundredth of an hour, exact ties upward: within half a hundredth of it |
| `AttendanceModel.RoundedHoursMonotone` | backend/models/Attendance.js:43 | rounding never reverses the order of two durations and keeps a non-negative duration non-negative |
| `AttendanceModel.HoursFor` | backend/models/Attendance.js:40-46 | with both times set, the hours are within half a hundredth of the time between check-in and check-out; with a time missing, the stored hours stay |
| `AttendanceModel.WithStatus` | backend/models/Attendance.js:49-72 | applying the status rule sets the status from the check-in and leaves every other field as it was |
| `AttendanceModel.WithHours` | backend/models/Attendance.js:40-46 | applying the hours rule sets the hours by `HoursFor` and leaves every other field as it was |
| `AttendanceModel.HoursForSpec` | backend/models/Attendance.js:40-46 | with both times set, the hours are the rounded time between them, not negative when check-out is not before check-in; with a time missing, the stored hours stay |
| `AttendanceModel.RulesIdempotent` | backend/models/Attendance.js:40-72 | running either rule twice changes nothing more, and the two rules commute |
| `AttendanceModel.WorkedDayExample` | backend/models/Attendance.js:40-72 | 09:00 to 17:30 is 8.50 hours and on time; 09:00:59 is on time, 09:01 and 12:00:59 are late, 12:01 is a half day |
| `AttendanceModel.Attendance.constructor` | backend/routes/attendance.js:45-49 | a new document saves as the row with the given user, day and check-in and the defaults |
| `AttendanceModel.Attendance.Load` | backend/routes/attendance.js:31-34 | a loaded document saves back as the row it was loaded from |
| `AttendanceModel.Attendance.DetermineStatus` | backend/models/Attendance.js:49-72 | only the status changes, to the status rule's value for the current check-in |
| `AttendanceModel.Attendance.CalculateTotalHours` | backend/models/Attendance.js:40-46 | only the hours change, to the hours rule's value, and the method returns the new hours |
| `Users.RoleFromInput` | backend/models/User.js:23-27 | a missing role becomes `employee`; the two enum strings give their role; any other string fails validation |
| `Users.RoleName` | backend/models/User.js:23-27 | a role is stored as one of the two enum strings, `employee` exactly for the employee role |
| `Users.DecimalString` | backend/models/User.js:63 | `toString` of a whole number is a non-empty digit string without a leading zero |
| `Users.DecimalRoundTrip` | backend/models/User.js:63 | reading the decimal string of n back gives n |
| `Users.DecimalLength` | backend/models/User.js:63 | n has at most k digits exactly when n < 10^k |
| `Users.LeadingZeros` | backend/models/User.js:63 | zero padding in front does not change the number the digits denote |
| `Users.PadStart` | backend/models/User.js:63 | `padStart` has length max(width, length), fill characters in front, and the string itself at the end |
| `Users.GenerateEmployeeId` | backend/models/User.js:60-64 | the id starts with `EMP` and is at least six characters long |
| `Users.EmployeeIdFormat` | backend/models/User.js:60-64 | the id is `EMP` followed by digits that read back as count + 1, ending in that number's full decimal form; it is six characters long exactly when count + 1 is at most 999 |
| `Users.EmployeeIdInjective` | backend/models/User.js:60-64 | different user counts give different ids |
| `Users.EmployeeIdExamples` | backend/models/User.js:60-64 | the first id is `EMP001`, the 42nd `EMP042`, and the 1000th `EMP1000` |
| `Records.IndexOf` | backend/routes/attendance.js:31-34 | the position found holds a row with the key, and no position means no row with the key |
| `Records.FindOne` | backend/routes/attendance.js:31-34 | `findOne` returns a stored row with the user and day asked for, or none when no row has them |
| `Records.Upsert` | backend/routes/attendance.js:42-53 | a save leaves the saved row in the collection, which keeps its size or grows by one |
| `Records.UpsertSpec` | backend/routes/attendance.js:42-53 | saving keeps keys unique and makes the saved row the one found under its key; every other key finds the same row as before; the row count grows only for a new key |
| `Records.FindOneUnique` | backend/models/Attendance.js:37 | under the unique (user, date) index, the row found under a key is every row with that key |
| `Records.Where` | backend/routes/attendance.js:249 | `find` and `filter` return exactly the elements meeting the condition, never more than given |
| `Records.WhereMultiplicity` | backend/routes/attendance.js:249 | filtering keeps each element that meets the condition as many times as it occurs, and drops every other |
| `Records.WhereAppend` | backend/routes/attendance.js:249 | filtering a concatenation is the concatenation of the filtered parts, so the elements kept stay in their order |
| `Records.StatusCountsPartition` | backend/routes/attendance.js:334-340 | the four status counts add up to the number of rows |
| `Records.CountsBounded` | backend/routes/attendance.js:334-340 | no status count and no checked-in count exceeds the number of rows |
| `Records.FoldsAppend` | backend/routes/attendance.js:181-197 | one more row adds one to its own status's count only, its hours to the total, and one to the checked-in count when it has a check-in |
| `Records.TallyAppend` | backend/routes/attendance.js:182-195 | one more row bumps exactly the counter of its status |
| `Records.FindUserBy` | backend/routes/attendance.js:250 | the user `populate` or `findOne` finds has the key asked for (the user id, or the employee id for `/export`), or no user has that key |
| `Records.Populate` | backend/routes/attendance.js:249-251 | the join keeps the rows and their order and attaches to each the user its id names |
| `Records.PopulateMember` | backend/routes/attendance.js:249-251 | a joined record is in the join exactly when it is a stored row with the user its id names |
| `Records.OwnerIds` | backend/routes/attendance.js:394 | each joined record gives its owner's id, or nothing when the owner no longer exists |
| `Records.NotAmong` | backend/routes/attendance.js:396-398 | an employee is kept exactly when their id is not among the checked-in ids; being a `Where`, it keeps roster order and multiplicity (`Records.WhereMultiplicity`, `Records.WhereAppend`) |
| `Records.CheckedInIdsSpec` | backend/routes/attendance.js:393-394 | a user's id is among the day's checked-in ids exactly when a row of that day with a check-in is theirs |
| `Records.CheckedInCount` | backend/routes/attendance.js:393-404 | the joined checked-in records are exactly as many as the day's rows with a check-in |
| `Records.Employees` | backend/routes/attendance.js:391 | `find({ role: 'employee' })` keeps exactly the roster's employees; being a `Where`, it keeps roster order and multiplicity, so its length counts them |
| `Records.MaxZero` | backend/routes/attendance.js:212 | `Math.max(0, x)` is x when x is positive and 0 otherwise |
| `Records.MonthBounds` | backend/routes/attendance.js:165-166 | a month's range runs from a midnight to 23:59 on a day 27 to 30 days later |
| `Records.AbsentOnSpec` | backend/routes/attendance.js:391-398 | an employee is listed absent exactly when no checked-in row of the day is theirs; managers are never listed; the list is no longer than the employees |
| `Calendar.TimeInDay` | backend/routes/attendance.js:10-14 | an instant is its day's midnight plus a time of day in 0..86,399,999 ms |
| `Calendar.Hours` | backend/models/Attendance.js:55 | `getHours` is in 0..23 |
| `Calendar.Minutes` | backend/models/Attendance.js:56 | `getMinutes` is in 0..59 |
| `Calendar.DayOfWeek` | backend/routes/attendance.js:203 | `getDay` is in 0..6 |
| `Calendar.StartOfDay` | backend/routes/attendance.js:10-14 | `getStartOfDay` is the midnight of the same day, not after the instant and less than a day before it |
| `Calendar.EndOfDay` | backend/routes/attendance.js:17-21 | `getEndOfDay` is the last millisecond of the same day, not before the instant |
| `Calendar.ClockOfAt` | backend/routes/attendance.js:10-21 | a clock time set on a day reads back as that day, hour and minute |
| `Calendar.Midnight` | backend/routes/attendance.js:201-207 | the midnight of day d is not after an instant exactly when d is not after the instant's day |
| `Calendar.StartOfDayIdempotent` | backend/routes/attendance.js:10-21 | normalising to the start of the day twice is the same as once; the start of a day has the same end of day |
| `Calendar.SameStartOfDay` | backend/routes/attendance.js:28-34 | two instants share a start of day, and so a (user, date) key, exactly when they fall on the same day |
| `Calendar.CivilFromDays` | backend/routes/attendance.js:162-163 | a day's calendar date has a month in 1..12 and a day in 1..31 |
| `Calendar.CivilRoundTrip` | backend/routes/attendance.js:162-166 | converting a day to its calendar date and back gives the same day |
| `Calendar.ConstructorYear` | backend/routes/attendance.js:165 | the `Date` constructor reads years 0..99 as 1900..1999 and any other year as given |
| `Calendar.DaysFromCivilShift` | backend/routes/attendance.js:165 | day d of a month lies d − 1 days after its first |
| `Calendar.MonthLength` | backend/routes/attendance.js:165-166 | for any 0-based month, also one outside 0..11, `new Date(y, m + 1, 0)` is the day before the next month's first and 27 to 30 days after `new Date(y, m, 1)` |
| `Calendar.MonthStartNotAfter` | backend/routes/dashboard.js:25 | the first of a day's month is not after that day |
| `Calendar.MonthFirstDay` | backend/routes/dashboard.js:25 | `new Date(y, m − 1, 1)` for a month m in 1..12 is that month's first day |
| `Calendar.CountWorkingDaysAtMost` | backend/routes/attendance.js:199-208 | the working days of a range are no more than its days |
| `Calendar.CountWorkingDaysSplit` | backend/routes/attendance.js:199-208 | counting over a range is counting over its two halves |
| `Calendar.CountWorkingDaysMonotone` | backend/routes/attendance.js:199-208 | extending the range never lowers the count |
| `Calendar.WeekHasFiveWorkingDays` | backend/routes/dashboard.js:139-160 | any seven consecutive days hold exactly five working days |
| `Calendar.June2024WorkingDays` | backend/routes/attendance.js:199-208 | June 2024 starts on a Saturday and has 20 working days |
| `Calendar.WorkingDaysFromSaturday` | backend/routes/attendance.js:199-208 | thirty days starting on a Saturday hold twenty working days |
| `AttendanceRoutes.CheckInOutcome` | backend/routes/attendance.js:26-64 | check-in fails with "Already checked in today" exactly when today's row has a check-in; otherwise the saved row has today's key, check-in now and the status rule's non-absent status, and it is today's row with those changes or a new row with the defaults |
| `AttendanceRoutes.CheckOutOutcome` | backend/routes/attendance.js:69-99 | "You need to check in first" exactly without today's check-in; "Already checked out today" exactly with both times set; otherwise today's row with check-out now and the rounded hours since check-in, nothing else changed |
| `AttendanceRoutes.AttendanceStore.Save` | backend/routes/attendance.js:53 | `save` replaces the row under the document's key or adds it, keeping keys unique |
| `AttendanceRoutes.AttendanceStore.CheckIn` | backend/routes/attendance.js:26-64 | the handler answers the check-in outcome, saves only on success and keeps the collection well formed |
| `AttendanceRoutes.AttendanceStore.CheckOut` | backend/routes/attendance.js:69-99 | the handler answers the check-out outcome, saves only on success and keeps the collection well formed |
| `AttendanceRoutes.CheckInKeepsWellFormed` | backend/routes/attendance.js:42-53 | after a check-in, keys stay unique, rows stay dated at midnight, and no row has a check-out without a check-in |
| `AttendanceRoutes.CheckOutKeepsWellFormed` | backend/routes/attendance.js:82-88 | the same invariant holds after a check-out |
| `AttendanceRoutes.UpsertKeepsRows` | backend/routes/attendance.js:53 | after a save, every row is the saved one or a row from before |
| `AttendanceRoutes.Today` | backend/routes/attendance.js:104-123 | `/today` returns today's row, if any, and reports checked in or out exactly when that row has the time |
| `AttendanceRoutes.Lifecycle` | backend/routes/attendance.js:26-123 | a day goes from not checked in to checked in to checked out: check-in succeeds only from the first state, check-out only from the second, and each refusal carries its message and changes nothing |
| `AttendanceRoutes.OthersUntouched` | backend/routes/attendance.js:26-99 | a check-in or check-out never changes another user's row or another day's row |
| `AttendanceRoutes.CheckInThenOut` | backend/routes/attendance.js:26-99 | checking in at t and out at u later the same day records the rounded, non-negative hours between them and the status decided at check-in |
| `AttendanceRoutes.CountWorkingDaysUntil` | backend/routes/attendance.js:199-208 | the loop counts the Monday-to-Friday days from the month's first day up to its last day or today, whichever is earlier |
| `AttendanceRoutes.SummaryOf` | backend/routes/attendance.js:173-212 | absence is at least the working days left uncovered by present, late and half-day rows; it is zero, or the four counts add up to the working days |
| `AttendanceRoutes.MySummary` | backend/routes/attendance.js:158-225 | `/my-summary` answers the 1-based month and year asked for (today's when missing), the working days counted, and the summary of the user's rows of that month |
| `AttendanceRoutes.MonthWorkingDaysBounds` | backend/routes/attendance.js:199-208 | the counted working days are at most 31, all of the month's once it is over, and none before it starts |
| `AttendanceRoutes.StoredAbsentIgnored` | backend/routes/attendance.js:181-212 | a stored `absent` row with no hours does not change the summary, because the absent count is overwritten |
| `AttendanceRoutes.SummaryAbsence` | backend/routes/attendance.js:210-212 | absence is zero when the recorded days reach the working days, and otherwise is the working days minus the recorded days |
| `AttendanceRoutes.TeamCountsOf` | backend/routes/attendance.js:334-340 | the team's four status counts add up to its total records |
| `AttendanceRoutes.DepartmentsOfSpec` | backend/routes/attendance.js:344-349 | a department gets counters exactly when some record's owner exists and belongs to it |
| `AttendanceRoutes.DeptCountsBounded` | backend/routes/attendance.js:344-365 | a department's count of a status never exceeds the team's count of it |
| `AttendanceRoutes.TeamSummary` | backend/routes/attendance.js:320-378 | `/summary` answers the month and year asked for, the team counts of that month's rows, and counters for each department that has records |
| `AttendanceRoutes.DepartmentStats` | backend/routes/attendance.js:342-365 | the grouping loop yields one entry per department with a record whose owner exists, holding the status counts of that department's records |
| `AttendanceRoutes.GroupStep` | backend/routes/attendance.js:344-364 | one step of the grouping loop keeps every department's counters equal to its records' counts |
| `AttendanceRoutes.TodayStatusSpec` | backend/routes/attendance.js:383-427 | `/today-status` counts today's checked-in rows as present, and lists an employee as absent exactly when no checked-in row of today is theirs; the absent count is at most the number of employees |
| `AttendanceRoutes.TodayStatus` | backend/routes/attendance.js:383-427 | the response is dated today's midnight; `presentList` has one entry per checked-in joined row of today, in order, and `absentList` one entry per absent employee, in roster order; the present and absent counts are the lengths of the two lists |
| `AttendanceRoutes.PresentEntryOf` | backend/routes/attendance.js:407-415 | a `presentList` entry carries the row's check-in, check-out and status, and the owner's id, name, employee id and department, or none of them when the owner is gone |
| `AttendanceRoutes.AllAttendanceSpec` | backend/routes/attendance.js:232-276 | `/all` lists a joined row exactly when it is stored and matches every filter: the day window when both dates are given, and each non-empty status, employee-id and department filter (the last two drop rows whose user is gone) |
| `AttendanceRoutes.AllAttendance` | backend/routes/attendance.js:232-276 | every joined row listed is a stored row inside the date window |
| `AttendanceRoutes.UnknownStatusListsNothing` | backend/routes/attendance.js:245-247 | a status filter that is not one of the four enum strings lists nothing |
| `AttendanceRoutes.OrNA` | backend/routes/attendance.js:458-460 | a missing or empty value becomes `N/A`, any other value is kept as it is |
| `AttendanceRoutes.Fixed2ReadsBack` | backend/routes/attendance.js:464 | the `toFixed(2)` text has a minus sign exactly for negative hours, and its digits before and after the point read back as the hundredths |
| `AttendanceRoutes.ExportRowOf` | backend/routes/attendance.js:456-465 | a CSV row takes the row's date and status, each time as its instant or `N/A` exactly when missing, the hours as `toFixed(2)` text, and its owner's fields (`N/A` when the owner is gone or the field is empty) |
| `AttendanceRoutes.Export` | backend/routes/attendance.js:432-478 | the export has one CSV row per selected joined record |
| `AttendanceRoutes.ExportSelection` | backend/routes/attendance.js:438-454 | a known employee id limits the export to that user's rows in the window; an id no user has limits nothing |
| `AttendanceRoutes.ExportRecords` | backend/routes/attendance.js:438-454 | every exported row is a stored row inside the date window |
| `AuthForms.RegisterFirstFailure` | frontend/src/pages/Auth/Register.js:49-71 | each register error is shown exactly when its check fails and all earlier checks pass: empty field, no `@`, passwords differ, password shorter than 6 |
| `AuthForms.RegisterAccepted` | frontend/src/pages/Auth/Register.js:53-74 | a form is sent exactly when all checks pass, and the request carries every field except the confirmation, unchanged |
| `AuthForms.RegisterExamples` | frontend/src/pages/Auth/Register.js:9-16 | a confirmation mismatch is reported before a short password; an untouched role select sends `employee` |
| `AuthForms.SubmitRegister` | frontend/src/pages/Auth/Register.js:49-71 | a dispatched registration has an email with `@`, matching passwords of at least six characters, and sends the email, password and role as typed |
| `AuthForms.LoginOutcomes` | frontend/src/pages/Auth/Login.js:32-47 | login reports an empty field before a missing `@`, and sends an otherwise valid form unchanged |
| `AuthForms.SubmitLogin` | frontend/src/pages/Auth/Login.js:32-47 | login dispatches exactly when both fields are filled and the email has `@`, and then sends the form unchanged |
| `DashboardRoutes.TodayBlockOf` | backend/routes/dashboard.js:81-89 | the `today` block reports checked in or out exactly when today's row has the time, and gives that row's times, status and hours; without a row there are no times, the status is `not-checked-in` and the hours are zero |
| `DashboardRoutes.CurrentMonthStart` | backend/routes/dashboard.js:25 | the month's start is a midnight |
| `DashboardRoutes.MonthlyOf` | backend/routes/dashboard.js:68-97 | monthly absence is at least the working days passed that no present, late or half-day row covers; it is zero, or the four counts add up to the working days |
| `DashboardRoutes.CountWorkingDaysPassed` | backend/routes/dashboard.js:57-66 | the loop counts the Monday-to-Friday days from the month's first midnight to today |
| `DashboardRoutes.MonthTally` | backend/routes/dashboard.js:41-55 | the `forEach` counts the month's present, late and half-day rows and sums their hours |
| `DashboardRoutes.EmployeeDashboardOf` | backend/routes/dashboard.js:18-110 | `/dashboard/employee` answers the `today` block of today's row, the monthly block of this month's rows against the working days passed, and one entry per row of the last eight days |
| `DashboardRoutes.CurrentMonthStartIsFirst` | backend/routes/dashboard.js:25-66 | for a year outside 0..99, the month starts `day − 1` days before today, so at most `day` working days have passed |
| `DashboardRoutes.FirstOfMonthDay` | backend/routes/dashboard.js:25 | the first of a day's month lies `day − 1` days before it |
| `DashboardRoutes.RecentCoversEightDays` | backend/routes/dashboard.js:70-77 | a row is in the recent list exactly when it is the user's and dated today or one of the seven days before |
| `DashboardRoutes.MonthlyIgnoresStoredAbsent` | backend/routes/dashboard.js:41-68 | a stored `absent` row with no hours does not change the monthly block |
| `DashboardRoutes.MonthlyStatsOf` | backend/routes/dashboard.js:188-193 | `monthlyStats` counts all the month's rows, and present, late, half-day and the uncounted `absent` rows add up to that total |
| `DashboardRoutes.DayName` | backend/routes/dashboard.js:153 | the weekday name is a three-letter short English name |
| `DashboardRoutes.PointOf` | backend/routes/dashboard.js:151-158 | a trend point carries its day's date and weekday name, the day's present, late and half-day row counts, and `absent` = employees less the day's checked-in rows |
| `DashboardRoutes.WorkingDaysIn` | backend/routes/dashboard.js:141-150 | the days a trend covers are exactly the Monday-to-Friday days of the range, in increasing order, as many as the working-day count |
| `DashboardRoutes.TrendOfDays` | backend/routes/dashboard.js:139-160 | the k-th trend point is the point of the k-th working day of the range |
| `DashboardRoutes.TrendOf` | backend/routes/dashboard.js:139-160 | the trend over a range has one point per working day of the range |
| `DashboardRoutes.WeeklyTrend` | backend/routes/dashboard.js:139-160 | the loop from six days ago to today yields the trend of the last seven days |
| `DashboardRoutes.DayPoint` | backend/routes/dashboard.js:142-159 | one pass pushes the point of the day i days back, or nothing on a Saturday or Sunday |
| `DashboardRoutes.DaysBefore` | backend/routes/dashboard.js:142-146 | i days before today's midnight is the midnight of the day i days earlier, with that day's weekday |
| `DashboardRoutes.WeeklyTrendLength` | backend/routes/dashboard.js:139-160 | the weekly trend always has exactly five points |
| `DashboardRoutes.TrendAbsentCanBeNegative` | backend/routes/dashboard.js:156 | `absent` counts rows, not employees, so a manager's check-in on a weekday makes it −1 for a roster without employees |
| `DashboardRoutes.DistinctDepartmentsSpec` | backend/routes/dashboard.js:163-169 | the departments listed are exactly the employees' departments, each once |
| `DashboardRoutes.DepartmentTotalsSum` | backend/routes/dashboard.js:163-169 | the department totals add up to the number of employees |
| `DashboardRoutes.CountEmployees` | backend/routes/dashboard.js:163-169 | the first `forEach` lists the departments in order of first appearance, each with its number of employees |
| `DashboardRoutes.CountEmployeeStep` | backend/routes/dashboard.js:164-168 | one more employee adds a new department at the end of the key order, then adds one to its total |
| `DashboardRoutes.CountPresent` | backend/routes/dashboard.js:171-178 | the second `forEach` gives each listed department the number of today's checked-in rows whose user belongs to it |
| `DashboardRoutes.CountPresentStep` | backend/routes/dashboard.js:172-177 | one more record changes only its department's present count, and only when it has a user and a check-in and the department is listed |
| `DashboardRoutes.DeptEntries` | backend/routes/dashboard.js:204-209 | one entry per key, in key order, with absent = total − present |
| `DashboardRoutes.DepartmentStats` | backend/routes/dashboard.js:162-209 | `departmentStats` has one entry per employee department, in order of first appearance, with its employees, its checked-in rows and their difference; the totals add up to the employees |
| `DashboardRoutes.TodayOverview` | backend/routes/dashboard.js:121-137 | the overview counts the roster's employees, today's checked-in and late rows, and the employees with no checked-in row today, who are listed in roster order |
| `DashboardRoutes.ManagerDashboardOf` | backend/routes/dashboard.js:115-222 | `/dashboard/manager` answers the overview, the trend of the last seven days, the department entries, the absent employees and this month's counts |
| `DashboardRoutes.DepartmentAbsentCanBeNegative` | backend/routes/dashboard.js:171-209 | when a one-employee department's employee and its manager both check in, the department is reported with total 1, present 2 and `absent` -1 |

## Left out

- Time zones and daylight saving. Instants are milliseconds in one fixed zone taken to be UTC. Every day is 24 hours long, and `toISOString`'s date is the local date.
- Each handler reads the clock once, as `now`. The source calls `new Date()` two or three times per request, and those calls can fall on either side of midnight.
- Floating point. Hours are exact whole hundredths, so the sum of a month's hours is exact. `Math.round(total * 100) / 100` is the identity on it, and float rounding of the sum is not modelled.
- `AttendanceModel.RoundedHours` rounds exact ties upward, as the integer formula does. The source computes `Math.round((diff / 3600000) * 100)` in doubles, where some ties fall just below the half: 522,000 ms gives 14.499999999999998 and is stored as 0.14 hours, where the model stores 15 hundredths (2,070,000 ms likewise gives 0.57, not 0.58). Such ties are whole multiples of 18 seconds, and the model does not capture the double rounding at them.
- `AttendanceRoutes.AllAttendanceSpec` states which records `/all` lists but not their order. `sort({ date: -1 })` lists them newest day first; the model keeps the collection's order.
- `AttendanceRoutes.Export` gives one CSV row per selected record in the collection's order, not newest day first as `sort({ date: -1 })` does.
- `DashboardRoutes.EmployeeDashboardOf` keeps the recent list in the collection's order, not newest day first as `sort({ date: -1 })` does.
- `AttendanceRoutes.ExportRowOf` does not model the text of the time columns. `toLocaleTimeString` depends on the locale, so a time is kept as the instant (`LocalTime`). The CSV quoting of `json2csv` is not modelled either.
- `DashboardRoutes.DepartmentStats` puts the departments in order of first appearance. JavaScript lists integer-like keys (such as "42") first, in numeric order, and the model does not capture that ordering.
- `AttendanceRoutes.DepartmentStats` and `DashboardRoutes.DepartmentStats` (with `AttendanceRoutes.DepartmentsOfSpec`) treat every department name as an ordinary key. The source groups into a plain `{}`, so a department named `constructor`, `toString` or `__proto__` finds an inherited value already there: no counters of its own are made, the increments write NaN onto the inherited value, and the department is missing from the response. The model reports such a department like any other.
- Query strings. `month` and `year` arrive already parsed, as an optional integer. `parseInt` of text that is not a number (NaN) is not modelled. The date filters of `/all` and `/export` arrive as instants.
- `DashboardRoutes.CurrentMonthStartIsFirst` is stated only for years outside 0..99. The dashboards build the month's start with `new Date(getFullYear(), …)`, and the `Date` constructor reads a year 0..99 as 19xx; the model keeps that behaviour (`Calendar.ConstructorYear`).
- `AuthForms.RegisterFirstFailure` (and `AuthForms.SubmitRegister`) measures the password length in Unicode characters. JavaScript's `length` counts UTF-16 code units, which differs for characters outside the Basic Multilingual Plane.
- Concurrency. Two requests racing between `findOne` and `save` can hit the unique index, which answers with a duplicate-key error (HTTP 500). Database and network failures (the `catch` branches) are not modelled either.
- Authentication and authorisation middleware (`protect`, `authorize`). The user id is a parameter, and manager-only routes are not guarded in the model.
- User fields beyond the role and the employee id: password hashing (bcrypt), `comparePassword`, email lower-casing and trimming, and the required-field validators. `generateEmployeeId` takes the user count as a parameter. Two ids can collide after a user is deleted, and the model does not capture that.
- The routes `/my-history`, `/employee/:id` and `/employees`, and `server.js`.
- The React pages and the Redux slices, apart from the two form submit handlers. Toasts and dispatch become a `Rejected` or `Dispatched` result.
