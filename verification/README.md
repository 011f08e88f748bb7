# Attendance reconciliation, modelled in Dafny

This project models the attendance core of a Spring Boot backend, in two parts.

The first part is the stateful service `AttendanceService`:
- **Daily ledger.** Each employee-day holds a list of `checkin`/`checkout` events.
- **Summary.** Each employee has a year → month → day summary of status labels.
- **Face check-in.** It writes the ledger and sets the day's summary to "Present".
- **Check-out.** It closes the day's open check-in.
- **One-time backfill.** On the first check-in, every day since joining is marked "Weekly Off" or "Absent".
- **Weekly-off marker.** It runs for one employee or as a sweep over everyone.
- **Bulk override.** It sets a status on a list of dates.
- **Monthly read.** It counts the day labels of one month.

The second part is two on-demand monthly summaries. Both compute present dates, four leave lists and weekly-off dates. They then report every remaining day of the range as absent.
- `service.AttendanceSummaryService` stops the range at today.
- `attendanceSummary.AttendanceSummaryService` always covers the whole month.

Every operation is a pure function from the stored state and its inputs to a new state, a reply, or a failure. A failure stands for the Java exception the code throws: `CustomException` with NOT_FOUND or BAD_REQUEST, a `DateTimeException`, or a `NullPointerException`.

Four things the Java code reads from outside are parameters instead:
- the clock (`LocalDate.now()`);
- the face-verification verdict;
- the URL of the uploaded check-in image;
- the list of users the repository returns.

Modules:
- `Outcomes`: the `Option` and `Result` types and the failure kinds.
- `Text`: ASCII `toUpperCase` and `equalsIgnoreCase`, and decimal digit strings.
- `Calendar`: proleptic Gregorian dates; an epoch-day number with `plusDays(1)` and `isBefore`; day of week; walks over date ranges; the ISO `yyyy-MM-dd` text form.
- `SummaryStore`: the nested summary maps with `computeIfAbsent`, `put` and `putIfAbsent`.
- `Ledger`: day records, their event logs, and the alternation invariant.
- `AttendanceService`: the stateful service.
- `Aggregation`: what the two on-demand summaries share.
- `RangeSummary` and `MonthSummary`: the two summary services.

Summary keys are the integers whose unpadded `String.valueOf` the Java code uses as keys. The mapping is one-to-one, so nothing is lost.

Three behaviours of the code differ from what a reader might expect from its names and comments. The model follows the code:
- **Backfill overwrites.** The backfill uses `put`, so it overwrites days that already have a status. It does not fill only empty days.
- **Backfill clock.** The backfill walks up to the clock's today (`LocalDate.now()`), not up to the requested check-in day.
- **Constructor arity.** The one-argument `MonthAttendance` constructor the service calls does not match the all-arguments constructor of `EmployeeAttendanceSummary.java`. The model follows what the service evidently means: a month holding just its day map.

## Model

| member | source | states |
|---|---|---|
| Text.EqualsIgnoreCaseIsUpperEquality | src/main/java/com/example/Attendance/service/AttendanceSummaryService.java:106-111 | Comparing two strings ignoring case is the same as comparing their upper-cased forms (both directions). |
| Calendar.DaysInMonth | src/main/java/com/example/Attendance/attendanceSummary/AttendanceSummaryService.java:131 | `lengthOfMonth` is always between 28 and 31. |
| Calendar.NextDay | src/main/java/com/example/Attendance/service/AttendanceService.java:213 | `plusDays(1)` gives the valid date whose day number is one more, across month and year ends. |
| Calendar.BeforeIsChronological | src/main/java/com/example/Attendance/service/AttendanceSummaryService.java:43 | Ordering by day number agrees with `isBefore` on (year, month, day), in both directions. |
| Calendar.EpochDayInjective | src/main/java/com/example/Attendance/service/AttendanceSummaryService.java:122-128 | Two dates with the same day number are the same date, so a date walk never repeats a date. |
| Calendar.WeekdayAdvances | src/main/java/com/example/Attendance/service/AttendanceService.java:213-214 | `getDayOfWeek()` of `plusDays(1)` is the next weekday, Sunday followed by Monday, so a day-by-day walk cycles through the seven names in order. |
| Calendar.KnownWeekdays | src/main/java/com/example/Attendance/service/AttendanceSummaryService.java:124 | `getDayOfWeek().name()` of 1970-01-01 is THURSDAY, of 1969-12-31 WEDNESDAY, of 2000-01-01 SATURDAY and of 2025-04-13 SUNDAY, as on the Gregorian calendar. |
| Calendar.DayNameIsUpper | src/main/java/com/example/Attendance/service/AttendanceSummaryService.java:124 | `DayOfWeek.name()` is already upper case. |
| Calendar.DatesBefore | src/main/java/com/example/Attendance/service/AttendanceService.java:213 | `for (date = from; date.isBefore(until); date = date.plusDays(1))` visits one date per day number, from `from` onwards, and nothing when `from` is not before `until`. |
| Calendar.DatesBeforeMembers | src/main/java/com/example/Attendance/service/AttendanceService.java:213 | A date is visited exactly when `from` ≤ date < `until`. |
| Calendar.DatesBeforeConsecutive | src/main/java/com/example/Attendance/service/AttendanceSummaryService.java:132-140 | Each visited date is the day after the one before it. |
| Calendar.InMonthIffBetween | src/main/java/com/example/Attendance/attendanceSummary/AttendanceSummaryService.java:92-94 | A date lies in a month exactly when it lies between `atDay(1)` and `atEndOfMonth()`. |
| Calendar.MonthDates | src/main/java/com/example/Attendance/attendanceSummary/AttendanceSummaryService.java:128-135 | The days of a month are `atDay(1)` … `atDay(lengthOfMonth())`, in order. |
| Calendar.WalkOfMonthIsMonthDates | src/main/java/com/example/Attendance/service/AttendanceSummaryService.java:132-140 | Walking day by day from the first to the last of a month gives exactly the month's days by number. |
| Calendar.ParseFormatRoundTrip | src/main/java/com/example/Attendance/service/AttendanceService.java:179 | `LocalDate.parse` reads back every date written in ISO form (four-digit years). |
| Calendar.FormatParseRoundTrip | src/main/java/com/example/Attendance/service/AttendanceService.java:179 | Every string `LocalDate.parse` accepts is the ISO form of the date it yields. |
| SummaryStore.EnsureMonth | src/main/java/com/example/Attendance/service/AttendanceService.java:113-117 | `computeIfAbsent` on the year and month creates that month only, keeps an existing one as it is, and changes no day's status. |
| SummaryStore.Put | src/main/java/com/example/Attendance/service/AttendanceService.java:113-120 | `days.put` sets the day's status, whatever it was, and leaves every other day alone. |
| SummaryStore.PutIfAbsent | src/main/java/com/example/Attendance/service/AttendanceService.java:268 | `putIfAbsent` writes only a day without a status; a day with a status keeps the same map. |
| SummaryStore.PutEach | src/main/java/com/example/Attendance/service/AttendanceService.java:178-192 | Putting a list of dates sets every listed date, leaves every other date alone, and creates exactly the months of the listed dates. |
| Ledger.CheckInKeepsAlternating | src/main/java/com/example/Attendance/service/AttendanceService.java:51-59 | A check-in appended to a log not ending in a check-in keeps it alternating, starting with a check-in. |
| Ledger.CheckOutKeepsAlternating | src/main/java/com/example/Attendance/service/AttendanceService.java:94-99 | A check-out appended to a log ending in a check-in keeps it alternating. |
| AttendanceService.Backfill | src/main/java/com/example/Attendance/service/AttendanceService.java:199-235 | Any ledger record means nothing changes. Otherwise every day in [joining date, today) gets "Weekly Off" (exact weekday-name match) or "Absent", overwriting. Every other day, the ledger and other employees are unchanged, and the summary exists afterwards. |
| AttendanceService.FillPastDays | src/main/java/com/example/Attendance/service/AttendanceService.java:213-232 | The backfill loop gives each day from the joining date up to (not including) today its "Weekly Off" or "Absent" status, and leaves every other day as it was. |
| AttendanceService.HandleFaceCheckIn | src/main/java/com/example/Attendance/service/AttendanceService.java:37-84 | Unknown user: NOT_FOUND. Open check-in that day: BAD_REQUEST. Success exactly for a known user without an open check-in that day. A verdict that is not "Present" (any case): "Absent" and nothing written. Otherwise: exactly one check-in appended, the day set to "Present", every other day as after the backfill, other employees untouched. |
| AttendanceService.CheckOutEmployee | src/main/java/com/example/Attendance/service/AttendanceService.java:87-102 | No record today: NOT_FOUND. Empty log or last event not a check-in: BAD_REQUEST. Success exactly when today's log ends in a check-in, and then exactly one check-out is appended to today's log and nothing else changes. |
| AttendanceService.CheckInPreservesAlternation | src/main/java/com/example/Attendance/service/AttendanceService.java:317-330 | Check-in keeps every log of the ledger alternating, starting with a check-in. |
| AttendanceService.CheckOutPreservesAlternation | src/main/java/com/example/Attendance/service/AttendanceService.java:87-101 | Check-out keeps every log of the ledger alternating, starting with a check-in. |
| AttendanceService.MarkDaysFrom | src/main/java/com/example/Attendance/service/AttendanceService.java:262-270 | From day `k` on, each listed weekday without a status gets "Weekly Off". Days with a status and all other days keep theirs. |
| AttendanceService.MarkMonth | src/main/java/com/example/Attendance/service/AttendanceService.java:254-270 | The marker creates the month and gives "Weekly Off" to the month's listed weekdays that have no status. Nothing else changes. |
| AttendanceService.MarkDaysFromSettled | src/main/java/com/example/Attendance/service/AttendanceService.java:262-270 | When every listed weekday from day `k` on has a status, the loop returns the map unchanged. |
| AttendanceService.MarkMonthIdempotent | src/main/java/com/example/Attendance/service/AttendanceService.java:240-273 | Marking a month twice gives the same summary as marking it once. |
| AttendanceService.MarkWeekendsForEmployee | src/main/java/com/example/Attendance/service/AttendanceService.java:240-273 | Unknown user: NOT_FOUND. Invalid month: DateTimeException. Success exactly for a known user and a valid month, and then only this employee's summary changes, by the marker. |
| AttendanceService.MarkAllEmployeesWeekends | src/main/java/com/example/Attendance/service/AttendanceService.java:275-285 | After the sweep, every listed employee's summary is the marker applied once to their original summary, even if listed twice. Unlisted employees and the ledger are unchanged. |
| AttendanceService.SweptSummary | src/main/java/com/example/Attendance/service/AttendanceService.java:282-284 | For one employee id, the sweep leaves the marker applied once to a listed employee, an unlisted employee's summary as it was, and no new summary for an unlisted id. |
| AttendanceService.SweepIgnoresListingOrder | src/main/java/com/example/Attendance/service/AttendanceService.java:275-285 | Two listings of the same users, in any order, give the same state. |
| AttendanceService.ParseDates | src/main/java/com/example/Attendance/service/AttendanceService.java:178-179 | Parsing succeeds exactly when every string parses. The first string that does not parse is reported; every string before it parsed. |
| AttendanceService.ParsedDatesMatchStrings | src/main/java/com/example/Attendance/service/AttendanceService.java:178-179 | When every string parses, the parsed dates are exactly the dates the strings denote. |
| AttendanceService.MarkBulkAttendance | src/main/java/com/example/Attendance/service/AttendanceService.java:174-195 | One unparsable string means nothing is saved, and the failure is the `DateTimeParseException` of the first such string. Otherwise every listed date gets the status, whatever it held, and the summary exists afterwards. Every unlisted date, other employees and the ledger are unchanged. |
| AttendanceService.MonthDays | src/main/java/com/example/Attendance/service/AttendanceService.java:136-142 | The month's day map agrees with the summary on every day of that month, and is empty for a month never written. |
| AttendanceService.MonthDaysAsWritten | src/main/java/com/example/Attendance/service/AttendanceService.java:136-142 | As the code stands, reading a year or month never written fails with a NullPointerException. Otherwise it yields the same day map. |
| AttendanceService.MonthReadOfUnwrittenMonthFails | src/main/java/com/example/Attendance/service/AttendanceService.java:136-142 | A summary holding only April 2025 fails when May 2025 is read as written, while the intended read gives an empty map. |
| AttendanceService.CountStatuses | src/main/java/com/example/Attendance/service/AttendanceService.java:151-160 | Each counter is the number of days whose label is exactly its label. Other labels are skipped, so the five counts add up to at most the number of days. A `null` label, on which Java throws, is not representable (see "## Left out"). |
| AttendanceService.GetMonthlySummary | src/main/java/com/example/Attendance/service/AttendanceService.java:132-172 | No summary: NOT_FOUND. Success exactly when the employee has a summary, and then the month's days are returned, with the exact-label counts and a total of at most the number of days. |
| Aggregation.Filter | src/main/java/com/example/Attendance/service/AttendanceSummaryService.java:69-71 | `filter(..).collect(toList())` keeps exactly the elements that pass, each as many times as it occurs, in their order, and never grows the list. |
| Aggregation.IsWeeklyOffIgnoresCase | src/main/java/com/example/Attendance/service/AttendanceSummaryService.java:119-130 | Testing the upper-cased weekly offs against the weekday name is a case-insensitive match with the registered names. |
| Aggregation.ClassifyLeave | src/main/java/com/example/Attendance/service/AttendanceSummaryService.java:104-113 | A record contributes exactly its dates in the target month. They go to one list chosen by "Leave" or "Comp-Off"/"Comp Off" (any case) and by `FULL_DAY` or not. Other leave names contribute nothing. |
| Aggregation.ClassifyLeaves | src/main/java/com/example/Attendance/service/AttendanceSummaryService.java:100-117 | A date is in a leave list exactly when some record contributes it to that list. |
| Aggregation.Reconcile | src/main/java/com/example/Attendance/service/AttendanceSummaryService.java:61-71 | A date is absent exactly when it is in the range and in none of the other six lists. The absent list keeps the range's order. |
| Aggregation.Summarize | src/main/java/com/example/Attendance/service/AttendanceSummaryService.java:47-71 | Present dates are the range's days with a non-empty log, and weekly offs its listed weekdays. Leave dates come from approved records touching [start, end]. Absent dates are the rest of the range, in order. |
| Aggregation.SubsequenceKeepsAscending | src/main/java/com/example/Attendance/service/AttendanceSummaryService.java:69-71 | Filtering an ascending date list leaves it ascending. |
| RangeSummary.RangeEnd | src/main/java/com/example/Attendance/service/AttendanceSummaryService.java:40-45 | The range ends at today when today is before the month's last day, otherwise at the last day. |
| RangeSummary.RangeDatesMembers | src/main/java/com/example/Attendance/service/AttendanceSummaryService.java:132-140 | The range holds exactly the month's days up to and including today. It is consecutive and ascending from the first of the month, and empty exactly when today is before the first. |
| RangeSummary.GetMonthlySummary | src/main/java/com/example/Attendance/service/AttendanceSummaryService.java:32-84 | Unknown employee: NOT_FOUND. Invalid month: DateTimeException. Otherwise each list is exactly the month's days up to today passing its test, leave dates come from the approved records touching the range, and absent dates are the unclassified ones, ascending. |
| MonthSummary.MonthDatesMembers | src/main/java/com/example/Attendance/attendanceSummary/AttendanceSummaryService.java:128-135 | The month's dates are exactly the dates of that month, in ascending order. |
| MonthSummary.GetMonthlySummary | src/main/java/com/example/Attendance/attendanceSummary/AttendanceSummaryService.java:26-70 | Unknown employee: NOT_FOUND. Invalid month: DateTimeException. Otherwise the same lists over the whole month, with at most `lengthOfMonth` absent days. |
| MonthSummary.SummariesAgreeForPastMonths | src/main/java/com/example/Attendance/attendanceSummary/AttendanceSummaryService.java:45-58 | When today is on or after the month's last day, both summary services return the same result. |

## Left out

- **Out-of-process calls.** Face verification (`FaceVerificationService`), the image upload and the `MultipartFile` rebuild are not modelled. The verdict and the image URL are inputs.
- **Timestamps.** Event times and working hours are not represented.
- **Stored counters.** The counters `totalDays`, `presentDays`, … of `MonthAttendance` are not represented. The services never read or write them.
- **Repository queries.** The `Between` queries are modelled as inclusive filters over a map or list. Their MongoDB bound semantics are not part of this model. The present dates of both summaries are taken in ascending date order; the repository promises no order.
- **Time zones.** `EpochUtil` and time-zone conversions are not part of this model. The `dateEpoch` and `date` fields of a day record are taken to name the same calendar day.
- **Null values.** A `null` value and the `NullPointerException` it raises are not modelled in these places:
  - a `weeklyOffs` list, an event log or a leave-date list;
  - a bulk request without a `status`: `markBulkAttendance` stores the null label, and a later monthly read crashes on it in `switch (status)`;
  - an employee without a `joiningDate`: the backfill's `isBefore` throws before the check-in is saved;
  - a bulk request whose `dateStrings` list, or one of its elements, is null.
- **Year range.** Years outside `LocalDate`'s range are not rejected.
- **The scheduler.** The `@Scheduled` trigger is left out; the sweep takes the month of a `clockToday` parameter.
- **Concurrency.** Lost updates between concurrent read-modify-write saves are not modellable in a sequential model.
- **Unlisted operations.** `getDailyData` is a single repository lookup and is not modelled. The `Employee` and `LeaveModel` classes are not part of this model; only the fields the services read are represented.
- **Failures of the stores themselves.** Repository failures and I/O exceptions are not represented.
- **ISO parsing.** `LocalDate.parse` is modelled only for four-digit unsigned years. A year with a '-' sign, or a '+' year of five or more digits (e.g. "-0001-01-01", "+20250-04-20"), is rejected, though Java accepts it. A '+' before a four-digit year ("+2025-04-20") is rejected by both.
- **Case folding.** `toUpperCase` and `equalsIgnoreCase` are modelled over ASCII letters only. Java also folds other alphabets. `String::toUpperCase` follows the JVM's default locale, and the model takes a locale without Turkic casing. Under a Turkish or Azerbaijani locale, 'i' upper-cases to 'İ', so a registered "friday" never matches `FRIDAY`, and the weekly-off lists of both summaries then differ from `Aggregation.IsWeeklyOffIgnoresCase`. `equalsIgnoreCase` does not depend on the locale.
- **Monthly-read keys.** The monthly read of `AttendanceService` takes its year and month as strings. The model takes them as integers, so a padded key such as "04", which the Java lookup would never find, is not represented.

## Findings

| source | as written | input that shows it | evidently intended | confidence | as-written member | corrected member |
|---|---|---|---|---|---|---|
| src/main/java/com/example/Attendance/service/AttendanceService.java:136-142 | The `getOrDefault` fallbacks are built with the no-argument constructors of `YearAttendance` and `MonthAttendance`. Those leave `months` and `days` null, so reading a year or month with no entries throws a `NullPointerException`. | An employee whose summary has only April 2025, read for year "2025", month "5" | A month with no entries reads as an empty day map with all counts zero | not executed | AttendanceService.MonthDaysAsWritten, AttendanceService.MonthReadOfUnwrittenMonthFails | AttendanceService.MonthDays, AttendanceService.GetMonthlySummary |
