/**
 The per-employee attendance summary: the year -> month -> day nesting of
 `EmployeeAttendanceSummary`, with one status label per day. The Java keys are
 `String.valueOf` of the year, month and day numbers, so integer keys carry the
 same information. The advisory counters of `MonthAttendance` are never read or
 written by the services and are not represented.
 */
module SummaryStore {
  import opened Outcomes
  import opened Calendar

  type DayMap = map<int, string>     // day of month -> status label
  type MonthMap = map<int, DayMap>   // month number -> days
  type YearMap = map<int, MonthMap>  // year -> months: one employee's summary

  const PRESENT := "Present"
  const ABSENT := "Absent"
  const WEEKLY_OFF := "Weekly Off"
  const LEAVE := "Leave"
  const LOP := "LOP"

  /** The status recorded for day `d`, if any. */
  function StatusOn(s: YearMap, d: Date): Option<string> {
    if d.year in s && d.month in s[d.year] && d.day in s[d.year][d.month]
    then Some(s[d.year][d.month][d.day])
    else None
  }

  /** Whether the nested maps for (`y`, `m`) have been created. */
  predicate HasMonth(s: YearMap, y: int, m: int) {
    y in s && m in s[y]
  }

  /** `years.computeIfAbsent(year, ..)` then `months.computeIfAbsent(month, ..)`. */
  function EnsureMonth(s: YearMap, y: int, m: int): (r: YearMap)
    ensures HasMonth(r, y, m)
    ensures forall y', m' :: HasMonth(r, y', m') <==> HasMonth(s, y', m') || (y' == y && m' == m)
    ensures forall d: Date :: StatusOn(r, d) == StatusOn(s, d)
    ensures HasMonth(s, y, m) ==> r == s
  {
    var months := if y in s then s[y] else map[];
    if m in months then s else s[y := months[m := map[]]]
  }

  /** `days.put(day, new DayAttendanceMeta(status))`, creating the year and month maps on the way. */
  function Put(s: YearMap, d: Date, status: string): (r: YearMap)
    ensures StatusOn(r, d) == Some(status)
    ensures forall e: Date :: e != d ==> StatusOn(r, e) == StatusOn(s, e)
    ensures forall y, m :: HasMonth(r, y, m) <==> HasMonth(s, y, m) || (y == d.year && m == d.month)
  {
    var t := EnsureMonth(s, d.year, d.month);
    t[d.year := t[d.year][d.month := t[d.year][d.month][d.day := status]]]
  }

  /** `days.putIfAbsent(day, ..)`: writes only a day that has no status yet. */
  function PutIfAbsent(s: YearMap, d: Date, status: string): (r: YearMap)
    ensures StatusOn(s, d).Some? ==> r == s
    ensures StatusOn(r, d) == Some(StatusOn(s, d).GetOr(status))
    ensures forall e: Date :: e != d ==> StatusOn(r, e) == StatusOn(s, e)
    ensures HasMonth(s, d.year, d.month) ==> forall y, m :: HasMonth(r, y, m) <==> HasMonth(s, y, m)
  {
    if StatusOn(s, d).Some? then s else Put(s, d, status)
  }

  /** `put` of `statusFor(d)` for each `d` of `dates` in turn; a later write of a day replaces an earlier one. */
  function PutEach(s: YearMap, dates: seq<Date>, statusFor: Date -> string): (r: YearMap)
    ensures forall d :: d in dates ==> StatusOn(r, d) == Some(statusFor(d))
    ensures forall d: Date :: d !in dates ==> StatusOn(r, d) == StatusOn(s, d)
    ensures forall y, m :: HasMonth(r, y, m) <==>
      HasMonth(s, y, m) || exists d :: d in dates && d.year == y && d.month == m
    decreases |dates|
  {
    if |dates| == 0 then s
    else
      var rest := PutEach(Put(s, dates[0], statusFor(dates[0])), dates[1..], statusFor);
      assert forall d :: d in dates <==> d == dates[0] || d in dates[1..];
      rest
  }
}
