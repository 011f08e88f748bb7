/**
 What the two on-demand monthly summaries have in common: the result record,
 order-preserving filtering, the weekly-off and present-day tests, the leave
 classification, and the absent dates as all dates minus every other list.
 */
module Aggregation {
  import opened Outcomes
  import opened Text
  import opened Calendar
  import opened Ledger

  /** The fields of a `LeaveModel` record the services read. */
  datatype LeaveRecord = LeaveRecord(employeeId: EmployeeId, status: string, leaveName: string,
                                     shiftType: string, leaveDates: seq<Date>)

  /** The four leave lists a leave date can be collected into. */
  datatype Bucket = FullLeave | HalfLeave | FullCompOff | HalfCompOff

  /** `LeaveDatesSummary`: the four leave lists. */
  datatype LeaveBuckets = LeaveBuckets(fullLeave: seq<Date>, halfLeave: seq<Date>,
                                       fullCompOff: seq<Date>, halfCompOff: seq<Date>)
  {
    function Get(b: Bucket): seq<Date> {
      match b
      case FullLeave => fullLeave
      case HalfLeave => halfLeave
      case FullCompOff => fullCompOff
      case HalfCompOff => halfCompOff
    }

    function Concat(other: LeaveBuckets): LeaveBuckets {
      LeaveBuckets(fullLeave + other.fullLeave, halfLeave + other.halfLeave,
                   fullCompOff + other.fullCompOff, halfCompOff + other.halfCompOff)
    }
  }

  const NoLeave := LeaveBuckets([], [], [], [])

  /** The lists `getMonthlySummary` returns (`MonthlyAttendanceSummaryDTO`). */
  datatype MonthlyAttendance = MonthlyAttendance(
    presentDates: seq<Date>,
    fullLeaveDates: seq<Date>,
    halfDayLeaveDates: seq<Date>,
    fullCompoffDates: seq<Date>,
    halfCompoffDates: seq<Date>,
    weeklyOffDates: seq<Date>,
    absentDates: seq<Date>)
  {
    function Leave(b: Bucket): seq<Date> {
      match b
      case FullLeave => fullLeaveDates
      case HalfLeave => halfDayLeaveDates
      case FullCompOff => fullCompoffDates
      case HalfCompOff => halfCompoffDates
    }

    /** `d` is in the `excluded` set: present, on some kind of leave, or a weekly off. */
    predicate IsClassified(d: Date) {
      d in presentDates || d in fullLeaveDates || d in halfDayLeaveDates
      || d in fullCompoffDates || d in halfCompoffDates || d in weeklyOffDates
    }
  }

  /** `a` is `b` with some elements left out, the rest kept in their order. */
  predicate IsSubsequence<T(==)>(a: seq<T>, b: seq<T>)
    decreases |b|
  {
    if |a| == 0 then true
    else if |b| == 0 then false
    else if a[0] == b[0] then IsSubsequence(a[1..], b[1..])
    else IsSubsequence(a, b[1..])
  }

  /** `stream().filter(keep).collect(toList())`. */
  function Filter<T(==, !new)>(s: seq<T>, keep: T -> bool): (r: seq<T>)
    ensures forall x :: x in r <==> x in s && keep(x)
    ensures forall x :: multiset(r)[x] == if keep(x) then multiset(s)[x] else 0
    ensures IsSubsequence(r, s)
    ensures |r| <= |s|
    decreases |s|
  {
    if |s| == 0 then []
    else
      var rest := Filter(s[1..], keep);
      assert s == [s[0]] + s[1..];
      assert multiset(s) == multiset([s[0]]) + multiset(s[1..]);
      if keep(s[0]) then
        assert multiset([s[0]] + rest) == multiset([s[0]]) + multiset(rest);
        [s[0]] + rest
      else rest
  }

  /** `upperWeeklyOffs.contains(date.getDayOfWeek().name())`, the weekly offs upper-cased first. */
  predicate IsWeeklyOff(d: Date, weeklyOffs: seq<string>) {
    exists w :: w in weeklyOffs && Upper(w) == DayName(d)
  }

  /** The weekly-off test ignores the case in which the weekday names were registered. */
  lemma IsWeeklyOffIgnoresCase(d: Date, weeklyOffs: seq<string>)
    ensures IsWeeklyOff(d, weeklyOffs) <==> exists w :: w in weeklyOffs && EqualsIgnoreCase(w, DayName(d))
  {
    DayNameIsUpper(d);
    forall w | w in weeklyOffs
      ensures Upper(w) == DayName(d) <==> EqualsIgnoreCase(w, DayName(d))
    {
      EqualsIgnoreCaseIsUpperEquality(w, DayName(d));
    }
  }

  /** `calculateWeeklyOffDates` over the days of `range`. */
  function WeeklyOffDates(range: seq<Date>, weeklyOffs: seq<string>): seq<Date> {
    Filter(range, (d: Date) => IsWeeklyOff(d, weeklyOffs))
  }

  /** A ledger record of the day with a non-null, non-empty log. */
  predicate HasLog(ledger: DailyLedger, emp: EmployeeId, d: Date) {
    DayKey(emp, d) in ledger && |ledger[DayKey(emp, d)]| > 0
  }

  /** `getPresentDates`: the days of `range` with a non-empty ledger record, in ascending order. */
  function PresentDates(ledger: DailyLedger, emp: EmployeeId, range: seq<Date>): seq<Date> {
    Filter(range, (d: Date) => HasLog(ledger, emp, d))
  }

  /** The employee's approved leave record with at least one leave date in [`start`, `end`]. */
  predicate ApprovedFor(l: LeaveRecord, emp: EmployeeId, start: Date, end: Date) {
    l.employeeId == emp && l.status == "Approved"
    && exists d :: d in l.leaveDates && !Before(d, start) && !Before(end, d)
  }

  /** `findByEmployeeIdAndStatusAndLeaveDatesBetween(employeeId, "Approved", start, end)`. */
  function ApprovedLeavesBetween(leaves: seq<LeaveRecord>, emp: EmployeeId, start: Date, end: Date): seq<LeaveRecord> {
    Filter(leaves, (l: LeaveRecord) => ApprovedFor(l, emp, start, end))
  }

  /** Which list the dates of a leave record go to; other leave names are dropped. */
  function BucketOf(l: LeaveRecord): Option<Bucket> {
    var fullDay := EqualsIgnoreCase("FULL_DAY", l.shiftType);
    if EqualsIgnoreCase("Leave", l.leaveName) then
      Some(if fullDay then FullLeave else HalfLeave)
    else if EqualsIgnoreCase("Comp-Off", l.leaveName) || EqualsIgnoreCase("Comp Off", l.leaveName) then
      Some(if fullDay then FullCompOff else HalfCompOff)
    else None
  }

  function OnlyIn(b: Bucket, dates: seq<Date>): (r: LeaveBuckets)
    ensures forall b' :: r.Get(b') == if b' == b then dates else []
  {
    match b
    case FullLeave => NoLeave.(fullLeave := dates)
    case HalfLeave => NoLeave.(halfLeave := dates)
    case FullCompOff => NoLeave.(fullCompOff := dates)
    case HalfCompOff => NoLeave.(halfCompOff := dates)
  }

  /** Record `l` contributes date `d` of (`y`, `m`) to list `b`. */
  predicate Contributes(l: LeaveRecord, b: Bucket, d: Date, y: int, m: int) {
    BucketOf(l) == Some(b) && d in l.leaveDates && d.year == y && d.month == m
  }

  /** The lists one record contributes to. */
  function ClassifyLeave(l: LeaveRecord, y: int, m: int): (r: LeaveBuckets)
    ensures forall b: Bucket, d :: d in r.Get(b) <==> Contributes(l, b, d, y, m)
  {
    var inMonth := Filter(l.leaveDates, (d: Date) => d.year == y && d.month == m);
    match BucketOf(l)
    case None => NoLeave
    case Some(b) => OnlyIn(b, inMonth)
  }

  /**
   `getLeaveDates` after the query: for each record and each of its dates in (`y`, `m`),
   the date is appended to the list the record's leave name and shift type select.
   */
  function ClassifyLeaves(leaves: seq<LeaveRecord>, y: int, m: int): (r: LeaveBuckets)
    ensures forall b: Bucket, d :: d in r.Get(b) <==> exists l :: l in leaves && Contributes(l, b, d, y, m)
    decreases |leaves|
  {
    if |leaves| == 0 then NoLeave
    else
      var first := ClassifyLeave(leaves[0], y, m);
      var rest := ClassifyLeaves(leaves[1..], y, m);
      ClassifyLeavesStep(leaves, y, m, first, rest);
      first.Concat(rest)
  }

  lemma ClassifyLeavesStep(leaves: seq<LeaveRecord>, y: int, m: int, first: LeaveBuckets, rest: LeaveBuckets)
    requires |leaves| > 0
    requires forall b: Bucket, d :: d in first.Get(b) <==> Contributes(leaves[0], b, d, y, m)
    requires forall b: Bucket, d :: d in rest.Get(b) <==> exists l :: l in leaves[1..] && Contributes(l, b, d, y, m)
    ensures forall b: Bucket, d :: d in first.Concat(rest).Get(b) <==> exists l :: l in leaves && Contributes(l, b, d, y, m)
  {
    forall b: Bucket, d
      ensures d in first.Concat(rest).Get(b) <==> exists l :: l in leaves && Contributes(l, b, d, y, m)
    {
      assert first.Concat(rest).Get(b) == first.Get(b) + rest.Get(b);
      if exists l :: l in leaves && Contributes(l, b, d, y, m) {
        var l :| l in leaves && Contributes(l, b, d, y, m);
        if l != leaves[0] {
          assert l in leaves[1..];
        }
      }
    }
  }

  /** Steps 5 and 6 of `getMonthlySummary`: every date of `allDates` not in another list is absent. */
  function Reconcile(allDates: seq<Date>, present: seq<Date>, leave: LeaveBuckets, weeklyOff: seq<Date>): (a: MonthlyAttendance)
    ensures a.presentDates == present && a.weeklyOffDates == weeklyOff
    ensures forall b :: a.Leave(b) == leave.Get(b)
    ensures forall d :: d in a.absentDates <==> d in allDates && !a.IsClassified(d)
    ensures IsSubsequence(a.absentDates, allDates) && |a.absentDates| <= |allDates|
  {
    var classified := MonthlyAttendance(present, leave.fullLeave, leave.halfLeave,
                                        leave.fullCompOff, leave.halfCompOff, weeklyOff, []);
    classified.(absentDates := Filter(allDates, (d: Date) => !classified.IsClassified(d)))
  }

  /**
   Steps 1 to 6 of `getMonthlySummary` once the range is fixed: present days and weekly offs
   are picked from `range`, leave dates come from the approved records touching
   [`start`, `end`] and lying in (`y`, `m`), and the remaining days of `range` are absent.
   */
  function Summarize(range: seq<Date>, ledger: DailyLedger, leaves: seq<LeaveRecord>, emp: EmployeeId,
                     weeklyOffs: seq<string>, y: int, m: int, start: Date, end: Date): (a: MonthlyAttendance)
    ensures forall d :: d in a.presentDates <==> d in range && HasLog(ledger, emp, d)
    ensures forall d :: d in a.weeklyOffDates <==> d in range && IsWeeklyOff(d, weeklyOffs)
    ensures forall b: Bucket, d :: d in a.Leave(b) <==>
      exists l :: l in leaves && ApprovedFor(l, emp, start, end) && Contributes(l, b, d, y, m)
    ensures forall d :: d in a.absentDates <==> d in range && !a.IsClassified(d)
    ensures IsSubsequence(a.weeklyOffDates, range) && IsSubsequence(a.absentDates, range)
    ensures |a.absentDates| <= |range|
  {
    var approved := ApprovedLeavesBetween(leaves, emp, start, end);
    var leave := ClassifyLeaves(approved, y, m);
    assert forall b: Bucket, d :: d in leave.Get(b) <==>
      exists l :: l in leaves && ApprovedFor(l, emp, start, end) && Contributes(l, b, d, y, m);
    Reconcile(range, PresentDates(ledger, emp, range), leave, WeeklyOffDates(range, weeklyOffs))
  }

  /** Strictly increasing dates: ascending order without repeats. */
  predicate Ascending(s: seq<Date>) {
    forall i, j :: 0 <= i < j < |s| ==> Before(s[i], s[j])
  }

  lemma {:induction false} SubsequenceMembers<T>(a: seq<T>, b: seq<T>)
    requires IsSubsequence(a, b)
    ensures forall x :: x in a ==> x in b
    decreases |b|
  {
    if |a| > 0 && |b| > 0 {
      if a[0] == b[0] {
        SubsequenceMembers(a[1..], b[1..]);
        assert forall x :: x in a ==> x == a[0] || x in a[1..];
      } else {
        SubsequenceMembers(a, b[1..]);
      }
    }
  }

  /** Leaving dates out of an ascending list keeps it ascending. */
  lemma {:induction false} SubsequenceKeepsAscending(a: seq<Date>, b: seq<Date>)
    requires IsSubsequence(a, b) && Ascending(b)
    ensures Ascending(a)
    decreases |b|
  {
    if |a| > 0 && |b| > 0 {
      assert Ascending(b[1..]);
      if a[0] == b[0] {
        SubsequenceKeepsAscending(a[1..], b[1..]);
        SubsequenceMembers(a[1..], b[1..]);
        forall i, j | 0 <= i < j < |a|
          ensures Before(a[i], a[j])
        {
          assert a[j] == a[1..][j - 1];
          if i > 0 {
            assert a[i] == a[1..][i - 1];
          } else {
            assert a[j] in b[1..];
          }
        }
      } else {
        SubsequenceKeepsAscending(a, b[1..]);
      }
    }
  }
}
