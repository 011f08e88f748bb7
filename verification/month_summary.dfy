/**
 The on-demand monthly summary over the whole month (`attendanceSummary.AttendanceSummaryService`):
 the range is every day of the month, today's date plays no part.
 */
module MonthSummary {
  import opened Outcomes
  import opened Calendar
  import opened Ledger
  import opened Aggregation
  import RangeSummary

  /** `getAllDatesInMonth` holds exactly the dates of the month, in ascending order. */
  lemma MonthDatesMembers(y: int, m: int)
    requires ValidMonth(m)
    ensures forall d :: d in MonthDates(y, m) <==> d.year == y && d.month == m
    ensures Ascending(MonthDates(y, m))
  {
    var days := MonthDates(y, m);
    forall d: Date | d.year == y && d.month == m
      ensures d in days
    {
      assert days[d.day - 1] == d;
    }
    forall i, j | 0 <= i < j < |days|
      ensures Before(days[i], days[j])
    {
      BeforeIsChronological(days[i], days[j]);
    }
  }

  /** `getMonthlySummary(employeeId, year, month)`. */
  function GetMonthlySummary(weeklyOffs: map<EmployeeId, seq<string>>, ledger: DailyLedger,
                             leaves: seq<LeaveRecord>, emp: EmployeeId, y: int, m: int): (r: Result<MonthlyAttendance>)
    ensures r == Err(NotFound("Employee not found")) <==> emp !in weeklyOffs
    ensures emp in weeklyOffs && !ValidMonth(m) ==> r == Err(DateTimeInvalid)
    ensures r.Ok? <==> emp in weeklyOffs && ValidMonth(m)
    ensures r.Ok? ==> forall d :: d in r.value.presentDates <==>
      d.year == y && d.month == m && HasLog(ledger, emp, d)
    ensures r.Ok? ==> forall d :: d in r.value.weeklyOffDates <==>
      d.year == y && d.month == m && IsWeeklyOff(d, weeklyOffs[emp])
    ensures r.Ok? ==> forall b: Bucket, d :: d in r.value.Leave(b) <==>
      exists l :: l in leaves && ApprovedFor(l, emp, FirstOfMonth(y, m), LastOfMonth(y, m))
                  && Contributes(l, b, d, y, m)
    ensures r.Ok? ==> forall d :: d in r.value.absentDates <==>
      d.year == y && d.month == m && !r.value.IsClassified(d)
    ensures r.Ok? ==> Ascending(r.value.weeklyOffDates) && Ascending(r.value.absentDates)
    ensures r.Ok? ==> |r.value.absentDates| <= DaysInMonth(y, m)
  {
    if emp !in weeklyOffs then Err(NotFound("Employee not found"))
    else if !ValidMonth(m) then Err(DateTimeInvalid)
    else
      var range := MonthDates(y, m);
      var a := Summarize(range, ledger, leaves, emp, weeklyOffs[emp], y, m,
                         FirstOfMonth(y, m), LastOfMonth(y, m));
      MonthDatesMembers(y, m);
      SubsequenceKeepsAscending(a.weeklyOffDates, range);
      SubsequenceKeepsAscending(a.absentDates, range);
      Ok(a)
  }

  /**
   Once today is on or after the month's last day, the summary that stops at today and the
   whole-month summary return the same lists.
   */
  lemma SummariesAgreeForPastMonths(weeklyOffs: map<EmployeeId, seq<string>>, ledger: DailyLedger,
                                    leaves: seq<LeaveRecord>, emp: EmployeeId, y: int, m: int, today: Date)
    requires ValidMonth(m) && !Before(today, LastOfMonth(y, m))
    ensures RangeSummary.GetMonthlySummary(weeklyOffs, ledger, leaves, emp, y, m, today)
         == GetMonthlySummary(weeklyOffs, ledger, leaves, emp, y, m)
  {
    WalkOfMonthIsMonthDates(y, m);
  }
}
