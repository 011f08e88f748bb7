/**
 The on-demand monthly summary that stops at today (`service.AttendanceSummaryService`):
 the range runs from the first of the month to the earlier of today and the month's last day.
 */
module RangeSummary {
  import opened Outcomes
  import opened Calendar
  import opened Ledger
  import opened Aggregation

  /** The last day of the range: today when today is before the month's last day. */
  function RangeEnd(y: int, m: int, today: Date): (e: Date)
    requires ValidMonth(m)
    ensures EpochDay(e) <= EpochDay(LastOfMonth(y, m)) && EpochDay(e) <= EpochDay(today)
    ensures EpochDay(e) == EpochDay(today) || EpochDay(e) == EpochDay(LastOfMonth(y, m))
  {
    if Before(today, LastOfMonth(y, m)) then today else LastOfMonth(y, m)
  }

  /** `getAllDatesInRange(start, end)`. */
  function RangeDates(y: int, m: int, today: Date): seq<Date>
    requires ValidMonth(m)
  {
    DatesThrough(FirstOfMonth(y, m), RangeEnd(y, m, today))
  }

  /** The range holds exactly the days of the month up to and including today, in ascending order. */
  lemma RangeDatesMembers(y: int, m: int, today: Date)
    requires ValidMonth(m)
    ensures forall d :: d in RangeDates(y, m, today) <==>
      d.year == y && d.month == m && EpochDay(d) <= EpochDay(today)
    ensures Ascending(RangeDates(y, m, today))
    ensures |RangeDates(y, m, today)| == 0 <==> Before(today, FirstOfMonth(y, m))
    ensures |RangeDates(y, m, today)| > 0 ==> RangeDates(y, m, today)[0] == FirstOfMonth(y, m)
    ensures forall i :: 0 < i < |RangeDates(y, m, today)| ==>
      RangeDates(y, m, today)[i] == NextDay(RangeDates(y, m, today)[i - 1])
  {
    var first, end := FirstOfMonth(y, m), RangeEnd(y, m, today);
    DatesBeforeAllMembers(first, NextDay(end));
    DatesBeforeConsecutive(first, NextDay(end));
    if |RangeDates(y, m, today)| > 0 {
      EpochDayInjective(RangeDates(y, m, today)[0], first);
    }
    forall d
      ensures d in RangeDates(y, m, today) <==> d.year == y && d.month == m && EpochDay(d) <= EpochDay(today)
    {
      InMonthIffBetween(d, y, m);
    }
  }

  /**
   `getMonthlySummary(employeeId, year, month)` with today's date passed in. `weeklyOffs` maps
   each registered employee to the weekly-off names of their profile.
   */
  function GetMonthlySummary(weeklyOffs: map<EmployeeId, seq<string>>, ledger: DailyLedger,
                             leaves: seq<LeaveRecord>, emp: EmployeeId, y: int, m: int,
                             today: Date): (r: Result<MonthlyAttendance>)
    ensures r == Err(NotFound("Employee not found")) <==> emp !in weeklyOffs
    ensures emp in weeklyOffs && !ValidMonth(m) ==> r == Err(DateTimeInvalid)
    ensures r.Ok? <==> emp in weeklyOffs && ValidMonth(m)
    ensures r.Ok? ==> forall d :: d in r.value.presentDates <==>
      d.year == y && d.month == m && EpochDay(d) <= EpochDay(today) && HasLog(ledger, emp, d)
    ensures r.Ok? ==> forall d :: d in r.value.weeklyOffDates <==>
      d.year == y && d.month == m && EpochDay(d) <= EpochDay(today) && IsWeeklyOff(d, weeklyOffs[emp])
    ensures r.Ok? ==> forall b: Bucket, d :: d in r.value.Leave(b) <==>
      exists l :: l in leaves && ApprovedFor(l, emp, FirstOfMonth(y, m), RangeEnd(y, m, today))
                  && Contributes(l, b, d, y, m)
    ensures r.Ok? ==> forall d :: d in r.value.absentDates <==>
      d.year == y && d.month == m && EpochDay(d) <= EpochDay(today) && !r.value.IsClassified(d)
    ensures r.Ok? ==> Ascending(r.value.weeklyOffDates) && Ascending(r.value.absentDates)
  {
    if emp !in weeklyOffs then Err(NotFound("Employee not found"))
    else if !ValidMonth(m) then Err(DateTimeInvalid)
    else
      var range := RangeDates(y, m, today);
      var a := Summarize(range, ledger, leaves, emp, weeklyOffs[emp], y, m,
                         FirstOfMonth(y, m), RangeEnd(y, m, today));
      RangeDatesMembers(y, m, today);
      SubsequenceKeepsAscending(a.weeklyOffDates, range);
      SubsequenceKeepsAscending(a.absentDates, range);
      Ok(a)
  }
}
