/**
 `AttendanceService`: the check-in/check-out state machine over the daily ledger,
 the summary updates it drives, the one-time backfill, the weekly-off marker and
 its all-employee sweep, the bulk override and the monthly read of the summary.

 Every operation is a function from the stored state (and its inputs) to a new
 state or a failure. The clock (`LocalDate.now()`), the face-verification verdict
 and the URL of the stored check-in image are parameters.
 */
module AttendanceService {
  import opened Outcomes
  import opened Text
  import opened Calendar
  import opened SummaryStore
  import opened Ledger

  /** The fields of a registered `User` the service reads. */
  datatype User = User(name: string, photoUrl: string, joiningDate: Date, weeklyOffs: seq<string>)

  type Directory = map<EmployeeId, User>

  /** The two repositories the service writes: daily ledger records and per-employee summaries. */
  datatype Store = Store(ledger: DailyLedger, summaries: map<EmployeeId, YearMap>)

  /** `summaryRepo.findByEmployeeId(..).orElse(new EmployeeAttendanceSummary(.., new HashMap<>()))`. */
  function SummaryOf(st: Store, emp: EmployeeId): YearMap {
    if emp in st.summaries then st.summaries[emp] else map[]
  }

  // ---------------------------------------------------------------------------
  // Backfill on the first check-in

  /** `weeklyOffs.contains(dayName)`: an exact, case-sensitive match of the upper-case weekday name. */
  predicate IsListedWeeklyOff(d: Date, weeklyOffs: seq<string>) {
    DayName(d) in weeklyOffs
  }

  /** The status the backfill gives a past day. */
  function PastDayStatus(d: Date, weeklyOffs: seq<string>): string {
    if IsListedWeeklyOff(d, weeklyOffs) then WEEKLY_OFF else ABSENT
  }

  /**
   `markPastDaysAbsentIfFirstCheckin`: when the employee has no ledger record at all,
   every day from the joining date up to (not including) `today` is overwritten with
   "Weekly Off" or "Absent"; the summary is saved (and so exists) afterwards.
   */
  function Backfill(st: Store, emp: EmployeeId, user: User, today: Date): (r: Store)
    ensures r.ledger == st.ledger && r.summaries - {emp} == st.summaries - {emp}
    ensures HasAnyRecord(st.ledger, emp) ==> r == st
    ensures !HasAnyRecord(st.ledger, emp) ==>
      && emp in r.summaries
      && forall d: Date :: StatusOn(r.summaries[emp], d) ==
           (if EpochDay(user.joiningDate) <= EpochDay(d) < EpochDay(today)
            then Some(PastDayStatus(d, user.weeklyOffs))
            else StatusOn(SummaryOf(st, emp), d))
  {
    if HasAnyRecord(st.ledger, emp) then st
    else st.(summaries := st.summaries[emp := FillPastDays(SummaryOf(st, emp), user, today)])
  }

  /** The loop of the backfill: each day from the joining date up to `today` gets its past-day status. */
  function FillPastDays(s: YearMap, user: User, today: Date): (r: YearMap)
    ensures forall d: Date ::
      StatusOn(r, d) ==
      (if EpochDay(user.joiningDate) <= EpochDay(d) < EpochDay(today)
       then Some(PastDayStatus(d, user.weeklyOffs))
       else StatusOn(s, d))
  {
    var statusFor := (d: Date) => PastDayStatus(d, user.weeklyOffs);
    PutEachOverRange(s, user.joiningDate, today, statusFor);
    PutEach(s, DatesBefore(user.joiningDate, today), statusFor)
  }

  /** Writing every day of [`from`, `until`) sets exactly the days in that range. */
  lemma PutEachOverRange(s: YearMap, from: Date, until: Date, statusFor: Date -> string)
    ensures forall d: Date ::
      StatusOn(PutEach(s, DatesBefore(from, until), statusFor), d) ==
      (if EpochDay(from) <= EpochDay(d) < EpochDay(until) then Some(statusFor(d)) else StatusOn(s, d))
  {
    DatesBeforeAllMembers(from, until);
  }

  // ---------------------------------------------------------------------------
  // Check-in and check-out

  /** The result of `handleFaceCheckin`: the string it returns and the state afterwards. */
  datatype Reply = Reply(message: string, store: Store)

  /**
   `handleFaceCheckin` followed by `recordDailyAttendance` and `updateSummaryOnCheckIn`.
   `requestedDay` is the day of the optional `checkinTime`; `clockToday` is `LocalDate.now()`,
   which the backfill uses whatever the requested day; `verdict` is what face verification
   answered; `imageUrl` is where the check-in image was stored.
   */
  function HandleFaceCheckIn(st: Store, users: Directory, emp: EmployeeId, requestedDay: Option<Date>,
                             clockToday: Date, verdict: string, imageUrl: string): (r: Result<Reply>)
    ensures emp !in users <==> r == Err(NotFound("User not found"))
    ensures r.Ok? <==> emp in users && !LastIsCheckIn(LogOn(st.ledger, DayKey(emp, requestedDay.GetOr(clockToday))))
    ensures r.Err? && r.failure.BadRequest? <==>
      emp in users && LastIsCheckIn(LogOn(st.ledger, DayKey(emp, requestedDay.GetOr(clockToday))))
    ensures r.Ok? && !EqualsIgnoreCase("Present", verdict) ==> r.value == Reply("Absent", st)
    ensures r.Ok? && EqualsIgnoreCase("Present", verdict) ==>
      var day := requestedDay.GetOr(clockToday);
      var key := DayKey(emp, day);
      var after := r.value.store;
      && r.value.message == "Present"
      && after.ledger == st.ledger[key := LogOn(st.ledger, key) + [CheckIn(imageUrl)]]
      && after.summaries - {emp} == st.summaries - {emp}
      && emp in after.summaries
      && StatusOn(after.summaries[emp], day) == Some(PRESENT)
      && (forall d: Date :: d != day ==>
            StatusOn(after.summaries[emp], d) == StatusOn(SummaryOf(Backfill(st, emp, users[emp], clockToday), emp), d))
      && (HasAnyRecord(st.ledger, emp) ==>
            forall d: Date :: d != day ==> StatusOn(after.summaries[emp], d) == StatusOn(SummaryOf(st, emp), d))
  {
    if emp !in users then Err(NotFound("User not found"))
    else
      var day := requestedDay.GetOr(clockToday);
      var key := DayKey(emp, day);
      if LastIsCheckIn(LogOn(st.ledger, key)) then
        Err(BadRequest("Please check out before checking in again"))
      else if !EqualsIgnoreCase("Present", verdict) then
        Ok(Reply("Absent", st))
      else
        var filled := Backfill(st, emp, users[emp], clockToday);
        var logged := filled.(ledger := Append(filled.ledger, key, CheckIn(imageUrl)));
        var summary := Put(SummaryOf(logged, emp), day, PRESENT);
        Ok(Reply("Present", logged.(summaries := logged.summaries[emp := summary])))
  }

  /** `checkOut`: closes the open check-in of `clockToday`. */
  function CheckOutEmployee(st: Store, emp: EmployeeId, clockToday: Date): (r: Result<Store>)
    ensures DayKey(emp, clockToday) !in st.ledger <==> r == Err(NotFound("No check-in found for today"))
    ensures DayKey(emp, clockToday) in st.ledger && !LastIsCheckIn(st.ledger[DayKey(emp, clockToday)]) <==>
      r == Err(BadRequest("No check-in found for today"))
    ensures r.Ok? <==> DayKey(emp, clockToday) in st.ledger && LastIsCheckIn(st.ledger[DayKey(emp, clockToday)])
    ensures r.Ok? ==>
      var key := DayKey(emp, clockToday);
      && r.value.summaries == st.summaries
      && r.value.ledger - {key} == st.ledger - {key}
      && key in r.value.ledger && r.value.ledger[key] == st.ledger[key] + [CheckOut]
  {
    var key := DayKey(emp, clockToday);
    if key !in st.ledger then Err(NotFound("No check-in found for today"))
    else if !LastIsCheckIn(st.ledger[key]) then Err(BadRequest("No check-in found for today"))
    else Ok(st.(ledger := Append(st.ledger, key, CheckOut)))
  }

  /** A successful check-in keeps every day's log alternating, starting with a check-in. */
  lemma CheckInPreservesAlternation(st: Store, users: Directory, emp: EmployeeId, requestedDay: Option<Date>,
                                    clockToday: Date, verdict: string, imageUrl: string)
    requires WellFormed(st.ledger)
    ensures var r := HandleFaceCheckIn(st, users, emp, requestedDay, clockToday, verdict, imageUrl);
      r.Ok? ==> WellFormed(r.value.store.ledger)
  {
    var r := HandleFaceCheckIn(st, users, emp, requestedDay, clockToday, verdict, imageUrl);
    if r.Ok? && EqualsIgnoreCase("Present", verdict) {
      var key := DayKey(emp, requestedDay.GetOr(clockToday));
      CheckInKeepsAlternating(LogOn(st.ledger, key), imageUrl);
    }
  }

  /** A successful check-out keeps every day's log alternating, starting with a check-in. */
  lemma CheckOutPreservesAlternation(st: Store, emp: EmployeeId, clockToday: Date)
    requires WellFormed(st.ledger)
    ensures var r := CheckOutEmployee(st, emp, clockToday); r.Ok? ==> WellFormed(r.value.ledger)
  {
    var key := DayKey(emp, clockToday);
    if key in st.ledger && LastIsCheckIn(st.ledger[key]) {
      CheckOutKeepsAlternating(st.ledger[key]);
    }
  }

  // ---------------------------------------------------------------------------
  // Weekly-off marker

  /** The `putIfAbsent` loop of `markWeekendsForEmployee`, from day `k` to the end of the month. */
  function MarkDaysFrom(s: YearMap, y: int, m: int, k: int, weeklyOffs: seq<string>): (r: YearMap)
    requires ValidMonth(m) && 1 <= k <= DaysInMonth(y, m) + 1
    ensures forall d: Date ::
      StatusOn(r, d) ==
      (if d.year == y && d.month == m && k <= d.day && IsListedWeeklyOff(d, weeklyOffs)
       then Some(StatusOn(s, d).GetOr(WEEKLY_OFF))
       else StatusOn(s, d))
    ensures HasMonth(s, y, m) ==> forall y', m' :: HasMonth(r, y', m') <==> HasMonth(s, y', m')
    decreases DaysInMonth(y, m) + 1 - k
  {
    if k > DaysInMonth(y, m) then s
    else
      var d: Date := YMD(y, m, k);
      var marked := if IsListedWeeklyOff(d, weeklyOffs) then PutIfAbsent(s, d, WEEKLY_OFF) else s;
      MarkDaysFrom(marked, y, m, k + 1, weeklyOffs)
  }

  /**
   The summary change of `markWeekendsForEmployee`: the month's maps are created, and each
   day of the month whose weekday is listed gets "Weekly Off" unless it already has a status.
   */
  function MarkMonth(s: YearMap, y: int, m: int, weeklyOffs: seq<string>): (r: YearMap)
    requires ValidMonth(m)
    ensures forall y', m' :: HasMonth(r, y', m') <==> HasMonth(s, y', m') || (y' == y && m' == m)
    ensures forall d: Date ::
      StatusOn(r, d) ==
      (if d.year == y && d.month == m && IsListedWeeklyOff(d, weeklyOffs)
       then Some(StatusOn(s, d).GetOr(WEEKLY_OFF))
       else StatusOn(s, d))
  {
    MarkDaysFrom(EnsureMonth(s, y, m), y, m, 1, weeklyOffs)
  }

  /** Once every listed weekday of the month from day `k` on has a status, the loop changes nothing. */
  lemma {:induction false} MarkDaysFromSettled(s: YearMap, y: int, m: int, k: int, weeklyOffs: seq<string>)
    requires ValidMonth(m) && 1 <= k <= DaysInMonth(y, m) + 1
    requires forall d: Date :: d.year == y && d.month == m && k <= d.day && IsListedWeeklyOff(d, weeklyOffs) ==>
      StatusOn(s, d).Some?
    ensures MarkDaysFrom(s, y, m, k, weeklyOffs) == s
    decreases DaysInMonth(y, m) + 1 - k
  {
    if k <= DaysInMonth(y, m) {
      MarkDaysFromSettled(s, y, m, k + 1, weeklyOffs);
    }
  }

  /** Marking a month twice yields the same summary as marking it once. */
  lemma MarkMonthIdempotent(s: YearMap, y: int, m: int, weeklyOffs: seq<string>)
    requires ValidMonth(m)
    ensures MarkMonth(MarkMonth(s, y, m, weeklyOffs), y, m, weeklyOffs) == MarkMonth(s, y, m, weeklyOffs)
  {
    var once := MarkMonth(s, y, m, weeklyOffs);
    assert EnsureMonth(once, y, m) == once;
    MarkDaysFromSettled(once, y, m, 1, weeklyOffs);
  }

  /** `markWeekendsForEmployee(employeeId, year, month)`. */
  function MarkWeekendsForEmployee(st: Store, users: Directory, emp: EmployeeId, y: int, m: int): (r: Result<Store>)
    ensures emp !in users <==> r == Err(NotFound("User not found"))
    ensures emp in users && !ValidMonth(m) <==> r == Err(DateTimeInvalid)
    ensures r.Ok? <==> emp in users && ValidMonth(m)
    ensures r.Ok? ==>
      && r.value.ledger == st.ledger
      && r.value.summaries - {emp} == st.summaries - {emp}
      && emp in r.value.summaries
      && r.value.summaries[emp] == MarkMonth(SummaryOf(st, emp), y, m, users[emp].weeklyOffs)
  {
    if emp !in users then Err(NotFound("User not found"))
    else if !ValidMonth(m) then Err(DateTimeInvalid)
    else Ok(st.(summaries := st.summaries[emp := MarkMonth(SummaryOf(st, emp), y, m, users[emp].weeklyOffs)]))
  }

  /**
   `markAllEmployeesWeekendsForCurrentMonth`: the marker run for each id of `everyone`, the
   listing `userRepository.findAll()` returns, in the month of `clockToday`. Each step is the
   state `MarkWeekendsForEmployee` returns for a listed user and a valid month.
   */
  function MarkAllEmployeesWeekends(st: Store, users: Directory, everyone: seq<EmployeeId>, clockToday: Date): (r: Store)
    requires forall i :: 0 <= i < |everyone| ==> everyone[i] in users
    ensures r.ledger == st.ledger
    ensures forall e :: e in everyone ==>
      e in r.summaries && r.summaries[e] == MarkMonth(SummaryOf(st, e), clockToday.year, clockToday.month, users[e].weeklyOffs)
    ensures forall e :: e !in everyone ==> (e in r.summaries <==> e in st.summaries)
    ensures forall e :: e !in everyone && e in st.summaries ==> r.summaries[e] == st.summaries[e]
    decreases |everyone|
  {
    if |everyone| == 0 then st
    else
      var e := everyone[0];
      var marked := MarkMonth(SummaryOf(st, e), clockToday.year, clockToday.month, users[e].weeklyOffs);
      var next := st.(summaries := st.summaries[e := marked]);
      var r := MarkAllEmployeesWeekends(next, users, everyone[1..], clockToday);
      MarkMonthIdempotent(SummaryOf(st, e), clockToday.year, clockToday.month, users[e].weeklyOffs);
      SweepStep(st, users, everyone, clockToday.year, clockToday.month, next, r);
      r
  }

  /** One step of the sweep: marking the head of the listing, then the rest, marks every listed user once. */
  lemma SweepStep(st: Store, users: Directory, everyone: seq<EmployeeId>, y: int, m: int, next: Store, r: Store)
    requires ValidMonth(m) && |everyone| > 0 && forall i :: 0 <= i < |everyone| ==> everyone[i] in users
    requires var e := everyone[0];
      && next == st.(summaries := st.summaries[e := MarkMonth(SummaryOf(st, e), y, m, users[e].weeklyOffs)])
      && MarkMonth(SummaryOf(next, e), y, m, users[e].weeklyOffs) == SummaryOf(next, e)
    requires r.ledger == next.ledger
    requires forall e :: e in everyone[1..] ==>
      e in r.summaries && r.summaries[e] == MarkMonth(SummaryOf(next, e), y, m, users[e].weeklyOffs)
    requires forall e :: e !in everyone[1..] ==> (e in r.summaries <==> e in next.summaries)
    requires forall e :: e !in everyone[1..] && e in next.summaries ==> r.summaries[e] == next.summaries[e]
    ensures r.ledger == st.ledger
    ensures forall e :: e in everyone ==>
      e in r.summaries && r.summaries[e] == MarkMonth(SummaryOf(st, e), y, m, users[e].weeklyOffs)
    ensures forall e :: e !in everyone ==> (e in r.summaries <==> e in st.summaries)
    ensures forall e :: e !in everyone && e in st.summaries ==> r.summaries[e] == st.summaries[e]
  {
    assert forall x :: x in everyone <==> x == everyone[0] || x in everyone[1..];
  }

  /** The sweep's outcome does not depend on the order, or repetitions, of the user listing. */
  lemma SweepIgnoresListingOrder(st: Store, users: Directory, a: seq<EmployeeId>, b: seq<EmployeeId>, clockToday: Date)
    requires forall i :: 0 <= i < |a| ==> a[i] in users
    requires forall i :: 0 <= i < |b| ==> b[i] in users
    requires forall e :: e in a <==> e in b
    ensures MarkAllEmployeesWeekends(st, users, a, clockToday) == MarkAllEmployeesWeekends(st, users, b, clockToday)
  {
    var ra := MarkAllEmployeesWeekends(st, users, a, clockToday);
    var rb := MarkAllEmployeesWeekends(st, users, b, clockToday);
    forall e
      ensures (e in ra.summaries <==> e in rb.summaries)
      ensures e in ra.summaries ==> ra.summaries[e] == rb.summaries[e]
    {
      SweptAgree(st, users, a, b, clockToday, e);
    }
    StoresAgree(ra, rb);
  }

  /** Stores with the same ledger and the same summary for every id are equal. */
  lemma StoresAgree(ra: Store, rb: Store)
    requires ra.ledger == rb.ledger
    requires forall e :: (e in ra.summaries <==> e in rb.summaries)
    requires forall e :: e in ra.summaries ==> ra.summaries[e] == rb.summaries[e]
    ensures ra == rb
  {
    assert ra.summaries == rb.summaries;
  }

  /** Two listings with the same members leave the same summary for one employee id. */
  lemma SweptAgree(st: Store, users: Directory, a: seq<EmployeeId>, b: seq<EmployeeId>, clockToday: Date, e: EmployeeId)
    requires forall i :: 0 <= i < |a| ==> a[i] in users
    requires forall i :: 0 <= i < |b| ==> b[i] in users
    requires e in a <==> e in b
    ensures var ra, rb := MarkAllEmployeesWeekends(st, users, a, clockToday), MarkAllEmployeesWeekends(st, users, b, clockToday);
      && (e in ra.summaries <==> e in rb.summaries)
      && (e in ra.summaries ==> ra.summaries[e] == rb.summaries[e])
  {
    SweptSummary(st, users, a, clockToday, e);
    SweptSummary(st, users, b, clockToday, e);
  }

  /** What the sweep leaves for one employee id. */
  lemma SweptSummary(st: Store, users: Directory, everyone: seq<EmployeeId>, clockToday: Date, e: EmployeeId)
    requires forall i :: 0 <= i < |everyone| ==> everyone[i] in users
    ensures var r := MarkAllEmployeesWeekends(st, users, everyone, clockToday);
      && (e in r.summaries <==> e in everyone || e in st.summaries)
      && (e in everyone ==> r.summaries[e] == MarkMonth(SummaryOf(st, e), clockToday.year, clockToday.month, users[e].weeklyOffs))
      && (e !in everyone && e in st.summaries ==> r.summaries[e] == st.summaries[e])
  {
  }

  // ---------------------------------------------------------------------------
  // Bulk override

  /** `LocalDate.parse` of each string in turn; the first string that does not parse aborts. */
  function ParseDates(texts: seq<string>): (r: Result<seq<Date>>)
    ensures r.Ok? <==> forall i :: 0 <= i < |texts| ==> ParseIsoDate(texts[i]).Some?
    ensures r.Ok? ==> |r.value| == |texts| && forall i :: 0 <= i < |texts| ==> ParseIsoDate(texts[i]) == Some(r.value[i])
    ensures r.Err? ==> exists i :: 0 <= i < |texts| && ParseIsoDate(texts[i]).None? && r.failure == DateTimeParse(texts[i])
                                && forall j :: 0 <= j < i ==> ParseIsoDate(texts[j]).Some?
    decreases |texts|
  {
    if |texts| == 0 then Ok([])
    else match ParseIsoDate(texts[0])
      case None => Err(DateTimeParse(texts[0]))
      case Some(d) =>
        match ParseDates(texts[1..])
        case Err(f) => Err(f)
        case Ok(ds) => Ok([d] + ds)
  }

  /**
   `markBulkAttendance`: every listed date gets `status`, whatever it held before; the
   summary is saved only after the whole list parsed, so a bad date changes nothing.
   */
  function MarkBulkAttendance(st: Store, emp: EmployeeId, status: string, texts: seq<string>): (r: Result<Store>)
    ensures r.Err? <==> exists t :: t in texts && ParseIsoDate(t).None?
    ensures r.Err? ==> exists i :: 0 <= i < |texts| && ParseIsoDate(texts[i]).None? && r.failure == DateTimeParse(texts[i])
                                && forall j :: 0 <= j < i ==> ParseIsoDate(texts[j]).Some?
    ensures r.Ok? ==>
      && r.value.ledger == st.ledger
      && r.value.summaries - {emp} == st.summaries - {emp}
      && emp in r.value.summaries
      && (forall t :: t in texts ==> StatusOn(r.value.summaries[emp], ParseIsoDate(t).value) == Some(status))
      && (forall d: Date :: (exists t :: t in texts && ParseIsoDate(t) == Some(d))
                            || StatusOn(r.value.summaries[emp], d) == StatusOn(SummaryOf(st, emp), d))
  {
    match ParseDates(texts)
    case Err(f) =>
      ParseFailureNamesString(texts);
      Err(f)
    case Ok(dates) =>
      ParsedDatesMatchStrings(texts);
      Ok(st.(summaries := st.summaries[emp := PutEach(SummaryOf(st, emp), dates, _ => status)]))
  }

  lemma ParseFailureNamesString(texts: seq<string>)
    requires ParseDates(texts).Err?
    ensures exists t :: t in texts && ParseIsoDate(t).None?
  {
    var i :| 0 <= i < |texts| && ParseIsoDate(texts[i]).None?;
    assert texts[i] in texts;
  }

  /** The parsed dates are exactly the dates the strings denote. */
  lemma ParsedDatesMatchStrings(texts: seq<string>)
    requires ParseDates(texts).Ok?
    ensures forall d :: d in ParseDates(texts).value <==> exists t :: t in texts && ParseIsoDate(t) == Some(d)
    ensures forall t :: t in texts ==> ParseIsoDate(t).Some?
  {
    var dates := ParseDates(texts).value;
    forall d | d in dates
      ensures exists t :: t in texts && ParseIsoDate(t) == Some(d)
    {
      var i :| 0 <= i < |dates| && dates[i] == d;
      assert texts[i] in texts;
    }
    forall t | t in texts
      ensures ParseIsoDate(t).Some? && ParseIsoDate(t).value in dates
    {
      var i :| 0 <= i < |texts| && texts[i] == t;
      assert dates[i] == ParseIsoDate(t).value;
    }
  }

  // ---------------------------------------------------------------------------
  // Monthly read of the summary

  /**
   The day map of (`y`, `m`), empty when the year or month was never created: the evident
   intent of `getOrDefault` in `getMonthlySummary`.
   */
  function MonthDays(s: YearMap, y: int, m: int): (r: DayMap)
    ensures forall d: Date :: d.year == y && d.month == m ==>
      StatusOn(s, d) == (if d.day in r then Some(r[d.day]) else None)
    ensures !HasMonth(s, y, m) ==> r == map[]
  {
    if HasMonth(s, y, m) then s[y][m] else map[]
  }

  /**
   The day map as the code obtains it: the `getOrDefault` fallbacks are built with the
   no-argument constructors, whose `months` and `days` maps are null, so a year or month
   that was never created ends in a NullPointerException.
   */
  function MonthDaysAsWritten(s: YearMap, y: int, m: int): (r: Result<DayMap>)
    ensures r.Ok? <==> HasMonth(s, y, m)
    ensures r.Err? ==> r.failure == NullPointer
    ensures r.Ok? ==> r.value == MonthDays(s, y, m)
  {
    if y !in s then Err(NullPointer)
    else if m !in s[y] then Err(NullPointer)
    else Ok(s[y][m])
  }

  /** An employee whose summary has April 2025 but not May 2025: reading May fails as written. */
  lemma MonthReadOfUnwrittenMonthFails()
    ensures var s: YearMap := map[2025 := map[4 := map[15 := PRESENT]]];
      && MonthDaysAsWritten(s, 2025, 5) == Err(NullPointer)
      && MonthDays(s, 2025, 5) == map[]
  {
  }

  /** The five counters `getMonthlySummary` reports. */
  datatype Tally = Tally(presentDays: nat, approvedLeaveDays: nat, approvedLopDays: nat,
                         unapprovedAbsenceDays: nat, weeklyOffDays: nat)
  {
    function Total(): nat {
      presentDays + approvedLeaveDays + approvedLopDays + unapprovedAbsenceDays + weeklyOffDays
    }
  }

  /** The days of `days` among `keys` whose status is exactly `status`. */
  function DaysWith(days: DayMap, keys: set<int>, status: string): set<int> {
    set k | k in keys && k in days && days[k] == status
  }

  /** The day map with its counts. */
  datatype MonthReport = MonthReport(counts: Tally, days: DayMap)

  /** One case of the `switch`: the counter of an exactly matching label goes up, other labels are skipped. */
  function CountOne(t: Tally, status: string): Tally {
    Tally(t.presentDays + (if status == PRESENT then 1 else 0),
          t.approvedLeaveDays + (if status == LEAVE then 1 else 0),
          t.approvedLopDays + (if status == LOP then 1 else 0),
          t.unapprovedAbsenceDays + (if status == ABSENT then 1 else 0),
          t.weeklyOffDays + (if status == WEEKLY_OFF then 1 else 0))
  }

  /** `t` holds the counts of the days among `keys`, and they add up to at most `|keys|`. */
  predicate Counts(t: Tally, days: DayMap, keys: set<int>) {
    && t.presentDays == |DaysWith(days, keys, PRESENT)|
    && t.approvedLeaveDays == |DaysWith(days, keys, LEAVE)|
    && t.approvedLopDays == |DaysWith(days, keys, LOP)|
    && t.unapprovedAbsenceDays == |DaysWith(days, keys, ABSENT)|
    && t.weeklyOffDays == |DaysWith(days, keys, WEEKLY_OFF)|
    && t.Total() <= |keys|
  }

  /** The `switch` over `days.values()`: exact labels are counted, any other label is skipped. */
  method CountStatuses(days: DayMap) returns (t: Tally)
    ensures t.presentDays == |DaysWith(days, days.Keys, PRESENT)|
    ensures t.approvedLeaveDays == |DaysWith(days, days.Keys, LEAVE)|
    ensures t.approvedLopDays == |DaysWith(days, days.Keys, LOP)|
    ensures t.unapprovedAbsenceDays == |DaysWith(days, days.Keys, ABSENT)|
    ensures t.weeklyOffDays == |DaysWith(days, days.Keys, WEEKLY_OFF)|
    ensures t.Total() <= |days|
  {
    t := Tally(0, 0, 0, 0, 0);
    var seen: set<int> := {};
    var rest := days.Keys;
    CountsOfNothing(days);
    while |rest| > 0
      invariant seen + rest == days.Keys && seen !! rest
      invariant Counts(t, days, seen)
      decreases |rest|
    {
      NonEmptyHasMember(rest);
      var k :| k in rest;
      CountOneStep(t, days, seen, k);
      t := CountOne(t, days[k]);
      seen := seen + {k};
      rest := rest - {k};
    }
    assert seen == days.Keys;
  }

  lemma CountsOfNothing(days: DayMap)
    ensures Counts(Tally(0, 0, 0, 0, 0), days, {})
  {
    assert forall status :: DaysWith(days, {}, status) == {};
  }

  lemma CountOneStep(t: Tally, days: DayMap, seen: set<int>, k: int)
    requires k in days && k !in seen && Counts(t, days, seen)
    ensures Counts(CountOne(t, days[k]), days, seen + {k})
  {
    LabelsDiffer();
    DaysWithGrows(days, seen, k, PRESENT);
    DaysWithGrows(days, seen, k, LEAVE);
    DaysWithGrows(days, seen, k, LOP);
    DaysWithGrows(days, seen, k, ABSENT);
    DaysWithGrows(days, seen, k, WEEKLY_OFF);
  }

  /** The five counted labels are pairwise different (they differ in length). */
  lemma LabelsDiffer()
    ensures |PRESENT| == 7 && |LEAVE| == 5 && |LOP| == 3 && |ABSENT| == 6 && |WEEKLY_OFF| == 10
  {
  }

  lemma NonEmptyHasMember(keys: set<int>)
    requires |keys| > 0
    ensures exists k :: k in keys
  {
    if forall k :: k !in keys {
      assert false;
    }
  }

  lemma DaysWithGrows(days: DayMap, seen: set<int>, k: int, status: string)
    requires k in days && k !in seen
    ensures |DaysWith(days, seen + {k}, status)| ==
      |DaysWith(days, seen, status)| + (if days[k] == status then 1 else 0)
  {
    if days[k] == status {
      assert DaysWith(days, seen + {k}, status) == DaysWith(days, seen, status) + {k};
    } else {
      assert DaysWith(days, seen + {k}, status) == DaysWith(days, seen, status);
    }
  }

  /**
   `getMonthlySummary(employeeId, year, month)`: fails when the employee has no summary;
   otherwise counts the month's days by exact label. A month never written reads as empty.
   */
  method GetMonthlySummary(st: Store, emp: EmployeeId, y: int, m: int) returns (r: Result<MonthReport>)
    ensures emp !in st.summaries <==> r == Err(NotFound("No summary found"))
    ensures r.Ok? <==> emp in st.summaries
    ensures r.Ok? ==>
      var days := r.value.days;
      && days == MonthDays(st.summaries[emp], y, m)
      && r.value.counts.presentDays == |DaysWith(days, days.Keys, PRESENT)|
      && r.value.counts.approvedLeaveDays == |DaysWith(days, days.Keys, LEAVE)|
      && r.value.counts.approvedLopDays == |DaysWith(days, days.Keys, LOP)|
      && r.value.counts.unapprovedAbsenceDays == |DaysWith(days, days.Keys, ABSENT)|
      && r.value.counts.weeklyOffDays == |DaysWith(days, days.Keys, WEEKLY_OFF)|
      && r.value.counts.Total() <= |days|
  {
    if emp !in st.summaries {
      return Err(NotFound("No summary found"));
    }
    var days := MonthDays(st.summaries[emp], y, m);
    var counts := CountStatuses(days);
    r := Ok(MonthReport(counts, days));
  }
}
