/**
 The daily ledger: for each employee and calendar day, the ordered list of
 check-in and check-out events recorded that day (`DailyAttendance.getLogs()`).
 Timestamps are not represented; a check-in keeps the URL of its stored image.
 */
module Ledger {
  import opened Calendar

  type EmployeeId = string

  /** A `CheckInOut` entry; its `type` field is "checkin" or "checkout". */
  datatype Event = CheckIn(imageUrl: string) | CheckOut

  /** The identity of a `DailyAttendance` record: one per employee per day. */
  datatype DayKey = DayKey(employee: EmployeeId, date: Date)

  type Log = seq<Event>
  type DailyLedger = map<DayKey, Log>

  /** The log of a day, or the empty log a freshly created record starts with. */
  function LogOn(ledger: DailyLedger, key: DayKey): Log {
    if key in ledger then ledger[key] else []
  }

  /** The state-machine invariant: events alternate, starting with a check-in. */
  predicate Alternates(log: Log) {
    forall i :: 0 <= i < |log| ==> (log[i].CheckIn? <==> i % 2 == 0)
  }

  predicate WellFormed(ledger: DailyLedger) {
    forall k :: k in ledger ==> Alternates(ledger[k])
  }

  /** The last event of the log is a check-in, i.e. the employee is currently checked in. */
  predicate LastIsCheckIn(log: Log) {
    |log| > 0 && log[|log| - 1].CheckIn?
  }

  /** `existsByEmployeeId`: the employee has at least one ledger record on any day. */
  predicate HasAnyRecord(ledger: DailyLedger, employee: EmployeeId) {
    exists k :: k in ledger && k.employee == employee
  }

  /** Appends one event to the log of `key`, creating the record when absent. */
  function Append(ledger: DailyLedger, key: DayKey, e: Event): DailyLedger {
    ledger[key := LogOn(ledger, key) + [e]]
  }

  /** Appending a check-in to an alternating log that does not end in a check-in keeps it alternating. */
  lemma CheckInKeepsAlternating(log: Log, url: string)
    requires Alternates(log) && !LastIsCheckIn(log)
    ensures Alternates(log + [CheckIn(url)])
  {
    var n := |log|;
    if n > 0 {
      assert (n - 1) % 2 == 1;
    }
    assert (log + [CheckIn(url)])[n] == CheckIn(url);
  }

  /** Appending a check-out to an alternating log that ends in a check-in keeps it alternating. */
  lemma CheckOutKeepsAlternating(log: Log)
    requires Alternates(log) && LastIsCheckIn(log)
    ensures Alternates(log + [CheckOut])
  {
    var n := |log|;
    assert (n - 1) % 2 == 0;
    assert (log + [CheckOut])[n] == CheckOut;
  }
}
