/** The dose lifecycle and the adherence queries of lib/medicine-context.tsx:
    `markAsTaken`, `snoozeReminder` and its expiry, `markAsMissed` with the
    caregiver alert, `getPendingReminders`, `getMissedCount`, `getMissedLogs`
    and `dismissCaregiverAlert`. None of the operations checks the entry's
    current status before changing it. */
module Lifecycle {
  import opened Wrappers
  import opened Medicines

  /** How long a snooze lasts: ten minutes, in milliseconds. */
  const SnoozeMs: int := 10 * 60 * 1000

  /** The caregiver pop-up: whether it shows and for which medicine name. */
  datatype AlertState = AlertState(visible: bool, medicineName: string)

  /** Some entry carries the log id. */
  predicate HasLog(logs: seq<LogEntry>, logId: string) {
    exists i :: 0 <= i < |logs| && logs[i].id == logId
  }

  /** `logs.map(log => log.id === logId ? f(log) : log)`. */
  function ApplyTo(logs: seq<LogEntry>, logId: string, f: LogEntry -> LogEntry): (r: seq<LogEntry>)
    ensures |r| == |logs|
    ensures forall i :: 0 <= i < |logs| && logs[i].id != logId ==> r[i] == logs[i]
    ensures forall i :: 0 <= i < |logs| && logs[i].id == logId ==> r[i] == f(logs[i])
  {
    if |logs| == 0 then []
    else [if logs[0].id == logId then f(logs[0]) else logs[0]] + ApplyTo(logs[1..], logId, f)
  }

  lemma {:induction false} ApplyToAppend(a: seq<LogEntry>, b: seq<LogEntry>, logId: string, f: LogEntry -> LogEntry)
    ensures ApplyTo(a + b, logId, f) == ApplyTo(a, logId, f) + ApplyTo(b, logId, f)
  {
    if |a| > 0 {
      assert (a + b)[1..] == a[1..] + b;
      ApplyToAppend(a[1..], b, logId, f);
    } else {
      assert a + b == b;
    }
  }

  /** An id no entry carries leaves the logs as they are. */
  lemma ApplyToUnknown(logs: seq<LogEntry>, logId: string, f: LogEntry -> LogEntry)
    requires !HasLog(logs, logId)
    ensures ApplyTo(logs, logId, f) == logs
  {
    var r := ApplyTo(logs, logId, f);
    assert forall i :: 0 <= i < |logs| ==> r[i] == logs[i];
  }

  function TakenAt(now: int): LogEntry -> LogEntry {
    (e: LogEntry) => e.(status := Taken, timestamp := now)
  }

  /** `markAsTaken`: the matching entry becomes `taken` with the new timestamp,
      whatever its status was; every other entry is unchanged. */
  function MarkAsTaken(logs: seq<LogEntry>, logId: string, now: int): (r: seq<LogEntry>)
    ensures |r| == |logs|
    ensures forall i :: 0 <= i < |logs| && logs[i].id != logId ==> r[i] == logs[i]
    ensures forall i :: 0 <= i < |logs| && logs[i].id == logId ==>
      r[i].status == Taken && r[i].timestamp == now && r[i].(status := logs[i].status, timestamp := logs[i].timestamp) == logs[i]
  {
    ApplyTo(logs, logId, TakenAt(now))
  }

  function SnoozedUntil(until: int): LogEntry -> LogEntry {
    (e: LogEntry) => e.(status := Snoozed, snoozeUntil := Some(until))
  }

  /** `snoozeReminder`: the matching entry becomes `snoozed` until ten minutes
      from now; its timestamp is not touched. */
  function Snooze(logs: seq<LogEntry>, logId: string, now: int): (r: seq<LogEntry>)
    ensures |r| == |logs|
    ensures forall i :: 0 <= i < |logs| && logs[i].id != logId ==> r[i] == logs[i]
    ensures forall i :: 0 <= i < |logs| && logs[i].id == logId ==>
      r[i].status == Snoozed && r[i].snoozeUntil == Some(now + SnoozeMs) &&
      r[i].(status := logs[i].status, snoozeUntil := logs[i].snoozeUntil) == logs[i]
  {
    ApplyTo(logs, logId, SnoozedUntil(now + SnoozeMs))
  }

  function ResumeIfSnoozed(e: LogEntry): LogEntry {
    if e.status == Snoozed then e.(status := Pending, snoozeUntil := None) else e
  }

  /** The snooze timer's callback: the matching entry returns to `pending` with
      no resume time, but only while it is still `snoozed`. The callback does
      not compare the clock with `snoozeUntil`. */
  function ExpireSnooze(logs: seq<LogEntry>, logId: string): (r: seq<LogEntry>)
    ensures |r| == |logs|
    ensures forall i :: 0 <= i < |logs| && (logs[i].id != logId || logs[i].status != Snoozed) ==> r[i] == logs[i]
    ensures forall i :: 0 <= i < |logs| && logs[i].id == logId && logs[i].status == Snoozed ==>
      r[i].status == Pending && r[i].snoozeUntil.None? &&
      r[i].(status := Snoozed, snoozeUntil := logs[i].snoozeUntil) == logs[i]
  {
    ApplyTo(logs, logId, ResumeIfSnoozed)
  }

  /** Snoozing a pending entry that has no resume time and letting the snooze
      expire gives back exactly the logs one started from. */
  lemma SnoozeRoundTrip(logs: seq<LogEntry>, logId: string, now: int)
    requires forall i :: 0 <= i < |logs| && logs[i].id == logId ==> logs[i].status == Pending && logs[i].snoozeUntil.None?
    ensures ExpireSnooze(Snooze(logs, logId, now), logId) == logs
  {
    var r := ExpireSnooze(Snooze(logs, logId, now), logId);
    forall i | 0 <= i < |logs|
      ensures r[i] == logs[i]
    {
    }
  }

  /** An expiry arriving after the entry was taken or missed changes nothing:
      a settled entry is not resurrected. */
  lemma ExpiryAfterSettlingIsNoOp(logs: seq<LogEntry>, logId: string, now: int, reason: MissedReason)
    ensures ExpireSnooze(MarkAsTaken(logs, logId, now), logId) == MarkAsTaken(logs, logId, now)
    ensures ExpireSnooze(MarkedMissed(logs, logId, reason), logId) == MarkedMissed(logs, logId, reason)
  {
    var t := MarkAsTaken(logs, logId, now);
    var m := MarkedMissed(logs, logId, reason);
    assert forall i :: 0 <= i < |t| ==> ExpireSnooze(t, logId)[i] == t[i];
    assert forall i :: 0 <= i < |m| ==> ExpireSnooze(m, logId)[i] == m[i];
  }

  /** An expiry for an entry that no longer exists (its medicine was removed)
      changes nothing. */
  lemma ExpiryOfRemovedEntryIsNoOp(logs: seq<LogEntry>, logId: string)
    requires !HasLog(logs, logId)
    ensures ExpireSnooze(logs, logId) == logs
  {
    ApplyToUnknown(logs, logId, ResumeIfSnoozed);
  }

  function MissedWith(reason: MissedReason): LogEntry -> LogEntry {
    (e: LogEntry) => e.(status := Missed, missedReason := Some(reason))
  }

  /** The log half of `markAsMissed`: the matching entry becomes `missed` with the
      reason; timestamp and resume time are not touched. */
  function MarkedMissed(logs: seq<LogEntry>, logId: string, reason: MissedReason): (r: seq<LogEntry>)
    ensures |r| == |logs|
    ensures forall i :: 0 <= i < |logs| && logs[i].id != logId ==> r[i] == logs[i]
    ensures forall i :: 0 <= i < |logs| && logs[i].id == logId ==>
      r[i].status == Missed && r[i].missedReason == Some(reason) &&
      r[i].(status := logs[i].status, missedReason := logs[i].missedReason) == logs[i]
  {
    ApplyTo(logs, logId, MissedWith(reason))
  }

  /** `prev.find(log => log.id === logId)`: the first entry with the id. */
  function FindLog(logs: seq<LogEntry>, logId: string): (r: Option<LogEntry>)
    ensures r.None? <==> !HasLog(logs, logId)
    ensures r.Some? ==> exists i :: 0 <= i < |logs| && logs[i] == r.value && logs[i].id == logId &&
                                    forall j :: 0 <= j < i ==> logs[j].id != logId
  {
    if |logs| == 0 then None
    else if logs[0].id == logId then Some(logs[0])
    else
      var r := FindLog(logs[1..], logId);
      assert HasLog(logs[1..], logId) ==> HasLog(logs, logId) by {
        if HasLog(logs[1..], logId) {
          var k :| 0 <= k < |logs| - 1 && logs[1..][k].id == logId;
          assert logs[k + 1].id == logId;
        }
      }
      assert HasLog(logs, logId) ==> HasLog(logs[1..], logId) by {
        if HasLog(logs, logId) {
          var k :| 0 <= k < |logs| && logs[k].id == logId;
          assert logs[1..][k - 1].id == logId;
        }
      }
      if r.Some? then
        ghost var i :| 0 <= i < |logs| - 1 && logs[1..][i] == r.value && logs[1..][i].id == logId &&
          forall j :: 0 <= j < i ==> logs[1..][j].id != logId;
        assert logs[i + 1] == r.value && forall j :: 0 <= j < i + 1 ==> logs[j].id != logId by {
          forall j | 0 <= j < i + 1 ensures logs[j].id != logId {
            if j > 0 { assert logs[j] == logs[1..][j - 1]; }
          }
        }
        r
      else r
  }

  /** `getMissedCount`: the number of `missed` entries of a medicine. */
  function MissedCount(logs: seq<LogEntry>, medId: string): (n: nat)
    ensures n <= |logs|
    ensures n == 0 <==> forall i :: 0 <= i < |logs| ==> logs[i].medicineId != medId || logs[i].status != Missed
  {
    if |logs| == 0 then 0
    else
      var rest := MissedCount(logs[1..], medId);
      assert forall i :: 1 <= i < |logs| ==> logs[i] == logs[1..][i - 1];
      (if logs[0].medicineId == medId && logs[0].status == Missed then 1 else 0) + rest
  }

  lemma {:induction false} MissedCountAppend(a: seq<LogEntry>, b: seq<LogEntry>, medId: string)
    ensures MissedCount(a + b, medId) == MissedCount(a, medId) + MissedCount(b, medId)
  {
    if |a| > 0 {
      assert (a + b)[1..] == a[1..] + b;
      MissedCountAppend(a[1..], b, medId);
    } else {
      assert a + b == b;
    }
  }

  /** Marking a not-yet-missed entry with a unique id as missed raises its
      medicine's count by exactly one and leaves every other medicine's count
      alone. */
  lemma MissRaisesCountByOne(logs: seq<LogEntry>, i: nat, reason: MissedReason, medId: string)
    requires i < |logs| && logs[i].status != Missed
    requires forall j :: 0 <= j < |logs| && logs[j].id == logs[i].id ==> j == i
    ensures MissedCount(MarkedMissed(logs, logs[i].id, reason), medId) ==
      MissedCount(logs, medId) + (if medId == logs[i].medicineId then 1 else 0)
  {
    var id := logs[i].id;
    var a, x, b := logs[..i], [logs[i]], logs[i + 1..];
    assert logs == a + x + b;
    assert !HasLog(a, id) by {
      assert forall k :: 0 <= k < |a| ==> a[k] == logs[k];
    }
    assert !HasLog(b, id) by {
      assert forall k :: 0 <= k < |b| ==> b[k] == logs[i + 1 + k];
    }
    var f := MissedWith(reason);
    ApplyToAppend(a + x, b, id, f);
    ApplyToAppend(a, x, id, f);
    ApplyToUnknown(a, id, f);
    ApplyToUnknown(b, id, f);
    var x' := ApplyTo(x, id, f);
    assert MarkedMissed(logs, id, reason) == a + x' + b;
    MissedCountAppend(a + x', b, medId);
    MissedCountAppend(a, x', medId);
    MissedCountAppend(a + x, b, medId);
    MissedCountAppend(a, x, medId);
  }

  /** `markAsMissed`: the log update above, then the alert check on the entry
      found before the update. The alert is raised for the entry's copied
      medicine name exactly when its medicine has at least two missed entries
      after the update; otherwise the alert state is left as it was. */
  function MarkAsMissed(logs: seq<LogEntry>, alert: AlertState, logId: string, reason: MissedReason): (r: (seq<LogEntry>, AlertState))
    ensures r.0 == MarkedMissed(logs, logId, reason)
    ensures !HasLog(logs, logId) ==> r == (logs, alert)
    ensures HasLog(logs, logId) ==>
      var target := FindLog(logs, logId).value;
      if MissedCount(r.0, target.medicineId) >= MissThreshold
      then r.1 == AlertState(true, target.medicineName)
      else r.1 == alert
  {
    var updated := MarkedMissed(logs, logId, reason);
    if !HasLog(logs, logId) then
      ApplyToUnknown(logs, logId, MissedWith(reason));
      (updated, alert)
    else
      var target := FindLog(logs, logId).value;
      if MissedCount(updated, target.medicineId) >= MissThreshold
      then (updated, AlertState(true, target.medicineName))
      else (updated, alert)
  }

  /** `getPendingReminders`: the `pending` entries of the given day, in order. */
  function PendingReminders(logs: seq<LogEntry>, day: int): (r: seq<LogEntry>)
    ensures forall e :: e in r <==> e in logs && e.status == Pending && e.date == day
  {
    if |logs| == 0 then []
    else (if logs[0].status == Pending && logs[0].date == day then [logs[0]] else []) + PendingReminders(logs[1..], day)
  }

  /** `getMissedLogs`: the `missed` entries, in order. */
  function MissedLogs(logs: seq<LogEntry>): (r: seq<LogEntry>)
    ensures forall e :: e in r <==> e in logs && e.status == Missed
    ensures |r| <= |logs|
  {
    if |logs| == 0 then []
    else (if logs[0].status == Missed then [logs[0]] else []) + MissedLogs(logs[1..])
  }

  /** Both queries are order- and multiplicity-preserving filters: a single
      entry is kept exactly when it qualifies, and filtering a concatenation is
      concatenating the filtered parts. So the pending list, whose length is the
      reminder badge, has each qualifying entry once, in log order. */
  lemma {:induction false} PendingRemindersDistributes(a: seq<LogEntry>, b: seq<LogEntry>, day: int)
    ensures PendingReminders(a + b, day) == PendingReminders(a, day) + PendingReminders(b, day)
    ensures |a| == 1 ==> PendingReminders(a, day) == if a[0].status == Pending && a[0].date == day then a else []
  {
    if |a| > 0 {
      assert (a + b)[1..] == a[1..] + b;
      PendingRemindersDistributes(a[1..], b, day);
    } else {
      assert a + b == b;
    }
  }

  /** The missed entries, likewise, in log order and each once: the order the
      caregiver summary's groups and reason ties follow. */
  lemma {:induction false} MissedLogsDistributes(a: seq<LogEntry>, b: seq<LogEntry>)
    ensures MissedLogs(a + b) == MissedLogs(a) + MissedLogs(b)
    ensures |a| == 1 ==> MissedLogs(a) == if a[0].status == Missed then a else []
  {
    if |a| > 0 {
      assert (a + b)[1..] == a[1..] + b;
      MissedLogsDistributes(a[1..], b);
    } else {
      assert a + b == b;
    }
  }

  /** Counting a medicine's misses over the whole log and over the missed-only
      view gives the same number. */
  lemma {:induction false} MissedLogsKeepCount(logs: seq<LogEntry>, medId: string)
    ensures MissedCount(MissedLogs(logs), medId) == MissedCount(logs, medId)
  {
    if |logs| > 0 {
      MissedLogsKeepCount(logs[1..], medId);
      var rest := MissedLogs(logs[1..]);
      var head := if logs[0].status == Missed then [logs[0]] else [];
      MissedCountAppend(head, rest, medId);
    }
  }

  /** `dismissCaregiverAlert`: hidden, with no medicine name. */
  function DismissCaregiverAlert(): (r: AlertState)
    ensures !r.visible && r.medicineName == ""
  {
    AlertState(false, "")
  }
}
