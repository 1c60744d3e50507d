/** The daily-reminder pass of lib/medicine-context.tsx: for every medicine due
    today that has no entry for today yet, one `pending` entry is appended. */
module Materializer {
  import opened Wrappers
  import opened Medicines
  import opened Schedule

  /** Some entry of `logs` belongs to medicine `medId` on day `day`. */
  predicate HasEntryFor(logs: seq<LogEntry>, medId: string, day: int) {
    exists i :: 0 <= i < |logs| && logs[i].medicineId == medId && logs[i].date == day
  }

  /** At most one entry per (medicine id, day key): the store's uniqueness rule. */
  predicate OnePerDay(logs: seq<LogEntry>) {
    forall i, j :: 0 <= i < j < |logs| ==> logs[i].medicineId != logs[j].medicineId || logs[i].date != logs[j].date
  }

  /** The entry created for a due medicine: a pending snapshot of its name, default
      dosage and default timing, with the reminder text built without any day
      override. Its id joins the medicine id and `stamp` (the source uses
      `Date.now()`). */
  function NewEntry(m: Medicine, c: Clock, stamp: string): (e: LogEntry)
    ensures e.status == Pending && e.date == c.dayKey && e.timestamp == c.now
    ensures e.medicineId == m.id && e.medicineName == m.name && e.dosage == m.dosage && e.timing == m.timing
    ensures e.reminderText == ReminderText(m, None) && e.missedReason.None? && e.snoozeUntil.None?
  {
    LogEntry(m.id + "-" + stamp, m.id, m.name, m.dosage, m.timing, ReminderText(m, None),
             Pending, None, c.now, c.dayKey, None)
  }

  /** The medicine is due today and `logs` has no entry for it today. */
  predicate NeedsEntry(m: Medicine, logs: seq<LogEntry>, c: Clock, parse: DateParser) {
    IsDue(m, c, parse) && !HasEntryFor(logs, m.id, c.dayKey)
  }

  /** The entries one pass creates, in medicine order. Every medicine is checked
      against the logs as they were when the pass started. */
  function FreshEntries(meds: seq<Medicine>, logs: seq<LogEntry>, c: Clock, parse: DateParser, stamp: string): (r: seq<LogEntry>)
    ensures |r| <= |meds|
    ensures forall e :: e in r ==> exists m :: m in meds && NeedsEntry(m, logs, c, parse) && e == NewEntry(m, c, stamp)
    ensures forall m :: m in meds && NeedsEntry(m, logs, c, parse) ==> NewEntry(m, c, stamp) in r
  {
    if |meds| == 0 then []
    else
      var rest := FreshEntries(meds[1..], logs, c, parse, stamp);
      assert forall m :: m in meds[1..] ==> m in meds;
      assert forall m :: m in meds ==> m == meds[0] || m in meds[1..];
      if NeedsEntry(meds[0], logs, c, parse) then [NewEntry(meds[0], c, stamp)] + rest else rest
  }

  /** One run of the pass: the existing entries, untouched and in order, followed
      by the created ones. Afterwards every due medicine has an entry for today. */
  function Materialize(meds: seq<Medicine>, logs: seq<LogEntry>, c: Clock, parse: DateParser, stamp: string): (r: seq<LogEntry>)
    ensures |r| >= |logs| && r[..|logs|] == logs
    ensures forall e :: e in r[|logs|..] ==>
      e.status == Pending && e.date == c.dayKey && exists m :: m in meds && NeedsEntry(m, logs, c, parse) && e == NewEntry(m, c, stamp)
    ensures forall m :: m in meds && IsDue(m, c, parse) ==> HasEntryFor(r, m.id, c.dayKey)
  {
    var created := FreshEntries(meds, logs, c, parse, stamp);
    FreshCoverDueMedicines(meds, logs, created, c, parse, stamp);
    assert (logs + created)[|logs|..] == created;
    logs + created
  }

  lemma FreshCoverDueMedicines(meds: seq<Medicine>, logs: seq<LogEntry>, created: seq<LogEntry>, c: Clock, parse: DateParser, stamp: string)
    requires forall m :: m in meds && NeedsEntry(m, logs, c, parse) ==> NewEntry(m, c, stamp) in created
    ensures forall m :: m in meds && IsDue(m, c, parse) ==> HasEntryFor(logs + created, m.id, c.dayKey)
  {
    var r := logs + created;
    forall m | m in meds && IsDue(m, c, parse)
      ensures HasEntryFor(r, m.id, c.dayKey)
    {
      if !HasEntryFor(logs, m.id, c.dayKey) {
        var k :| 0 <= k < |created| && created[k] == NewEntry(m, c, stamp);
        assert r[|logs| + k] == created[k];
      } else {
        var i :| 0 <= i < |logs| && logs[i].medicineId == m.id && logs[i].date == c.dayKey;
        assert r[i] == logs[i];
      }
    }
  }

  /** When every medicine of `meds` that is due already has an entry today, the
      pass creates nothing. */
  lemma {:induction false} NothingFreshWhenAllLogged(meds: seq<Medicine>, logs: seq<LogEntry>, c: Clock, parse: DateParser, stamp: string)
    requires forall m :: m in meds && IsDue(m, c, parse) ==> HasEntryFor(logs, m.id, c.dayKey)
    ensures FreshEntries(meds, logs, c, parse, stamp) == []
  {
    if |meds| > 0 {
      assert meds[0] in meds;
      assert forall m :: m in meds[1..] ==> m in meds;
      NothingFreshWhenAllLogged(meds[1..], logs, c, parse, stamp);
    }
  }

  /** The pass is idempotent: a second run (with any id stamp) adds nothing. */
  lemma MaterializeIdempotent(meds: seq<Medicine>, logs: seq<LogEntry>, c: Clock, parse: DateParser, stamp: string, stamp2: string)
    ensures var once := Materialize(meds, logs, c, parse, stamp);
      Materialize(meds, once, c, parse, stamp2) == once
  {
    var once := Materialize(meds, logs, c, parse, stamp);
    NothingFreshWhenAllLogged(meds, once, c, parse, stamp2);
    assert once + [] == once;
  }

  /** No two entries of `entries` belong to the same medicine. */
  predicate DistinctMedicines(entries: seq<LogEntry>) {
    forall i, j :: 0 <= i < j < |entries| ==> entries[i].medicineId != entries[j].medicineId
  }

  /** Every created entry belongs to a medicine of the catalogue. */
  lemma CreatedForCatalogue(meds: seq<Medicine>, logs: seq<LogEntry>, c: Clock, parse: DateParser, stamp: string)
    ensures forall e :: e in FreshEntries(meds, logs, c, parse, stamp) ==> HasMedicine(meds, e.medicineId)
  {
    forall e | e in FreshEntries(meds, logs, c, parse, stamp)
      ensures HasMedicine(meds, e.medicineId)
    {
      var m :| m in meds && NeedsEntry(m, logs, c, parse) && e == NewEntry(m, c, stamp);
      var q :| 0 <= q < |meds| && meds[q] == m;
    }
  }

  /** The created entries name pairwise distinct medicines when the catalogue's
      ids are distinct. */
  lemma {:induction false} FreshEntriesDistinctMedicines(meds: seq<Medicine>, logs: seq<LogEntry>, c: Clock, parse: DateParser, stamp: string)
    requires DistinctIds(meds)
    ensures DistinctMedicines(FreshEntries(meds, logs, c, parse, stamp))
  {
    if |meds| > 0 {
      var tail := meds[1..];
      assert DistinctIds(tail) by {
        assert forall i :: 0 <= i < |tail| ==> tail[i] == meds[i + 1];
      }
      FreshEntriesDistinctMedicines(tail, logs, c, parse, stamp);
      var rest := FreshEntries(tail, logs, c, parse, stamp);
      HeadNotInTail(meds, logs, c, parse, stamp);
      if NeedsEntry(meds[0], logs, c, parse) {
        assert FreshEntries(meds, logs, c, parse, stamp) == [NewEntry(meds[0], c, stamp)] + rest;
        ConsKeepsDistinct(NewEntry(meds[0], c, stamp), rest);
      } else {
        assert FreshEntries(meds, logs, c, parse, stamp) == rest;
      }
    }
  }

  /** With distinct ids, no entry created for the later medicines is for the first. */
  lemma HeadNotInTail(meds: seq<Medicine>, logs: seq<LogEntry>, c: Clock, parse: DateParser, stamp: string)
    requires DistinctIds(meds) && |meds| > 0
    ensures forall e :: e in FreshEntries(meds[1..], logs, c, parse, stamp) ==> e.medicineId != meds[0].id
  {
    var tail := meds[1..];
    CreatedForCatalogue(tail, logs, c, parse, stamp);
    forall e | e in FreshEntries(tail, logs, c, parse, stamp)
      ensures e.medicineId != meds[0].id
    {
      var q :| 0 <= q < |tail| && tail[q].id == e.medicineId;
      assert tail[q] == meds[q + 1];
    }
  }

  lemma ConsKeepsDistinct(e: LogEntry, rest: seq<LogEntry>)
    requires DistinctMedicines(rest)
    requires forall x :: x in rest ==> x.medicineId != e.medicineId
    ensures DistinctMedicines([e] + rest)
  {
    var r := [e] + rest;
    forall i, j | 0 <= i < j < |r|
      ensures r[i].medicineId != r[j].medicineId
    {
      assert r[j] == rest[j - 1] && r[j] in rest;
      if i > 0 {
        assert r[i] == rest[i - 1];
      }
    }
  }

  /** Every created entry is for today and for a medicine `logs` had no entry for today. */
  lemma CreatedEntriesAreNew(meds: seq<Medicine>, logs: seq<LogEntry>, c: Clock, parse: DateParser, stamp: string)
    ensures forall e :: e in FreshEntries(meds, logs, c, parse, stamp) ==>
      e.date == c.dayKey && !HasEntryFor(logs, e.medicineId, c.dayKey)
  {
    forall e | e in FreshEntries(meds, logs, c, parse, stamp)
      ensures e.date == c.dayKey && !HasEntryFor(logs, e.medicineId, c.dayKey)
    {
      var m :| m in meds && NeedsEntry(m, logs, c, parse) && e == NewEntry(m, c, stamp);
    }
  }

  /** The pass keeps the one-entry-per-medicine-per-day rule, provided the
      medicine ids are distinct. */
  lemma MaterializeKeepsOnePerDay(meds: seq<Medicine>, logs: seq<LogEntry>, c: Clock, parse: DateParser, stamp: string)
    requires DistinctIds(meds) && OnePerDay(logs)
    ensures OnePerDay(Materialize(meds, logs, c, parse, stamp))
  {
    var created := FreshEntries(meds, logs, c, parse, stamp);
    FreshEntriesDistinctMedicines(meds, logs, c, parse, stamp);
    CreatedEntriesAreNew(meds, logs, c, parse, stamp);
    AppendKeepsOnePerDay(logs, created, c.dayKey);
  }

  lemma AppendKeepsOnePerDay(logs: seq<LogEntry>, created: seq<LogEntry>, day: int)
    requires OnePerDay(logs)
    requires DistinctMedicines(created)
    requires forall e :: e in created ==> e.date == day && !HasEntryFor(logs, e.medicineId, day)
    ensures OnePerDay(logs + created)
  {
    var r := logs + created;
    forall i, j | 0 <= i < j < |r|
      ensures r[i].medicineId != r[j].medicineId || r[i].date != r[j].date
    {
      if j >= |logs| {
        assert r[j] == created[j - |logs|] && r[j] in created;
        if i < |logs| {
          assert r[i] == logs[i];
        } else {
          assert r[i] == created[i - |logs|];
        }
      } else {
        assert r[i] == logs[i] && r[j] == logs[j];
      }
    }
  }

  /** A medicine that is not due, or already has an entry today, gets no new
      entry (ids distinct). */
  lemma NoEntryUnlessNeeded(meds: seq<Medicine>, logs: seq<LogEntry>, c: Clock, parse: DateParser, stamp: string, m: Medicine)
    requires DistinctIds(meds) && m in meds && !NeedsEntry(m, logs, c, parse)
    ensures forall e :: e in FreshEntries(meds, logs, c, parse, stamp) ==> e.medicineId != m.id
  {
    forall e | e in FreshEntries(meds, logs, c, parse, stamp)
      ensures e.medicineId != m.id
    {
      var m' :| m' in meds && NeedsEntry(m', logs, c, parse) && e == NewEntry(m', c, stamp);
      var i :| 0 <= i < |meds| && meds[i] == m;
      var j :| 0 <= j < |meds| && meds[j] == m';
      assert i != j;
    }
  }

  /** After the pass a due medicine has exactly one entry for today, when the
      ids are distinct and the logs kept the uniqueness rule before. */
  lemma DueMedicineHasExactlyOneEntry(meds: seq<Medicine>, logs: seq<LogEntry>, c: Clock, parse: DateParser, stamp: string, m: Medicine)
    requires DistinctIds(meds) && OnePerDay(logs) && m in meds && IsDue(m, c, parse)
    ensures var r := Materialize(meds, logs, c, parse, stamp);
      exists i :: 0 <= i < |r| && r[i].medicineId == m.id && r[i].date == c.dayKey &&
        forall j :: 0 <= j < |r| && r[j].medicineId == m.id && r[j].date == c.dayKey ==> j == i
  {
    var r := Materialize(meds, logs, c, parse, stamp);
    MaterializeKeepsOnePerDay(meds, logs, c, parse, stamp);
    var i :| 0 <= i < |r| && r[i].medicineId == m.id && r[i].date == c.dayKey;
    forall j | 0 <= j < |r| && r[j].medicineId == m.id && r[j].date == c.dayKey
      ensures j == i
    {
    }
  }
}
