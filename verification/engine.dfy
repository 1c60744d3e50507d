/** The medicine store as one value: catalogue, log and caregiver alert, with
    every operation of lib/medicine-context.tsx as a step. The uniqueness rule
    (distinct medicine ids, at most one entry per medicine and day) holds in
    every state reachable from the empty store. */
module Engine {
  import opened Wrappers
  import opened Medicines
  import opened Schedule
  import opened Catalog
  import opened Materializer
  import opened Lifecycle

  datatype Store = Store(medicines: seq<Medicine>, logs: seq<LogEntry>, alert: AlertState)

  /** The store a fresh session starts from. */
  function EmptyStore(): Store {
    Store([], [], AlertState(false, ""))
  }

  /** Everything that changes the store: the user's operations and `Refresh`,
      the daily-reminder effect, which the app re-runs on mount and after every
      change of the catalogue or the log. `Refresh` may happen at any point, which
      covers every moment the effect actually runs. Times, clocks and fresh ids
      are supplied by the caller. */
  datatype Action =
    | Refresh(clock: Clock, parse: DateParser, stamp: string)
    | Add(input: MedicineInput, id: string, createdAt: int)
    | Update(id: string, input: MedicineInput)
    | Remove(id: string)
    | Take(logId: string, now: int)
    | SnoozeEntry(logId: string, now: int)
    | ExpireEntry(logId: string)
    | Miss(logId: string, reason: MissedReason)
    | Dismiss

  function Step(s: Store, a: Action): Store {
    match a
    case Refresh(c, parse, stamp) => s.(logs := Materialize(s.medicines, s.logs, c, parse, stamp))
    case Add(input, id, createdAt) => s.(medicines := AddMedicine(s.medicines, input, id, createdAt))
    case Update(id, input) => s.(medicines := UpdateMedicine(s.medicines, id, input))
    case Remove(id) =>
      var r := RemoveMedicine(s.medicines, s.logs, id);
      s.(medicines := r.0, logs := r.1)
    case Take(logId, now) => s.(logs := MarkAsTaken(s.logs, logId, now))
    case SnoozeEntry(logId, now) => s.(logs := Snooze(s.logs, logId, now))
    case ExpireEntry(logId) => s.(logs := ExpireSnooze(s.logs, logId))
    case Miss(logId, reason) =>
      var r := MarkAsMissed(s.logs, s.alert, logId, reason);
      s.(logs := r.0, alert := r.1)
    case Dismiss => s.(alert := DismissCaregiverAlert())
  }

  /** The store's uniqueness rule. */
  predicate Valid(s: Store) {
    DistinctIds(s.medicines) && OnePerDay(s.logs)
  }

  /** The one assumption about the environment: `addMedicine` is given an id no
      stored medicine has (the source takes `Date.now()`). */
  predicate Admissible(s: Store, a: Action) {
    a.Add? ==> !HasMedicine(s.medicines, a.id)
  }

  /** Changing entries without touching their medicine id or day keeps the rule. */
  lemma SameKeysKeepOnePerDay(logs: seq<LogEntry>, r: seq<LogEntry>)
    requires |r| == |logs| && OnePerDay(logs)
    requires forall i :: 0 <= i < |logs| ==> r[i].medicineId == logs[i].medicineId && r[i].date == logs[i].date
    ensures OnePerDay(r)
  {
  }

  lemma {:induction false} FilterKeepsOnePerDay(logs: seq<LogEntry>, id: string)
    requires OnePerDay(logs)
    ensures OnePerDay(WithoutLogsOf(logs, id))
  {
    if |logs| > 0 {
      var tail := logs[1..];
      assert OnePerDay(tail) by {
        assert forall i :: 0 <= i < |tail| ==> tail[i] == logs[i + 1];
      }
      FilterKeepsOnePerDay(tail, id);
      var rest := WithoutLogsOf(tail, id);
      if logs[0].medicineId != id {
        forall x | x in rest
          ensures x.medicineId != logs[0].medicineId || x.date != logs[0].date
        {
          var k :| 0 <= k < |tail| && tail[k] == x;
          assert logs[k + 1] == x;
        }
        ConsKeepsOnePerDay(logs[0], rest);
      }
    }
  }

  /** An entry whose key no other entry shares can go in front. */
  lemma ConsKeepsOnePerDay(e: LogEntry, rest: seq<LogEntry>)
    requires OnePerDay(rest)
    requires forall x :: x in rest ==> x.medicineId != e.medicineId || x.date != e.date
    ensures OnePerDay([e] + rest)
  {
    var r := [e] + rest;
    forall i, j | 0 <= i < j < |r|
      ensures r[i].medicineId != r[j].medicineId || r[i].date != r[j].date
    {
      assert r[j] == rest[j - 1];
      if i > 0 {
        assert r[i] == rest[i - 1];
      }
    }
  }

  /** Every admissible step keeps the uniqueness rule. */
  lemma StepKeepsValid(s: Store, a: Action)
    requires Valid(s) && Admissible(s, a)
    ensures Valid(Step(s, a))
  {
    match a
    case Refresh(c, parse, stamp) => MaterializeKeepsOnePerDay(s.medicines, s.logs, c, parse, stamp);
    case Add(input, id, createdAt) => AddKeepsIdsDistinct(s.medicines, input, id, createdAt);
    case Update(id, input) => UpdateKeepsIdsDistinct(s.medicines, id, input);
    case Remove(id) =>
      WithoutMedicineKeepsIdsDistinct(s.medicines, id);
      FilterKeepsOnePerDay(s.logs, id);
    case Take(logId, now) => SameKeysKeepOnePerDay(s.logs, MarkAsTaken(s.logs, logId, now));
    case SnoozeEntry(logId, now) => SameKeysKeepOnePerDay(s.logs, Snooze(s.logs, logId, now));
    case ExpireEntry(logId) => SameKeysKeepOnePerDay(s.logs, ExpireSnooze(s.logs, logId));
    case Miss(logId, reason) => SameKeysKeepOnePerDay(s.logs, MarkedMissed(s.logs, logId, reason));
    case Dismiss =>
  }

  function Run(s: Store, actions: seq<Action>): Store
    decreases |actions|
  {
    if |actions| == 0 then s else Run(Step(s, actions[0]), actions[1..])
  }

  predicate AdmissibleRun(s: Store, actions: seq<Action>)
    decreases |actions|
  {
    |actions| == 0 || (Admissible(s, actions[0]) && AdmissibleRun(Step(s, actions[0]), actions[1..]))
  }

  /** Every store reached from a valid one by admissible steps is valid; in
      particular no medicine ever has two entries for the same day. */
  lemma {:induction false} RunKeepsValid(s: Store, actions: seq<Action>)
    requires Valid(s) && AdmissibleRun(s, actions)
    ensures Valid(Run(s, actions))
    decreases |actions|
  {
    if |actions| > 0 {
      StepKeepsValid(s, actions[0]);
      RunKeepsValid(Step(s, actions[0]), actions[1..]);
    }
  }

  /** The entries a refresh creates are among today's pending reminders. */
  lemma RefreshFeedsPendingReminders(s: Store, c: Clock, parse: DateParser, stamp: string)
    ensures var r := Step(s, Refresh(c, parse, stamp)).logs;
      forall e :: e in r[|s.logs|..] ==> e in PendingReminders(r, c.dayKey)
  {
    var r := Step(s, Refresh(c, parse, stamp)).logs;
    forall e | e in r[|s.logs|..]
      ensures e in PendingReminders(r, c.dayKey)
    {
      var k :| 0 <= k < |r| - |s.logs| && r[|s.logs|..][k] == e;
      assert r[|s.logs| + k] == e;
    }
  }

  const Aspirin := MedicineInput("Aspirin", "1 tablet", AfterBreakfast, Daily, None, None, None)
  const AspirinMed := Medicine("m1", "Aspirin", "1 tablet", AfterBreakfast, Daily, None, None, None, None, 0)
  const Day1 := Clock(1000, 1, 4)
  const Day2 := Clock(1000 + MsPerDay, 2, 5)
  const Text := "Please take Aspirin (1 tablet) after breakfast"
  const Entry1 := LogEntry("m1-1", "m1", "Aspirin", "1 tablet", AfterBreakfast, Text, Pending, None, 1000, 1, None)
  const Entry2 := LogEntry("m1-2", "m1", "Aspirin", "1 tablet", AfterBreakfast, Text, Pending, None, 1000 + MsPerDay, 2, None)

  function NoDates(): DateParser {
    (s: string) => None
  }

  lemma ScenarioAdd()
    ensures Step(EmptyStore(), Add(Aspirin, "m1", 0)) == Store([AspirinMed], [], AlertState(false, ""))
  {
  }

  lemma ScenarioText()
    ensures ReminderText(AspirinMed, None) == Text
  {
    assert TimingLabel(AfterBreakfast) == "after breakfast";
    assert ReminderText(AspirinMed, None) == "Please take " + "Aspirin" + " (" + "1 tablet" + ") " + "after breakfast";
    TextPieces();
  }

  lemma TextPieces()
    ensures "Please take " + "Aspirin" + " (" + "1 tablet" + ") " + "after breakfast" == Text
  {
    assert "Please take " + "Aspirin" + " (" + "1 tablet" + ") " == "Please take Aspirin (1 tablet) ";
  }

  lemma ScenarioEntries()
    ensures NewEntry(AspirinMed, Day1, "1") == Entry1
    ensures NewEntry(AspirinMed, Day2, "2") == Entry2
  {
    ScenarioText();
    assert NewEntry(AspirinMed, Day1, "1").id == "m1-1";
    assert NewEntry(AspirinMed, Day2, "2").id == "m1-2";
  }

  lemma ScenarioFirstPass()
    ensures Materialize([AspirinMed], [], Day1, NoDates(), "1") == [Entry1]
  {
    assert IsDue(AspirinMed, Day1, NoDates());
    ScenarioEntries();
    assert FreshEntries([AspirinMed], [], Day1, NoDates(), "1") == [Entry1];
  }

  lemma ScenarioDayOne()
    ensures Step(Step(EmptyStore(), Add(Aspirin, "m1", 0)), Refresh(Day1, NoDates(), "1")) ==
      Store([AspirinMed], [Entry1], AlertState(false, ""))
  {
    ScenarioAdd();
    ScenarioFirstPass();
  }

  lemma ScenarioFirstMiss()
    ensures Step(Store([AspirinMed], [Entry1], AlertState(false, "")), Miss("m1-1", Forgot)) ==
      Store([AspirinMed], [Entry1.(status := Missed, missedReason := Some(Forgot))], AlertState(false, ""))
  {
    var e1' := Entry1.(status := Missed, missedReason := Some(Forgot));
    assert MarkedMissed([Entry1], "m1-1", Forgot) == [e1'];
    assert HasLog([Entry1], "m1-1");
    assert FindLog([Entry1], "m1-1") == Some(Entry1);
    assert MissedCount([e1'], "m1") == 1;
  }

  lemma ScenarioSecondPass(e1': LogEntry)
    requires e1' == Entry1.(status := Missed, missedReason := Some(Forgot))
    ensures Materialize([AspirinMed], [e1'], Day2, NoDates(), "2") == [e1', Entry2]
  {
    assert IsDue(AspirinMed, Day2, NoDates());
    assert !HasEntryFor([e1'], "m1", 2);
    ScenarioEntries();
    assert FreshEntries([AspirinMed], [e1'], Day2, NoDates(), "2") == [Entry2];
  }

  lemma ScenarioDayTwo(e1': LogEntry)
    requires e1' == Entry1.(status := Missed, missedReason := Some(Forgot))
    ensures Step(Store([AspirinMed], [e1'], AlertState(false, "")), Refresh(Day2, NoDates(), "2")) ==
      Store([AspirinMed], [e1', Entry2], AlertState(false, ""))
  {
    ScenarioSecondPass(e1');
  }

  lemma ScenarioSecondMiss(e1': LogEntry)
    requires e1' == Entry1.(status := Missed, missedReason := Some(Forgot))
    ensures Step(Store([AspirinMed], [e1', Entry2], AlertState(false, "")), Miss("m1-2", Forgot)) ==
      Store([AspirinMed], [e1', Entry2.(status := Missed, missedReason := Some(Forgot))], AlertState(true, "Aspirin"))
  {
    var e2' := Entry2.(status := Missed, missedReason := Some(Forgot));
    assert MarkedMissed([e1', Entry2], "m1-2", Forgot) == [e1', e2'];
    assert HasLog([e1', Entry2], "m1-2") by {
      assert [e1', Entry2][1].id == "m1-2";
    }
    assert FindLog([e1', Entry2], "m1-2") == Some(Entry2);
    assert MissedCount([e1', e2'], "m1") == 2;
  }

  lemma ScenarioQueries(e1': LogEntry, e2': LogEntry)
    requires e1' == Entry1.(status := Missed, missedReason := Some(Forgot))
    requires e2' == Entry2.(status := Missed, missedReason := Some(Forgot))
    ensures PendingReminders([Entry1], 1) == [Entry1]
    ensures MissedCount([e1'], "m1") == 1
    ensures MissedCount([e1', e2'], "m1") == 2
  {
  }

  /** The end-to-end walk-through: an "Aspirin" medicine taken daily after
      breakfast gets one pending reminder reading "Please take Aspirin (1 tablet)
      after breakfast"; a miss gives count 1 and no alert; a second miss on the
      next day gives count 2 and raises the alert for "Aspirin". */
  lemma AspirinScenario(s1: Store, s2: Store, s3: Store)
    requires s1 == Step(Step(EmptyStore(), Add(Aspirin, "m1", 0)), Refresh(Day1, NoDates(), "1"))
    requires s2 == Step(s1, Miss("m1-1", Forgot))
    requires s3 == Step(Step(s2, Refresh(Day2, NoDates(), "2")), Miss("m1-2", Forgot))
    ensures PendingReminders(s1.logs, 1) == s1.logs
    ensures |s1.logs| == 1 && s1.logs[0].reminderText == "Please take Aspirin (1 tablet) after breakfast"
    ensures s2.logs[0].status == Missed && s2.logs[0].missedReason == Some(Forgot)
    ensures MissedCount(s2.logs, "m1") == 1 && !s2.alert.visible
    ensures MissedCount(s3.logs, "m1") == 2 && s3.alert == AlertState(true, "Aspirin")
  {
    var e1' := Entry1.(status := Missed, missedReason := Some(Forgot));
    var e2' := Entry2.(status := Missed, missedReason := Some(Forgot));
    ScenarioDayOne();
    ScenarioFirstMiss();
    ScenarioDayTwo(e1');
    ScenarioSecondMiss(e1');
    ScenarioQueries(e1', e2');
  }
}
