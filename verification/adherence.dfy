/** The adherence history screen (components/adherence-log.tsx): the recent
    activity list, each medicine's status, and the caregiver summary that groups
    the missed entries by medicine name. */
module Adherence {
  import opened Wrappers
  import opened Text
  import opened Medicines
  import opened Lifecycle

  // ---------------------------------------------------------------------------
  // Recent activity: entries newest first, at most ten shown.

  predicate SortedNewestFirst(s: seq<LogEntry>) {
    forall i, j :: 0 <= i < j < |s| ==> s[i].timestamp >= s[j].timestamp
  }

  /** The entries of `s` carrying timestamp `ts`, in their order in `s`. */
  function WithTimestamp(s: seq<LogEntry>, ts: int): seq<LogEntry> {
    if |s| == 0 then [] else (if s[0].timestamp == ts then [s[0]] else []) + WithTimestamp(s[1..], ts)
  }

  /** Places `x`, which preceded every element of `t` in the input, before the
      first element that is not newer than it. Nothing in the result is newer
      than both `x` and the first element of `t`. */
  function InsertNewestFirst(x: LogEntry, t: seq<LogEntry>): (r: seq<LogEntry>)
    requires SortedNewestFirst(t)
    ensures |r| == |t| + 1
    ensures SortedNewestFirst(r)
    ensures forall k :: 0 <= k < |r| ==>
      r[k].timestamp <= x.timestamp || (|t| > 0 && r[k].timestamp <= t[0].timestamp)
  {
    if |t| == 0 then [x]
    else if t[0].timestamp <= x.timestamp then [x] + t
    else
      var rest := InsertNewestFirst(x, t[1..]);
      assert t == [t[0]] + t[1..];
      [t[0]] + rest
  }

  /** Insertion adds exactly `x`. */
  lemma {:induction false} InsertNewestIsPermutation(x: LogEntry, t: seq<LogEntry>)
    requires SortedNewestFirst(t)
    ensures multiset(InsertNewestFirst(x, t)) == multiset(t) + multiset{x}
  {
    if |t| > 0 && t[0].timestamp > x.timestamp {
      InsertNewestIsPermutation(x, t[1..]);
      assert t == [t[0]] + t[1..];
    }
  }

  lemma {:induction false} InsertKeepsTies(x: LogEntry, t: seq<LogEntry>, ts: int)
    requires SortedNewestFirst(t)
    ensures x.timestamp == ts ==> WithTimestamp(InsertNewestFirst(x, t), ts) == [x] + WithTimestamp(t, ts)
    ensures x.timestamp != ts ==> WithTimestamp(InsertNewestFirst(x, t), ts) == WithTimestamp(t, ts)
  {
    if |t| == 0 || t[0].timestamp <= x.timestamp {
      InsertFrontKeepsTies(x, t, ts);
    } else {
      InsertKeepsTies(x, t[1..], ts);
      InsertBehindKeepsTies(x, t, ts);
    }
  }

  /** The step of `InsertKeepsTies` where `x` goes in front. */
  lemma InsertFrontKeepsTies(x: LogEntry, t: seq<LogEntry>, ts: int)
    requires SortedNewestFirst(t) && (|t| == 0 || t[0].timestamp <= x.timestamp)
    ensures x.timestamp == ts ==> WithTimestamp(InsertNewestFirst(x, t), ts) == [x] + WithTimestamp(t, ts)
    ensures x.timestamp != ts ==> WithTimestamp(InsertNewestFirst(x, t), ts) == WithTimestamp(t, ts)
  {
    assert InsertNewestFirst(x, t) == [x] + t;
    WithTimestampCons(x, t, ts);
  }

  /** The step of `InsertKeepsTies` where `x` goes behind the newer `t[0]`. */
  lemma InsertBehindKeepsTies(x: LogEntry, t: seq<LogEntry>, ts: int)
    requires SortedNewestFirst(t) && |t| > 0 && t[0].timestamp > x.timestamp
    requires x.timestamp == ts ==> WithTimestamp(InsertNewestFirst(x, t[1..]), ts) == [x] + WithTimestamp(t[1..], ts)
    requires x.timestamp != ts ==> WithTimestamp(InsertNewestFirst(x, t[1..]), ts) == WithTimestamp(t[1..], ts)
    ensures x.timestamp == ts ==> WithTimestamp(InsertNewestFirst(x, t), ts) == [x] + WithTimestamp(t, ts)
    ensures x.timestamp != ts ==> WithTimestamp(InsertNewestFirst(x, t), ts) == WithTimestamp(t, ts)
  {
    var rest := InsertNewestFirst(x, t[1..]);
    assert InsertNewestFirst(x, t) == [t[0]] + rest;
    WithTimestampCons(t[0], rest, ts);
    WithTimestampCons(t[0], t[1..], ts);
    assert [t[0]] + t[1..] == t;
  }

  lemma WithTimestampCons(e: LogEntry, s: seq<LogEntry>, ts: int)
    ensures e.timestamp == ts ==> WithTimestamp([e] + s, ts) == [e] + WithTimestamp(s, ts)
    ensures e.timestamp != ts ==> WithTimestamp([e] + s, ts) == WithTimestamp(s, ts)
  {
    assert ([e] + s)[1..] == s;
  }

  /** `[...logs].sort((a, b) => b.timestamp - a.timestamp)`: newest first, a
      permutation of the input, and stable — entries with equal timestamps keep
      their relative order. */
  function SortedLogs(logs: seq<LogEntry>): (r: seq<LogEntry>)
    ensures SortedNewestFirst(r)
    ensures multiset(r) == multiset(logs)
    ensures forall ts :: WithTimestamp(r, ts) == WithTimestamp(logs, ts)
  {
    if |logs| == 0 then []
    else
      var rest := SortedLogs(logs[1..]);
      assert logs == [logs[0]] + logs[1..];
      SortKeepsTies(logs, rest);
      InsertNewestIsPermutation(logs[0], rest);
      InsertNewestFirst(logs[0], rest)
  }

  lemma SortKeepsTies(logs: seq<LogEntry>, rest: seq<LogEntry>)
    requires |logs| > 0 && SortedNewestFirst(rest)
    requires forall ts :: WithTimestamp(rest, ts) == WithTimestamp(logs[1..], ts)
    ensures forall ts :: WithTimestamp(InsertNewestFirst(logs[0], rest), ts) == WithTimestamp(logs, ts)
  {
    forall ts
      ensures WithTimestamp(InsertNewestFirst(logs[0], rest), ts) == WithTimestamp(logs, ts)
    {
      InsertKeepsTies(logs[0], rest, ts);
      WithTimestampCons(logs[0], logs[1..], ts);
      assert [logs[0]] + logs[1..] == logs;
    }
  }

  /** `sortedLogs.slice(0, 10)`: the ten newest entries (all, when fewer), newest
      first; no entry left out is newer than one shown. */
  function RecentActivity(logs: seq<LogEntry>): (r: seq<LogEntry>)
    ensures |r| == if |logs| < 10 then |logs| else 10
    ensures SortedNewestFirst(r)
    ensures multiset(r) <= multiset(logs)
    ensures forall e :: e in logs && e !in r ==> forall k :: 0 <= k < |r| ==> e.timestamp <= r[k].timestamp
  {
    var s := SortedLogs(logs);
    PermutationLength(s, logs);
    var n := if |logs| < 10 then |logs| else 10;
    NewestPrefix(logs, s, n);
    s[..n]
  }

  lemma PermutationLength<T>(a: seq<T>, b: seq<T>)
    requires multiset(a) == multiset(b)
    ensures |a| == |b|
  {
    assert |multiset(a)| == |multiset(b)|;
  }

  /** A prefix of a newest-first permutation of `logs` is newest first, drawn
      from `logs`, and no newer than any entry it leaves out. */
  lemma NewestPrefix(logs: seq<LogEntry>, s: seq<LogEntry>, n: nat)
    requires SortedNewestFirst(s) && multiset(s) == multiset(logs) && n <= |s|
    ensures SortedNewestFirst(s[..n])
    ensures multiset(s[..n]) <= multiset(logs)
    ensures forall e :: e in logs && e !in s[..n] ==> forall k :: 0 <= k < n ==> e.timestamp <= s[..n][k].timestamp
  {
    assert s == s[..n] + s[n..];
    assert multiset(s) == multiset(s[..n]) + multiset(s[n..]);
    assert forall j :: 0 <= j < n ==> s[..n][j] == s[j];
    forall e | e in logs && e !in s[..n]
      ensures forall k :: 0 <= k < n ==> e.timestamp <= s[..n][k].timestamp
    {
      assert e in multiset(logs);
      assert e in s;
      var j :| 0 <= j < |s| && s[j] == e;
    }
  }

  // ---------------------------------------------------------------------------
  // Medicine status.

  datatype AdherenceStatus = Good | Warning | Alert

  /** `missedCount === 0 ? "good" : missedCount === 1 ? "warning" : "alert"`. */
  function StatusOf(missedCount: nat): (r: AdherenceStatus)
    ensures r == Good <==> missedCount == 0
    ensures r == Warning <==> missedCount == 1
    ensures r == Alert <==> missedCount >= MissThreshold
  {
    if missedCount == 0 then Good else if missedCount == 1 then Warning else Alert
  }

  datatype MedicineRow = MedicineRow(medicine: Medicine, missedCount: nat, status: AdherenceStatus)

  /** `medicineSummary`: one row per medicine, in catalogue order, with its missed
      count and status. A medicine is shown as `alert` exactly when it has
      reached the caregiver-alert threshold. */
  function MedicineSummary(meds: seq<Medicine>, logs: seq<LogEntry>): (r: seq<MedicineRow>)
    ensures |r| == |meds|
    ensures forall i :: 0 <= i < |meds| ==>
      && r[i].medicine == meds[i]
      && r[i].missedCount == MissedCount(logs, meds[i].id)
      && (r[i].status == Alert <==> MissedCount(logs, meds[i].id) >= MissThreshold)
      && (r[i].status == Good <==> forall k :: 0 <= k < |logs| ==> logs[k].medicineId != meds[i].id || logs[k].status != Missed)
  {
    seq(|meds|, i requires 0 <= i < |meds| => MedicineRow(meds[i], MissedCount(logs, meds[i].id), StatusOf(MissedCount(logs, meds[i].id))))
  }

  // ---------------------------------------------------------------------------
  // Plain JavaScript objects used as tables.

  /** The properties every object literal inherits from `Object.prototype`.
      Indexing `TIMING_LABELS` or `missedByMedicine` with one of these names
      finds an inherited function (or, for `__proto__`, the prototype itself):
      a truthy value that is neither a string nor a group. */
  const InheritedKeys: set<string> := {
    "constructor", "hasOwnProperty", "isPrototypeOf", "propertyIsEnumerable",
    "toString", "toLocaleString", "valueOf", "__proto__",
    "__defineGetter__", "__defineSetter__", "__lookupGetter__", "__lookupSetter__"
  }

  /** No timing tag is an inherited property name. */
  lemma TimingTagsAreOwnKeys(s: string)
    ensures s in InheritedKeys ==> ParseTiming(s).None?
  {
  }

  // ---------------------------------------------------------------------------
  // Timing label of a history row.

  /** `getTimingLabel`: a known timing tag gives its label with the first letter
      upper-cased; any other string is shown as it is, except an inherited
      property name, whose truthy non-string value has no `charAt` and raises a
      TypeError (None). */
  function GetTimingLabel(timing: string): (r: Option<string>)
    ensures r.None? <==> timing in InheritedKeys
    ensures ParseTiming(timing).None? && timing !in InheritedKeys ==> r == Some(timing)
    ensures ParseTiming(timing).Some? ==>
      && r.Some? && |r.value| > 0 && 'A' <= r.value[0] <= 'Z'
      && [ToLower(r.value[0])] + r.value[1..] == TimingLabel(ParseTiming(timing).value)
  {
    match ParseTiming(timing)
    case Some(t) =>
      TimingTagsAreOwnKeys(timing);
      CapitalizeInvertible(TimingLabel(t));
      Some(Capitalize(TimingLabel(t)))
    case None => if timing in InheritedKeys then None else Some(timing)
  }

  // ---------------------------------------------------------------------------
  // Caregiver summary: missed entries grouped by medicine name.

  /** What the summary keeps per medicine name: how many misses, the timing of the
      first miss seen, and the recorded reasons in order. */
  datatype MissedGroup = MissedGroup(name: string, count: nat, timing: MealTiming, reasons: seq<MissedReason>)

  /** The reason an entry records, if any. */
  function Recorded(e: LogEntry): seq<MissedReason> {
    if e.missedReason.Some? then [e.missedReason.value] else []
  }

  predicate NameIn(logs: seq<LogEntry>, name: string) {
    exists k :: 0 <= k < |logs| && logs[k].medicineName == name
  }

  /** How many entries carry the name. */
  function CountNamed(logs: seq<LogEntry>, name: string): nat {
    if |logs| == 0 then 0
    else CountNamed(logs[..|logs| - 1], name) + (if logs[|logs| - 1].medicineName == name then 1 else 0)
  }

  /** The reasons recorded by entries carrying the name, in order. */
  function ReasonsNamed(logs: seq<LogEntry>, name: string): seq<MissedReason> {
    if |logs| == 0 then []
    else ReasonsNamed(logs[..|logs| - 1], name) + (if logs[|logs| - 1].medicineName == name then Recorded(logs[|logs| - 1]) else [])
  }

  /** The position of the first entry carrying the name. */
  function FirstIndex(logs: seq<LogEntry>, name: string): (k: nat)
    requires NameIn(logs, name)
    ensures k < |logs| && logs[k].medicineName == name
    ensures forall j :: 0 <= j < k ==> logs[j].medicineName != name
  {
    var p := logs[..|logs| - 1];
    if NameIn(p, name) then
      var k := FirstIndex(p, name);
      assert forall j :: 0 <= j < k ==> logs[j] == p[j];
      k
    else
      assert forall j :: 0 <= j < |logs| - 1 ==> logs[j] == p[j];
      |logs| - 1
  }

  lemma {:induction false} AbsentNameCountsNothing(logs: seq<LogEntry>, name: string)
    requires !NameIn(logs, name)
    ensures CountNamed(logs, name) == 0 && ReasonsNamed(logs, name) == []
  {
    if |logs| > 0 {
      var p := logs[..|logs| - 1];
      assert !NameIn(p, name) by {
        assert forall j :: 0 <= j < |p| ==> p[j] == logs[j];
      }
      AbsentNameCountsNothing(p, name);
    }
  }

  /** The index of the group with the name, or -1. */
  function GroupIndex(gs: seq<MissedGroup>, name: string): (i: int)
    ensures -1 <= i < |gs|
    ensures i >= 0 ==> gs[i].name == name
    ensures i == -1 ==> forall j :: 0 <= j < |gs| ==> gs[j].name != name
  {
    if |gs| == 0 then -1
    else if gs[0].name == name then 0
    else
      var i := GroupIndex(gs[1..], name);
      if i == -1 then -1 else i + 1
  }

  /** One step of the `forEach`: count the entry in its name's group, creating the
      group (with this entry's timing) when the name is new. */
  function AddToGroups(gs: seq<MissedGroup>, e: LogEntry): seq<MissedGroup> {
    var i := GroupIndex(gs, e.medicineName);
    if i >= 0 then gs[i := gs[i].(count := gs[i].count + 1, reasons := gs[i].reasons + Recorded(e))]
    else gs + [MissedGroup(e.medicineName, 1, e.timing, Recorded(e))]
  }

  lemma AddToGroupsCases(gs: seq<MissedGroup>, e: LogEntry)
    ensures var i := GroupIndex(gs, e.medicineName);
      i >= 0 ==> AddToGroups(gs, e) == gs[i := gs[i].(count := gs[i].count + 1, reasons := gs[i].reasons + Recorded(e))]
    ensures GroupIndex(gs, e.medicineName) == -1 ==> AddToGroups(gs, e) == gs + [MissedGroup(e.medicineName, 1, e.timing, Recorded(e))]
  {
  }

  /** `missedByMedicine` in insertion order, for entries whose names are not
      inherited property names (see `CaregiverSummary` for those). */
  function GroupByName(logs: seq<LogEntry>): seq<MissedGroup> {
    if |logs| == 0 then [] else AddToGroups(GroupByName(logs[..|logs| - 1]), logs[|logs| - 1])
  }

  predicate DistinctNames(gs: seq<MissedGroup>) {
    forall i, j :: 0 <= i < j < |gs| ==> gs[i].name != gs[j].name
  }

  /** Every entry's name has a group. */
  predicate CoversNames(logs: seq<LogEntry>, gs: seq<MissedGroup>) {
    forall k :: 0 <= k < |logs| ==> exists i :: 0 <= i < |gs| && gs[i].name == logs[k].medicineName
  }

  /** Every group's name occurs among the entries. */
  predicate OnlyNames(logs: seq<LogEntry>, gs: seq<MissedGroup>) {
    forall i :: 0 <= i < |gs| ==> NameIn(logs, gs[i].name)
  }

  predicate Tallies(logs: seq<LogEntry>, gs: seq<MissedGroup>) {
    forall i :: 0 <= i < |gs| ==> gs[i].count == CountNamed(logs, gs[i].name) && gs[i].reasons == ReasonsNamed(logs, gs[i].name)
  }

  /** Each group has the timing of its name's first entry, and groups appear in
      the order their names first occur. */
  predicate FirstSeen(logs: seq<LogEntry>, gs: seq<MissedGroup>)
    requires OnlyNames(logs, gs)
  {
    && (forall i :: 0 <= i < |gs| ==> gs[i].timing == logs[FirstIndex(logs, gs[i].name)].timing)
    && (forall i, j :: 0 <= i < j < |gs| ==> FirstIndex(logs, gs[i].name) < FirstIndex(logs, gs[j].name))
  }

  /** What a grouping of `logs` must be: one group per distinct name, ordered by
      first appearance, each with the count, the first entry's timing and the
      recorded reasons of its name. */
  predicate GroupsOf(logs: seq<LogEntry>, gs: seq<MissedGroup>) {
    DistinctNames(gs) && CoversNames(logs, gs) && OnlyNames(logs, gs) && Tallies(logs, gs) && FirstSeen(logs, gs)
  }

  lemma PrefixKeepsName(logs: seq<LogEntry>, name: string)
    requires |logs| > 0 && NameIn(logs[..|logs| - 1], name)
    ensures NameIn(logs, name)
    ensures FirstIndex(logs, name) == FirstIndex(logs[..|logs| - 1], name)
  {
    var p := logs[..|logs| - 1];
    var k :| 0 <= k < |p| && p[k].medicineName == name;
    assert logs[k] == p[k];
  }

  /** Groups whose names and timings are those of a grouping of the prefix keep
      `OnlyNames` and `FirstSeen` once one more entry is appended. */
  lemma PrefixKeepsFirstSeen(logs: seq<LogEntry>, gs: seq<MissedGroup>, r: seq<MissedGroup>)
    requires |logs| > 0
    requires OnlyNames(logs[..|logs| - 1], gs) && FirstSeen(logs[..|logs| - 1], gs)
    requires |gs| <= |r|
    requires forall j :: 0 <= j < |gs| ==> r[j].name == gs[j].name && r[j].timing == gs[j].timing
    ensures forall j :: 0 <= j < |gs| ==> NameIn(logs, r[j].name)
    ensures forall j :: 0 <= j < |gs| ==> r[j].timing == logs[FirstIndex(logs, r[j].name)].timing
    ensures forall j, l :: 0 <= j < l < |gs| ==> FirstIndex(logs, r[j].name) < FirstIndex(logs, r[l].name)
  {
    var p := logs[..|logs| - 1];
    forall j | 0 <= j < |gs|
      ensures NameIn(logs, r[j].name) && FirstIndex(logs, r[j].name) == FirstIndex(p, r[j].name)
    {
      PrefixKeepsName(logs, r[j].name);
    }
    forall j | 0 <= j < |gs|
      ensures r[j].timing == logs[FirstIndex(logs, r[j].name)].timing
    {
      assert logs[FirstIndex(p, gs[j].name)] == p[FirstIndex(p, gs[j].name)];
    }
  }

  /** Appending an entry adds it to the tallies of its own name only. */
  lemma TallyStep(logs: seq<LogEntry>, name: string)
    requires |logs| > 0
    ensures CountNamed(logs, name) == CountNamed(logs[..|logs| - 1], name) + (if logs[|logs| - 1].medicineName == name then 1 else 0)
    ensures ReasonsNamed(logs, name) == ReasonsNamed(logs[..|logs| - 1], name) + (if logs[|logs| - 1].medicineName == name then Recorded(logs[|logs| - 1]) else [])
  {
  }

  /** Grouping by name meets `GroupsOf`: each group's count is the number of
      missed entries with that name, its timing is the first such entry's, and
      groups are grouped by name (not by medicine id). */
  lemma {:induction false} GroupByNameCorrect(logs: seq<LogEntry>)
    ensures GroupsOf(logs, GroupByName(logs))
  {
    if |logs| > 0 {
      var p := logs[..|logs| - 1];
      var x := logs[|logs| - 1];
      GroupByNameCorrect(p);
      var gs := GroupByName(p);
      var i := GroupIndex(gs, x.medicineName);
      if i >= 0 {
        AddToExisting(logs, gs, i);
      } else {
        AddNew(logs, gs);
      }
    }
  }

  lemma AddToExisting(logs: seq<LogEntry>, gs: seq<MissedGroup>, i: int)
    requires |logs| > 0
    requires GroupsOf(logs[..|logs| - 1], gs)
    requires i == GroupIndex(gs, logs[|logs| - 1].medicineName) && i >= 0
    ensures GroupsOf(logs, AddToGroups(gs, logs[|logs| - 1]))
  {
    ExistingKeepsShape(logs, gs, i);
    CoverStep(logs, gs, AddToGroups(gs, logs[|logs| - 1]));
    ExistingTallies(logs, gs, i);
  }

  lemma ExistingKeepsShape(logs: seq<LogEntry>, gs: seq<MissedGroup>, i: int)
    requires |logs| > 0
    requires DistinctNames(gs) && OnlyNames(logs[..|logs| - 1], gs) && FirstSeen(logs[..|logs| - 1], gs)
    requires i == GroupIndex(gs, logs[|logs| - 1].medicineName) && i >= 0
    ensures var r := AddToGroups(gs, logs[|logs| - 1]);
      && DistinctNames(r) && OnlyNames(logs, r) && FirstSeen(logs, r)
      && |gs| <= |r| && (forall j :: 0 <= j < |gs| ==> r[j].name == gs[j].name)
      && exists j :: 0 <= j < |r| && r[j].name == logs[|logs| - 1].medicineName
  {
    var x := logs[|logs| - 1];
    var r := AddToGroups(gs, x);
    AddToGroupsCases(gs, x);
    assert forall j :: 0 <= j < |gs| ==> r[j].name == gs[j].name && r[j].timing == gs[j].timing;
    PrefixKeepsFirstSeen(logs, gs, r);
    assert r[i].name == x.medicineName;
  }

  /** Groups for the prefix, kept in place and possibly extended by a group for
      the appended entry's name, still cover every entry. */
  lemma CoverStep(logs: seq<LogEntry>, gs: seq<MissedGroup>, r: seq<MissedGroup>)
    requires |logs| > 0
    requires CoversNames(logs[..|logs| - 1], gs)
    requires |gs| <= |r|
    requires forall j :: 0 <= j < |gs| ==> r[j].name == gs[j].name
    requires exists j :: 0 <= j < |r| && r[j].name == logs[|logs| - 1].medicineName
    ensures CoversNames(logs, r)
  {
    var p := logs[..|logs| - 1];
    forall k | 0 <= k < |p|
      ensures exists j :: 0 <= j < |r| && r[j].name == logs[k].medicineName
    {
      assert logs[k] == p[k];
      var j :| 0 <= j < |gs| && gs[j].name == p[k].medicineName;
      assert r[j].name == gs[j].name;
    }
  }

  lemma ExistingTallies(logs: seq<LogEntry>, gs: seq<MissedGroup>, i: int)
    requires |logs| > 0
    requires DistinctNames(gs) && Tallies(logs[..|logs| - 1], gs)
    requires i == GroupIndex(gs, logs[|logs| - 1].medicineName) && i >= 0
    ensures Tallies(logs, AddToGroups(gs, logs[|logs| - 1]))
  {
    var x := logs[|logs| - 1];
    var r := AddToGroups(gs, x);
    AddToGroupsCases(gs, x);
    forall j | 0 <= j < |r|
      ensures r[j].count == CountNamed(logs, r[j].name) && r[j].reasons == ReasonsNamed(logs, r[j].name)
    {
      TallyStep(logs, gs[j].name);
    }
  }

  lemma AddNew(logs: seq<LogEntry>, gs: seq<MissedGroup>)
    requires |logs| > 0
    requires GroupsOf(logs[..|logs| - 1], gs)
    requires GroupIndex(gs, logs[|logs| - 1].medicineName) == -1
    ensures GroupsOf(logs, AddToGroups(gs, logs[|logs| - 1]))
  {
    NewNameAbsent(logs[..|logs| - 1], gs, logs[|logs| - 1].medicineName);
    NewKeepsShape(logs, gs);
    CoverStep(logs, gs, AddToGroups(gs, logs[|logs| - 1]));
    NewTallies(logs, gs);
  }

  lemma NewKeepsShape(logs: seq<LogEntry>, gs: seq<MissedGroup>)
    requires |logs| > 0
    requires DistinctNames(gs) && OnlyNames(logs[..|logs| - 1], gs) && FirstSeen(logs[..|logs| - 1], gs)
    requires GroupIndex(gs, logs[|logs| - 1].medicineName) == -1
    requires !NameIn(logs[..|logs| - 1], logs[|logs| - 1].medicineName)
    ensures var r := AddToGroups(gs, logs[|logs| - 1]);
      && DistinctNames(r) && OnlyNames(logs, r) && FirstSeen(logs, r)
      && |gs| <= |r| && (forall j :: 0 <= j < |gs| ==> r[j].name == gs[j].name)
      && exists j :: 0 <= j < |r| && r[j].name == logs[|logs| - 1].medicineName
  {
    var x := logs[|logs| - 1];
    var r := AddToGroups(gs, x);
    AddToGroupsCases(gs, x);
    assert forall j :: 0 <= j < |gs| ==> r[j] == gs[j];
    PrefixKeepsFirstSeen(logs, gs, r);
    NewGroupIsLast(logs, gs, r);
    assert r[|gs|].name == x.medicineName;
  }

  lemma NewNameAbsent(p: seq<LogEntry>, gs: seq<MissedGroup>, n: string)
    requires CoversNames(p, gs)
    requires forall j :: 0 <= j < |gs| ==> gs[j].name != n
    ensures !NameIn(p, n)
  {
    forall k | 0 <= k < |p|
      ensures p[k].medicineName != n
    {
      var j :| 0 <= j < |gs| && gs[j].name == p[k].medicineName;
    }
  }

  lemma NewGroupIsLast(logs: seq<LogEntry>, gs: seq<MissedGroup>, r: seq<MissedGroup>)
    requires |logs| > 0
    requires OnlyNames(logs[..|logs| - 1], gs)
    requires !NameIn(logs[..|logs| - 1], logs[|logs| - 1].medicineName)
    requires r == gs + [MissedGroup(logs[|logs| - 1].medicineName, 1, logs[|logs| - 1].timing, Recorded(logs[|logs| - 1]))]
    requires forall j :: 0 <= j < |gs| ==> NameIn(logs, r[j].name)
    ensures NameIn(logs, r[|gs|].name)
    ensures r[|gs|].timing == logs[FirstIndex(logs, r[|gs|].name)].timing
    ensures forall j :: 0 <= j < |gs| ==> FirstIndex(logs, r[j].name) < FirstIndex(logs, r[|gs|].name)
  {
    var n := logs[|logs| - 1].medicineName;
    assert NameIn(logs, n) by {
      assert logs[|logs| - 1].medicineName == n;
    }
    assert FirstIndex(logs, n) == |logs| - 1;
    forall j | 0 <= j < |gs|
      ensures FirstIndex(logs, r[j].name) < FirstIndex(logs, n)
    {
      PrefixKeepsName(logs, gs[j].name);
    }
  }

  lemma NewTallies(logs: seq<LogEntry>, gs: seq<MissedGroup>)
    requires |logs| > 0
    requires Tallies(logs[..|logs| - 1], gs)
    requires !NameIn(logs[..|logs| - 1], logs[|logs| - 1].medicineName)
    requires GroupIndex(gs, logs[|logs| - 1].medicineName) == -1
    ensures Tallies(logs, AddToGroups(gs, logs[|logs| - 1]))
  {
    var x := logs[|logs| - 1];
    var r := AddToGroups(gs, x);
    AddToGroupsCases(gs, x);
    AbsentNameCountsNothing(logs[..|logs| - 1], x.medicineName);
    TallyStep(logs, x.medicineName);
    forall j | 0 <= j < |gs|
      ensures r[j].count == CountNamed(logs, r[j].name) && r[j].reasons == ReasonsNamed(logs, r[j].name)
    {
      TallyStep(logs, gs[j].name);
    }
  }

  // ---------------------------------------------------------------------------
  // Most common reason.

  /** How often each reason occurs in `rs`: the comparator's
      `reasons.filter(r => r === a).length`. */
  function Frequency(rs: seq<MissedReason>): MissedReason -> nat {
    y => multiset(rs)[y]
  }

  /** Reasons ordered by the key `count`, least first: each is at most its
      successor. */
  predicate SortedByFrequency(t: seq<MissedReason>, count: MissedReason -> nat) {
    |t| <= 1 || (count(t[0]) <= count(t[1]) && SortedByFrequency(t[1..], count))
  }

  /** In a sorted list the first key is at most the last. */
  lemma {:induction false} FirstAtMostLast(t: seq<MissedReason>, count: MissedReason -> nat)
    requires SortedByFrequency(t, count) && |t| > 0
    ensures count(t[0]) <= count(t[|t| - 1])
  {
    if |t| > 1 {
      FirstAtMostLast(t[1..], count);
    }
  }

  /** One insertion step of a stable ascending sort: `x` came after everything in
      `t`, so it goes after every element whose key is not larger. */
  function InsertByFrequency(t: seq<MissedReason>, x: MissedReason, count: MissedReason -> nat): (r: seq<MissedReason>)
    requires SortedByFrequency(t, count)
    ensures |r| == |t| + 1
    ensures r[0] == x || (|t| > 0 && r[0] == t[0])
    ensures SortedByFrequency(r, count)
  {
    if |t| == 0 then [x]
    else if count(x) < count(t[0]) then
      assert ([x] + t)[1..] == t;
      [x] + t
    else
      var rest := InsertByFrequency(t[1..], x, count);
      assert t == [t[0]] + t[1..];
      assert ([t[0]] + rest)[1..] == rest;
      [t[0]] + rest
  }

  /** `reasons.sort((a, b) => count(a) - count(b))`, with JavaScript's stable sort. */
  function SortByFrequency(s: seq<MissedReason>, count: MissedReason -> nat): (r: seq<MissedReason>)
    ensures |r| == |s|
    ensures SortedByFrequency(r, count)
  {
    if |s| == 0 then []
    else InsertByFrequency(SortByFrequency(s[..|s| - 1], count), s[|s| - 1], count)
  }

  /** Insertion adds exactly `x`. */
  lemma {:induction false} InsertIsPermutation(t: seq<MissedReason>, x: MissedReason, count: MissedReason -> nat)
    requires SortedByFrequency(t, count)
    ensures multiset(InsertByFrequency(t, x, count)) == multiset(t) + multiset{x}
  {
    if |t| > 0 && count(x) >= count(t[0]) {
      InsertIsPermutation(t[1..], x, count);
      assert t == [t[0]] + t[1..];
    }
  }

  /** The sort is a permutation of its input. */
  lemma {:induction false} SortIsPermutation(s: seq<MissedReason>, count: MissedReason -> nat)
    ensures multiset(SortByFrequency(s, count)) == multiset(s)
  {
    if |s| > 0 {
      SortIsPermutation(s[..|s| - 1], count);
      InsertIsPermutation(SortByFrequency(s[..|s| - 1], count), s[|s| - 1], count);
      assert s == s[..|s| - 1] + [s[|s| - 1]];
    }
  }

  /** The two shapes an insertion into a non-empty list takes. */
  lemma InsertCases(t: seq<MissedReason>, x: MissedReason, count: MissedReason -> nat)
    requires SortedByFrequency(t, count) && |t| > 0
    ensures SortedByFrequency(t[1..], count)
    ensures count(x) < count(t[0]) ==> InsertByFrequency(t, x, count) == [x] + t
    ensures count(x) >= count(t[0]) ==>
      InsertByFrequency(t, x, count) == [t[0]] + InsertByFrequency(t[1..], x, count)
  {
  }

  /** The last element after inserting `x` is `x` when its key is at least that
      of the current last one, and the current last one otherwise. */
  lemma {:induction false} LastAfterInsert(t: seq<MissedReason>, x: MissedReason, count: MissedReason -> nat)
    requires SortedByFrequency(t, count) && |t| > 0
    ensures var r := InsertByFrequency(t, x, count);
      r[|r| - 1] == if count(x) >= count(t[|t| - 1]) then x else t[|t| - 1]
  {
    InsertCases(t, x, count);
    var r := InsertByFrequency(t, x, count);
    if count(x) < count(t[0]) {
      assert r[|r| - 1] == t[|t| - 1];
      FirstAtMostLast(t, count);
    } else if |t| == 1 {
      assert t[1..] == [];
      assert r == [t[0], x];
    } else {
      var rest := InsertByFrequency(t[1..], x, count);
      LastAfterInsert(t[1..], x, count);
      assert r[|r| - 1] == rest[|rest| - 1];
    }
  }

  /** The position of the most frequent reason among the first `n`, the latest
      one among equally frequent reasons. */
  function BestIndex(rs: seq<MissedReason>, n: nat): (k: nat)
    requires 0 < n <= |rs|
    ensures k < n
    ensures forall j :: 0 <= j < n ==> multiset(rs)[rs[j]] <= multiset(rs)[rs[k]]
    ensures forall j :: k < j < n ==> multiset(rs)[rs[j]] < multiset(rs)[rs[k]]
  {
    if n == 1 then 0
    else
      var k := BestIndex(rs, n - 1);
      if multiset(rs)[rs[n - 1]] >= multiset(rs)[rs[k]] then n - 1 else k
  }

  /** The "most common reason" of a group: None when no reason was recorded;
      otherwise a reason of maximal frequency, the one whose position is latest
      among the most frequent ones. */
  function MostCommonReason(rs: seq<MissedReason>): (r: Option<MissedReason>)
    ensures r.None? <==> |rs| == 0
    ensures r.Some? ==> r.value in rs && forall x :: x in rs ==> multiset(rs)[x] <= multiset(rs)[r.value]
  {
    if |rs| == 0 then None
    else
      var k := BestIndex(rs, |rs|);
      assert forall x :: x in rs ==> exists j :: 0 <= j < |rs| && rs[j] == x;
      Some(rs[k])
  }

  /** The closed form agrees with the source's procedure: sorting the reasons by
      frequency (stably, ascending) and popping the last one. */
  lemma {:induction false} SortThenPopIsBest(rs: seq<MissedReason>, n: nat)
    requires 0 < n <= |rs|
    ensures var t := SortByFrequency(rs[..n], Frequency(rs)); |t| == n && t[n - 1] == rs[BestIndex(rs, n)]
  {
    SortStep(rs, n);
    if n > 1 {
      SortThenPopIsBest(rs, n - 1);
      PopStep(rs, n, SortByFrequency(rs[..n - 1], Frequency(rs)));
    }
  }

  /** The last element after sorting `n` reasons follows `BestIndex`'s choice,
      given that it does for `n - 1`. */
  lemma PopStep(rs: seq<MissedReason>, n: nat, t': seq<MissedReason>)
    requires 1 < n <= |rs|
    requires SortedByFrequency(t', Frequency(rs)) && |t'| == n - 1 && t'[n - 2] == rs[BestIndex(rs, n - 1)]
    ensures var t := InsertByFrequency(t', rs[n - 1], Frequency(rs)); |t| == n && t[n - 1] == rs[BestIndex(rs, n)]
  {
    LastAfterInsert(t', rs[n - 1], Frequency(rs));
    BestIndexStep(rs, n);
  }

  /** `BestIndex` moves to the `n`-th reason exactly when it is at least as
      frequent as the best of the first `n - 1`. */
  lemma BestIndexStep(rs: seq<MissedReason>, n: nat)
    requires 1 < n <= |rs|
    ensures var k := BestIndex(rs, n - 1); var count := Frequency(rs);
      BestIndex(rs, n) == if count(rs[n - 1]) >= count(rs[k]) then n - 1 else k
  {
  }

  /** Sorting the first `n` reasons inserts the `n`-th into the sorted first
      `n - 1`. */
  lemma SortStep(rs: seq<MissedReason>, n: nat)
    requires 0 < n <= |rs|
    ensures SortByFrequency(rs[..n], Frequency(rs)) ==
      InsertByFrequency(SortByFrequency(rs[..n - 1], Frequency(rs)), rs[n - 1], Frequency(rs))
    ensures n == 1 ==> SortByFrequency(rs[..n], Frequency(rs)) == [rs[0]]
  {
    var s := rs[..n];
    assert s[..n - 1] == rs[..n - 1];
  }

  lemma MostCommonIsSortThenPop(rs: seq<MissedReason>)
    requires |rs| > 0
    ensures var t := SortByFrequency(rs, Frequency(rs)); MostCommonReason(rs) == Some(t[|t| - 1])
  {
    assert rs[..|rs|] == rs;
    SortThenPopIsBest(rs, |rs|);
    MostCommonIsBest(rs);
  }

  lemma MostCommonIsBest(rs: seq<MissedReason>)
    requires |rs| > 0
    ensures MostCommonReason(rs) == Some(rs[BestIndex(rs, |rs|)])
  {
  }

  // ---------------------------------------------------------------------------
  // Summary lines.

  /** "{name} missed {n} time[s] ({timing label})", followed by
      " - usually {reason label}" when some reason was recorded. */
  function SummaryLine(g: MissedGroup): string {
    var base := g.name + " missed " + NatToString(g.count) + " time" + (if g.count > 1 then "s" else "")
      + " (" + TimingLabel(g.timing) + ")";
    match MostCommonReason(g.reasons)
    case Some(r) => base + " - usually " + ReasonLabel(r)
    case None => base
  }

  /** The missed entries that `missedByMedicine` keeps in groups of its own: an
      entry whose name is inherited finds the inherited value truthy, so no group
      is created, and its `count++` lands on that inherited value instead. */
  function OwnNamed(logs: seq<LogEntry>): (r: seq<LogEntry>)
    ensures |r| <= |logs|
    ensures forall e :: e in r <==> e in logs && e.medicineName !in InheritedKeys
  {
    if |logs| == 0 then []
    else (if logs[0].medicineName in InheritedKeys then [] else [logs[0]]) + OwnNamed(logs[1..])
  }

  /** With no inherited name among the entries, nothing is set aside. */
  lemma {:induction false} OwnNamedKeepsOrdinaryNames(logs: seq<LogEntry>)
    requires forall k :: 0 <= k < |logs| ==> logs[k].medicineName !in InheritedKeys
    ensures OwnNamed(logs) == logs
  {
    if |logs| > 0 {
      OwnNamedKeepsOrdinaryNames(logs[1..]);
      assert [logs[0]] + logs[1..] == logs;
    }
  }

  /** What `generateCaregiverSummary` gives: `null`, the lines, or the TypeError
      that `.reasons.push` on an inherited value raises. */
  datatype Summary = NothingMissed | Lines(lines: seq<string>) | SummaryTypeError

  /** A missed entry the summary cannot take: its name is inherited and it
      records a reason, so `reasons.push` is called on undefined. */
  predicate Unsummarizable(e: LogEntry) {
    e.status == Missed && e.medicineName in InheritedKeys && e.missedReason.Some?
  }

  /** `generateCaregiverSummary`: nothing when nothing was missed; a TypeError
      when a missed entry with an inherited name records a reason; otherwise
      one line per group of the missed entries with ordinary names, in group
      order. */
  function CaregiverSummary(logs: seq<LogEntry>): (r: Summary)
    ensures r.NothingMissed? <==> forall k :: 0 <= k < |logs| ==> logs[k].status != Missed
    ensures r.SummaryTypeError? <==> exists e :: e in logs && Unsummarizable(e)
    ensures r.Lines? ==> var gs := GroupByName(OwnNamed(MissedLogs(logs)));
      |r.lines| == |gs| && forall i :: 0 <= i < |gs| ==> r.lines[i] == SummaryLine(gs[i])
  {
    var missed := MissedLogs(logs);
    NoMissedLogs(logs);
    MissedUnsummarizable(logs);
    if |missed| == 0 then NothingMissed
    else if exists e :: e in missed && Unsummarizable(e) then SummaryTypeError
    else
      var gs := GroupByName(OwnNamed(missed));
      Lines(seq(|gs|, i requires 0 <= i < |gs| => SummaryLine(gs[i])))
  }

  /** The missed-only view is empty exactly when nothing is missed. */
  lemma NoMissedLogs(logs: seq<LogEntry>)
    ensures |MissedLogs(logs)| == 0 <==> forall k :: 0 <= k < |logs| ==> logs[k].status != Missed
  {
    var missed := MissedLogs(logs);
    if |missed| > 0 {
      assert missed[0] in missed;
    } else {
      assert forall k :: 0 <= k < |logs| ==> logs[k] in logs;
    }
  }

  /** An entry the summary cannot take is missed, so the missed-only view holds
      one exactly when the log does. */
  lemma MissedUnsummarizable(logs: seq<LogEntry>)
    ensures (exists e :: e in MissedLogs(logs) && Unsummarizable(e)) <==> exists e :: e in logs && Unsummarizable(e)
  {
    if exists e :: e in logs && Unsummarizable(e) {
      var e :| e in logs && Unsummarizable(e);
      assert e in MissedLogs(logs);
    }
  }

  /** An inherited name never gets a group, and so never a summary line of its
      own. */
  lemma InheritedNamesGetNoLine(logs: seq<LogEntry>)
    ensures forall g :: g in GroupByName(OwnNamed(logs)) ==> g.name !in InheritedKeys
  {
    var own := OwnNamed(logs);
    var gs := GroupByName(own);
    GroupByNameCorrect(own);
    forall g | g in gs
      ensures g.name !in InheritedKeys
    {
      var i :| 0 <= i < |gs| && gs[i] == g;
      assert NameIn(own, g.name);
      var k :| 0 <= k < |own| && own[k].medicineName == g.name;
      assert own[k] in own;
    }
  }

  /** With ordinary names only, every missed entry is grouped. */
  lemma OrdinaryNamesAllGrouped(logs: seq<LogEntry>)
    requires forall e :: e in logs ==> e.medicineName !in InheritedKeys
    ensures OwnNamed(MissedLogs(logs)) == MissedLogs(logs)
  {
    var missed := MissedLogs(logs);
    forall k | 0 <= k < |missed|
      ensures missed[k].medicineName !in InheritedKeys
    {
      assert missed[k] in missed;
    }
    OwnNamedKeepsOrdinaryNames(missed);
  }

  /** Two misses of "Aspirin" after breakfast, once forgotten and once while
      asleep later in the log: the tie goes to the later reason. */
  lemma SummaryExample(e1: LogEntry, e2: LogEntry)
    requires e1.medicineName == "Aspirin" && e1.timing == AfterBreakfast && e1.missedReason == Some(Forgot)
    requires e2.medicineName == "Aspirin" && e2.missedReason == Some(Asleep)
    ensures SummaryLine(GroupByName([e1, e2])[0]) == "Aspirin missed 2 times (after breakfast) - usually was asleep"
  {
    var g1 := [MissedGroup("Aspirin", 1, AfterBreakfast, [Forgot])];
    assert GroupByName([e1]) == g1 by {
      assert [e1][..0] == [];
    }
    assert GroupByName([e1, e2]) == AddToGroups(g1, e2) by {
      assert [e1, e2][..1] == [e1];
    }
    assert GroupIndex(g1, "Aspirin") == 0;
    assert Recorded(e2) == [Asleep];
    assert [Forgot] + [Asleep] == [Forgot, Asleep];
    var g := MissedGroup("Aspirin", 2, AfterBreakfast, [Forgot, Asleep]);
    assert AddToGroups(g1, e2) == [g];
    ExampleLine();
  }

  lemma ExampleLine()
    ensures SummaryLine(MissedGroup("Aspirin", 2, AfterBreakfast, [Forgot, Asleep])) == "Aspirin missed 2 times (after breakfast) - usually was asleep"
  {
    ExampleMostCommon();
    ExampleBase();
    assert ReasonLabel(Asleep) == "was asleep";
    var base := "Aspirin missed 2 times (after breakfast)";
    assert base + " - usually " + "was asleep" == "Aspirin missed 2 times (after breakfast) - usually was asleep";
  }

  lemma ExampleBase()
    ensures "Aspirin" + " missed " + NatToString(2) + " time" + "s" + " (" + TimingLabel(AfterBreakfast) + ")" == "Aspirin missed 2 times (after breakfast)"
  {
    ExampleDigits();
    ExampleTiming();
    assert "Aspirin" + " missed " + "2" + " time" + "s" == "Aspirin missed 2 times";
  }

  lemma ExampleDigits()
    ensures NatToString(2) == "2"
  {
  }

  lemma ExampleTiming()
    ensures TimingLabel(AfterBreakfast) == "after breakfast"
  {
  }

  lemma ExampleMostCommon()
    ensures MostCommonReason([Forgot, Asleep]) == Some(Asleep)
  {
    var rs := [Forgot, Asleep];
    assert multiset(rs)[Forgot] == 1;
    assert multiset(rs)[Asleep] == 1;
    assert BestIndex(rs, 1) == 0;
    assert BestIndex(rs, 2) == 1;
  }
}
