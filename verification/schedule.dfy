/** The schedule evaluator: whether a medicine is due on the current day, and
    the reminder sentence for a dose (lib/medicine-context.tsx). */
module Schedule {
  import opened Wrappers
  import opened Medicines

  /** A weekday as JavaScript's `Date.getDay` returns it: Sunday = 0 … Saturday = 6. */
  type JsWeekday = d: int | 0 <= d <= 6

  /** The reading of the clock one evaluation uses: the instant in milliseconds,
      the key of the local calendar day (`toDateString`) and the local weekday.
      The three are supplied together by the caller; how they are derived from
      each other (time zones, calendars) is not modelled. */
  datatype Clock = Clock(now: int, dayKey: int, weekday: JsWeekday)

  /** `new Date(s).getTime()`: the instant a date string denotes, None for an
      invalid date (NaN). */
  type DateParser = string -> Option<int>

  /** The weekday numbering of DAY_NAMES and `specificDays`: Monday = 0 … Sunday = 6. */
  function WeekdayIndex(js: JsWeekday): (d: int)
    ensures 0 <= d <= 6
    ensures (d + 1) % 7 == js
  {
    if js == 0 then 6 else js - 1
  }

  /** The JavaScript weekday of a Monday-based weekday index. */
  function JsWeekdayOf(d: int): JsWeekday
    requires 0 <= d <= 6
  {
    (d + 1) % 7
  }

  /** The two numberings are inverse to each other. */
  lemma WeekdayNumberingsInverse(d: int, js: JsWeekday)
    requires 0 <= d <= 6
    ensures WeekdayIndex(JsWeekdayOf(d)) == d
    ensures JsWeekdayOf(WeekdayIndex(js)) == js
  {
  }

  /** An optional string field is set in the sense of JavaScript truthiness:
      present and not the empty string. */
  predicate IsSet(field: Option<string>) {
    field.Some? && field.value != ""
  }

  /** The current instant lies before a set and parseable start date. */
  predicate BeforeStart(m: Medicine, c: Clock, parse: DateParser) {
    IsSet(m.startDate) && parse(m.startDate.value).Some? && c.now < parse(m.startDate.value).value
  }

  /** The current instant lies after a set and parseable end date. The end date
      denotes the first instant of that day, so on the end day itself any later
      instant is already after it. */
  predicate AfterEnd(m: Medicine, c: Clock, parse: DateParser) {
    IsSet(m.endDate) && parse(m.endDate.value).Some? && c.now > parse(m.endDate.value).value
  }

  predicate InWindow(m: Medicine, c: Clock, parse: DateParser) {
    !BeforeStart(m, c, parse) && !AfterEnd(m, c, parse)
  }

  function Abs(x: int): nat {
    if x < 0 then -x else x
  }

  /** Whole days between creation and now, in either direction. */
  function DaysFromCreation(m: Medicine, now: int): nat {
    Abs(now - m.createdAt) / MsPerDay
  }

  /** `shouldShowToday`: the window is checked first, then the frequency. A
      `specific` medicine without a day list and a `custom` medicine are due on
      every day of the window. */
  function IsDue(m: Medicine, c: Clock, parse: DateParser): (due: bool)
    ensures due ==> InWindow(m, c, parse)
    ensures InWindow(m, c, parse) && m.frequency != Alternate && !(m.frequency == Specific && m.specificDays.Some?) ==> due
  {
    if BeforeStart(m, c, parse) then false
    else if AfterEnd(m, c, parse) then false
    else match m.frequency
      case Daily => true
      case Alternate => DaysFromCreation(m, c.now) % 2 == 0
      case Specific => if m.specificDays.Some? then WeekdayIndex(c.weekday) in m.specificDays.value else true
      case Custom => true
  }

  /** Inside the window a `specific` medicine with a day list is due exactly on
      the JavaScript weekdays its entries name (Monday = 0, so entry 6 is
      Sunday); entries outside 0..6 never match, an empty list never matches,
      and outside the window it is never due. */
  lemma SpecificDaysRule(m: Medicine, c: Clock, parse: DateParser)
    requires m.frequency == Specific && m.specificDays.Some?
    ensures IsDue(m, c, parse) <==>
      InWindow(m, c, parse) && exists i :: 0 <= i < |m.specificDays.value| && 0 <= m.specificDays.value[i] <= 6 && JsWeekdayOf(m.specificDays.value[i]) == c.weekday
  {
    var ds := m.specificDays.value;
    var d := WeekdayIndex(c.weekday);
    if d in ds {
      var i :| 0 <= i < |ds| && ds[i] == d;
      assert JsWeekdayOf(ds[i]) == c.weekday;
    }
    if exists i :: 0 <= i < |ds| && 0 <= ds[i] <= 6 && JsWeekdayOf(ds[i]) == c.weekday {
      var i :| 0 <= i < |ds| && 0 <= ds[i] <= 6 && JsWeekdayOf(ds[i]) == c.weekday;
      WeekdayNumberingsInverse(ds[i], c.weekday);
      assert ds[i] == d;
    }
  }

  /** The worked example: with `specificDays = [0, 2]` the medicine is due, inside
      its window, exactly on Mondays and Wednesdays. */
  lemma MondayWednesdayExample(m: Medicine, c: Clock, parse: DateParser)
    requires m.frequency == Specific && m.specificDays == Some([0, 2]) && InWindow(m, c, parse)
    ensures IsDue(m, c, parse) <==> c.weekday == 1 || c.weekday == 3
  {
  }

  /** The weekday only matters for `specific` medicines that carry a day list:
      `custom` (whatever its day configurations), `daily` and `alternate` are
      judged the same on every weekday. */
  lemma WeekdayIgnoredWithoutDayList(m: Medicine, c: Clock, parse: DateParser, w: JsWeekday)
    requires !(m.frequency == Specific && m.specificDays.Some?)
    ensures IsDue(m, c, parse) == IsDue(m, c.(weekday := w), parse)
  {
  }

  /** Alternate-day parity counted forward from creation: `k` whole days after
      creation the medicine is due iff `k` is even. */
  lemma {:induction false} AlternateParityForward(m: Medicine, c: Clock, parse: DateParser, k: nat, r: int)
    requires m.frequency == Alternate && InWindow(m, c, parse)
    requires 0 <= r < MsPerDay && c.now == m.createdAt + k * MsPerDay + r
    ensures IsDue(m, c, parse) <==> k % 2 == 0
  {
    assert DaysFromCreation(m, c.now) == k by {
      assert Abs(c.now - m.createdAt) == k * MsPerDay + r;
      DivideExact(k, r);
    }
  }

  /** The parity is symmetric about creation: an instant `k` days and `r`
      milliseconds before creation is judged like the one that far after it. */
  lemma {:induction false} AlternateParitySymmetric(m: Medicine, c: Clock, parse: DateParser, k: nat, r: int)
    requires m.frequency == Alternate && InWindow(m, c, parse)
    requires 0 <= r < MsPerDay && c.now == m.createdAt - k * MsPerDay - r
    ensures IsDue(m, c, parse) <==> k % 2 == 0
  {
    assert DaysFromCreation(m, c.now) == k by {
      assert Abs(c.now - m.createdAt) == k * MsPerDay + r;
      DivideExact(k, r);
    }
  }

  lemma DivideExact(k: nat, r: int)
    requires 0 <= r < MsPerDay
    ensures (k * MsPerDay + r) / MsPerDay == k
  {
  }

  /** From creation on, an `alternate` medicine whose window covers two
      consecutive days is due on exactly one of them. */
  lemma AlternateFlipsEachDay(m: Medicine, c: Clock, parse: DateParser)
    requires m.frequency == Alternate && c.now >= m.createdAt
    requires InWindow(m, c, parse) && InWindow(m, c.(now := c.now + MsPerDay), parse)
    ensures IsDue(m, c, parse) != IsDue(m, c.(now := c.now + MsPerDay), parse)
  {
    var k := (c.now - m.createdAt) / MsPerDay;
    var r := (c.now - m.createdAt) % MsPerDay;
    AlternateParityForward(m, c, parse, k, r);
    AlternateParityForward(m, c.(now := c.now + MsPerDay), parse, k + 1, r);
  }

  /** `generateReminderText`: "Please take {name} ({dosage}) {timing label}".
      A day override's timing always replaces the default; its dosage does only
      when non-empty (JavaScript `||`). */
  function ReminderText(m: Medicine, dayConfig: Option<DayConfig>): (r: string)
    ensures dayConfig.None? ==> r == "Please take " + m.name + " (" + m.dosage + ") " + TimingLabel(m.timing)
  {
    var timing := if dayConfig.Some? then dayConfig.value.timing else m.timing;
    var dosage := if dayConfig.Some? && dayConfig.value.dosage != "" then dayConfig.value.dosage else m.dosage;
    "Please take " + m.name + " (" + dosage + ") " + TimingLabel(timing)
  }

  /** An override produces the text of the medicine with its defaults replaced
      by the override's timing and, when non-empty, by the override's dosage. */
  lemma ReminderTextOverride(m: Medicine, cfg: DayConfig)
    ensures cfg.dosage != "" ==> ReminderText(m, Some(cfg)) == ReminderText(m.(timing := cfg.timing, dosage := cfg.dosage), None)
    ensures cfg.dosage == "" ==> ReminderText(m, Some(cfg)) == ReminderText(m.(timing := cfg.timing), None)
  {
  }
}
