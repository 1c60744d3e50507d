/** The medicine list screen (components/medicine-list.tsx): the frequency label,
    the status colour of each card and the capitalised timing line. */
module MedicineList {
  import opened Wrappers
  import opened Text
  import opened Medicines
  import opened Lifecycle
  import Adherence
  import AddMedicineForm

  /** `DAY_NAMES[d].slice(0, 3)`. */
  function DayAbbrev(d: int): (r: string)
    requires 0 <= d < 7
    ensures |r| == 3
  {
    DayNames[d][..3]
  }

  /** The abbreviations of a day list, in stored order. */
  function Abbrevs(ds: seq<int>): (r: seq<string>)
    requires ValidDays(ds)
    ensures |r| == |ds|
    ensures forall k :: 0 <= k < |ds| ==> r[k] == DayAbbrev(ds[k])
  {
    seq(|ds|, k requires 0 <= k < |ds| => DayAbbrev(ds[k]))
  }

  /** `getFrequencyLabel`. None stands for the TypeError the source raises when a
      listed day has no entry in DAY_NAMES (`undefined.slice`). */
  function FrequencyLabel(f: Frequency, days: Option<seq<int>>): (r: Option<string>)
    ensures f == Daily ==> r == Some("Every day")
    ensures f == Alternate ==> r == Some("Alternate days")
    ensures f == Custom ==> r == Some("custom")
    ensures f == Specific && (days.None? || |days.value| == 0) ==> r == Some("Specific days")
    ensures r.None? <==> f == Specific && days.Some? && |days.value| > 0 && !ValidDays(days.value)
    ensures f == Specific && days.Some? && |days.value| > 0 && ValidDays(days.value) ==>
      r == Some(Join(Abbrevs(days.value), ", "))
  {
    match f
    case Daily => Some("Every day")
    case Alternate => Some("Alternate days")
    case Custom => Some(FrequencyKey(Custom))
    case Specific =>
      if days.None? || |days.value| == 0 then Some("Specific days")
      else if ValidDays(days.value) then Some(Join(Abbrevs(days.value), ", "))
      else None
  }

  /** Reads a three-letter abbreviation back as a weekday number. */
  function DayOfAbbrev(s: string): (r: Option<int>)
    ensures r.Some? ==> 0 <= r.value < 7 && DayAbbrev(r.value) == s
  {
    if s == "Mon" then Some(0)
    else if s == "Tue" then Some(1)
    else if s == "Wed" then Some(2)
    else if s == "Thu" then Some(3)
    else if s == "Fri" then Some(4)
    else if s == "Sat" then Some(5)
    else if s == "Sun" then Some(6)
    else None
  }

  /** The weekday abbreviations are pairwise distinct, so each one names its day. */
  lemma AbbrevRoundTrip(d: int)
    requires 0 <= d < 7
    ensures DayOfAbbrev(DayAbbrev(d)) == Some(d)
  {
    assert DayNames[d][..3] == ["Mon", "Tue", "Wed", "Thu", "Fri", "Sat", "Sun"][d];
  }

  /** Parses a text of the form "Mon, Wed, Fri" back into its day list; None for
      any text that is not such a list. */
  function DecodeDays(text: string): (r: Option<seq<int>>)
    ensures r.Some? ==> |r.value| > 0 && ValidDays(r.value) && |text| >= 3
    decreases |text|
  {
    if |text| < 3 then None
    else match DayOfAbbrev(text[..3])
      case None => None
      case Some(d) =>
        if |text| == 3 then Some([d])
        else if |text| > 5 && text[3..5] == ", " then
          match DecodeDays(text[5..])
          case None => None
          case Some(rest) => Some([d] + rest)
        else None
  }

  /** The specific-days label loses nothing: the day list, order and repeats
      included, is read back from it. */
  lemma {:induction false} DayListRoundTrip(ds: seq<int>)
    requires |ds| > 0 && ValidDays(ds)
    ensures DecodeDays(Join(Abbrevs(ds), ", ")) == Some(ds)
  {
    var parts := Abbrevs(ds);
    AbbrevRoundTrip(ds[0]);
    if |ds| == 1 {
      assert Join(parts, ", ") == DayAbbrev(ds[0]);
      assert [ds[0]] == ds;
    } else {
      assert parts[1..] == Abbrevs(ds[1..]);
      DayListRoundTrip(ds[1..]);
      DecodeStep(ds[0], Join(parts[1..], ", "), ds[1..]);
      assert [ds[0]] + ds[1..] == ds;
    }
  }

  /** One weekday abbreviation in front of a day list's label. */
  lemma DecodeStep(d: int, tail: string, rest: seq<int>)
    requires 0 <= d < 7 && DayOfAbbrev(DayAbbrev(d)) == Some(d)
    requires DecodeDays(tail) == Some(rest)
    ensures DecodeDays(DayAbbrev(d) + ", " + tail) == Some([d] + rest)
  {
    var text := DayAbbrev(d) + ", " + tail;
    assert text[..3] == DayAbbrev(d);
    assert text[3..5] == ", ";
    assert text[5..] == tail;
  }

  /** The label tells a day list apart from every other case: a day list is read
      back from a non-empty specific-days label, and from no other label. */
  lemma LabelIdentifiesDays(f: Frequency, days: Option<seq<int>>)
    requires FrequencyLabel(f, days).Some?
    ensures f == Specific && days.Some? && |days.value| > 0 ==>
      DecodeDays(FrequencyLabel(f, days).value) == days
    ensures !(f == Specific && days.Some? && |days.value| > 0) ==>
      DecodeDays(FrequencyLabel(f, days).value).None?
  {
    if f == Specific && days.Some? && |days.value| > 0 {
      DayListRoundTrip(days.value);
    } else {
      match f
      case Daily => NotADayList("Every day", "Eve");
      case Alternate => NotADayList("Alternate days", "Alt");
      case Custom => NotADayList(FrequencyKey(Custom), "cus");
      case Specific => NotADayList("Specific days", "Spe");
    }
  }

  /** A text whose first three letters abbreviate no weekday is no day list. */
  lemma NotADayList(text: string, head: string)
    requires |text| >= 3 && head == text[..3] && DayOfAbbrev(head).None?
    ensures DecodeDays(text).None?
  {
  }

  /** Two different non-empty day lists never share a label. */
  lemma DistinctDayListsDistinctLabels(a: seq<int>, b: seq<int>)
    requires |a| > 0 && |b| > 0 && ValidDays(a) && ValidDays(b)
    requires FrequencyLabel(Specific, Some(a)) == FrequencyLabel(Specific, Some(b))
    ensures a == b
  {
    DayListRoundTrip(a);
    DayListRoundTrip(b);
  }

  /** A medicine added through the form always has a label: the TypeError needs
      a listed day outside the week, and the form offers only the seven
      weekdays. */
  lemma FormAddedMedicineHasLabel(evs: seq<AddMedicineForm.Event>)
    ensures var o := AddMedicineForm.Run(AddMedicineForm.InitForm(None), evs);
      o.Submitted? ==> FrequencyLabel(o.request.input.frequency, o.request.input.specificDays).Some?
  {
    AddMedicineForm.SessionSubmitsWellFormed(None, evs);
  }

  /** The left-border class of a medicine card. */
  datatype BorderColor = SuccessBorder | WarningBorder | DestructiveBorder

  /** The colour the history screen's status maps to. */
  function ColorOf(s: Adherence.AdherenceStatus): BorderColor {
    match s
    case Good => SuccessBorder
    case Warning => WarningBorder
    case Alert => DestructiveBorder
  }

  /** `getStatusColor`: from the medicine's missed count. The card turns
      destructive exactly when the caregiver alert threshold is reached, shows
      success exactly when no dose of it is logged as missed, and always agrees
      with the status the history screen gives the same medicine. */
  function StatusColor(logs: seq<LogEntry>, medId: string): (r: BorderColor)
    ensures r == DestructiveBorder <==> MissedCount(logs, medId) >= MissThreshold
    ensures r == SuccessBorder <==>
      forall i :: 0 <= i < |logs| ==> logs[i].medicineId != medId || logs[i].status != Missed
    ensures r == ColorOf(Adherence.StatusOf(MissedCount(logs, medId)))
  {
    var missed := MissedCount(logs, medId);
    if missed == 0 then SuccessBorder
    else if missed == 1 then WarningBorder
    else DestructiveBorder
  }

  /** The timing line of a card: the timing phrase with its first letter
      upper-cased. It is the same text the history screen shows for the stored
      timing key, and lower-casing its first letter gives the phrase back. */
  function DisplayTiming(t: MealTiming): (r: string)
    ensures Adherence.GetTimingLabel(TimingKey(t)) == Some(r)
    ensures |r| > 0 && 'A' <= r[0] <= 'Z' && [ToLower(r[0])] + r[1..] == TimingLabel(t)
  {
    ParseTimingKey(t);
    CapitalizeInvertible(TimingLabel(t));
    Capitalize(TimingLabel(t))
  }
}
