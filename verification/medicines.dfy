/** The entities of the reminder engine: medicines, their schedules and the
    per-day log entries, with the fixed label tables shared by every screen. */
module Medicines {
  import opened Wrappers

  /** The seven meal-relative slots a dose can be tied to. */
  datatype MealTiming =
    | BeforeBreakfast | AfterBreakfast
    | BeforeLunch | AfterLunch
    | BeforeDinner | AfterDinner
    | Bedtime

  /** The string tag the source stores for a timing ("before-breakfast", ...). */
  function TimingKey(t: MealTiming): string {
    match t
    case BeforeBreakfast => "before-breakfast"
    case AfterBreakfast => "after-breakfast"
    case BeforeLunch => "before-lunch"
    case AfterLunch => "after-lunch"
    case BeforeDinner => "before-dinner"
    case AfterDinner => "after-dinner"
    case Bedtime => "bedtime"
  }

  /** Looks a stored tag up in the timing table; None for a tag the table lacks. */
  function ParseTiming(s: string): (r: Option<MealTiming>)
    ensures r.Some? ==> TimingKey(r.value) == s
  {
    if s == "before-breakfast" then Some(BeforeBreakfast)
    else if s == "after-breakfast" then Some(AfterBreakfast)
    else if s == "before-lunch" then Some(BeforeLunch)
    else if s == "after-lunch" then Some(AfterLunch)
    else if s == "before-dinner" then Some(BeforeDinner)
    else if s == "after-dinner" then Some(AfterDinner)
    else if s == "bedtime" then Some(Bedtime)
    else None
  }

  /** Every timing's tag is found again in the table: tags and timings are in
      one-to-one correspondence. */
  lemma ParseTimingKey(t: MealTiming)
    ensures ParseTiming(TimingKey(t)) == Some(t)
  {
  }

  /** TIMING_LABELS: the lower-case phrase shown in reminder texts. */
  function TimingLabel(t: MealTiming): (r: string)
    ensures |r| > 0 && 'a' <= r[0] <= 'z'
  {
    match t
    case BeforeBreakfast => "before breakfast"
    case AfterBreakfast => "after breakfast"
    case BeforeLunch => "before lunch"
    case AfterLunch => "after lunch"
    case BeforeDinner => "before dinner"
    case AfterDinner => "after dinner"
    case Bedtime => "at bedtime"
  }

  /** How often a medicine recurs. */
  datatype Frequency = Daily | Alternate | Specific | Custom

  /** The string tag the source stores for a frequency. */
  function FrequencyKey(f: Frequency): string {
    match f
    case Daily => "daily"
    case Alternate => "alternate"
    case Specific => "specific"
    case Custom => "custom"
  }

  /** A per-weekday override of timing and dosage (weekday Monday = 0). */
  datatype DayConfig = DayConfig(day: int, timing: MealTiming, dosage: string)

  /** A medicine definition. `specificDays` holds weekday numbers with Monday = 0;
      `startDate`/`endDate` are the date strings as entered, None when absent;
      `createdAt` is a millisecond timestamp. */
  datatype Medicine = Medicine(
    id: string,
    name: string,
    dosage: string,
    timing: MealTiming,
    frequency: Frequency,
    specificDays: Option<seq<int>>,
    dayConfigurations: Option<seq<DayConfig>>,
    startDate: Option<string>,
    endDate: Option<string>,
    createdAt: int)

  /** The fields a caller supplies when adding or editing a medicine: exactly the
      keys the add/edit form sends (it never sends `dayConfigurations`). */
  datatype MedicineInput = MedicineInput(
    name: string,
    dosage: string,
    timing: MealTiming,
    frequency: Frequency,
    specificDays: Option<seq<int>>,
    startDate: Option<string>,
    endDate: Option<string>)

  datatype Status = Pending | Taken | Missed | Snoozed

  datatype MissedReason = Forgot | Asleep | Outside | Later

  /** REASON_LABELS: the phrase the history screen shows for a miss reason. */
  function ReasonLabel(r: MissedReason): string {
    match r
    case Forgot => "forgot"
    case Asleep => "was asleep"
    case Outside => "was outside"
    case Later => "will take later"
  }

  /** One dose of one medicine on one day. Name, dosage and timing are copied from
      the medicine when the entry is created; `timestamp` and `snoozeUntil` are
      millisecond timestamps and `date` is the day key of the day it belongs to. */
  datatype LogEntry = LogEntry(
    id: string,
    medicineId: string,
    medicineName: string,
    dosage: string,
    timing: MealTiming,
    reminderText: string,
    status: Status,
    missedReason: Option<MissedReason>,
    timestamp: int,
    date: int,
    snoozeUntil: Option<int>)

  /** DAY_NAMES, indexed by weekday with Monday = 0. */
  const DayNames: seq<string> := ["Monday", "Tuesday", "Wednesday", "Thursday", "Friday", "Saturday", "Sunday"]

  /** Every entry is a weekday number, Monday = 0: an index into DayNames. */
  predicate ValidDays(ds: seq<int>) {
    forall k :: 0 <= k < |ds| ==> 0 <= ds[k] < 7
  }

  /** Milliseconds in a day, `1000 * 60 * 60 * 24`. */
  const MsPerDay: int := 1000 * 60 * 60 * 24

  /** The number of missed entries that raises the caregiver alert. */
  const MissThreshold: nat := 2

  /** Medicine ids are pairwise distinct. */
  predicate DistinctIds(meds: seq<Medicine>) {
    forall i, j :: 0 <= i < j < |meds| ==> meds[i].id != meds[j].id
  }

  predicate HasMedicine(meds: seq<Medicine>, id: string) {
    exists i :: 0 <= i < |meds| && meds[i].id == id
  }
}
