/** The add/edit medicine wizard (components/add-medicine-form.tsx): a step
    machine driven by Next and Back, the weekday toggles, and the request the
    final step sends to the medicine store. */
module AddMedicineForm {
  import opened Wrappers
  import opened Text
  import opened Medicines
  import Catalog

  datatype Step = NameStep | DosageStep | TimingStep | FrequencyStep | DaysStep | DayConfigurationsStep | DatesStep

  /** How far along the wizard a step is; the two optional detail steps share a rank. */
  function Rank(s: Step): nat {
    match s
    case NameStep => 0
    case DosageStep => 1
    case TimingStep => 2
    case FrequencyStep => 3
    case DaysStep => 4
    case DayConfigurationsStep => 4
    case DatesStep => 5
  }

  /** What has been entered so far. Text fields hold what was typed; `timing`
      and `frequency` are None until chosen; the dates are "" when left empty;
      `editingId` is the id of the medicine being edited, None when adding. */
  datatype Entries = Entries(
    name: string,
    dosage: string,
    timing: Option<MealTiming>,
    frequency: Option<Frequency>,
    specificDays: seq<int>,
    dayConfigurations: seq<DayConfig>,
    startDate: string,
    endDate: string,
    editingId: Option<string>)

  /** The component's state: the step on screen and the entries. */
  datatype Form = Form(step: Step, entries: Entries)

  /** The initial state: the first step, with the fields of the medicine being
      edited, or empty fields when adding. */
  function InitForm(editing: Option<Medicine>): Form {
    match editing
    case None => Form(NameStep, Entries("", "", None, None, [], [], "", "", None))
    case Some(m) =>
      Form(NameStep, Entries(m.name, m.dosage, Some(m.timing), Some(m.frequency),
                             m.specificDays.GetOr([]), m.dayConfigurations.GetOr([]),
                             m.startDate.GetOr(""), m.endDate.GetOr(""), Some(m.id)))
  }

  /** What the form hands to the store: `addMedicine(input)` or
      `updateMedicine(id, input)`. */
  datatype Request = AddRequest(input: MedicineInput) | UpdateRequest(id: string, input: MedicineInput)

  /** A request the store can take without surprises: name and dosage are
      non-empty and carry no surrounding whitespace, a day list is present
      exactly for a specific-days medicine, and an empty date is absent rather
      than "". */
  predicate WellFormedInput(i: MedicineInput) {
    && |i.name| > 0 && Trimmed(i.name)
    && |i.dosage| > 0 && Trimmed(i.dosage)
    && (i.specificDays.Some? <==> i.frequency == Specific)
    && i.startDate != Some("") && i.endDate != Some("")
  }

  /** Whether `handleSubmit` goes ahead: a name and a dosage that are not blank
      (`trim()` leaves something, see `Text.Trim`), and a timing and a frequency
      chosen. */
  predicate Submittable(en: Entries) {
    !IsBlank(en.name) && !IsBlank(en.dosage) && en.timing.Some? && en.frequency.Some?
  }

  /** An optional date as sent: `date || undefined`. */
  function DateField(date: string): (r: Option<string>)
    ensures r.None? <==> date == ""
    ensures r.Some? ==> r.value == date
  {
    if date == "" then None else Some(date)
  }

  /** The payload `handleSubmit` builds: the trimmed texts, the day list only for
      a specific-days medicine, empty dates left out and no day configurations. */
  function SubmittedInput(en: Entries): (i: MedicineInput)
    requires Submittable(en)
    ensures WellFormedInput(i)
    ensures i.name == Trim(en.name) && i.dosage == Trim(en.dosage)
    ensures i.timing == en.timing.value && i.frequency == en.frequency.value
    ensures i.specificDays.Some? ==> i.specificDays.value == en.specificDays
    ensures i.startDate == DateField(en.startDate) && i.endDate == DateField(en.endDate)
  {
    MedicineInput(
      Trim(en.name), Trim(en.dosage), en.timing.value, en.frequency.value,
      if en.frequency.value == Specific then Some(en.specificDays) else None,
      DateField(en.startDate), DateField(en.endDate))
  }

  /** `handleSubmit`: nothing unless the entries are submittable; otherwise the
      payload, sent as an update of the edited medicine when editing. */
  function HandleSubmit(en: Entries): (r: Option<Request>)
    ensures r.Some? <==> Submittable(en)
    ensures r.Some? ==> r.value.input == SubmittedInput(en)
    ensures r.Some? ==> (r.value.UpdateRequest? <==> en.editingId.Some?)
    ensures r.Some? && en.editingId.Some? ==> r.value.id == en.editingId.value
  {
    if !Submittable(en) then None
    else
      match en.editingId
      case Some(id) => Some(UpdateRequest(id, SubmittedInput(en)))
      case None => Some(AddRequest(SubmittedInput(en)))
  }

  /** `canProceed`: whether the Next button is enabled on the current step. */
  predicate CanProceed(f: Form) {
    var en := f.entries;
    match f.step
    case NameStep => !IsBlank(en.name)
    case DosageStep => !IsBlank(en.dosage)
    case TimingStep => en.timing.Some?
    case FrequencyStep => en.frequency.Some?
    case DaysStep => |en.specificDays| > 0
    case DayConfigurationsStep => |en.dayConfigurations| > 0
    case DatesStep => true
  }

  /** The result of an interaction: the form stays open in some state, or it is
      closed, or it is closed after sending a request. */
  datatype Outcome = Open(form: Form) | Closed | Submitted(request: Request)

  /** `goNext`: nothing happens while the step cannot proceed; otherwise the
      wizard moves strictly forward, and the last step submits. */
  function GoNext(f: Form): (r: Outcome)
    ensures !CanProceed(f) ==> r == Open(f)
    ensures CanProceed(f) && f.step != DatesStep ==> r.Open? && Rank(r.form.step) > Rank(f.step)
    ensures r.Open? ==> r.form.entries == f.entries && Rank(r.form.step) >= Rank(f.step)
    ensures r.Open? && r.form != f ==> Rank(r.form.step) > Rank(f.step)
    ensures r.Closed? ==> false
    ensures r.Submitted? <==> f.step == DatesStep && HandleSubmit(f.entries).Some?
    ensures r.Submitted? ==> r.request == HandleSubmit(f.entries).value
  {
    if !CanProceed(f) then Open(f)
    else
      match f.step
      case NameStep => Open(Form(DosageStep, f.entries))
      case DosageStep => Open(Form(TimingStep, f.entries))
      case TimingStep => Open(Form(FrequencyStep, f.entries))
      case FrequencyStep =>
        if f.entries.frequency == Some(Specific) then Open(Form(DaysStep, f.entries))
        else if f.entries.frequency == Some(Custom) then Open(Form(DayConfigurationsStep, f.entries))
        else Open(Form(DatesStep, f.entries))
      case DaysStep => Open(Form(DatesStep, f.entries))
      case DayConfigurationsStep => Open(Form(DatesStep, f.entries))
      case DatesStep =>
        match HandleSubmit(f.entries)
        case Some(req) => Submitted(req)
        case None => Open(f)
  }

  /** `goBack`: moves strictly backward, or closes the form from the first step
      and from the day-configurations step (the default branch). */
  function GoBack(f: Form): (r: Outcome)
    ensures r.Submitted? ==> false
    ensures r.Closed? <==> f.step == NameStep || f.step == DayConfigurationsStep
    ensures r.Open? ==> r.form.entries == f.entries && Rank(r.form.step) < Rank(f.step)
  {
    match f.step
    case DosageStep => Open(Form(NameStep, f.entries))
    case TimingStep => Open(Form(DosageStep, f.entries))
    case FrequencyStep => Open(Form(TimingStep, f.entries))
    case DaysStep => Open(Form(FrequencyStep, f.entries))
    case DatesStep =>
      if f.entries.frequency == Some(Specific) then Open(Form(DaysStep, f.entries))
      else Open(Form(FrequencyStep, f.entries))
    case NameStep => Closed
    case DayConfigurationsStep => Closed
  }

  /** No value occurs twice. */
  predicate NoDuplicates(s: seq<int>) {
    forall i, j :: 0 <= i < j < |s| ==> s[i] != s[j]
  }

  /** `s.filter(x => x !== d)`. */
  function Without(s: seq<int>, d: int): (r: seq<int>)
    ensures forall x :: x in r <==> x in s && x != d
    ensures NoDuplicates(s) ==> NoDuplicates(r)
  {
    if |s| == 0 then []
    else if s[0] == d then Without(s[1..], d)
    else
      assert NoDuplicates(s) ==> s[0] !in s[1..];
      [s[0]] + Without(s[1..], d)
  }

  lemma {:induction false} WithoutAbsent(s: seq<int>, d: int)
    requires d !in s
    ensures Without(s, d) == s
  {
    if |s| > 0 {
      assert s[0] != d;
      WithoutAbsent(s[1..], d);
      assert [s[0]] + s[1..] == s;
    }
  }

  lemma {:induction false} WithoutAppend(s: seq<int>, d: int)
    ensures Without(s + [d], d) == Without(s, d)
  {
    if |s| == 0 {
      assert [d][1..] == [];
    } else {
      assert (s + [d])[1..] == s[1..] + [d];
      WithoutAppend(s[1..], d);
    }
  }

  /** `toggleDay`: removes the day when it is selected, appends it otherwise.
      Only the toggled day changes membership, and no duplicate is introduced;
      toggling a weekday keeps a list of weekdays a list of weekdays. */
  function ToggleDay(days: seq<int>, d: int): (r: seq<int>)
    ensures d in r <==> d !in days
    ensures forall x :: x != d ==> (x in r <==> x in days)
    ensures NoDuplicates(days) ==> NoDuplicates(r)
    ensures ValidDays(days) && 0 <= d < 7 ==> ValidDays(r)
  {
    if d in days then
      var r := Without(days, d);
      assert ValidDays(days) ==> ValidDays(r) by {
        forall k | 0 <= k < |r| && ValidDays(days)
          ensures 0 <= r[k] < 7
        {
          assert r[k] in r;
          var j :| 0 <= j < |days| && days[j] == r[k];
        }
      }
      r
    else days + [d]
  }

  /** Toggling a day twice restores the selection; when the day was not selected
      it restores the very same list. */
  lemma ToggleTwice(days: seq<int>, d: int)
    ensures forall x :: x in ToggleDay(ToggleDay(days, d), d) <==> x in days
    ensures d !in days ==> ToggleDay(ToggleDay(days, d), d) == days
  {
    if d !in days {
      WithoutAppend(days, d);
      WithoutAbsent(days, d);
    }
  }

  /** Some configuration is for the given weekday. */
  predicate Configured(cs: seq<DayConfig>, day: int) {
    exists k :: 0 <= k < |cs| && cs[k].day == day
  }

  /** No weekday is configured twice. */
  predicate DistinctDays(cs: seq<DayConfig>) {
    forall i, j :: 0 <= i < j < |cs| ==> cs[i].day != cs[j].day
  }

  /** `prev.filter(c => c.day !== day)`. */
  function WithoutDay(cs: seq<DayConfig>, day: int): (r: seq<DayConfig>)
    ensures forall c :: c in r <==> c in cs && c.day != day
    ensures DistinctDays(cs) ==> DistinctDays(r)
  {
    if |cs| == 0 then []
    else if cs[0].day == day then WithoutDay(cs[1..], day)
    else
      assert DistinctDays(cs) ==> forall c :: c in cs[1..] ==> c.day != cs[0].day;
      [cs[0]] + WithoutDay(cs[1..], day)
  }

  /** The Enabled/Disabled button of a weekday: removes that day's configuration,
      or appends one with the chosen timing (before breakfast when none) and the
      typed dosage ("1 tablet" when empty). Other days' configurations are kept
      and no day ends up configured twice. */
  function ToggleDayConfig(cs: seq<DayConfig>, day: int, timing: Option<MealTiming>, dosage: string): (r: seq<DayConfig>)
    ensures Configured(r, day) <==> !Configured(cs, day)
    ensures forall c :: c in cs && c.day != day ==> c in r
    ensures forall c :: c in r && c.day != day ==> c in cs
    ensures !Configured(cs, day) ==> r[|r| - 1] == DayConfig(day, timing.GetOr(BeforeBreakfast), if dosage == "" then "1 tablet" else dosage)
    ensures DistinctDays(cs) ==> DistinctDays(r)
  {
    if Configured(cs, day) then
      var r := WithoutDay(cs, day);
      assert !Configured(r, day) by {
        forall k | 0 <= k < |r|
          ensures r[k].day != day
        {
          assert r[k] in r;
        }
      }
      r
    else
      var r := cs + [DayConfig(day, timing.GetOr(BeforeBreakfast), if dosage == "" then "1 tablet" else dosage)];
      assert r[|cs|].day == day;
      r
  }

  /** The timing select of a configured weekday: `prev.map(...)` replacing the
      timing of that day's configuration only. */
  function SetConfigTiming(cs: seq<DayConfig>, day: int, t: MealTiming): (r: seq<DayConfig>)
    ensures |r| == |cs|
    ensures forall k :: 0 <= k < |cs| ==> r[k] == if cs[k].day == day then cs[k].(timing := t) else cs[k]
  {
    seq(|cs|, k requires 0 <= k < |cs| => if cs[k].day == day then cs[k].(timing := t) else cs[k])
  }

  /** The dosage input of a configured weekday, likewise. */
  function SetConfigDosage(cs: seq<DayConfig>, day: int, d: string): (r: seq<DayConfig>)
    ensures |r| == |cs|
    ensures forall k :: 0 <= k < |cs| ==> r[k] == if cs[k].day == day then cs[k].(dosage := d) else cs[k]
  {
    seq(|cs|, k requires 0 <= k < |cs| => if cs[k].day == day then cs[k].(dosage := d) else cs[k])
  }

  /** The user's interactions. Each control exists only on its own step, and
      the controls offer only what the screen lists: the frequencies daily,
      alternate and specific (no button chooses custom), and the seven weekdays
      0..6 of DAY_NAMES. An event no control produces changes nothing. */
  datatype Event =
    | Next
    | Back
    | EnterName(name: string)
    | EnterDosage(dosage: string)
    | ChooseTiming(timing: MealTiming)
    | ChooseFrequency(frequency: Frequency)
    | ToggleWeekday(day: int)
    | ToggleConfiguredDay(day: int)
    | ChooseConfigTiming(day: int, timing: MealTiming)
    | EnterConfigDosage(day: int, dosage: string)
    | EnterStartDate(date: string)
    | EnterEndDate(date: string)

  /** The entries after an edit. Each control is shown only on its own step, so
      an edit changes at most the entry of the current step; no edit makes the
      frequency custom, and none puts a day outside the week in the day list. */
  function Edit(f: Form, e: Event): (r: Entries)
    requires !e.Next? && !e.Back?
    ensures r.editingId == f.entries.editingId
    ensures f.step != NameStep ==> r.name == f.entries.name
    ensures f.step != DosageStep ==> r.dosage == f.entries.dosage
    ensures f.step != TimingStep ==> r.timing == f.entries.timing
    ensures f.step != FrequencyStep ==> r.frequency == f.entries.frequency
    ensures f.step != DaysStep ==> r.specificDays == f.entries.specificDays
    ensures f.step != DayConfigurationsStep ==> r.dayConfigurations == f.entries.dayConfigurations
    ensures f.step != DatesStep ==> r.startDate == f.entries.startDate && r.endDate == f.entries.endDate
    ensures r.frequency != Some(Custom) || r.frequency == f.entries.frequency
    ensures ValidDays(f.entries.specificDays) ==> ValidDays(r.specificDays)
  {
    var en := f.entries;
    match e
    case EnterName(s) => if f.step == NameStep then en.(name := s) else en
    case EnterDosage(s) => if f.step == DosageStep then en.(dosage := s) else en
    case ChooseTiming(t) => if f.step == TimingStep then en.(timing := Some(t)) else en
    case ChooseFrequency(q) =>
      if f.step == FrequencyStep && q != Custom then en.(frequency := Some(q)) else en
    case ToggleWeekday(d) =>
      if f.step == DaysStep && 0 <= d < 7 then en.(specificDays := ToggleDay(en.specificDays, d)) else en
    case ToggleConfiguredDay(d) =>
      if f.step == DayConfigurationsStep && 0 <= d < 7
      then en.(dayConfigurations := ToggleDayConfig(en.dayConfigurations, d, en.timing, en.dosage))
      else en
    case ChooseConfigTiming(d, t) =>
      if f.step == DayConfigurationsStep && 0 <= d < 7
      then en.(dayConfigurations := SetConfigTiming(en.dayConfigurations, d, t))
      else en
    case EnterConfigDosage(d, s) =>
      if f.step == DayConfigurationsStep && 0 <= d < 7
      then en.(dayConfigurations := SetConfigDosage(en.dayConfigurations, d, s))
      else en
    case EnterStartDate(s) => if f.step == DatesStep then en.(startDate := s) else en
    case EnterEndDate(s) => if f.step == DatesStep then en.(endDate := s) else en
  }

  /** One interaction: Next, Back, or an edit that keeps the form open on the
      same step. */
  function Handle(f: Form, e: Event): Outcome {
    match e
    case Next => GoNext(f)
    case Back => GoBack(f)
    case _ => Open(Form(f.step, Edit(f, e)))
  }

  /** A sequence of interactions; once the form is closed the rest is ignored. */
  function Run(f: Form, evs: seq<Event>): Outcome
    decreases |evs|
  {
    if |evs| == 0 then Open(f)
    else match Handle(f, evs[0])
      case Open(g) => Run(g, evs[1..])
      case other => other
  }

  /** What every step the user can stand on guarantees about the entries
      gathered before it: a step past the name has a non-blank name, and so on;
      the day list step is reached only for a specific-days medicine and the
      configuration step only for a custom one; and on the last step a
      specific-days medicine has days and a custom one has configurations. */
  predicate Consistent(f: Form) {
    var en := f.entries;
    && (Rank(f.step) >= 1 ==> !IsBlank(en.name))
    && (Rank(f.step) >= 2 ==> !IsBlank(en.dosage))
    && (Rank(f.step) >= 3 ==> en.timing.Some?)
    && (Rank(f.step) >= 4 ==> en.frequency.Some?)
    && (f.step == DaysStep ==> en.frequency == Some(Specific))
    && (f.step == DayConfigurationsStep ==> en.frequency == Some(Custom))
    && (f.step == DatesStep && en.frequency == Some(Specific) ==> |en.specificDays| > 0)
    && (f.step == DatesStep && en.frequency == Some(Custom) ==> |en.dayConfigurations| > 0)
  }

  /** Every interaction keeps the form consistent, and on the last step Next
      always submits. */
  lemma HandleKeepsConsistent(f: Form, e: Event)
    requires Consistent(f)
    ensures Handle(f, e).Open? ==> Consistent(Handle(f, e).form)
    ensures f.step == DatesStep && e == Next ==> Handle(f, e).Submitted?
  {
    if e.Next? {
      NextKeepsConsistent(f);
    } else if !e.Back? {
      EditKeepsConsistent(f, e);
    }
  }

  /** An edit keeps the form consistent: it touches only the current step's
      entry, and consistency speaks only of the entries of earlier steps. */
  lemma EditKeepsConsistent(f: Form, e: Event)
    requires Consistent(f) && !e.Next? && !e.Back?
    ensures Consistent(Form(f.step, Edit(f, e)))
  {
    var g := Edit(f, e);
    if f.step != NameStep {
      assert g.name == f.entries.name;
    }
    if f.step != DosageStep {
      assert g.dosage == f.entries.dosage;
    }
  }

  /** Next keeps the form consistent; on the last step it always submits, and a
      consistent form sends a specific-days medicine with at least one weekday. */
  lemma NextKeepsConsistent(f: Form)
    requires Consistent(f)
    ensures GoNext(f).Open? ==> Consistent(GoNext(f).form)
    ensures f.step == DatesStep ==> GoNext(f).Submitted?
    ensures GoNext(f).Submitted? ==> var i := GoNext(f).request.input;
      i.frequency == Specific ==> |i.specificDays.value| > 0
  {
    if f.step == DatesStep {
      assert Submittable(f.entries);
    }
  }

  /** Only Next on the last step submits, so what a consistent form sends is
      well formed and names a weekday when it is a specific-days medicine. */
  lemma SubmittedByNext(f: Form, e: Event)
    requires Consistent(f) && Handle(f, e).Submitted?
    ensures e == Next && f.step == DatesStep
    ensures var i := Handle(f, e).request.input;
      WellFormedInput(i) && (i.frequency == Specific ==> |i.specificDays.value| > 0)
  {
    NextKeepsConsistent(f);
  }

  /** Every request a session of the wizard sends is well formed, and a
      specific-days medicine is never sent without a weekday. */
  lemma {:induction false} RunSubmitsWellFormed(f: Form, evs: seq<Event>)
    requires Consistent(f)
    ensures Run(f, evs).Open? ==> Consistent(Run(f, evs).form)
    ensures Run(f, evs).Submitted? ==> var i := Run(f, evs).request.input;
      WellFormedInput(i) && (i.frequency == Specific ==> |i.specificDays.value| > 0)
    decreases |evs|
  {
    if |evs| > 0 {
      var o := Handle(f, evs[0]);
      HandleKeepsConsistent(f, evs[0]);
      if o.Open? {
        RunSubmitsWellFormed(o.form, evs[1..]);
      } else if o.Submitted? {
        SubmittedByNext(f, evs[0]);
      }
    }
  }

  /** The controls never choose custom and never leave the week: along any run
      a form that is not custom stays so, and a day list of weekdays stays one,
      up to and including the request it sends. */
  lemma {:induction false} RunStaysOnOffer(f: Form, evs: seq<Event>)
    ensures Run(f, evs).Open? && f.entries.frequency != Some(Custom) ==>
      Run(f, evs).form.entries.frequency != Some(Custom)
    ensures Run(f, evs).Open? && ValidDays(f.entries.specificDays) ==>
      ValidDays(Run(f, evs).form.entries.specificDays)
    ensures Run(f, evs).Submitted? && f.entries.frequency != Some(Custom) ==>
      Run(f, evs).request.input.frequency != Custom
    ensures Run(f, evs).Submitted? && ValidDays(f.entries.specificDays) ==>
      var d := Run(f, evs).request.input.specificDays; d.Some? ==> ValidDays(d.value)
    decreases |evs|
  {
    if |evs| > 0 {
      var o := Handle(f, evs[0]);
      if o.Open? {
        assert o.form.entries.frequency != Some(Custom) || o.form.entries.frequency == f.entries.frequency;
        assert ValidDays(f.entries.specificDays) ==> ValidDays(o.form.entries.specificDays);
        RunStaysOnOffer(o.form, evs[1..]);
      }
    }
  }

  /** A fresh wizard, for adding or for editing, starts consistent, so the
      guarantees of `RunSubmitsWellFormed` hold for every session. A new
      medicine is never custom and lists only weekdays 0..6; an edited one
      lists only weekdays when the stored medicine did. */
  lemma SessionSubmitsWellFormed(editing: Option<Medicine>, evs: seq<Event>)
    ensures Run(InitForm(editing), evs).Submitted? ==> var i := Run(InitForm(editing), evs).request.input;
      WellFormedInput(i) && (i.frequency == Specific ==> |i.specificDays.value| > 0)
    ensures Run(InitForm(editing), evs).Submitted? && editing.None? ==> var i := Run(InitForm(editing), evs).request.input;
      i.frequency != Custom && (i.specificDays.Some? ==> ValidDays(i.specificDays.value))
    ensures Run(InitForm(editing), evs).Submitted? && editing.Some? && ValidDays(editing.value.specificDays.GetOr([])) ==>
      var d := Run(InitForm(editing), evs).request.input.specificDays; d.Some? ==> ValidDays(d.value)
  {
    RunSubmitsWellFormed(InitForm(editing), evs);
    RunStaysOnOffer(InitForm(editing), evs);
  }

  /** Back undoes Next, except on the custom path: from the configuration step
      Back closes the form, and from the last step it skips back past the
      configurations to the frequency step. */
  lemma BackAfterNext(f: Form)
    requires Consistent(f) && f.step != DatesStep && CanProceed(f)
    ensures GoNext(f).Open?
    ensures f.step != DayConfigurationsStep && GoNext(f).form.step != DayConfigurationsStep ==>
      GoBack(GoNext(f).form) == Open(f)
    ensures GoNext(f).form.step == DayConfigurationsStep ==> GoBack(GoNext(f).form) == Closed
    ensures f.step == DayConfigurationsStep ==> GoBack(GoNext(f).form) == Open(Form(FrequencyStep, f.entries))
  {
  }

  /** `addMedicine` or `updateMedicine` on the store, with the fresh id and
      creation instant an add needs. */
  function Apply(meds: seq<Medicine>, req: Request, id: string, createdAt: int): seq<Medicine> {
    match req
    case AddRequest(input) => Catalog.AddMedicine(meds, input, id, createdAt)
    case UpdateRequest(target, input) => Catalog.UpdateMedicine(meds, target, input)
  }

  /** Presses of Next that walk the edit wizard from the first step to
      submission for a medicine of the given frequency. */
  function NextPresses(q: Frequency): seq<Event> {
    if q == Specific || q == Custom then [Next, Next, Next, Next, Next, Next]
    else [Next, Next, Next, Next, Next]
  }

  /** A stored medicine the editor sends back unchanged: its texts are already
      trimmed and non-empty, its empty dates absent, its day list present exactly
      when it is a specific-days medicine, and the detail step of its frequency
      has something to proceed with. */
  predicate Resubmittable(m: Medicine) {
    && |m.name| > 0 && Trimmed(m.name)
    && |m.dosage| > 0 && Trimmed(m.dosage)
    && m.startDate != Some("") && m.endDate != Some("")
    && (m.specificDays.Some? <==> m.frequency == Specific)
    && (m.frequency == Specific ==> |m.specificDays.value| > 0)
    && (m.frequency == Custom ==> m.dayConfigurations.Some? && |m.dayConfigurations.value| > 0)
  }

  /** An optional date survives the form's round trip through "" when it is
      not itself "". */
  lemma DateFieldRoundTrip(d: Option<string>)
    requires d != Some("")
    ensures DateField(d.GetOr("")) == d
  {
  }

  /** The editor's entries for such a medicine submit its own fields. */
  lemma InitEntriesResubmit(m: Medicine)
    requires Resubmittable(m)
    ensures HandleSubmit(InitForm(Some(m)).entries) == Some(UpdateRequest(m.id, Catalog.InputOf(m)))
    ensures WalkReady(InitForm(Some(m)).entries)
  {
    var en := InitForm(Some(m)).entries;
    TrimFixesTrimmed(m.name);
    TrimFixesTrimmed(m.dosage);
    assert !IsBlank(m.name) && !IsBlank(m.dosage) by {
      assert !IsWhitespace(m.name[0]) && !IsWhitespace(m.dosage[0]);
    }
    var i := SubmittedInput(en);
    assert i.name == m.name && i.dosage == m.dosage;
    assert i.specificDays == m.specificDays;
    DateFieldRoundTrip(m.startDate);
    DateFieldRoundTrip(m.endDate);
    assert i == Catalog.InputOf(m);
  }

  /** Pressing Next where it moves the form on. */
  lemma RunNext(f: Form, evs: seq<Event>)
    requires |evs| > 0 && evs[0] == Next && GoNext(f).Open?
    ensures Run(f, evs) == Run(GoNext(f).form, evs[1..])
  {
  }

  /** Entries with which every step of the wizard can proceed. */
  predicate WalkReady(en: Entries) {
    && Submittable(en)
    && (en.frequency == Some(Specific) ==> |en.specificDays| > 0)
    && (en.frequency == Some(Custom) ==> |en.dayConfigurations| > 0)
  }

  /** With every step able to proceed, the Next presses for the chosen
      frequency walk the wizard from the first step to the last step's Next. */
  lemma WalkToDates(en: Entries)
    requires WalkReady(en)
    ensures Run(Form(NameStep, en), NextPresses(en.frequency.value)) == GoNext(Form(DatesStep, en))
  {
    var evs := NextPresses(en.frequency.value);
    RunNext(Form(NameStep, en), evs);
    RunNext(Form(DosageStep, en), evs[1..]);
    assert evs[1..][1..] == evs[2..];
    RunNext(Form(TimingStep, en), evs[2..]);
    assert evs[2..][1..] == evs[3..];
    RunNext(Form(FrequencyStep, en), evs[3..]);
    var after := GoNext(Form(FrequencyStep, en)).form;
    if after.step != DatesStep {
      RunNext(after, evs[4..]);
      assert evs[3..][1..] == evs[4..] && evs[4..][1..] == [Next];
    } else {
      assert evs[3..][1..] == [Next];
    }
  }

  /** Opening a stored medicine in the editor and pressing Next through to the
      end sends its own fields back, and the store is left exactly as it was. */
  lemma EditWithoutChangesIsNoOp(meds: seq<Medicine>, i: nat, newId: string, now: int)
    requires DistinctIds(meds) && i < |meds| && Resubmittable(meds[i])
    ensures var m := meds[i];
      Run(InitForm(Some(m)), NextPresses(m.frequency)) == Submitted(UpdateRequest(m.id, Catalog.InputOf(m)))
    ensures var m := meds[i];
      Apply(meds, Run(InitForm(Some(m)), NextPresses(m.frequency)).request, newId, now) == meds
  {
    var m := meds[i];
    EditRunSubmitsOwnFields(m);
    Catalog.UpdateWithOwnFieldsIsIdentity(meds, i);
  }

  /** The first half of `EditWithoutChangesIsNoOp`: the run's outcome. */
  lemma EditRunSubmitsOwnFields(m: Medicine)
    requires Resubmittable(m)
    ensures Run(InitForm(Some(m)), NextPresses(m.frequency)) == Submitted(UpdateRequest(m.id, Catalog.InputOf(m)))
  {
    var en := InitForm(Some(m)).entries;
    assert InitForm(Some(m)) == Form(NameStep, en) && en.frequency == Some(m.frequency);
    InitEntriesResubmit(m);
    WalkToDates(en);
  }
}
