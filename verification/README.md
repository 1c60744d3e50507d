# Medication reminder engine, in Dafny

This project models the core of a medication-reminder web app. The app keeps a
catalogue of medicines and decides each day which of them are due. For every
due medicine it writes one pending log entry per day. The user then takes,
snoozes or misses each dose. When a medicine has two missed entries, the app
alerts a caregiver. Two screens read the log: the medicine list and the
adherence history. The history screen shows the ten newest entries, a status
per medicine and a caregiver summary with one line per medicine. A step-by-step
form adds medicines and edits them.

The modules follow the app's files:

| module | models |
|---|---|
| `Medicines` | the entities of `lib/medicine-context.tsx`: medicine, log entry, timing tags, `TIMING_LABELS`, `DAY_NAMES` |
| `Schedule` | `shouldShowToday` and `generateReminderText` |
| `Catalog` | `addMedicine`, `updateMedicine`, `removeMedicine` |
| `Materializer` | the daily-reminder effect that writes one entry per due medicine and day |
| `Lifecycle` | `markAsTaken`, `snoozeReminder` and its expiry, `markAsMissed` with the alert, and the queries |
| `Engine` | the whole store as one value; every operation is one step; an end-to-end scenario |
| `Adherence` | `components/adherence-log.tsx`: recent activity, status, caregiver summary |
| `MedicineList` | `components/medicine-list.tsx`: frequency label, status colour, timing line |
| `AddMedicineForm` | `components/add-medicine-form.tsx`: the wizard, its submission, the day toggles |
| `Text`, `Wrappers` | JavaScript `trim`, `toUpperCase`, number rendering and `join`; `Option` |

The environment becomes explicit parameters:
- Time is a `Clock`: the instant in milliseconds, a day key standing for `toDateString()`, and the weekday from `getDay()`.
- Date strings are read by a `DateParser` parameter. It returns `None` for an invalid date.
- The `Date.now()` used in ids is passed in: the medicine id, the `stamp` in log ids, and `createdAt`.
- The daily-reminder effect and the snooze timer become actions the caller performs (`Engine.Refresh`, `Engine.ExpireEntry`). The app re-runs the effect on mount and after every change to the catalogue or the log, never on a timer. A refresh may come at any point, which covers every moment the effect actually runs.

Where the app's intended behaviour and the code disagree, the model follows the code:
- A `custom` medicine is due on every day of its window. The code does not look at its day configurations.
- The reminder text never uses a day configuration. The materializer calls `generateReminderText` without one.
- The form never submits `dayConfigurations`, and its frequency buttons offer only daily, alternate and specific. A new medicine is therefore never custom. Editing a stored custom medicine still walks through the day-configurations step, and the update keeps the stored configurations.
- The one-minute `BackgroundMonitoringService` (lines 6-25 of `lib/medicine-context.tsx`) is created and never started. It is dead code. A day change while the app stays open creates no entries until the catalogue or the log changes.
- The lifecycle operations do not check the current status. A taken or missed entry can be snoozed or marked again.
- Snooze expiry does not compare the clock with `snoozeUntil`.
- `snoozeUntil` is set ten minutes ahead, while the code's timer fires after ten seconds.
- The caregiver alert counts every missed entry of the medicine, not consecutive misses.
- The end date is compared as an instant. It denotes midnight at the start of that day, so the medicine is not due later on the end day.
- Back from the day-configurations step closes the form, through the `default` branch of `goBack`.

## Model

| member | source | states |
|---|---|---|
| Medicines.ParseTimingKey | lib/medicine-context.tsx:27-34 | reading a timing tag's key gives the tag back, so distinct tags have distinct keys |
| Medicines.TimingLabel | lib/medicine-context.tsx:92-100 | every timing label is non-empty and starts with a lower-case letter |
| Schedule.WeekdayIndex | lib/medicine-context.tsx:107-109 | the adjusted day is in 0..6 and is one less, modulo 7, than the JavaScript weekday |
| Schedule.WeekdayNumberingsInverse | lib/medicine-context.tsx:107-109 | the Monday-first and Sunday-first numberings are mutually inverse |
| Schedule.IsDue | lib/medicine-context.tsx:104-138 | a due medicine is inside its window; inside the window every medicine is due except an alternate-day one and a specific-days one with a day list |
| Schedule.SpecificDaysRule | lib/medicine-context.tsx:133-135 | a specific-days medicine with a day list is due exactly when it is in its window and some listed entry names today's JavaScript weekday |
| Schedule.MondayWednesdayExample | lib/medicine-context.tsx:133-135 | with days [0, 2] the medicine is due exactly on JavaScript weekdays 1 and 3 |
| Schedule.WeekdayIgnoredWithoutDayList | lib/medicine-context.tsx:122-137 | without a specific-days list the weekday never changes whether a medicine is due |
| Schedule.AlternateParityForward | lib/medicine-context.tsx:126-131 | k whole days after creation an alternate-day medicine is due exactly when k is even |
| Schedule.AlternateParitySymmetric | lib/medicine-context.tsx:126-131 | k whole days before creation the same parity rule holds, because of the absolute difference |
| Schedule.AlternateFlipsEachDay | lib/medicine-context.tsx:126-131 | after creation, an alternate-day medicine changes between due and not due from one day to the next |
| Schedule.ReminderText | lib/medicine-context.tsx:140-145 | without a day configuration the text is "Please take {name} ({dosage}) {timing label}" |
| Schedule.ReminderTextOverride | lib/medicine-context.tsx:140-145 | a day configuration replaces the timing, and replaces the dosage only when its dosage is not empty |
| Catalog.AddMedicine | lib/medicine-context.tsx:206-213 | appends one medicine with the given id, creation time and input fields and no day configurations, and keeps the others in place |
| Catalog.AddKeepsIdsDistinct | lib/medicine-context.tsx:206-213 | adding under an unused id keeps medicine ids distinct |
| Catalog.UpdateMedicine | lib/medicine-context.tsx:215-223 | the medicine with the id takes the input's fields and keeps its id, creation time and day configurations; every other medicine is unchanged and in place |
| Catalog.UpdateWithOwnFieldsIsIdentity | lib/medicine-context.tsx:215-223 | updating a medicine with its own fields leaves the catalogue unchanged |
| Catalog.UpdateKeepsIdsDistinct | lib/medicine-context.tsx:215-223 | an update keeps medicine ids distinct |
| Catalog.WithoutMedicine | lib/medicine-context.tsx:226 | keeps exactly the medicines with another id |
| Catalog.WithoutLogsOf | lib/medicine-context.tsx:227 | keeps exactly the entries of other medicines |
| Catalog.RemoveMedicine | lib/medicine-context.tsx:225-228 | the medicine and every entry of it are gone; every other medicine and entry stays |
| Catalog.WithoutMedicineDistributes | lib/medicine-context.tsx:226 | filtering a concatenation filters each part |
| Catalog.WithoutLogsOfDistributes | lib/medicine-context.tsx:227 | filtering a concatenation filters each part |
| Catalog.RemoveUnknownIsIdentity | lib/medicine-context.tsx:225-228 | removing an id that nothing carries changes nothing |
| Catalog.WithoutMedicineKeepsIdsDistinct | lib/medicine-context.tsx:226 | removal keeps medicine ids distinct |
| Materializer.NewEntry | lib/medicine-context.tsx:190-200 | a new entry is a pending copy of the medicine's name, dosage and timing for today, with its reminder text and no reason or snooze time |
| Materializer.FreshEntries | lib/medicine-context.tsx:179-203 | every created entry belongs to a catalogue medicine that is due and has no entry today; every such medicine gets one |
| Materializer.Materialize | lib/medicine-context.tsx:176-204 | the existing log is kept as a prefix, and afterwards every due medicine has an entry for today |
| Materializer.MaterializeIdempotent | lib/medicine-context.tsx:183-189 | a second pass on the same day adds nothing |
| Materializer.NothingFreshWhenAllLogged | lib/medicine-context.tsx:183-189 | when every due medicine already has today's entry, nothing is created |
| Materializer.CreatedForCatalogue | lib/medicine-context.tsx:179-203 | every created entry refers to a catalogue medicine |
| Materializer.FreshEntriesDistinctMedicines | lib/medicine-context.tsx:179-203 | with distinct medicine ids, no two created entries share a medicine |
| Materializer.CreatedEntriesAreNew | lib/medicine-context.tsx:183-189 | every created entry is for today, and its medicine had no entry today |
| Materializer.MaterializeKeepsOnePerDay | lib/medicine-context.tsx:176-204 | at most one entry per medicine and day before a pass means the same after it |
| Materializer.NoEntryUnlessNeeded | lib/medicine-context.tsx:181-189 | a medicine that is not due, or already logged today, gets no new entry |
| Materializer.DueMedicineHasExactlyOneEntry | lib/medicine-context.tsx:176-204 | after a pass, a due medicine has exactly one entry for today |
| Lifecycle.ApplyTo | lib/medicine-context.tsx:232-233 | the update applies to the entries with the id and leaves every other entry unchanged and in place |
| Lifecycle.ApplyToUnknown | lib/medicine-context.tsx:232-233 | an id no entry carries changes nothing |
| Lifecycle.MarkAsTaken | lib/medicine-context.tsx:230-236 | the matching entries become taken and take the new time; nothing else changes |
| Lifecycle.Snooze | lib/medicine-context.tsx:238-249 | the matching entries become snoozed until ten minutes later; nothing else changes |
| Lifecycle.ExpireSnooze | lib/medicine-context.tsx:251-259 | snoozed matching entries go back to pending without a snooze time; all other entries are unchanged |
| Lifecycle.SnoozeRoundTrip | lib/medicine-context.tsx:238-259 | a snooze followed by its expiry restores a pending entry exactly |
| Lifecycle.ExpiryAfterSettlingIsNoOp | lib/medicine-context.tsx:251-259 | an expiry after the entry is taken or missed changes nothing |
| Lifecycle.ExpiryOfRemovedEntryIsNoOp | lib/medicine-context.tsx:251-259 | an expiry for an entry no longer in the log changes nothing |
| Lifecycle.MarkedMissed | lib/medicine-context.tsx:264-266 | the matching entries become missed with the reason; nothing else changes |
| Lifecycle.FindLog | lib/medicine-context.tsx:269 | the first entry with the id, and None exactly when there is none |
| Lifecycle.MissedCount | lib/medicine-context.tsx:290-292 | at most the log's length, and zero exactly when no entry of the medicine is missed |
| Lifecycle.MissedCountAppend | lib/medicine-context.tsx:290-292 | the count over a concatenation is the sum of the counts |
| Lifecycle.MissRaisesCountByOne | lib/medicine-context.tsx:262-283 | missing a not-yet-missed entry raises its medicine's count by one and leaves every other medicine's count unchanged |
| Lifecycle.MarkAsMissed | lib/medicine-context.tsx:262-283 | the log update; with an unknown id, nothing changes; otherwise the alert is raised for the entry's medicine name exactly when that medicine reaches two misses, and is left as it was otherwise |
| Lifecycle.PendingReminders | lib/medicine-context.tsx:285-288 | exactly the pending entries of the given day |
| Lifecycle.MissedLogs | lib/medicine-context.tsx:294-296 | exactly the missed entries |
| Lifecycle.PendingRemindersDistributes | lib/medicine-context.tsx:285-288 | the pending query is a filter that keeps order and multiplicity: one entry is kept exactly when it is pending for the day, and a concatenation is filtered part by part |
| Lifecycle.MissedLogsDistributes | lib/medicine-context.tsx:294-296 | the missed query is a filter that keeps order and multiplicity, in the same two clauses |
| Lifecycle.MissedLogsKeepCount | lib/medicine-context.tsx:290-296 | counting among the missed entries gives the same per-medicine count |
| Lifecycle.DismissCaregiverAlert | lib/medicine-context.tsx:298-301 | the alert is hidden and its name cleared |
| Engine.StepKeepsValid | lib/medicine-context.tsx:176-301 | every operation keeps medicine ids distinct and keeps at most one entry per medicine and day, given an unused id for an add |
| Engine.RunKeepsValid | lib/medicine-context.tsx:176-301 | the uniqueness rule holds after every sequence of such operations |
| Engine.FilterKeepsOnePerDay | lib/medicine-context.tsx:227 | the cascade delete keeps at most one entry per medicine and day |
| Engine.SameKeysKeepOnePerDay | lib/medicine-context.tsx:230-283 | status updates, which keep medicine and day, keep the rule |
| Engine.RefreshFeedsPendingReminders | lib/medicine-context.tsx:176-204 | every entry a refresh creates appears among that day's pending reminders |
| Engine.AspirinScenario | lib/medicine-context.tsx:176-283 | an Aspirin medicine taken daily after breakfast gets one pending reminder with the expected text; one miss gives count 1 and no alert; a second miss on the next day gives count 2 and an alert for "Aspirin" |
| Adherence.InsertNewestFirst | components/adherence-log.tsx:16-18 | inserting into a newest-first list keeps it newest first and adds one element, and no element is newer than both the new one and the old head |
| Adherence.InsertNewestIsPermutation | components/adherence-log.tsx:16-18 | insertion adds exactly the new element |
| Adherence.InsertKeepsTies | components/adherence-log.tsx:16-18 | among entries with one timestamp, the inserted entry goes first and the others keep their order |
| Adherence.SortedLogs | components/adherence-log.tsx:16-18 | the sort is newest first, a permutation, and stable |
| Adherence.RecentActivity | components/adherence-log.tsx:206 | at most ten entries, all of them when there are fewer; newest first; taken from the log; no entry left out is newer than one shown |
| Adherence.NewestPrefix | components/adherence-log.tsx:206 | a prefix of a newest-first permutation keeps the newest entries |
| Adherence.StatusOf | components/adherence-log.tsx:76-77 | good exactly at zero misses, warning exactly at one, alert exactly from the alert threshold on |
| Adherence.MedicineSummary | components/adherence-log.tsx:71-79 | one row per medicine in catalogue order, with its missed count; alert exactly when the threshold is reached, good exactly when nothing is missed |
| Adherence.TimingTagsAreOwnKeys | lib/medicine-context.tsx:92-100 | no timing tag is a property name every object inherits |
| Adherence.GetTimingLabel | components/adherence-log.tsx:62-68 | fails exactly for an inherited property name, which finds a truthy value with no `charAt`; a known timing tag gives its label with the first letter upper-cased, and lower-casing it gives the label back; any other string is shown as it is |
| Adherence.GroupByNameCorrect | components/adherence-log.tsx:86-97 | one group per distinct medicine name, in order of first appearance, each with the count, the first entry's timing and the recorded reasons of that name |
| Adherence.AbsentNameCountsNothing | components/adherence-log.tsx:89-96 | a name that does not occur has no count and no reasons |
| Adherence.MostCommonReason | components/adherence-log.tsx:101-105 | None exactly when no reason was recorded; otherwise a recorded reason that no other reason outnumbers |
| Adherence.SortByFrequency | components/adherence-log.tsx:102-104 | the reasons ordered by ascending frequency, with the same length |
| Adherence.SortIsPermutation | components/adherence-log.tsx:102-104 | that sort is a permutation |
| Adherence.MostCommonIsSortThenPop | components/adherence-log.tsx:101-105 | the chosen reason is the last one after the stable ascending sort by frequency, as `pop` returns it |
| Adherence.OwnNamed | components/adherence-log.tsx:89-93 | keeps exactly the entries whose medicine name is not an inherited property name, since only those get a group of their own |
| Adherence.OwnNamedKeepsOrdinaryNames | components/adherence-log.tsx:89-93 | with no inherited name among the entries, every entry is kept |
| Adherence.CaregiverSummary | components/adherence-log.tsx:82-113 | nothing exactly when nothing is missed; a TypeError exactly when a missed entry with an inherited name records a reason; otherwise one line per group of the missed entries with ordinary names, in group order |
| Adherence.InheritedNamesGetNoLine | components/adherence-log.tsx:89-99 | no group, and so no line, is ever named after an inherited property |
| Adherence.OrdinaryNamesAllGrouped | components/adherence-log.tsx:89-99 | when no entry has an inherited name, every missed entry goes into a group |
| Adherence.SummaryExample | components/adherence-log.tsx:99-112 | two Aspirin misses, forgot and then asleep, read "Aspirin missed 2 times (after breakfast) - usually was asleep" |
| Adherence.ExampleMostCommon | components/adherence-log.tsx:101-105 | for the reasons forgot then asleep, each recorded once, the tie goes to asleep, the later one |
| Text.Trim | components/add-medicine-form.tsx:29-34 | the piece of the input from its first non-whitespace character, followed only by whitespace; neither end is whitespace; empty exactly when the input is blank |
| Text.TrimFixesTrimmed | components/add-medicine-form.tsx:33-34 | trimming leaves a string unchanged exactly when it has no whitespace at either end |
| Text.TrimIdempotent | components/add-medicine-form.tsx:33-34 | trimming twice is trimming once |
| Text.CapitalizeInvertible | components/medicine-list.tsx:74 | upper-casing a lower-case first letter can be undone |
| Text.NatToString | components/adherence-log.tsx:107 | decimal digits, no leading zero, one digit exactly below ten |
| Text.NatToStringRoundTrip | components/adherence-log.tsx:107 | reading the digits back gives the number |
| Text.Join | components/medicine-list.tsx:23 | empty for no parts; otherwise as long as the parts plus one separator between neighbours, starting with the first part and ending with the last |
| MedicineList.FrequencyLabel | components/medicine-list.tsx:15-29 | "Every day" for daily, "Alternate days" for alternate, the raw key "custom" for custom, "Specific days" for specific without a day list or with an empty one; fails exactly for a non-empty day list with a day outside 0..6; a non-empty valid list is shown as its three-letter abbreviations joined by ", " |
| MedicineList.AbbrevRoundTrip | components/medicine-list.tsx:23 | each weekday's abbreviation names that weekday |
| MedicineList.DayListRoundTrip | components/medicine-list.tsx:23 | the day list, order and repeats included, is read back from its label |
| MedicineList.LabelIdentifiesDays | components/medicine-list.tsx:15-29 | a day list is read back from a non-empty specific-days label and from no other label |
| MedicineList.DistinctDayListsDistinctLabels | components/medicine-list.tsx:21-24 | two different day lists never share a label |
| MedicineList.FormAddedMedicineHasLabel | components/medicine-list.tsx:21-24 | a medicine added through the form always gets a label, because the form offers only the weekdays 0..6 |
| MedicineList.StatusColor | components/medicine-list.tsx:31-36 | destructive exactly at the alert threshold, success exactly when nothing is missed, and always the colour of the history screen's status |
| MedicineList.DisplayTiming | components/medicine-list.tsx:74 | the history screen's text for the stored timing key, upper-case first, giving the timing label back when lower-cased |
| AddMedicineForm.DateField | components/add-medicine-form.tsx:38-39 | absent exactly for the empty string, the date itself otherwise |
| AddMedicineForm.DateFieldRoundTrip | components/add-medicine-form.tsx:25-26 | a stored date survives the form's empty-string default unless it is itself empty |
| AddMedicineForm.SubmittedInput | components/add-medicine-form.tsx:32-50 | the payload is well formed: trimmed non-empty texts, a day list exactly for a specific-days medicine, no empty dates |
| AddMedicineForm.HandleSubmit | components/add-medicine-form.tsx:28-53 | a request exactly when name and dosage are not blank and a timing and a frequency are chosen; an update of the edited medicine exactly when editing |
| AddMedicineForm.GoNext | components/add-medicine-form.tsx:55-108 | nothing happens while the step cannot proceed; when it can and the step is not the last, the wizard moves strictly forward with the entries unchanged; it submits exactly from the dates step with submittable entries, and never closes |
| AddMedicineForm.GoBack | components/add-medicine-form.tsx:110-134 | never submits; closes exactly from the name and day-configurations steps; otherwise moves strictly back with the entries unchanged |
| AddMedicineForm.BackAfterNext | components/add-medicine-form.tsx:76-134 | Back undoes Next except around the day-configurations step, where Back closes the form or goes to the frequency step |
| AddMedicineForm.Without | components/add-medicine-form.tsx:138 | removes exactly the given day and keeps a duplicate-free list duplicate free |
| AddMedicineForm.ToggleDay | components/add-medicine-form.tsx:136-140 | flips the day's membership, leaves every other day's membership alone, keeps the list duplicate free, and keeps a list of weekdays a list of weekdays |
| AddMedicineForm.ToggleTwice | components/add-medicine-form.tsx:136-140 | toggling twice restores the membership, and restores the list itself when the day was absent |
| AddMedicineForm.WithoutDay | components/add-medicine-form.tsx:319 | removes exactly the configurations of the day |
| AddMedicineForm.ToggleDayConfig | components/add-medicine-form.tsx:317-323 | flips whether the day is configured without touching other days; a new configuration uses the chosen timing or "before breakfast" and the dosage or "1 tablet"; days stay distinct |
| AddMedicineForm.SetConfigTiming | components/add-medicine-form.tsx:337-341 | changes the timing of that day's configuration only |
| AddMedicineForm.SetConfigDosage | components/add-medicine-form.tsx:353-357 | changes the dosage of that day's configuration only |
| AddMedicineForm.Edit | components/add-medicine-form.tsx:194-391 | each input changes only the field of the step it is shown on; no input chooses custom, and none puts a day outside the week into the day list |
| AddMedicineForm.RunStaysOnOffer | components/add-medicine-form.tsx:154-158 | along any run, a form that is not custom never becomes custom, and a day list of weekdays stays one, up to the request sent |
| AddMedicineForm.HandleKeepsConsistent | components/add-medicine-form.tsx:55-108 | every event keeps the fields the earlier steps checked, and Next on the dates step submits |
| AddMedicineForm.NextKeepsConsistent | components/add-medicine-form.tsx:76-108 | Next keeps those fields; on the dates step it always submits; a submitted specific-days medicine has at least one weekday |
| AddMedicineForm.RunSubmitsWellFormed | components/add-medicine-form.tsx:28-108 | along any sequence of events from a consistent form, whatever is submitted is well formed, and a specific-days medicine names a weekday |
| AddMedicineForm.SessionSubmitsWellFormed | components/add-medicine-form.tsx:18-108 | a session that starts empty or from a stored medicine only ever submits well-formed input, and never a specific-days medicine without a weekday; a new medicine is never custom and lists only weekdays 0..6, and an edit keeps a stored list of weekdays within the week |
| AddMedicineForm.EditWithoutChangesIsNoOp | components/add-medicine-form.tsx:18-53 | opening a stored medicine and pressing Next to the end sends back its own fields, and the update leaves the catalogue exactly as it was |

## Left out

- Persistence to `localStorage` (lines 153-173 of `lib/medicine-context.tsx`) is left out. It writes and reads the state unchanged.
- The `setTimeout` of the snooze is a timer. It is modelled as an action the caller performs (`Engine.ExpireEntry`). The unused `BackgroundMonitoringService` class is not modelled.
- React state, context plumbing, rendering, icons, CSS classes and `onClose` are left out. Only the values the screens compute are modelled.
- `toDateString`, `getDay`, `toISOString` and `toLocaleDateString` are not modelled. The day key and weekday are `Clock` fields, and timestamps are integers.
- The list's "From … Until …" line (`components/medicine-list.tsx`:88-93) and the history's `formatDate` are date formatting, which is not modelled.
- The listing of custom day configurations on a card (`components/medicine-list.tsx`:79-87) is presentation only.
- Parsing an invalid date, which gives NaN in the source, is a parameter returning `None`.
- `Text.ToUpper`: upper-cases only ASCII letters. Every timing label is ASCII.
- `Adherence.CaregiverSummary`: groups come in order of first appearance. `Object.entries` would put integer-like medicine names first, in numeric order, and that ordering is not modelled.
- The `count++` that an entry with an inherited name performs writes `NaN` onto a shared built-in value (for `__proto__`, onto `Object.prototype`). That side effect outlives the summary and is not modelled. The summary itself, including its TypeError, is modelled.
- `Adherence.MostCommonReason`: counts each reason in the unsorted list. The source's comparator filters the array while it is being sorted, and the model assumes the engine sorts a copy.
- `Schedule.IsDue`: ignores time zones. The instant, day key and weekday are independent inputs.
- `MedicineList.FrequencyLabel`: models the `TypeError` from an out-of-range day as `None`. The extra `dayConfigurations` argument at the call site is ignored by the source too.
- Id generation (`medicine-${Date.now()}`) is not modelled. An added medicine's id is a parameter, and `Engine.Admissible` asks that it be unused.
- Login and the user context are outside the modelled core.
