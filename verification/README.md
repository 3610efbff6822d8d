# hug-time, modelled in Dafny

hug-time is a calculator for family members of a nuclear-medicine patient.
After a radiopharmaceutical injection the patient emits gamma radiation, and
the activity decays exponentially with the procedure's effective half-life.
For each family member and each contact scenario (hug at 0.3 m, same room at
1 m, same house at 2 m), the calculator answers "how long until I can hug
them?". The hug time is the earliest moment from which the dose still to come
stays within the member's annual limit. That limit depends on the member's
age category and on the chosen regulatory standard (ICRP or the Korean rules).

The model covers:

- the radiation engine (`Radiation`);
- the nuclide, contact-scenario and dose-limit tables (`Nuclides`,
  `Occupancy`, `DoseLimits`);
- form validation (`Validation`);
- the patient and family editors (`PatientForm`, `FamilyForm`);
- the per-second evaluation hook (`Countdown`);
- the headline countdown (`MainCountdown`) and the activity bar
  (`ActivityProgress`);
- the duration formatters (`Format`);
- the wizard's session state and step machine (`App`).

Supporting modules:

- `Wrappers`: `Option`, for `undefined` and the empty-string "unset" of form fields.
- `Types`: the shared records, and `OrNever` for JavaScript's `Infinity`.
- `Text`: decimal forms, padding, ECMAScript `trim`.
- `Seqs`: `Array.prototype.find`.
- `RealMath`: the transcendental functions.
- `RealArith`: small facts about real products and quotients.

## How the model is built

**Transcendental functions.** `Math.exp`, `Math.log` and `Math.sqrt` are
fields of a value `m: RealMath.Analysis`. The predicate `RealMath.Lawful(m)`
states the laws the proofs rely on:

- exp is strictly increasing and positive, with exp(0) = 1 and
  exp(a + b) = exp(a)·exp(b);
- ln inverts exp on positive numbers;
- exp(ln 2) = 2, which ties `Math.LN2` to ln;
- sqrt of a non-negative number is a non-negative square root.

Every property of the engine is proved for every lawful `m`.

**Infinity.** `calcHugTime`'s `Infinity` ("never") is `OrNever.Never`.
`Math.ceil(Infinity)` stays `Infinity`, so the seconds left are also
`OrNever<int>`.

**Form fields.** JavaScript's `number | ''` form fields are `Option<real>`.
The injection time is `Option<int>`, in milliseconds since the epoch.

**Clock, confirmation and ids.** The clock reading `now` is a parameter of
every operation that reads `Date.now()`. So is the local time
`toLocalDateTimeString(new Date())` that prefills the injection field. The
answer to the reset confirmation is a boolean parameter. Member ids are
parameters too.

**Validation checks.** Each check of `validatePatient` and `validateFamily` is
a `Rule(failed, error)`, and `Validation.Failed` collects the errors of the
failed rules in order. The rules of each form are ranked by field, which gives:

- errors come out in field order, with no field twice (`Ranked`);
- a field is flagged exactly when its check failed (`FlaggedIff`).

**Where the code differs from its description.**

- The forms never call `validatePatient` or `validateFamily`.
  - The patient page's Next button uses its own `canProceed`, which does not
    look at age or weight.
  - The family page's Next button ignores member ages.
  - Both are modelled as written, and lemmas relate them to the validators.
- The saved data that the initial load restores is not re-derived. A stored
  family whose categories disagree with the stored standard stays that way
  until the next edit. `App.ConsistentAlong` therefore assumes the saved
  family was derived when it was saved.
- A negative dose passes the evaluation's "is the dose filled in" guard,
  which only rejects 0. `Countdown.Ready` models that guard as written. The
  physical lemmas require a positive dose.
- Data fact (`Nuclides.EffectiveWithinPhysical`): for F-18 and Ga-68 the
  catalogue's effective half-life (110/60 h, 68/60 h) is slightly longer than
  the physical one (109.77/60 h, 67.71/60 h). That is physically impossible,
  but within 0.5%. Every other procedure has an effective half-life at most
  the physical one.

## Model

| member | source | states |
|---|---|---|
| Radiation.DecayConstant | src/lib/radiation.ts:13-15 | λ is positive and λ·T½ = ln 2, so T½ is the time for e^(−λt) to fall to one half |
| Radiation.ActivityAtTime | src/lib/radiation.ts:17-24 | for lawful exp, multiplying the activity at t by e^(λt) gives back A₀: the activity is A₀ decayed by e^(−λt) |
| Radiation.HalfLifeHalves | src/lib/radiation.ts:18-24 | after one half-life the activity is exactly A₀/2 and the remaining percentage exactly 50 |
| Radiation.AtInjection | src/lib/radiation.ts:98-103 | at t = 0 the activity is the administered A₀ and 100% remains |
| Radiation.ActivityDecreasing | src/lib/radiation.ts:18-24 | for λ, A₀ > 0 the activity stays positive and strictly decreases with time |
| Radiation.RemainingActivityPercent | src/lib/radiation.ts:97-103 | for lawful exp, multiplying the percentage by e^(λt) gives back 100 |
| Radiation.PercentIsActivityRatio | src/lib/radiation.ts:98-103 | the remaining percentage equals 100·A(t)/A₀ |
| Radiation.PercentBounds | src/lib/radiation.ts:98-103 | from injection on the remaining percentage lies in (0, 100] |
| Radiation.DoseRate | src/lib/radiation.ts:26-33 | the rate times the squared distance is Γ·A, the inverse-square law |
| Radiation.InverseSquare | src/lib/radiation.ts:27-33 | inverse-square law: at twice the distance the dose rate is a quarter |
| Radiation.CumulativeDoseFromTime | src/lib/radiation.ts:35-50 | the dose from t on, times λ, equals OF times the dose rate of the activity at t: the integral of a rate decaying as e^(−λt) |
| Radiation.CumulativeIsRateOverLambda | src/lib/radiation.ts:40-50 | the dose from t on equals OF times the dose rate of the activity at t, divided by λ |
| Radiation.CumulativeDoseDecreasing | src/lib/radiation.ts:40-50 | with positive parameters, the later the window opens the strictly smaller the remaining dose |
| Radiation.CumulativeDoseMonotoneInActivity | src/lib/radiation.ts:40-50 | more administered activity never gives less remaining dose |
| Radiation.HugTime | src/lib/radiation.ts:59-76 | never negative; exactly 0 when the argument is ≥ 1; "never" exactly when the argument is ≤ 0 |
| Radiation.HugTimeSolution | src/lib/radiation.ts:67-75 | below the threshold the hug time is the positive solution −ln(argument)/λ and the clamp does not apply |
| Radiation.HugTimeRoundTrip | src/lib/radiation.ts:59-76 | below the threshold, the dose still to come from the hug time on equals the limit exactly |
| Radiation.AtInjectionDose | src/lib/radiation.ts:67-71 | the "already safe" test (argument ≥ 1) holds exactly when the whole dose from injection is within the limit |
| Radiation.HugTimeIsEarliestSafeTime | src/lib/radiation.ts:59-76 | for t ≥ 0 the remaining dose from t is within the limit exactly when t is at or after the hug time |
| Radiation.AlreadySafeIff | src/lib/radiation.ts:71 | the hug time is 0 exactly when the whole dose from injection is within the limit |
| Radiation.HugTimeMonotone | src/lib/radiation.ts:59-76 | more activity or a stricter limit never shortens the hug time |
| Radiation.SafeDistance | src/lib/radiation.ts:78-95 | for lawful sqrt, a non-negative distance whose square is OF·Γ·A/(λ·limit) clamped at 0 |
| Radiation.SafeDistanceNonNegative | src/lib/radiation.ts:92-94 | the clamp of the radicand at 0 keeps the safe distance non-negative |
| Radiation.SafeDistanceIncreasing | src/lib/radiation.ts:85-95 | a higher current activity gives a strictly larger safe distance |
| Radiation.SafeDistanceMeetsLimit | src/lib/radiation.ts:85-95 | at the safe distance the dose still to come from the current activity equals the limit |
| Nuclides.GetNuclide | src/lib/nuclides.ts:112-114 | total over the five ids; each record carries its own id, positive Γ and half-life, at least one procedure, and procedures that name it as owner |
| Nuclides.NuclideList | src/lib/nuclides.ts:110 | one record per id, in the catalogue's key order |
| Nuclides.NuclideListComplete | src/lib/nuclides.ts:110 | every nuclide id occurs exactly once in the list |
| Nuclides.GetProcedure | src/lib/nuclides.ts:116-118 | a hit is a procedure of that nuclide with the requested id; a miss means no procedure of the nuclide has that id |
| Nuclides.ProceduresValid | src/lib/nuclides.ts:3-108 | every procedure has a positive effective half-life and a dose range 0 < min ≤ max |
| Nuclides.ProcedureIdsUnique | src/lib/nuclides.ts:3-108 | a procedure id names one procedure of one nuclide in the whole catalogue |
| Nuclides.GetProcedureFindsEntry | src/lib/nuclides.ts:116-118 | looking up a catalogued procedure by its own id returns that procedure |
| Nuclides.GetProcedureOtherNuclide | src/lib/nuclides.ts:116-118 | a procedure id never resolves under a different nuclide |
| Nuclides.LutetiumFixedDose | src/lib/nuclides.ts:82-89 | the Lu-177 DOTATATE range is the single activity 7400 MBq |
| Nuclides.EffectiveWithinPhysical | src/lib/nuclides.ts:3-108 | effective half-life ≤ physical half-life except for F-18 and Ga-68, where it exceeds the physical one by under 0.5% |
| Occupancy.ScenarioTable | src/lib/occupancy.ts:3-28 | three scenarios with the ids hug, same-room, same-house in that order; distances positive and strictly increasing; occupancy factors in (0, 1] and non-decreasing |
| Occupancy.GetScenario | src/lib/occupancy.ts:30-32 | a hit is the listed scenario with that id; a miss exactly when no scenario has that id |
| Occupancy.GetScenarioRoundTrip | src/lib/occupancy.ts:30-32 | looking a listed scenario up by its id returns it |
| DoseLimits.TableShape | src/lib/doseLimits.ts:3-28 | each standard's table has six rows, one per category, all with positive limits |
| DoseLimits.LimitIn | src/lib/doseLimits.ts:30-33 | the first row naming the category gives the limit; with no such row the fallback 1.0 mSv |
| DoseLimits.GetDoseLimit | src/lib/doseLimits.ts:30-33 | the limit is the one in the category's row of the chosen standard's table, and it is positive |
| DoseLimits.LimitOfEntry | src/lib/doseLimits.ts:30-33 | any table row naming the category carries the limit returned |
| DoseLimits.ExactlyOneEntryPerCategory | src/lib/doseLimits.ts:3-19 | each category occurs exactly once per table, so the fallback is never taken |
| DoseLimits.LimitIsPublished | src/lib/doseLimits.ts:3-19 | the limits are infant 0.3, child 0.5, teenager/adult/pregnant 1.0, caregiver 5.0 (ICRP) or 6.0 (Korean) mSv |
| DoseLimits.StandardsDifferOnlyForCaregiver | src/lib/doseLimits.ts:3-19 | the two standards agree on a category exactly when it is not the caregiver |
| DoseLimits.CategorizeAge | src/lib/doseLimits.ts:35-41 | pregnancy dominates; otherwise age ≤ 2 infant, ≤ 12 child, ≤ 17 teenager, else adult; never caregiver |
| DoseLimits.LimitNonDecreasingWithAge | src/lib/doseLimits.ts:30-41 | a non-pregnant older person never gets a stricter limit than a younger one |
| DoseLimits.GetCategoryLabel | src/lib/doseLimits.ts:43-53 | every category has a non-empty label |
| DoseLimits.CategoryLabelsDistinct | src/lib/doseLimits.ts:43-53 | two categories share a label exactly when they are the same category |
| DoseLimits.Rederive | src/App.tsx:81-83 | the category and limit follow from age, flag and standard; id, name, age and flag are kept; an already derived member is unchanged |
| Validation.FieldKeyInjective | src/lib/validation.ts:13-73 | two fields have the same key (`family`, `family-{i}-name`, …) exactly when they are the same field |
| Validation.Failed | src/lib/validation.ts:10-41 | every error reported belongs to a failed check, and every failed check's error is reported |
| Validation.FailedRanked | src/lib/validation.ts:12-39 | checks run in field order report errors in strictly increasing field order |
| Validation.FlaggedIff | src/lib/validation.ts:12-39 | with ranked checks a field is flagged exactly when its own check failed |
| Validation.FailedEmptyIff | src/lib/validation.ts:10-41 | no error at all exactly when no check failed |
| Validation.PatientRules | src/lib/validation.ts:12-39 | six checks in the order age, weight, nuclide, procedure, dose, injection time |
| Validation.ValidatePatient | src/lib/validation.ts:9-42 | at most six errors, in field order, no field twice |
| Validation.ValidatePatientFlags | src/lib/validation.ts:12-39 | each field is flagged exactly when its value is unacceptable (age outside [0, 120], weight outside [1, 300], missing nuclide or procedure, dose missing or ≤ 0, injection unset or after now); no errors exactly when the record is complete |
| Validation.InjectionMessages | src/lib/validation.ts:32-39 | the injection-time error says "unset" when unset and "in the future" when set |
| Validation.InjectionBoundary | src/lib/validation.ts:35-38 | an injection exactly at now is accepted, and one millisecond after it is not |
| Validation.ValidateDoseRange | src/lib/validation.ts:44-59 | an unknown procedure passes with no message; otherwise in range exactly when min ≤ dose ≤ max; the message is empty exactly when in range, and otherwise names the range |
| Validation.RangeEndsAccepted | src/lib/validation.ts:52 | both ends of every catalogued range are in range |
| Validation.CheckMemberMeaning | src/lib/validation.ts:69-74 | a member's name check fails exactly when the name is all whitespace, its age check exactly when the age is outside [0, 120] |
| Validation.MemberRulesIndex | src/lib/validation.ts:68-75 | member k's name check sits at position 2k and its age check at 2k+1 |
| Validation.MemberRulesRanked | src/lib/validation.ts:68-75 | the member checks are ranked by their position |
| Validation.MemberRulesPass | src/lib/validation.ts:68-75 | members whose checks pass produce no failed check |
| Validation.FamilyRules | src/lib/validation.ts:61-78 | the empty-list check comes first, then two checks per member |
| Validation.FamilyRulesRanked | src/lib/validation.ts:61-78 | the family checks run in field order |
| Validation.ValidateFamily | src/lib/validation.ts:61-78 | at most 2n+1 errors, in field order, no field twice; an empty list gives exactly the one `family` error |
| Validation.EmptyFamilyFlag | src/lib/validation.ts:64-66 | `family` is flagged exactly when the list is empty |
| Validation.MemberRulesAt | src/lib/validation.ts:68-75 | member k's checks are "name trims to empty" and "age outside [0, 120]", with its own errors |
| Validation.MemberFlags | src/lib/validation.ts:68-75 | member k's name is flagged exactly when blank, its age exactly when outside [0, 120] |
| Validation.ValidateFamilyEmptyIff | src/lib/validation.ts:61-78 | no errors exactly when the list is non-empty and every member has a non-blank name and an age in [0, 120] |
| Text.NatToStringParses | src/components/result/utils.ts:28 | the decimal form reads back as the number, with one digit below 10 and two below 100, and starts with '0' only for 0 |
| Text.ParseCanonical | src/components/result/utils.ts:11-14 | a digit string without a leading zero is exactly the decimal form of the positive number it reads as |
| Text.PadTwo | src/components/result/utils.ts:28 | the padded form reads back as the number and has two digits below 100 |
| Text.TrimEmptyIffBlank | src/lib/validation.ts:69 | a string trims to empty exactly when every character is ECMAScript whitespace |
| Text.TrimStartIsSuffix | src/lib/validation.ts:69 | trimming the start leaves a suffix of the string |
| Text.TrimEndIsPrefix | src/lib/validation.ts:69 | trimming the end leaves a prefix of the string |
| Text.Join | src/components/result/utils.ts:16 | no parts join to "", one part to itself, and a non-empty part gives a non-empty result |
| Text.SplitJoin | src/components/result/utils.ts:16 | splitting on the separator undoes `join` when no part contains it |
| Seqs.Find | src/lib/nuclides.ts:117 | the first element satisfying the predicate, or none exactly when no element does |
| Format.SplitSeconds | src/components/result/utils.ts:5-8 | days·86400 + hours·3600 + minutes·60 + seconds = t, with hours < 24, minutes < 60, seconds < 60 |
| Format.SplitUnique | src/components/result/utils.ts:5-8 | any normal split of t is the one computed |
| Format.FormatDuration | src/components/result/utils.ts:2-17 | "0초" for t ≤ 0; for t > 0 its meaning is the readback `Format.DurationReadsBack` |
| Format.ReadCount | src/components/result/utils.ts:11-14 | the reader accepts a positive count, and refuses exactly the empty digit string and a leading zero |
| Format.CountIsCanonical | src/components/result/utils.ts:11-14 | a count the reader accepts is written exactly as `${n}` writes it |
| Format.DurationReadsBack | src/components/result/utils.ts:2-17 | every text reads back, under a strict reader (single-space separators, positive counts in plain decimal, units strictly from days to seconds), as exactly the components of t it shows |
| Format.ShownSeconds | src/components/result/utils.ts:5-14 | the shown components add up to t below a day and to t truncated to whole minutes from a day on |
| Format.DurationNonEmpty | src/components/result/utils.ts:10-16 | a positive duration never renders empty |
| Format.DurationUnderMinute | src/components/result/utils.ts:8-16 | under a minute the text is the seconds followed by 초 |
| Format.DurationDropsSecondsWithDays | src/components/result/utils.ts:11-14 | from a day on the seconds do not show: the text equals that of the time truncated to whole minutes |
| Format.DaysIff | src/components/result/utils.ts:5 | a normal split has a day part exactly when it stands for at least 86400 s |
| Format.FormatCountdown | src/components/result/utils.ts:20-34 | "00:00:00" for t ≤ 0, and eight characters under a day; its meaning is the readbacks `Format.CountdownRoundTrip` and `Format.CountdownWithDaysRoundTrip` |
| Format.Clock | src/components/result/utils.ts:28-33 | HH:MM:SS whose three two-digit fields read back as the hours, minutes and seconds |
| Format.CountdownRoundTrip | src/components/result/utils.ts:21-33 | under a day the countdown is HH:MM:SS with colons at positions 2 and 5, hours < 24, minutes < 60, seconds < 60, and reads back as t seconds |
| Format.CountdownWithDaysRoundTrip | src/components/result/utils.ts:23-31 | from a day on the countdown is the day count t / 86400, "일 " and an HH:MM:SS clock (colons at positions 2 and 5) with hours < 24, minutes < 60, seconds < 60, which together read back as t |
| Format.ClockOfSplit | src/components/result/utils.ts:23-33 | the clock of a split reads back as its hours, minutes and seconds |
| Countdown.Ready | src/hooks/useCountdown.ts:24-39 | the conditions under which `calculate` does not return early; `Countdown.Prepare` yields a setup exactly when they hold |
| Countdown.Prepare | src/hooks/useCountdown.ts:24-39 | a setup exactly when nuclide, procedure, a non-zero dose and an injection time are given, the procedure is catalogued and the injection is not in the future; then Γ of the nuclide, A₀ the dose, the injection time, and λ with λ·T½ = ln 2 for the procedure's effective half-life |
| Countdown.Ceil | src/hooks/useCountdown.ts:65 | the least integer at or above x |
| Countdown.ScenarioOutcome | src/hooks/useCountdown.ts:47-66 | the scenario's id; the hug time is `calcHugTime` for the scenario's distance and occupancy and the member's limit; "never" hug time exactly when "never" seconds; 0 s when safe; at least 1 s when not safe |
| Countdown.SafeNowWhenPassed | src/hooks/useCountdown.ts:57-59 | safe now exactly when the hug time is finite and injection time + hug time ≤ now |
| Countdown.ReportedHugTimeIsEarliest | src/hooks/useCountdown.ts:49-59 | with a positive dose the reported hug time is finite, and the dose still to come from any time t ≥ 0 is within the limit exactly when t is at or after it |
| Countdown.LimitUSv | src/hooks/useCountdown.ts:45 | 1000 times the published mSv limit of the member's category under the chosen standard, so positive |
| Countdown.MemberResult | src/hooks/useCountdown.ts:44-82 | the member's id and one outcome per contact scenario, in order, under the category's limit |
| Countdown.Evaluate | src/hooks/useCountdown.ts:23-85 | a result exactly when the record is ready; then per member, in list order, that member's `Countdown.MemberResult` under the prepared setup, and a percentage that, times A₀, is 100 times the activity left now |
| Countdown.ScenarioOrder | src/hooks/useCountdown.ts:47-67 | every result lists hug, same-room, same-house in that order |
| Countdown.StoredLimitIgnored | src/hooks/useCountdown.ts:45 | members with the same id and category get the same result whatever their stored limit |
| Countdown.ReadySetup | src/hooks/useCountdown.ts:24-39 | a ready record with a positive dose gives a positive A₀ and a non-negative elapsed time |
| Countdown.SafeNowIff | src/hooks/useCountdown.ts:57-59 | a contact is safe now exactly when the dose still to come from now on, in that scenario, is within the limit |
| Countdown.RemainingSecondsBracket | src/hooks/useCountdown.ts:57-65 | with a positive dose the hug time is finite, and when not safe the hug moment lies within the last counted second |
| Countdown.SafeDistanceMeaning | src/hooks/useCountdown.ts:41-75 | the reported distance is positive and the dose still to come from the current activity at occupancy 0.25 equals the limit there |
| Countdown.PercentInRange | src/hooks/useCountdown.ts:42 | the published remaining percentage lies in (0, 100] |
| MainCountdown.HugRemaining | src/components/result/MainCountdown.tsx:15 | none exactly when the result has no "hug" scenario; `MainCountdown.HugRemainingIsFirstHug` fixes the value |
| MainCountdown.HugRemainingIsFirstHug | src/components/result/MainCountdown.tsx:15 | the wait is the remaining seconds of the first "hug" scenario |
| MainCountdown.LongestWait | src/components/result/MainCountdown.tsx:11-20 | the maximum is ≥ 0 and no member's hug wait exceeds it; 0 leaves the member id empty; otherwise it is the first member with that wait, and every earlier member's wait is smaller or not positive |
| MainCountdown.AllSafe | src/components/result/MainCountdown.tsx:22 | the longest wait is finite and at most 0; for the loop's result, exactly when no member must wait (`MainCountdown.AllSafeIff`) |
| MainCountdown.AllSafeIff | src/components/result/MainCountdown.tsx:22 | everyone is safe exactly when no member's hug wait is positive or "never" |
| MainCountdown.LatestMember | src/components/result/MainCountdown.tsx:23 | the first family member with that id, or none exactly when no member has it |
| ActivityProgress.Clamp | src/components/result/ActivityProgress.tsx:6 | within [0, 100], equal to the input inside that range, 0 below and 100 above |
| ActivityProgress.BandOf | src/components/result/ActivityProgress.tsx:9-13 | danger above 50, caution in (20, 50], safe at 20 or below |
| ActivityProgress.ClampMonotone | src/components/result/ActivityProgress.tsx:6 | clamping preserves order |
| ActivityProgress.BandMonotone | src/components/result/ActivityProgress.tsx:9-13 | a lower percentage never gives a more severe band |
| FamilyForm.NewMemberDerived | src/components/input/FamilyForm.tsx:19-26 | the hard-coded adult, 1.0 mSv of a new member agree with the categoriser and with both standards |
| FamilyForm.AddMember | src/components/input/FamilyForm.tsx:17-28 | the new member (given id, no name, age 30, not pregnant, adult, 1 mSv) appended at the end, others unchanged, derivedness kept |
| FamilyForm.UpdateMember | src/components/input/FamilyForm.tsx:30-40 | other ids untouched; the matching member gets the edits and a category and limit re-derived under the standard |
| FamilyForm.RemoveMember | src/components/input/FamilyForm.tsx:42-44 | exactly the members with other ids stay |
| FamilyForm.RemoveKeepsOrder | src/components/input/FamilyForm.tsx:43 | removal distributes over concatenation, so the remaining members keep their order |
| FamilyForm.RemovePreservesDerived | src/components/input/FamilyForm.tsx:42-44 | removal keeps every remaining member derived |
| FamilyForm.NextEnabled | src/components/input/FamilyForm.tsx:141 | at least one member and every name non-blank after `trim`; tied to the validator by `FamilyForm.NextEnabledIff` |
| FamilyForm.NextEnabledIff | src/components/input/FamilyForm.tsx:141 | Next is enabled exactly when the validator flags neither the empty list nor any member's name |
| FamilyForm.AddedMemberBlocksNext | src/components/input/FamilyForm.tsx:141 | right after adding a member, Next is disabled until it is named |
| PatientForm.HandleNuclideChange | src/components/input/PatientForm.tsx:35-37 | stores the selector's choice, including the placeholder's empty value (NuclideSelector.tsx:31-34), clears procedure and dose, keeps the rest |
| PatientForm.HandleProcedureChange | src/components/input/PatientForm.tsx:39-44 | sets the procedure and prefills the dose with its range minimum, or clears it when the nuclide has no such procedure; keeps the rest |
| PatientForm.DoseValidation | src/components/input/PatientForm.tsx:22-25 | no hint exactly when nuclide, procedure or a non-zero dose is missing; otherwise the range check |
| PatientForm.PrefilledDoseInRange | src/components/input/PatientForm.tsx:43 | a prefilled dose always passes the range check |
| PatientForm.CanProceed | src/components/input/PatientForm.tsx:27-33 | nuclide, procedure, a positive dose and an injection time not after now; tied to the validator by `PatientForm.CanProceedIff` |
| PatientForm.CanProceedIff | src/components/input/PatientForm.tsx:27-33 | proceeding is allowed exactly when the validator flags none of nuclide, procedure, dose and injection time |
| PatientForm.FutureWarning | src/components/input/PatientForm.tsx:144 | a time is set and lies after now; with the rest filled in, exactly when proceeding is blocked (`PatientForm.FutureWarningIff`) |
| PatientForm.FutureWarningIff | src/components/input/PatientForm.tsx:144 | with everything else filled in, the future warning shows exactly when proceeding is blocked |
| PatientForm.ProceedLeadsToEvaluation | src/components/input/PatientForm.tsx:27-33 | a record that may proceed, with a catalogued procedure, is one the countdown evaluates |
| PatientForm.NuclideChangeBlocks | src/components/input/PatientForm.tsx:35-37 | right after choosing a nuclide, neither proceeding nor evaluation is possible |
| App.DefaultPatient | src/App.tsx:14-34 | every field empty except the injection time, set to the given minute-precision local time in milliseconds |
| App.InitialState | src/App.tsx:30-37 | landing page, default patient, empty family, ICRP, nothing saved |
| App.LoadSaved | src/App.tsx:40-48 | no saved data leaves the state alone; saved data replaces patient, family and standard and marks the session saved; the step is kept |
| App.RederiveAll | src/App.tsx:80-84 | same length and order, id/name/age/flag kept, every member derived under the standard; idempotent on a derived family |
| App.HandleFamilyChange | src/App.tsx:78-88 | the new list re-derived under the current standard; everything else unchanged |
| App.HandleStandardChange | src/App.tsx:91-103 | the new standard, with every member re-derived under it; everything else unchanged |
| App.HandleReset | src/App.tsx:66-75 | confirmed: exactly the initial state with a fresh injection time; not confirmed: nothing changes |
| App.Dispatch | src/App.tsx:116-163 | an action off its page or with a disabled button changes nothing; each enabled button leads to its page (Start and Edit to the patient page, Continue and the standard page's Next to the result page, the patient page's Next and the standard page's Back to the family page, the family page's Next to the standard page and its Back to the patient page) with nothing else changed; a patient edit stores the record; the family, standard and reset actions go through their handlers; the step moves only along the wizard's edges; consistency is preserved |
| App.ConsistentAlong | src/App.tsx:40-103 | starting from the loaded state, every sequence of actions keeps each member's category and limit derived |
| App.SaveLoadRoundTrip | src/App.tsx:51-56 | what the automatic save writes, the next load restores, and Continue then leads to the result page |
| App.StandardPageNeedsFamily | src/App.tsx:140 | the standard page is entered only from the family page with Next enabled |
| App.FamilyPageNeedsPatient | src/App.tsx:130 | the family page is entered only from the patient page when it may proceed, or back from the standard page |
| App.FamilyBackUndoesNext | src/App.tsx:140-152 | Next from the family page followed by Back returns the same state |
| App.PatientBackUndoesNext | src/App.tsx:130-141 | Next from the patient page followed by Back returns the same state |
| App.StandardRoundTrip | src/App.tsx:91-103 | switching the standard and back restores a consistent state exactly |
| App.FamilyChangeIdempotent | src/App.tsx:78-88 | handing the family handler its own output changes nothing |

## Left out

- Rendering, animation, styling, the SVG progress ring of the headline
  countdown and `toFixed(1)`: presentation only.
- Timers (`setInterval`, the tick effect): the model evaluates once per call
  with `now` as a parameter.
- When the automatic save runs (src/App.tsx:50-56, on the result page once a
  nuclide is chosen): writing to storage is outside the model. `App.Snapshot`
  is what it writes.
- `localStorage`, JSON and the version check of `loadData`: the loaded value
  is the `Option<SavedData>` parameter of `App.LoadSaved`.
- `Date.now()`, `new Date(...)` and `toLocalDateTimeString`: times are integer
  milliseconds since the epoch, given as parameters. The prefilled injection
  time is the current local minute, in milliseconds too.
- `window.confirm`: its answer is the boolean parameter of `App.HandleReset`.
- Ids from `Date.now().toString(36)`: the id is a parameter of
  `FamilyForm.AddMember`.
- Floating point: the model computes on exact reals. Rounding, NaN, and
  division by zero giving `Infinity` are not modelled, so the formulas
  require non-zero denominators.
- `Text.GroupThousands`: `toLocaleString()` is modelled as comma grouping in
  threes, as in the Korean locale. The result is only shown to be non-empty,
  and to be the plain decimal form below 1000.
- `Format.FormatDuration`, `Format.FormatCountdown`: they take whole seconds
  (`int`). Infinite or fractional arguments (`formatCountdown(Infinity)`)
  are not modelled.
- `PatientForm.HandleProcedureChange`: it requires a selected nuclide. The
  source reads the selected nuclide's procedures unconditionally and fails
  without one; the procedure selector only appears once a nuclide is chosen.
- The remaining UI-only components (selectors, cards, badges, header,
  footer): they only display the values modelled here.
