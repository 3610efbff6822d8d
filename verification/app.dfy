/** The session state of the wizard (src/App.tsx): the step shown, the
    patient record, the family, the chosen standard and whether saved data
    was found; its handlers and the step transitions of the buttons. The
    local time the injection field is prefilled with, and the answer to the
    reset confirmation, are parameters. */
module App {
  import opened Wrappers
  import opened Types
  import DoseLimits
  import FamilyForm
  import PatientForm

  datatype AppState = AppState(
    step: AppStep,
    patient: PatientInfo,
    family: seq<FamilyMember>,
    standard: DoseStandard,
    hasSaved: bool)

  /** `defaultPatient` with the injection time prefilled from
      `toLocalDateTimeString(new Date())`: `minuteMs` is that minute-precision
      local time, in milliseconds since the epoch like every injection time
      of the model. */
  function DefaultPatient(minuteMs: int): (p: PatientInfo)
    ensures p.injectionTime == Some(minuteMs)
    ensures p.gender.None? && p.age.None? && p.weight.None? && p.nuclideId.None?
    ensures p.procedureId == "" && p.doseMBq.None?
  {
    PatientInfo(None, None, None, None, "", None, Some(minuteMs))
  }

  /** The state before saved data is loaded: the landing page, an empty
      family, the ICRP standard and nothing saved. */
  function InitialState(minuteMs: int): (s: AppState)
    ensures s.step == Landing && s.family == [] && s.standard == Icrp && !s.hasSaved
    ensures s.patient == DefaultPatient(minuteMs)
  {
    AppState(Landing, DefaultPatient(minuteMs), [], Icrp, false)
  }

  /** What the session stores: the patient, the family and the standard. */
  datatype SavedData = SavedData(patient: PatientInfo, family: seq<FamilyMember>, standard: DoseStandard)

  /** The initial load: saved data, when there is any, replaces the
      patient, the family and the standard as stored, and marks the session
      as saved; the step is not changed. */
  function LoadSaved(s: AppState, saved: Option<SavedData>): (r: AppState)
    ensures r.step == s.step
    ensures saved.None? ==> r == s
    ensures saved.Some? ==> r.hasSaved && Snapshot(r) == saved.value
  {
    match saved
    case None => s
    case Some(d) => s.(patient := d.patient, family := d.family, standard := d.standard, hasSaved := true)
  }

  /** The data the automatic save writes. */
  function Snapshot(s: AppState): SavedData {
    SavedData(s.patient, s.family, s.standard)
  }

  /** Every member's category and limit follow from its age, its pregnancy
      flag and the chosen standard. */
  predicate Consistent(s: AppState) {
    FamilyForm.AllDerived(s.family, s.standard)
  }

  /** Re-derive every member's category and limit under `standard`. */
  function RederiveAll(family: seq<FamilyMember>, standard: DoseStandard): (r: seq<FamilyMember>)
    ensures |r| == |family|
    ensures forall i :: 0 <= i < |family| ==>
              && r[i].id == family[i].id && r[i].name == family[i].name
              && r[i].age == family[i].age && r[i].isPregnant == family[i].isPregnant
    ensures FamilyForm.AllDerived(r, standard)
    ensures FamilyForm.AllDerived(family, standard) ==> r == family
  {
    seq(|family|, i requires 0 <= i < |family| => DoseLimits.Rederive(family[i], standard))
  }

  /** `handleFamilyChange`: the new list, re-derived under the current standard. */
  function HandleFamilyChange(s: AppState, newFamily: seq<FamilyMember>): (r: AppState)
    ensures Consistent(r)
    ensures r.step == s.step && r.patient == s.patient && r.standard == s.standard && r.hasSaved == s.hasSaved
    ensures |r.family| == |newFamily|
    ensures forall i :: 0 <= i < |newFamily| ==>
              r.family[i].id == newFamily[i].id && r.family[i].name == newFamily[i].name
              && r.family[i].age == newFamily[i].age && r.family[i].isPregnant == newFamily[i].isPregnant
  {
    s.(family := RederiveAll(newFamily, s.standard))
  }

  /** `handleStandardChange`: the new standard, and every member re-derived under it. */
  function HandleStandardChange(s: AppState, newStandard: DoseStandard): (r: AppState)
    ensures Consistent(r) && r.standard == newStandard
    ensures r.step == s.step && r.patient == s.patient && r.hasSaved == s.hasSaved
    ensures |r.family| == |s.family|
    ensures forall i :: 0 <= i < |s.family| ==>
              r.family[i].id == s.family[i].id && r.family[i].name == s.family[i].name
              && r.family[i].age == s.family[i].age && r.family[i].isPregnant == s.family[i].isPregnant
  {
    s.(standard := newStandard, family := RederiveAll(s.family, newStandard))
  }

  /** `handleReset`: when confirmed, back to the initial state with the
      injection time prefilled anew; otherwise nothing changes. */
  function HandleReset(s: AppState, confirmed: bool, minuteMs: int): (r: AppState)
    ensures confirmed ==> r == InitialState(minuteMs)
    ensures !confirmed ==> r == s
  {
    if confirmed then
      s.(patient := DefaultPatient(minuteMs), family := [], standard := Icrp, hasSaved := false, step := Landing)
    else s
  }

  /** What the user can do: the buttons of each page and the edits of the forms. */
  datatype Action =
    | Start | Continue                       // landing page
    | EditPatient(patient: PatientInfo) | PatientNext
    | EditFamily(family: seq<FamilyMember>) | FamilyNext | FamilyBack
    | ChooseStandard(standard: DoseStandard) | StandardNext | StandardBack
    | Edit | Reset(confirmed: bool, minuteMs: int)   // result page

  /** The page each action belongs to. */
  function PageOf(a: Action): AppStep {
    match a
    case Start => Landing
    case Continue => Landing
    case EditPatient(_) => PatientStep
    case PatientNext => PatientStep
    case EditFamily(_) => FamilyStep
    case FamilyNext => FamilyStep
    case FamilyBack => FamilyStep
    case ChooseStandard(_) => StandardStep
    case StandardNext => StandardStep
    case StandardBack => StandardStep
    case Edit => ResultStep
    case Reset(_, _) => ResultStep
  }

  /** Whether the action's button is shown and enabled: Continue is shown
      only when saved data was loaded, and the Next buttons of the patient
      and family pages are disabled until their forms allow it. */
  predicate Enabled(s: AppState, a: Action, now: int) {
    && PageOf(a) == s.step
    && (a.Continue? ==> s.hasSaved)
    && (a.PatientNext? ==> PatientForm.CanProceed(s.patient, now))
    && (a.FamilyNext? ==> FamilyForm.NextEnabled(s.family))
  }

  /** The wizard's edges: landing to patient or result, patient to family,
      family to standard or back, standard to result or back, result to
      patient (edit) or landing (reset). */
  predicate Edge(from: AppStep, to: AppStep) {
    || (from == Landing && (to == PatientStep || to == ResultStep))
    || (from == PatientStep && to == FamilyStep)
    || (from == FamilyStep && (to == StandardStep || to == PatientStep))
    || (from == StandardStep && (to == ResultStep || to == FamilyStep))
    || (from == ResultStep && (to == PatientStep || to == Landing))
  }

  /** One user action; an action that is not on the current page, or whose
      button is disabled, changes nothing. An enabled navigation button
      changes only the step: Start and Edit lead to the patient page,
      Continue and the standard page's Next to the result page, the patient
      page's Next and the standard page's Back to the family page, the
      family page's Next to the standard page and its Back to the patient
      page. The form edits go through their handlers. */
  function Dispatch(s: AppState, a: Action, now: int): (r: AppState)
    ensures !Enabled(s, a, now) ==> r == s
    ensures r.step == s.step || Edge(s.step, r.step)
    ensures Consistent(s) ==> Consistent(r)
    ensures Enabled(s, a, now) ==>
              && (a.Start? || a.Edit? || a.FamilyBack? ==> r == s.(step := PatientStep))
              && (a.Continue? || a.StandardNext? ==> r == s.(step := ResultStep))
              && (a.PatientNext? || a.StandardBack? ==> r == s.(step := FamilyStep))
              && (a.FamilyNext? ==> r == s.(step := StandardStep))
              && (a.EditPatient? ==> r == s.(patient := a.patient))
              && (a.EditFamily? ==> r == HandleFamilyChange(s, a.family))
              && (a.ChooseStandard? ==> r == HandleStandardChange(s, a.standard))
              && (a.Reset? ==> r == HandleReset(s, a.confirmed, a.minuteMs))
  {
    if !Enabled(s, a, now) then s
    else
      match a
      case Start => s.(step := PatientStep)
      case Continue => s.(step := ResultStep)
      case EditPatient(p) => s.(patient := p)
      case PatientNext => s.(step := FamilyStep)
      case EditFamily(f) => HandleFamilyChange(s, f)
      case FamilyNext => s.(step := StandardStep)
      case FamilyBack => s.(step := PatientStep)
      case ChooseStandard(std) => HandleStandardChange(s, std)
      case StandardNext => s.(step := ResultStep)
      case StandardBack => s.(step := FamilyStep)
      case Edit => s.(step := PatientStep)
      case Reset(confirmed, minuteMs) => HandleReset(s, confirmed, minuteMs)
  }

  /** Loading data saved from a consistent session, and then any sequence
      of actions, leaves the session consistent. */
  lemma {:induction false} ConsistentAlong(minuteMs: int, saved: Option<SavedData>, actions: seq<Action>, now: int)
    requires saved.Some? ==> FamilyForm.AllDerived(saved.value.family, saved.value.standard)
    ensures Consistent(Run(LoadSaved(InitialState(minuteMs), saved), actions, now))
    decreases |actions|
  {
    if |actions| > 0 {
      ConsistentAlong(minuteMs, saved, actions[..|actions| - 1], now);
    }
  }

  /** What the automatic save writes, the next session's load restores:
      the same patient, family and standard, and Continue leads straight to
      the result page. */
  lemma SaveLoadRoundTrip(s: AppState, minuteMs: int, now: int)
    ensures var r := LoadSaved(InitialState(minuteMs), Some(Snapshot(s)));
            && r.patient == s.patient && r.family == s.family && r.standard == s.standard
            && Dispatch(r, Continue, now).step == ResultStep
  {
  }

  /** The state after a sequence of actions. */
  function Run(s: AppState, actions: seq<Action>, now: int): AppState
    decreases |actions|
  {
    if |actions| == 0 then s else Dispatch(Run(s, actions[..|actions| - 1], now), actions[|actions| - 1], now)
  }

  /** Only the family page reaches the standard page, and only with a
      non-empty family whose names are all filled in. */
  lemma StandardPageNeedsFamily(s: AppState, a: Action, now: int)
    requires s.step != StandardStep
    requires Dispatch(s, a, now).step == StandardStep
    ensures s.step == FamilyStep && a == FamilyNext && FamilyForm.NextEnabled(s.family)
  {
  }

  /** Only the patient page reaches the family page, and only when the
      patient record may proceed. */
  lemma FamilyPageNeedsPatient(s: AppState, a: Action, now: int)
    requires s.step != FamilyStep
    requires Dispatch(s, a, now).step == FamilyStep
    ensures (s.step == PatientStep && a == PatientNext && PatientForm.CanProceed(s.patient, now))
            || (s.step == StandardStep && a == StandardBack)
  {
  }

  /** Back undoes Next: going on from the family page and back again
      returns to the same state. */
  lemma FamilyBackUndoesNext(s: AppState, now: int)
    requires s.step == FamilyStep && FamilyForm.NextEnabled(s.family)
    ensures Dispatch(Dispatch(s, FamilyNext, now), StandardBack, now) == s
  {
    assert Enabled(s, FamilyNext, now);
    var t := s.(step := StandardStep);
    assert Dispatch(s, FamilyNext, now) == t;
    assert Enabled(t, StandardBack, now);
  }

  /** Likewise from the patient page. */
  lemma PatientBackUndoesNext(s: AppState, now: int)
    requires s.step == PatientStep && PatientForm.CanProceed(s.patient, now)
    ensures Dispatch(Dispatch(s, PatientNext, now), FamilyBack, now) == s
  {
  }

  /** Switching the standard and back restores a consistent family exactly. */
  lemma StandardRoundTrip(s: AppState, other: DoseStandard)
    requires Consistent(s)
    ensures HandleStandardChange(HandleStandardChange(s, other), s.standard) == s
  {
    var t := HandleStandardChange(s, other);
    var u := HandleStandardChange(t, s.standard);
    assert |u.family| == |s.family|;
    forall i | 0 <= i < |s.family| ensures u.family[i] == s.family[i] {
      assert DoseLimits.Derived(s.family[i], s.standard);
      assert DoseLimits.Derived(u.family[i], s.standard);
    }
  }

  /** Handing the family handler its own output changes nothing. */
  lemma FamilyChangeIdempotent(s: AppState, newFamily: seq<FamilyMember>)
    ensures HandleFamilyChange(HandleFamilyChange(s, newFamily), HandleFamilyChange(s, newFamily).family)
            == HandleFamilyChange(s, newFamily)
  {
  }
}
