/** The patient record editor (src/components/input/PatientForm.tsx): the
    nuclide and procedure handlers, the dose-range hint, the future-time
    warning and when the Next button is enabled. `now` is a parameter. */
module PatientForm {
  import opened Wrappers
  import opened Types
  import Nuclides
  import Validation
  import Countdown

  /** `handleNuclideChange`: choosing a nuclide, or the placeholder option
      (`None`, the empty value of the selector), stores that choice and
      clears the procedure and the dose, which belonged to the previous
      nuclide; nothing else changes. */
  function HandleNuclideChange(p: PatientInfo, nuclideId: Option<NuclideId>): (r: PatientInfo)
    ensures r.nuclideId == nuclideId && r.procedureId == "" && r.doseMBq.None?
    ensures r.gender == p.gender && r.age == p.age && r.weight == p.weight
            && r.injectionTime == p.injectionTime
  {
    p.(nuclideId := nuclideId, procedureId := "", doseMBq := None)
  }

  /** `handleProcedureChange`: the procedure is set and the dose is
      prefilled with the bottom of its usual range, or cleared when the
      nuclide has no such procedure; nothing else changes. The source reads
      the selected nuclide unconditionally, so one must be selected. */
  function HandleProcedureChange(p: PatientInfo, procedureId: string): (r: PatientInfo)
    requires p.nuclideId.Some?
    ensures r.procedureId == procedureId
    ensures Nuclides.GetProcedure(p.nuclideId.value, procedureId).None? ==> r.doseMBq.None?
    ensures Nuclides.GetProcedure(p.nuclideId.value, procedureId).Some? ==>
              r.doseMBq == Some(Nuclides.GetProcedure(p.nuclideId.value, procedureId).value.doseRangeMin as real)
    ensures r.gender == p.gender && r.age == p.age && r.weight == p.weight
            && r.nuclideId == p.nuclideId && r.injectionTime == p.injectionTime
  {
    var procedure := Nuclides.GetProcedure(p.nuclideId.value, procedureId);
    p.(procedureId := procedureId,
       doseMBq := if procedure.Some? then Some(procedure.value.doseRangeMin as real) else None)
  }

  /** `doseValidation`: no hint while the nuclide, the procedure or a
      non-zero dose is missing; otherwise the range check. */
  function DoseValidation(p: PatientInfo): (r: Option<Validation.DoseCheck>)
    ensures r.None? <==> p.nuclideId.None? || p.procedureId == "" || p.doseMBq.None? || p.doseMBq.value == 0.0
    ensures r.Some? ==> r.value == Validation.ValidateDoseRange(p.nuclideId.value, p.procedureId, p.doseMBq.value)
  {
    if p.nuclideId.None? || p.procedureId == "" || p.doseMBq.None? || p.doseMBq.value == 0.0 then None
    else Some(Validation.ValidateDoseRange(p.nuclideId.value, p.procedureId, p.doseMBq.value))
  }

  /** Picking a catalogued procedure prefills a dose the range check accepts. */
  lemma PrefilledDoseInRange(p: PatientInfo, procedureId: string)
    requires p.nuclideId.Some?
    requires Nuclides.GetProcedure(p.nuclideId.value, procedureId).Some?
    ensures DoseValidation(HandleProcedureChange(p, procedureId)) == Some(Validation.DoseCheck(true, ""))
  {
    var procedure := Nuclides.GetProcedure(p.nuclideId.value, procedureId).value;
    Nuclides.ProceduresValid(p.nuclideId.value);
    assert Nuclides.ValidProcedure(procedure);
  }

  /** `canProceed`: nuclide, procedure, a positive dose and an injection
      time that is not in the future. Age and weight are not consulted. */
  predicate CanProceed(p: PatientInfo, now: int) {
    && p.nuclideId.Some? && p.procedureId != ""
    && p.doseMBq.Some? && p.doseMBq.value > 0.0
    && p.injectionTime.Some? && p.injectionTime.value <= now
  }

  /** The warning under the time input: a time is set and lies after `now`. */
  predicate FutureWarning(p: PatientInfo, now: int) {
    p.injectionTime.Some? && p.injectionTime.value > now
  }

  /** Proceeding is allowed exactly when `validatePatient` flags none of the
      nuclide, procedure, dose and injection-time fields. */
  lemma CanProceedIff(p: PatientInfo, now: int)
    ensures CanProceed(p, now) <==>
              && !Validation.Flagged(Validation.ValidatePatient(p, now), Validation.NuclideField)
              && !Validation.Flagged(Validation.ValidatePatient(p, now), Validation.ProcedureField)
              && !Validation.Flagged(Validation.ValidatePatient(p, now), Validation.DoseField)
              && !Validation.Flagged(Validation.ValidatePatient(p, now), Validation.InjectionTimeField)
  {
    Validation.ValidatePatientFlags(p, now);
  }

  /** With every other requirement met, the warning shows exactly when the
      time check of `canProceed` fails. */
  lemma FutureWarningIff(p: PatientInfo, now: int)
    requires p.nuclideId.Some? && p.procedureId != "" && p.doseMBq.Some? && p.doseMBq.value > 0.0
    requires p.injectionTime.Some?
    ensures FutureWarning(p, now) <==> !CanProceed(p, now)
  {
  }

  /** A record that may proceed, with a catalogued procedure, is one the
      countdown evaluates. */
  lemma ProceedLeadsToEvaluation(p: PatientInfo, now: int)
    requires CanProceed(p, now)
    requires Nuclides.GetProcedure(p.nuclideId.value, p.procedureId).Some?
    ensures Countdown.Ready(p, now)
  {
  }

  /** After choosing a nuclide, or clearing the choice, the record cannot
      proceed until a procedure and a dose are chosen. */
  lemma NuclideChangeBlocks(p: PatientInfo, nuclideId: Option<NuclideId>, now: int)
    ensures !CanProceed(HandleNuclideChange(p, nuclideId), now)
    ensures !Countdown.Ready(HandleNuclideChange(p, nuclideId), now)
  {
  }
}
