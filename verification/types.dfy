/** The records and enumerations shared by every layer of the calculator.
    JavaScript's `number | ''` form fields are `Option<real>`, the nuclide id
    `NuclideId | ''` is `Option<NuclideId>`, and the ISO injection-time string
    is `Option<int>` milliseconds since the epoch (`''` is `None`). */
module Types {
  import opened Wrappers

  datatype NuclideId = I131 | Tc99m | F18 | Lu177 | Ga68

  datatype Procedure = Procedure(
    id: string,
    title: string,                // the display label
    nuclideId: NuclideId,
    effectiveHalfLifeHours: real,
    doseRangeMin: nat,            // typical administered activity, MBq
    doseRangeMax: nat)

  datatype Nuclide = Nuclide(
    id: NuclideId,
    title: string,                // the display label
    physicalHalfLifeHours: real,
    gamma: real,                  // dose-rate constant, μSv·m²/(MBq·h)
    procedures: seq<Procedure>)

  datatype DoseStandard = Icrp | Korean

  datatype AgeCategory = Adult | Caregiver | Teenager | Child | Infant | Pregnant

  datatype DoseLimitEntry = DoseLimitEntry(
    category: AgeCategory,
    title: string,                // the display label
    ageRange: string,
    limitMSv: real,
    description: string)

  datatype ContactScenario = ContactScenario(
    id: string,
    title: string,                // the display label
    emoji: string,
    distance: real,               // metres
    occupancyFactor: real,        // fraction of the day spent at that distance
    description: string)

  datatype FamilyMember = FamilyMember(
    id: string,
    name: string,
    age: real,
    isPregnant: bool,
    category: AgeCategory,
    doseLimitMSv: real)

  datatype Gender = Male | Female

  datatype PatientInfo = PatientInfo(
    gender: Option<Gender>,
    age: Option<real>,
    weight: Option<real>,
    nuclideId: Option<NuclideId>,
    procedureId: string,
    doseMBq: Option<real>,
    injectionTime: Option<int>)

  /** A quantity that may be JavaScript's `Infinity`: the "never safe" sentinel. */
  datatype OrNever<T> = Finite(value: T) | Never

  datatype ScenarioResult = ScenarioResult(
    scenarioId: string,
    hugTimeHours: OrNever<real>,  // from injection
    isSafeNow: bool,
    remainingSeconds: OrNever<int>)

  datatype FamilyResult = FamilyResult(
    memberId: string,
    scenarios: seq<ScenarioResult>,
    currentSafeDistanceM: real)

  datatype AppStep = Landing | PatientStep | FamilyStep | StandardStep | ResultStep
}
