/** The per-second evaluation (src/hooks/useCountdown.ts): from the patient
    record, the family list and the chosen standard, each member's hug time
    per contact scenario, whether that contact is safe now, the seconds
    left, and the current safe distance. The clock reading `now` (ms since
    the epoch) and the transcendental functions are parameters. */
module Countdown {
  import opened Wrappers
  import opened Types
  import opened RealMath
  import opened Radiation
  import Nuclides
  import DoseLimits
  import Occupancy

  /** Milliseconds per hour, `1000 * 60 * 60`. */
  const MsPerHour: real := 3600000.0

  /** The occupancy factor the safe distance is computed for. */
  const SafeDistanceOccupancy: real := 0.25

  /** What the hook publishes: one result per member and the share of the
      activity left in the body. */
  datatype Evaluation = Evaluation(results: seq<FamilyResult>, remainingPercent: real)

  /** The quantities one evaluation works from: Γ of the nuclide, the
      administered activity A₀, λ of the procedure's effective half-life and
      the injection time. */
  datatype Setup = Setup(gamma: real, a0: real, lambdaEff: real, injectionTime: int)

  /** Everything the calculation needs is filled in: a nuclide, a procedure,
      a non-zero dose and an injection time, the procedure is in the
      catalogue, and the injection is not in the future. */
  predicate Ready(patient: PatientInfo, now: int) {
    && patient.nuclideId.Some? && patient.procedureId != ""
    && patient.doseMBq.Some? && patient.doseMBq.value != 0.0
    && patient.injectionTime.Some?
    && Nuclides.GetProcedure(patient.nuclideId.value, patient.procedureId).Some?
    && patient.injectionTime.value <= now
  }

  /** Constants the formulas may divide by are non-zero, with Γ and λ
      positive. */
  predicate Usable(s: Setup) {
    s.gamma > 0.0 && s.a0 != 0.0 && s.lambdaEff > 0.0
  }

  /** λ is the decay constant of the half-life `halfLifeHours`: λ·T½ = ln 2. */
  predicate DecaysWith(s: Setup, halfLifeHours: real) {
    s.lambdaEff * halfLifeHours == Ln2
  }

  /** The quantities for Γ, A₀, the effective half-life and the injection time. */
  function SetupOf(gamma: real, a0: real, halfLifeHours: real, injectionTime: int): (s: Setup)
    requires gamma > 0.0 && a0 != 0.0 && halfLifeHours > 0.0
    ensures Usable(s)
    ensures s.gamma == gamma && s.a0 == a0 && s.injectionTime == injectionTime
    ensures DecaysWith(s, halfLifeHours)
  {
    Setup(gamma, a0, DecayConstant(halfLifeHours), injectionTime)
  }

  /** The early returns of `calculate` and the constants it looks up. */
  function Prepare(patient: PatientInfo, now: int): (r: Option<Setup>)
    ensures r.Some? <==> Ready(patient, now)
    ensures r.Some? ==> Usable(r.value)
    ensures r.Some? ==>
              && r.value.gamma == Nuclides.GetNuclide(patient.nuclideId.value).gamma
              && r.value.a0 == patient.doseMBq.value
              && r.value.injectionTime == patient.injectionTime.value
    ensures r.Some? ==>
              DecaysWith(r.value, Nuclides.GetProcedure(patient.nuclideId.value, patient.procedureId).value.effectiveHalfLifeHours)
  {
    if patient.nuclideId.None? || patient.procedureId == "" || patient.doseMBq.None?
       || patient.doseMBq.value == 0.0 || patient.injectionTime.None? then None
    else
      var id := patient.nuclideId.value;
      var found := Nuclides.GetProcedure(id, patient.procedureId);
      if found.None? || now < patient.injectionTime.value then None
      else
        Nuclides.FoundProcedureValid(id, patient.procedureId);
        Some(SetupOf(Nuclides.GetNuclide(id).gamma, patient.doseMBq.value,
                     found.value.effectiveHalfLifeHours, patient.injectionTime.value))
  }

  /** Hours since the injection. */
  function ElapsedHours(s: Setup, now: int): real {
    (now - s.injectionTime) as real / MsPerHour
  }

  /** `Math.ceil`: the least integer at or above `x`. */
  function Ceil(x: real): (n: int)
    ensures x <= n as real < x + 1.0
  {
    -((-x).Floor)
  }

  /** The moment `hug` hours after the injection is finite and not after `now`. */
  predicate Passed(injectionTime: int, hug: OrNever<real>, now: int) {
    hug.Finite? && injectionTime as real + hug.value * MsPerHour <= now as real
  }

  /** One scenario for one limit: the hug time, whether its moment has
      passed, and the whole seconds left (0 once safe; "never" with the hug
      time). */
  function ScenarioOutcome(m: Analysis, s: Setup, scenario: ContactScenario,
                           limitUSv: real, now: int): (r: ScenarioResult)
    requires Usable(s) && Occupancy.Physical(scenario)
    ensures r.scenarioId == scenario.id
    ensures r.hugTimeHours == HugTime(m, s.gamma, s.a0, s.lambdaEff, scenario.distance, scenario.occupancyFactor, limitUSv)
    ensures r.hugTimeHours.Never? <==> r.remainingSeconds.Never?
    ensures r.isSafeNow ==> r.remainingSeconds == Finite(0)
    ensures r.remainingSeconds.Finite? && !r.isSafeNow ==> r.remainingSeconds.value >= 1
  {
    var hug := HugTime(m, s.gamma, s.a0, s.lambdaEff, scenario.distance, scenario.occupancyFactor, limitUSv);
    match hug
    case Never => ScenarioResult(scenario.id, Never, false, Never)
    case Finite(hours) =>
      var remainingMs := s.injectionTime as real + hours * MsPerHour - now as real;
      var safe := remainingMs <= 0.0;
      ScenarioResult(scenario.id, hug, safe, Finite(if safe then 0 else Ceil(remainingMs / 1000.0)))
  }

  /** The limit of a member in μSv: the category's limit under `standard`,
      times 1000. The member's stored `doseLimitMSv` is not consulted. */
  function LimitUSv(standard: DoseStandard, member: FamilyMember): (r: real)
    ensures r > 0.0
    ensures r == 1000.0 * DoseLimits.PublishedLimit(standard, member.category)
  {
    DoseLimits.LimitIsPublished(standard, member.category);
    DoseLimits.GetDoseLimit(standard, member.category) * 1000.0
  }

  /** The outcome of each scenario of `scenarios`, in order. */
  function Outcomes(m: Analysis, s: Setup, scenarios: seq<ContactScenario>, limitUSv: real, now: int)
    : (r: seq<ScenarioResult>)
    requires Usable(s) && forall j :: 0 <= j < |scenarios| ==> Occupancy.Physical(scenarios[j])
    ensures |r| == |scenarios|
    ensures forall j :: 0 <= j < |r| ==> r[j] == ScenarioOutcome(m, s, scenarios[j], limitUSv, now)
  {
    seq(|scenarios|, j requires 0 <= j < |scenarios| => ScenarioOutcome(m, s, scenarios[j], limitUSv, now))
  }

  /** One member's result: every contact scenario in order, and the safe
      distance for the current activity at occupancy 0.25. */
  function MemberResult(m: Analysis, s: Setup, member: FamilyMember,
                        standard: DoseStandard, now: int): (r: FamilyResult)
    requires Usable(s)
    ensures r.memberId == member.id
    ensures |r.scenarios| == |Occupancy.ContactScenarios|
    ensures forall j :: 0 <= j < |r.scenarios| ==>
              r.scenarios[j] == ScenarioOutcome(m, s, Occupancy.ContactScenarios[j], LimitUSv(standard, member), now)
  {
    Occupancy.AllPhysical();
    var limit := LimitUSv(standard, member);
    FamilyResult(member.id, Outcomes(m, s, Occupancy.ContactScenarios, limit, now),
                 CurrentSafeDistance(m, s, limit, now))
  }

  /** The safe distance for the activity left now, at occupancy 0.25. */
  function CurrentSafeDistance(m: Analysis, s: Setup, limitUSv: real, now: int): real
    requires Usable(s) && limitUSv > 0.0
  {
    SafeDistance(m, s.gamma, ActivityAtTime(m, s.a0, s.lambdaEff, ElapsedHours(s, now)),
                 s.lambdaEff, SafeDistanceOccupancy, limitUSv)
  }

  /** Each member's result, in list order. */
  function MemberResults(m: Analysis, s: Setup, family: seq<FamilyMember>,
                         standard: DoseStandard, now: int): (r: seq<FamilyResult>)
    requires Usable(s)
    ensures |r| == |family|
    ensures forall i :: 0 <= i < |family| ==> r[i] == MemberResult(m, s, family[i], standard, now)
  {
    seq(|family|, i requires 0 <= i < |family| => MemberResult(m, s, family[i], standard, now))
  }

  /** `calculate`: nothing (the previous results stay on screen) unless the
      record is ready; otherwise one result per member, in list order, and
      the remaining-activity percentage. */
  function Evaluate(m: Analysis, patient: PatientInfo, family: seq<FamilyMember>,
                    standard: DoseStandard, now: int): (r: Option<Evaluation>)
    ensures r.Some? <==> Ready(patient, now)
    ensures r.Some? ==> |r.value.results| == |family|
    ensures r.Some? ==> forall i :: 0 <= i < |family| ==> r.value.results[i].memberId == family[i].id
    ensures r.Some? ==>
              var s := Prepare(patient, now).value;
              && (forall i :: 0 <= i < |family| ==> r.value.results[i] == MemberResult(m, s, family[i], standard, now))
              && r.value.remainingPercent * s.a0 == 100.0 * ActivityAtTime(m, s.a0, s.lambdaEff, ElapsedHours(s, now))
  {
    match Prepare(patient, now)
    case None => None
    case Some(s) =>
      PercentScaled(m, s.a0, s.lambdaEff, ElapsedHours(s, now));
      Some(Evaluation(
        MemberResults(m, s, family, standard, now),
        RemainingActivityPercent(m, s.lambdaEff, ElapsedHours(s, now))))
  }

  /** Every result lists the scenarios "hug", "same-room", "same-house" in
      that order. */
  lemma ScenarioOrder(m: Analysis, patient: PatientInfo, family: seq<FamilyMember>,
                      standard: DoseStandard, now: int, i: nat)
    requires Evaluate(m, patient, family, standard, now).Some?
    requires i < |family|
    ensures var r := Evaluate(m, patient, family, standard, now).value.results[i];
            |r.scenarios| == |Occupancy.ScenarioIds|
            && forall j :: 0 <= j < |r.scenarios| ==> r.scenarios[j].scenarioId == Occupancy.ScenarioIds[j]
  {
    Occupancy.ScenarioTable();
  }

  /** Two members that differ only in their stored limit (or name, age,
      pregnancy flag) but share id and category get the same result. */
  lemma StoredLimitIgnored(m: Analysis, s: Setup, a: FamilyMember, b: FamilyMember,
                           standard: DoseStandard, now: int)
    requires Usable(s)
    requires a.id == b.id && a.category == b.category
    ensures MemberResult(m, s, a, standard, now) == MemberResult(m, s, b, standard, now)
  {
    assert LimitUSv(standard, a) == LimitUSv(standard, b);
  }

  /** A ready record with a positive dose: all physical constants positive. */
  lemma ReadySetup(patient: PatientInfo, now: int)
    requires Ready(patient, now) && patient.doseMBq.value > 0.0
    ensures Prepare(patient, now).Some?
    ensures var s := Prepare(patient, now).value;
            s.a0 > 0.0 && ElapsedHours(s, now) >= 0.0
  {
  }

  /** A contact is reported safe now exactly when injection time plus hug
      time is not after `now`. */
  lemma SafeNowWhenPassed(m: Analysis, s: Setup, scenario: ContactScenario, limitUSv: real, now: int)
    requires Usable(s) && Occupancy.Physical(scenario)
    ensures var r := ScenarioOutcome(m, s, scenario, limitUSv, now);
            r.isSafeNow <==> Passed(s.injectionTime, r.hugTimeHours, now)
  {
  }

  /** A contact is reported safe now exactly when the dose the member would
      still receive from now on, in that scenario, is within the limit. */
  lemma SafeNowIff(m: Analysis, s: Setup, scenario: ContactScenario, limitUSv: real, now: int)
    requires Lawful(m)
    requires Usable(s) && s.a0 > 0.0 && Occupancy.Physical(scenario) && limitUSv > 0.0
    requires s.injectionTime <= now
    ensures ScenarioOutcome(m, s, scenario, limitUSv, now).isSafeNow
            <==> CumulativeDoseFromTime(m, s.gamma, s.a0, s.lambdaEff, ElapsedHours(s, now),
                                        scenario.distance, scenario.occupancyFactor) <= limitUSv
  {
    var elapsed := ElapsedHours(s, now);
    HugTimeIsEarliestSafeTime(m, s.gamma, s.a0, s.lambdaEff, scenario.distance,
                              scenario.occupancyFactor, limitUSv, elapsed);
    var hours := HugTime(m, s.gamma, s.a0, s.lambdaEff, scenario.distance, scenario.occupancyFactor, limitUSv).value;
    assert s.injectionTime as real + hours * MsPerHour - now as real <= 0.0 <==> hours <= elapsed;
  }

  /** The hug time a scenario reports is the earliest safe moment: with a
      positive dose it is finite, and the dose still to come from any time
      `t` after the injection is within the limit exactly when `t` is at or
      after it. */
  lemma ReportedHugTimeIsEarliest(m: Analysis, s: Setup, scenario: ContactScenario,
                                  limitUSv: real, now: int, t: real)
    requires Lawful(m)
    requires Usable(s) && s.a0 > 0.0 && Occupancy.Physical(scenario) && limitUSv > 0.0
    requires t >= 0.0
    ensures var r := ScenarioOutcome(m, s, scenario, limitUSv, now);
            && r.hugTimeHours.Finite?
            && (CumulativeDoseFromTime(m, s.gamma, s.a0, s.lambdaEff, t, scenario.distance, scenario.occupancyFactor) <= limitUSv
                <==> r.hugTimeHours.value <= t)
  {
    HugTimeIsEarliestSafeTime(m, s.gamma, s.a0, s.lambdaEff, scenario.distance,
                              scenario.occupancyFactor, limitUSv, t);
  }

  /** With a positive dose there is always a hug time, and when it is
      still ahead the seconds left bracket it: the hug moment lies in the
      last second counted. */
  lemma RemainingSecondsBracket(m: Analysis, s: Setup, scenario: ContactScenario, limitUSv: real, now: int)
    requires Lawful(m)
    requires Usable(s) && s.a0 > 0.0 && Occupancy.Physical(scenario) && limitUSv > 0.0
    ensures var r := ScenarioOutcome(m, s, scenario, limitUSv, now);
            && r.hugTimeHours.Finite? && r.remainingSeconds.Finite?
            && (!r.isSafeNow ==>
                  var remainingMs := s.injectionTime as real + r.hugTimeHours.value * MsPerHour - now as real;
                  (r.remainingSeconds.value - 1) as real * 1000.0 < remainingMs <= r.remainingSeconds.value as real * 1000.0)
  {
    ArgumentPositive(s.gamma, s.a0, s.lambdaEff, scenario.distance, scenario.occupancyFactor, limitUSv);
  }

  /** The reported safe distance is the distance at which the dose still to
      come from the current activity, at occupancy 0.25, equals the limit. */
  lemma SafeDistanceMeaning(m: Analysis, patient: PatientInfo, family: seq<FamilyMember>,
                            standard: DoseStandard, now: int, i: nat)
    requires Lawful(m)
    requires Ready(patient, now) && patient.doseMBq.value > 0.0
    requires i < |family|
    ensures Evaluate(m, patient, family, standard, now).Some?
    ensures var s := Prepare(patient, now).value;
            var d := Evaluate(m, patient, family, standard, now).value.results[i].currentSafeDistanceM;
            d > 0.0
            && CumulativeDoseFromTime(m, s.gamma, ActivityAtTime(m, s.a0, s.lambdaEff, ElapsedHours(s, now)),
                                      s.lambdaEff, 0.0, d, SafeDistanceOccupancy)
               == LimitUSv(standard, family[i])
  {
    var s := Prepare(patient, now).value;
    var activity := ActivityAtTime(m, s.a0, s.lambdaEff, ElapsedHours(s, now));
    ActivityDecreasing(m, s.a0, s.lambdaEff, -1.0, ElapsedHours(s, now));
    SafeDistanceMeetsLimit(m, s.gamma, activity, s.lambdaEff, SafeDistanceOccupancy, LimitUSv(standard, family[i]));
  }

  /** The published percentage lies in (0, 100]. */
  lemma PercentInRange(m: Analysis, patient: PatientInfo, family: seq<FamilyMember>,
                       standard: DoseStandard, now: int)
    requires Lawful(m)
    requires Ready(patient, now)
    ensures Evaluate(m, patient, family, standard, now).Some?
    ensures 0.0 < Evaluate(m, patient, family, standard, now).value.remainingPercent <= 100.0
  {
    var s := Prepare(patient, now).value;
    PercentBounds(m, s.lambdaEff, ElapsedHours(s, now));
  }
}
