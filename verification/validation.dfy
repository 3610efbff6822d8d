/** Form validation (src/lib/validation.ts): the patient record, the dose
    against the procedure's usual range, and the family list. Errors are
    produced in a fixed order; each names the form field it is about. */
module Validation {
  import opened Wrappers
  import opened Types
  import opened Text
  import Nuclides

  /** The form fields an error can point at. */
  datatype Field =
    | AgeField | WeightField | NuclideField | ProcedureField | DoseField | InjectionTimeField
    | FamilyField
    | MemberName(index: nat)
    | MemberAge(index: nat)

  datatype ValidationError = ValidationError(field: Field, message: string)

  /** The field key the form uses: `family-{i}-name` and `family-{i}-age`
      for a member's inputs. */
  function FieldKey(f: Field): string {
    match f
    case AgeField => "age"
    case WeightField => "weight"
    case NuclideField => "nuclideId"
    case ProcedureField => "procedureId"
    case DoseField => "doseMBq"
    case InjectionTimeField => "injectionTime"
    case FamilyField => "family"
    case MemberName(i) => "family-" + NatToString(i) + "-name"
    case MemberAge(i) => "family-" + NatToString(i) + "-age"
  }

  /** Distinct fields have distinct keys, so a key identifies its input. */
  lemma FieldKeyInjective(f: Field, g: Field)
    ensures FieldKey(f) == FieldKey(g) <==> f == g
  {
    if FieldKey(f) == FieldKey(g) {
      if f.MemberName? && g.MemberName? {
        MiddleCancels("family-", NatToString(f.index), NatToString(g.index), "-name");
        NatToStringParses(f.index);
        NatToStringParses(g.index);
      } else if f.MemberAge? && g.MemberAge? {
        MiddleCancels("family-", NatToString(f.index), NatToString(g.index), "-age");
        NatToStringParses(f.index);
        NatToStringParses(g.index);
      } else if f.MemberName? && g.MemberAge? {
        NameAgeKeysDiffer(f, g);
      } else if f.MemberAge? && g.MemberName? {
        NameAgeKeysDiffer(g, f);
      } else if f.MemberName? || f.MemberAge? {
        MemberKeyShape(f);
      } else if g.MemberName? || g.MemberAge? {
        MemberKeyShape(g);
      }
    }
  }

  /** A member's key starts with 'f' and is longer than "family". */
  lemma MemberKeyShape(f: Field)
    requires f.MemberName? || f.MemberAge?
    ensures |FieldKey(f)| > 6 && FieldKey(f)[0] == 'f'
  {
  }

  lemma NameAgeKeysDiffer(f: Field, g: Field)
    requires f.MemberName? && g.MemberAge?
    ensures FieldKey(f) != FieldKey(g) && FieldKey(g) != FieldKey(f)
  {
    var s, t := FieldKey(f), FieldKey(g);
    assert s[|s| - 2] == 'm';
    assert t[|t| - 2] == 'g';
  }

  /** p + x + q == p + y + q forces x == y, and decimal forms are injective. */
  lemma MiddleCancels(p: string, x: string, y: string, q: string)
    requires AllDigits(x) && AllDigits(y)
    requires p + x + q == p + y + q
    ensures ParseNat(x) == ParseNat(y)
  {
    var s := p + x + q;
    assert |x| == |y|;
    assert x == s[|p|..|p| + |x|];
    assert y == s[|p|..|p| + |y|];
  }

  /** One check of a form: whether it failed and the error it reports then. */
  datatype Rule = Rule(failed: bool, error: ValidationError)

  /** The errors of the failed checks, in the order the checks run (the
      `errors.push` sequence of the source). */
  function Failed(rules: seq<Rule>): (errs: seq<ValidationError>)
    ensures |errs| <= |rules|
    ensures forall e :: e in errs ==>
              exists i :: 0 <= i < |rules| && rules[i].failed && rules[i].error == e
    ensures forall i :: 0 <= i < |rules| && rules[i].failed ==> rules[i].error in errs
  {
    if |rules| == 0 then []
    else
      var rest := Failed(rules[1..]);
      assert forall i :: 1 <= i < |rules| ==> rules[i] == rules[1..][i - 1];
      (if rules[0].failed then [rules[0].error] else []) + rest
  }

  /** Position of a field within its form, in the order the checks run:
      the six patient fields, then the empty-list check and per member the
      name before the age. */
  function FieldRank(f: Field): nat {
    match f
    case AgeField => 0
    case WeightField => 1
    case NuclideField => 2
    case ProcedureField => 3
    case DoseField => 4
    case InjectionTimeField => 5
    case FamilyField => 0
    case MemberName(i) => 2 * i + 1
    case MemberAge(i) => 2 * i + 2
  }

  /** Each check is about a field ranked after the previous check's field. */
  predicate RulesRanked(rules: seq<Rule>) {
    forall i, j :: 0 <= i < j < |rules| ==> FieldRank(rules[i].error.field) < FieldRank(rules[j].error.field)
  }

  /** Errors in strictly increasing field order: no field twice, none out of order. */
  predicate Ranked(errs: seq<ValidationError>) {
    forall i, j :: 0 <= i < j < |errs| ==> FieldRank(errs[i].field) < FieldRank(errs[j].field)
  }

  /** Some error in `errs` is about field `f`. */
  predicate Flagged(errs: seq<ValidationError>, f: Field) {
    exists i :: 0 <= i < |errs| && errs[i].field == f
  }

  /** Checks that run in field order report their errors in field order. */
  lemma {:induction false} FailedRanked(rules: seq<Rule>)
    requires RulesRanked(rules)
    ensures Ranked(Failed(rules))
  {
    if |rules| > 0 {
      var tail := rules[1..];
      assert RulesRanked(tail) by {
        forall i, j | 0 <= i < j < |tail|
          ensures FieldRank(tail[i].error.field) < FieldRank(tail[j].error.field)
        {
          assert tail[i] == rules[i + 1] && tail[j] == rules[j + 1];
        }
      }
      FailedRanked(tail);
      var rest := Failed(tail);
      if rules[0].failed {
        forall k | 0 <= k < |rest|
          ensures FieldRank(rules[0].error.field) < FieldRank(rest[k].field)
        {
          assert rest[k] in rest;
          var i :| 0 <= i < |tail| && tail[i].failed && tail[i].error == rest[k];
          assert tail[i] == rules[i + 1];
        }
      }
    }
  }

  /** With checks in field order, a field is flagged exactly when its check failed. */
  lemma FlaggedIff(rules: seq<Rule>, i: nat)
    requires RulesRanked(rules) && i < |rules|
    ensures Flagged(Failed(rules), rules[i].error.field) <==> rules[i].failed
  {
    var errs := Failed(rules);
    var f := rules[i].error.field;
    if rules[i].failed {
      assert rules[i].error in errs;
      var k :| 0 <= k < |errs| && errs[k] == rules[i].error;
      assert errs[k].field == f;
    }
    if Flagged(errs, f) {
      var k :| 0 <= k < |errs| && errs[k].field == f;
      assert errs[k] in errs;
      var j :| 0 <= j < |rules| && rules[j].failed && rules[j].error == errs[k];
      assert FieldRank(rules[j].error.field) == FieldRank(f);
      assert j == i;
    }
  }

  /** No error at all exactly when no check failed. */
  lemma FailedEmptyIff(rules: seq<Rule>)
    ensures Failed(rules) == [] <==> forall i :: 0 <= i < |rules| ==> !rules[i].failed
  {
    var errs := Failed(rules);
    if errs != [] {
      assert errs[0] in errs;
    }
  }

  // ---------------------------------------------------------------------
  // Patient

  predicate AgeValid(age: Option<real>) {
    age.Some? && 0.0 <= age.value <= 120.0
  }

  predicate WeightValid(weight: Option<real>) {
    weight.Some? && 1.0 <= weight.value <= 300.0
  }

  predicate DoseGiven(dose: Option<real>) {
    dose.Some? && dose.value > 0.0
  }

  /** An injection time is acceptable when it is set and not after `now`. */
  predicate InjectionValid(injectionTime: Option<int>, now: int) {
    injectionTime.Some? && injectionTime.value <= now
  }

  /** A patient record the calculation can run on. */
  predicate PatientComplete(p: PatientInfo, now: int) {
    && AgeValid(p.age) && WeightValid(p.weight)
    && p.nuclideId.Some? && p.procedureId != ""
    && DoseGiven(p.doseMBq) && InjectionValid(p.injectionTime, now)
  }

  /** The message for the injection time: unset, or set in the future. */
  function InjectionMessage(injectionTime: Option<int>): string {
    if injectionTime.None? then "주사 일시를 입력해주세요"
    else "주사 일시가 미래입니다. 과거 시간을 입력해주세요"
  }

  /** The six checks of `validatePatient`, in the order they run. */
  function PatientRules(p: PatientInfo, now: int): (rules: seq<Rule>)
    ensures |rules| == 6 && RulesRanked(rules)
    ensures forall i :: 0 <= i < 6 ==> FieldRank(rules[i].error.field) == i
  {
    [ Rule(!AgeValid(p.age), ValidationError(AgeField, "나이를 올바르게 입력해주세요 (0~120세)")),
      Rule(!WeightValid(p.weight), ValidationError(WeightField, "몸무게를 올바르게 입력해주세요 (1~300kg)")),
      Rule(p.nuclideId.None?, ValidationError(NuclideField, "방사성의약품을 선택해주세요")),
      Rule(p.procedureId == "", ValidationError(ProcedureField, "시술 유형을 선택해주세요")),
      Rule(!DoseGiven(p.doseMBq), ValidationError(DoseField, "투여량을 입력해주세요")),
      Rule(!InjectionValid(p.injectionTime, now),
           ValidationError(InjectionTimeField, InjectionMessage(p.injectionTime))) ]
  }

  /** `validatePatient`, with the current time `now` (ms) as a parameter:
      the errors of the failed checks, in field order, at most one per field. */
  function ValidatePatient(p: PatientInfo, now: int): (errs: seq<ValidationError>)
    ensures |errs| <= 6 && Ranked(errs)
  {
    FailedRanked(PatientRules(p, now));
    Failed(PatientRules(p, now))
  }

  /** Each patient field is flagged exactly when its value is unacceptable,
      and the list is empty exactly for a complete record. */
  lemma ValidatePatientFlags(p: PatientInfo, now: int)
    ensures Flagged(ValidatePatient(p, now), AgeField) <==> !AgeValid(p.age)
    ensures Flagged(ValidatePatient(p, now), WeightField) <==> !WeightValid(p.weight)
    ensures Flagged(ValidatePatient(p, now), NuclideField) <==> p.nuclideId.None?
    ensures Flagged(ValidatePatient(p, now), ProcedureField) <==> p.procedureId == ""
    ensures Flagged(ValidatePatient(p, now), DoseField) <==> !DoseGiven(p.doseMBq)
    ensures Flagged(ValidatePatient(p, now), InjectionTimeField) <==> !InjectionValid(p.injectionTime, now)
    ensures ValidatePatient(p, now) == [] <==> PatientComplete(p, now)
  {
    var rules := PatientRules(p, now);
    FlaggedIff(rules, 0);
    FlaggedIff(rules, 1);
    FlaggedIff(rules, 2);
    FlaggedIff(rules, 3);
    FlaggedIff(rules, 4);
    FlaggedIff(rules, 5);
    FailedEmptyIff(rules);
  }

  /** The injection-time error says which problem it is: unset or future. */
  lemma InjectionMessages(p: PatientInfo, now: int, e: ValidationError)
    requires e in ValidatePatient(p, now) && e.field == InjectionTimeField
    ensures p.injectionTime.None? ==> e.message == "주사 일시를 입력해주세요"
    ensures p.injectionTime.Some? ==>
              p.injectionTime.value > now && e.message == "주사 일시가 미래입니다. 과거 시간을 입력해주세요"
  {
    var rules := PatientRules(p, now);
    var i :| 0 <= i < |rules| && rules[i].failed && rules[i].error == e;
    assert FieldRank(e.field) == 5;
  }

  /** An injection exactly at `now` is accepted; one millisecond later is not. */
  lemma InjectionBoundary(p: PatientInfo, now: int)
    requires p.injectionTime == Some(now)
    ensures !Flagged(ValidatePatient(p, now), InjectionTimeField)
    ensures Flagged(ValidatePatient(p, now - 1), InjectionTimeField)
  {
    ValidatePatientFlags(p, now);
    ValidatePatientFlags(p, now - 1);
  }

  // ---------------------------------------------------------------------
  // Dose range

  datatype DoseCheck = DoseCheck(inRange: bool, message: string)

  /** `validateDoseRange`: whether the dose lies in the procedure's usual
      range (bounds included), with the range spelled out when it does
      not. An unknown procedure is never flagged. */
  function ValidateDoseRange(nuclideId: NuclideId, procedureId: string, doseMBq: real): (r: DoseCheck)
    ensures Nuclides.GetProcedure(nuclideId, procedureId).None? ==> r == DoseCheck(true, "")
    ensures r.inRange <==> r.message == ""
    ensures Nuclides.GetProcedure(nuclideId, procedureId).Some? ==>
              var p := Nuclides.GetProcedure(nuclideId, procedureId).value;
              (r.inRange <==> p.doseRangeMin as real <= doseMBq <= p.doseRangeMax as real)
              && (!r.inRange ==> r.message == "일반 투여량 범위: " + GroupThousands(p.doseRangeMin)
                                               + "~" + GroupThousands(p.doseRangeMax) + " MBq")
  {
    match Nuclides.GetProcedure(nuclideId, procedureId)
    case None => DoseCheck(true, "")
    case Some(p) =>
      if doseMBq < p.doseRangeMin as real || doseMBq > p.doseRangeMax as real then
        DoseCheck(false, "일반 투여량 범위: " + GroupThousands(p.doseRangeMin)
                         + "~" + GroupThousands(p.doseRangeMax) + " MBq")
      else DoseCheck(true, "")
  }

  /** Both ends of a catalogued range are accepted. */
  lemma RangeEndsAccepted(nuclideId: NuclideId, i: nat)
    requires i < |Nuclides.GetNuclide(nuclideId).procedures|
    ensures ValidateDoseRange(nuclideId, Nuclides.GetNuclide(nuclideId).procedures[i].id,
                              Nuclides.GetNuclide(nuclideId).procedures[i].doseRangeMin as real).inRange
    ensures ValidateDoseRange(nuclideId, Nuclides.GetNuclide(nuclideId).procedures[i].id,
                              Nuclides.GetNuclide(nuclideId).procedures[i].doseRangeMax as real).inRange
  {
    Nuclides.GetProcedureFindsEntry(nuclideId, i);
    Nuclides.ProceduresValid(nuclideId);
    assert Nuclides.GetNuclide(nuclideId).procedures[i] in Nuclides.GetNuclide(nuclideId).procedures;
  }

  // ---------------------------------------------------------------------
  // Family

  predicate MemberAgeValid(age: real) {
    0.0 <= age <= 120.0
  }

  /** A member the form accepts: a name with a non-whitespace character and
      an age in [0, 120]. */
  predicate ValidMember(m: FamilyMember) {
    !IsBlank(m.name) && MemberAgeValid(m.age)
  }

  function NameError(i: nat): ValidationError {
    ValidationError(MemberName(i), "구성원 " + NatToString(i + 1) + "의 호칭을 입력해주세요")
  }

  function AgeError(i: nat): ValidationError {
    ValidationError(MemberAge(i), "구성원 " + NatToString(i + 1) + "의 나이를 올바르게 입력해주세요")
  }

  const EmptyFamilyError := ValidationError(FamilyField, "가족 구성원을 최소 1명 추가해주세요")

  /** What `validateFamily` finds wrong with one member. */
  datatype MemberCheck = MemberCheck(nameMissing: bool, ageInvalid: bool)

  /** The name is missing when it trims to nothing; the age is invalid
      outside [0, 120]. */
  function CheckMember(m: FamilyMember): MemberCheck {
    MemberCheck(Trim(m.name) == [], !MemberAgeValid(m.age))
  }

  /** A member's check finds nothing wrong exactly when the member is
      valid: a blank name is a missing one. */
  lemma CheckMemberMeaning(m: FamilyMember)
    ensures CheckMember(m).nameMissing <==> IsBlank(m.name)
    ensures CheckMember(m).ageInvalid <==> !MemberAgeValid(m.age)
    ensures !CheckMember(m).nameMissing && !CheckMember(m).ageInvalid <==> ValidMember(m)
  {
    TrimEmptyIffBlank(m.name);
  }

  /** The check of every member, in list order. */
  function Checks(family: seq<FamilyMember>): (cs: seq<MemberCheck>)
    ensures |cs| == |family|
  {
    seq(|family|, i requires 0 <= i < |family| => CheckMember(family[i]))
  }

  /** The name and age checks of every member: name, then age, of each
      member in list order. */
  function MemberRules(checks: seq<MemberCheck>): (rules: seq<Rule>)
    ensures |rules| == 2 * |checks|
    decreases |checks|
  {
    if |checks| == 0 then []
    else
      var n := |checks| - 1;
      MemberRules(checks[..n]) + [Rule(checks[n].nameMissing, NameError(n)), Rule(checks[n].ageInvalid, AgeError(n))]
  }

  /** Member k's checks sit at positions 2k and 2k+1. */
  lemma {:induction false} MemberRulesIndex(checks: seq<MemberCheck>, k: nat)
    requires k < |checks|
    ensures MemberRules(checks)[2 * k] == Rule(checks[k].nameMissing, NameError(k))
    ensures MemberRules(checks)[2 * k + 1] == Rule(checks[k].ageInvalid, AgeError(k))
    decreases |checks|
  {
    var n := |checks| - 1;
    if k < n {
      MemberRulesIndex(checks[..n], k);
      assert checks[..n][k] == checks[k];
    }
  }

  /** The check at position q is on the field of rank q + 1. */
  lemma {:induction false} MemberRulesRanked(checks: seq<MemberCheck>)
    ensures forall q :: 0 <= q < 2 * |checks| ==> FieldRank(MemberRules(checks)[q].error.field) == q + 1
    decreases |checks|
  {
    if |checks| > 0 {
      var n := |checks| - 1;
      MemberRulesRanked(checks[..n]);
      var prev := MemberRules(checks[..n]);
      var last: seq<Rule> := [Rule(checks[n].nameMissing, NameError(n)), Rule(checks[n].ageInvalid, AgeError(n))];
      assert MemberRules(checks) == prev + last;
      forall q | 0 <= q < 2 * |checks| ensures FieldRank((prev + last)[q].error.field) == q + 1 {
        if q < 2 * n {
          assert (prev + last)[q] == prev[q];
        }
      }
    }
  }

  /** No check fails when no member has a problem. */
  lemma {:induction false} MemberRulesPass(checks: seq<MemberCheck>)
    requires forall i :: 0 <= i < |checks| ==> !checks[i].nameMissing && !checks[i].ageInvalid
    ensures forall q :: 0 <= q < 2 * |checks| ==> !MemberRules(checks)[q].failed
    decreases |checks|
  {
    if |checks| > 0 {
      var n := |checks| - 1;
      assert forall i :: 0 <= i < n ==> checks[..n][i] == checks[i];
      MemberRulesPass(checks[..n]);
      var prev := MemberRules(checks[..n]);
      var last: seq<Rule> := [Rule(checks[n].nameMissing, NameError(n)), Rule(checks[n].ageInvalid, AgeError(n))];
      assert MemberRules(checks) == prev + last;
      forall q | 0 <= q < 2 * |checks| ensures !(prev + last)[q].failed {
        if q < 2 * n {
          assert (prev + last)[q] == prev[q];
        }
      }
    }
  }

  /** The checks of `validateFamily`, in the order they run: the empty
      list, then name and age of each member in list order. */
  function FamilyRules(family: seq<FamilyMember>): (rules: seq<Rule>)
    ensures |rules| == 2 * |family| + 1
    ensures rules[0] == Rule(|family| == 0, EmptyFamilyError)
  {
    [Rule(|family| == 0, EmptyFamilyError)] + MemberRules(Checks(family))
  }

  /** The family checks run in field order: the check at position j is on
      the field of rank j. */
  lemma FamilyRulesRanked(family: seq<FamilyMember>)
    ensures RulesRanked(FamilyRules(family))
    ensures forall j :: 0 <= j < |FamilyRules(family)| ==> FieldRank(FamilyRules(family)[j].error.field) == j
  {
    var rules := FamilyRules(family);
    var members := MemberRules(Checks(family));
    MemberRulesRanked(Checks(family));
    forall j | 0 < j < |rules| ensures FieldRank(rules[j].error.field) == j {
      assert rules[j] == members[j - 1];
    }
    RankedByPosition(rules);
  }

  /** Checks whose rank is their position are in strict rank order. */
  lemma RankedByPosition(rules: seq<Rule>)
    requires forall j :: 0 <= j < |rules| ==> FieldRank(rules[j].error.field) == j
    ensures RulesRanked(rules)
  {
  }

  /** `validateFamily`: the errors of the failed checks, in field order. */
  function ValidateFamily(family: seq<FamilyMember>): (errs: seq<ValidationError>)
    ensures |errs| <= 2 * |family| + 1 && Ranked(errs)
    ensures |family| == 0 ==> errs == [EmptyFamilyError]
  {
    FamilyRulesRanked(family);
    FailedRanked(FamilyRules(family));
    Failed(FamilyRules(family))
  }

  /** The empty-list error appears exactly for an empty list. */
  lemma EmptyFamilyFlag(family: seq<FamilyMember>)
    ensures Flagged(ValidateFamily(family), FamilyField) <==> |family| == 0
  {
    FamilyRulesRanked(family);
    FlaggedIff(FamilyRules(family), 0);
  }

  /** The checks on member k are the rules at positions 2k+1 and 2k+2: its
      name is reported when it trims to nothing, its age when outside
      [0, 120]. */
  lemma MemberRulesAt(family: seq<FamilyMember>, k: nat)
    requires k < |family|
    ensures FamilyRules(family)[2 * k + 1] == Rule(Trim(family[k].name) == [], NameError(k))
    ensures FamilyRules(family)[2 * k + 2] == Rule(!MemberAgeValid(family[k].age), AgeError(k))
  {
    MemberChecksAt(family, k);
    ChecksAt(family, k);
  }

  /** Member k's checks, as rules at positions 2k+1 and 2k+2. */
  lemma MemberChecksAt(family: seq<FamilyMember>, k: nat)
    requires k < |family|
    ensures FamilyRules(family)[2 * k + 1] == Rule(Checks(family)[k].nameMissing, NameError(k))
    ensures FamilyRules(family)[2 * k + 2] == Rule(Checks(family)[k].ageInvalid, AgeError(k))
  {
    var checks := Checks(family);
    var members := MemberRules(checks);
    var rules := FamilyRules(family);
    assert rules == [Rule(|family| == 0, EmptyFamilyError)] + members;
    assert rules[2 * k + 1] == members[2 * k] && rules[2 * k + 2] == members[2 * k + 1];
    MemberRulesIndex(checks, k);
  }

  /** The check recorded for member k is that member's check. */
  lemma ChecksAt(family: seq<FamilyMember>, k: nat)
    requires k < |family|
    ensures Checks(family)[k] == CheckMember(family[k])
  {
  }

  /** Member k's name is flagged exactly when it is blank, and its age
      exactly when it lies outside [0, 120]. */
  lemma MemberFlags(family: seq<FamilyMember>, k: nat)
    requires k < |family|
    ensures Flagged(ValidateFamily(family), MemberName(k)) <==> IsBlank(family[k].name)
    ensures Flagged(ValidateFamily(family), MemberAge(k)) <==> !MemberAgeValid(family[k].age)
  {
    var rules := FamilyRules(family);
    FamilyRulesRanked(family);
    MemberChecksAt(family, k);
    ChecksAt(family, k);
    CheckMemberMeaning(family[k]);
    FlaggedIff(rules, 2 * k + 1);
    FlaggedIff(rules, 2 * k + 2);
  }

  /** No error at all exactly for a non-empty list of valid members. */
  lemma ValidateFamilyEmptyIff(family: seq<FamilyMember>)
    ensures ValidateFamily(family) == [] <==>
              |family| > 0 && forall k :: 0 <= k < |family| ==> ValidMember(family[k])
  {
    var rules := FamilyRules(family);
    var checks := Checks(family);
    FailedEmptyIff(rules);
    if Failed(rules) == [] {
      assert !rules[0].failed;
      forall k | 0 <= k < |family| ensures ValidMember(family[k]) {
        assert !rules[2 * k + 1].failed && !rules[2 * k + 2].failed;
        MemberChecksAt(family, k);
        ChecksAt(family, k);
        CheckMemberMeaning(family[k]);
      }
    }
    if |family| > 0 && forall k :: 0 <= k < |family| ==> ValidMember(family[k]) {
      forall i | 0 <= i < |checks| ensures !checks[i].nameMissing && !checks[i].ageInvalid {
        ChecksAt(family, i);
        CheckMemberMeaning(family[i]);
      }
      MemberRulesPass(checks);
      forall j | 0 < j < |rules| ensures !rules[j].failed {
        assert rules[j] == MemberRules(checks)[j - 1];
      }
    }
  }
}
