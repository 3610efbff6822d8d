/** Dose-limit tables of the two regulatory standards and the age/role
    categoriser that selects a row of them (src/lib/doseLimits.ts). */
module DoseLimits {
  import opened Types
  import Seqs

  /** The ICRP row of each category. */
  function IcrpEntry(category: AgeCategory): DoseLimitEntry {
    match category
    case Adult => DoseLimitEntry(Adult, "성인 일반인", "18세 이상", 1.0, "ICRP 103 일반인 연간 한도")
    case Caregiver => DoseLimitEntry(Caregiver, "성인 간병인", "18세 이상", 5.0, "NCRP 155 환자 간병인")
    case Teenager => DoseLimitEntry(Teenager, "청소년", "13~17세", 1.0, "ICRP 103")
    case Child => DoseLimitEntry(Child, "어린이", "3~12세", 0.5, "보수적 적용 (체구 차이)")
    case Infant => DoseLimitEntry(Infant, "영유아", "0~2세", 0.3, "최대 보수적 기준")
    case Pregnant => DoseLimitEntry(Pregnant, "임산부", "-", 1.0, "ICRP 84 태아 보호")
  }

  /** The row of each category under the Korean nuclear safety rules. */
  function KoreanEntry(category: AgeCategory): DoseLimitEntry {
    match category
    case Adult => DoseLimitEntry(Adult, "일반인", "18세 이상", 1.0, "원안위 고시 일반인")
    case Caregiver => DoseLimitEntry(Caregiver, "수시출입자", "18세 이상", 6.0, "방사선 관리구역 수시 출입자")
    case Teenager => DoseLimitEntry(Teenager, "청소년", "13~17세", 1.0, "원안위 고시")
    case Child => DoseLimitEntry(Child, "어린이", "3~12세", 0.5, "보수적 적용")
    case Infant => DoseLimitEntry(Infant, "영유아", "0~2세", 0.3, "보수적 적용")
    case Pregnant => DoseLimitEntry(Pregnant, "임산부", "-", 1.0, "잔여 임신기간")
  }

  const IcrpLimits: seq<DoseLimitEntry> := [
    IcrpEntry(Adult), IcrpEntry(Caregiver), IcrpEntry(Teenager),
    IcrpEntry(Child), IcrpEntry(Infant), IcrpEntry(Pregnant)
  ]

  const KoreanLimits: seq<DoseLimitEntry> := [
    KoreanEntry(Adult), KoreanEntry(Caregiver), KoreanEntry(Teenager),
    KoreanEntry(Child), KoreanEntry(Infant), KoreanEntry(Pregnant)
  ]

  /** Fallback limit (adult-equivalent, mSv) for a category a table lacks. */
  const FallbackLimitMSv: real := 1.0

  function GetDoseLimits(standard: DoseStandard): seq<DoseLimitEntry> {
    match standard
    case Icrp => IcrpLimits
    case Korean => KoreanLimits
  }

  /** Position of each category's row in both tables. */
  function RowOf(category: AgeCategory): nat {
    match category
    case Adult => 0
    case Caregiver => 1
    case Teenager => 2
    case Child => 3
    case Infant => 4
    case Pregnant => 5
  }

  /** Each table holds the six categories at `RowOf`, each exactly once, and
      every limit is positive. */
  lemma TableShape(standard: DoseStandard)
    ensures |GetDoseLimits(standard)| == 6
    ensures forall c: AgeCategory :: GetDoseLimits(standard)[RowOf(c)].category == c
    ensures forall i :: 0 <= i < 6 ==> GetDoseLimits(standard)[i].limitMSv > 0.0
    ensures forall i :: 0 <= i < 6 ==> RowOf(GetDoseLimits(standard)[i].category) == i
  {
  }

  /** The limit `table` assigns to `category`: the first matching row's
      value, or the fallback when no row matches. */
  function LimitIn(table: seq<DoseLimitEntry>, category: AgeCategory): (r: real)
    ensures (forall i :: 0 <= i < |table| ==> table[i].category != category) ==> r == FallbackLimitMSv
    ensures forall i :: 0 <= i < |table| && table[i].category == category
                       && (forall j :: 0 <= j < i ==> table[j].category != category)
                       ==> r == table[i].limitMSv
  {
    match Seqs.Find(table, (e: DoseLimitEntry) => e.category == category)
    case Some(e) => e.limitMSv
    case None => FallbackLimitMSv
  }

  /** `getDoseLimit`: the limit (mSv) of `category` under `standard`, read
      from the category's own row. */
  function GetDoseLimit(standard: DoseStandard, category: AgeCategory): (r: real)
    ensures |GetDoseLimits(standard)| == 6
    ensures r == GetDoseLimits(standard)[RowOf(category)].limitMSv
    ensures r > 0.0
  {
    TableShape(standard);
    var table := GetDoseLimits(standard);
    assert forall j :: 0 <= j < RowOf(category) ==> RowOf(table[j].category) != RowOf(category);
    LimitIn(table, category)
  }

  /** Any row of the table that names `category` carries its limit. */
  lemma LimitOfEntry(standard: DoseStandard, category: AgeCategory, e: DoseLimitEntry)
    requires e in GetDoseLimits(standard) && e.category == category
    ensures GetDoseLimit(standard, category) == e.limitMSv
  {
    TableShape(standard);
  }

  /** Every category has exactly one row in each table, so the fallback of
      `LimitIn` is never what `GetDoseLimit` returns. */
  lemma ExactlyOneEntryPerCategory(standard: DoseStandard, category: AgeCategory)
    ensures Seqs.Count(GetDoseLimits(standard), (e: DoseLimitEntry) => e.category == category) == 1
  {
    TableShape(standard);
    Seqs.CountOneWhenUnique(GetDoseLimits(standard), (e: DoseLimitEntry) => e.category == category, RowOf(category));
  }

  /** The limits as the standards publish them: 0.3 mSv for infants,
      0.5 mSv for children, 5 mSv (ICRP/NCRP) or 6 mSv (Korean) for
      caregivers, 1 mSv for everyone else. */
  function PublishedLimit(standard: DoseStandard, category: AgeCategory): real {
    match category
    case Infant => 0.3
    case Child => 0.5
    case Caregiver => if standard == Icrp then 5.0 else 6.0
    case _ => 1.0
  }

  /** The tables hold the published limits. */
  lemma LimitIsPublished(standard: DoseStandard, category: AgeCategory)
    ensures GetDoseLimit(standard, category) == PublishedLimit(standard, category)
  {
  }

  lemma StandardsDifferOnlyForCaregiver(category: AgeCategory)
    ensures GetDoseLimit(Icrp, category) == GetDoseLimit(Korean, category) <==> category != Caregiver
  {
    LimitIsPublished(Icrp, category);
    LimitIsPublished(Korean, category);
  }

  /** `categorizeAge`: pregnancy dominates; otherwise age bands with
      inclusive upper bounds 2, 12 and 17. */
  function CategorizeAge(age: real, isPregnant: bool): (c: AgeCategory)
    ensures c != Caregiver
    ensures isPregnant <==> c == Pregnant
    ensures !isPregnant ==> (c == Infant <==> age <= 2.0)
    ensures !isPregnant ==> (c == Child <==> 2.0 < age <= 12.0)
    ensures !isPregnant ==> (c == Teenager <==> 12.0 < age <= 17.0)
    ensures !isPregnant ==> (c == Adult <==> 17.0 < age)
  {
    if isPregnant then Pregnant
    else if age <= 2.0 then Infant
    else if age <= 12.0 then Child
    else if age <= 17.0 then Teenager
    else Adult
  }

  /** An older (non-pregnant) person never gets a stricter limit than a
      younger one, under either standard. */
  lemma LimitNonDecreasingWithAge(standard: DoseStandard, younger: real, older: real)
    requires younger <= older
    ensures GetDoseLimit(standard, CategorizeAge(younger, false))
            <= GetDoseLimit(standard, CategorizeAge(older, false))
  {
    LimitIsPublished(standard, CategorizeAge(younger, false));
    LimitIsPublished(standard, CategorizeAge(older, false));
  }

  /** `getCategoryLabel`: the short Korean label of each category. */
  function GetCategoryLabel(category: AgeCategory): (s: string)
    ensures |s| > 0
  {
    match category
    case Adult => "성인"
    case Caregiver => "간병인"
    case Teenager => "청소년"
    case Child => "어린이"
    case Infant => "영유아"
    case Pregnant => "임산부"
  }

  /** Labels tell the categories apart. */
  lemma CategoryLabelsDistinct(a: AgeCategory, b: AgeCategory)
    ensures GetCategoryLabel(a) == GetCategoryLabel(b) <==> a == b
  {
  }

  /** A member whose category and limit are those the categoriser and
      `standard` derive from its age and pregnancy flag. */
  predicate Derived(m: FamilyMember, standard: DoseStandard) {
    && m.category == CategorizeAge(m.age, m.isPregnant)
    && m.doseLimitMSv == GetDoseLimit(standard, m.category)
  }

  /** `{ ...m, category, doseLimitMSv }` with both recomputed. */
  function Rederive(m: FamilyMember, standard: DoseStandard): (r: FamilyMember)
    ensures Derived(r, standard)
    ensures r.id == m.id && r.name == m.name && r.age == m.age && r.isPregnant == m.isPregnant
    ensures Derived(m, standard) ==> r == m
  {
    var category := CategorizeAge(m.age, m.isPregnant);
    m.(category := category, doseLimitMSv := GetDoseLimit(standard, category))
  }
}
