/** The nuclide catalogue (src/lib/nuclides.ts): five radionuclides, each
    with its physical half-life, dose-rate constant and the procedures it
    is administered for. */
module Nuclides {
  import opened Wrappers
  import opened Types
  import Seqs

  /** `NUCLIDES[id]`: the catalogue record of each nuclide. */
  function GetNuclide(id: NuclideId): (n: Nuclide)
    ensures n.id == id
    ensures n.physicalHalfLifeHours > 0.0 && n.gamma > 0.0
    ensures |n.procedures| > 0
    ensures forall i :: 0 <= i < |n.procedures| ==> n.procedures[i].nuclideId == id
  {
    match id
    case I131 => Nuclide(I131, "I-131 (요오드)", 8.02 * 24.0, 0.066, [
      Procedure("i131-ablation", "갑상선절제 후 잔여조직제거", I131, 16.0, 1110, 3700),
      Procedure("i131-cancer-high", "갑상선암 치료 (고용량)", I131, 16.0, 3700, 7400),
      Procedure("i131-hyperthyroid", "갑상선기능항진증", I131, 5.5 * 24.0, 185, 740)
    ])
    case Tc99m => Nuclide(Tc99m, "Tc-99m (테크네튬)", 6.01, 0.015, [
      Procedure("tc99m-bone", "뼈 스캔", Tc99m, 3.5, 555, 1110),
      Procedure("tc99m-cardiac", "심근관류 스캔", Tc99m, 5.0, 370, 1110)
    ])
    case F18 => Nuclide(F18, "F-18 (불소)", 109.77 / 60.0, 0.143, [
      Procedure("f18-fdg", "FDG PET", F18, 110.0 / 60.0, 185, 370)
    ])
    case Lu177 => Nuclide(Lu177, "Lu-177 (루테튬)", 6.65 * 24.0, 0.005, [
      Procedure("lu177-dotatate", "DOTATATE 치료", Lu177, 3.5 * 24.0, 7400, 7400)
    ])
    case Ga68 => Nuclide(Ga68, "Ga-68 (갈륨)", 67.71 / 60.0, 0.13, [
      Procedure("ga68-pet", "DOTATATE/PSMA PET", Ga68, 68.0 / 60.0, 100, 200)
    ])
  }

  /** `NUCLIDE_LIST`: the records in the catalogue's key order. */
  const NuclideIds: seq<NuclideId> := [I131, Tc99m, F18, Lu177, Ga68]

  function NuclideList(): (l: seq<Nuclide>)
    ensures |l| == |NuclideIds|
    ensures forall i :: 0 <= i < |l| ==> l[i] == GetNuclide(NuclideIds[i])
  {
    seq(|NuclideIds|, i requires 0 <= i < |NuclideIds| => GetNuclide(NuclideIds[i]))
  }

  /** Every nuclide appears in the list exactly once. */
  lemma NuclideListComplete(id: NuclideId)
    ensures Seqs.Count(NuclideIds, (x: NuclideId) => x == id) == 1
  {
    var i := match id case I131 => 0 case Tc99m => 1 case F18 => 2 case Lu177 => 3 case Ga68 => 4;
    Seqs.CountOneWhenUnique(NuclideIds, (x: NuclideId) => x == id, i);
  }

  /** `getProcedure`: the first procedure of the nuclide with that id. */
  function GetProcedure(nuclideId: NuclideId, procedureId: string): (r: Option<Procedure>)
    ensures r.Some? ==> r.value in GetNuclide(nuclideId).procedures
    ensures r.Some? ==> r.value.id == procedureId && r.value.nuclideId == nuclideId
    ensures r.None? <==> forall p :: p in GetNuclide(nuclideId).procedures ==> p.id != procedureId
  {
    Seqs.Find(GetNuclide(nuclideId).procedures, (p: Procedure) => p.id == procedureId)
  }

  /** A catalogued procedure: positive effective half-life and a non-empty
      dose range of positive activities. */
  predicate ValidProcedure(p: Procedure) {
    p.effectiveHalfLifeHours > 0.0 && 0 < p.doseRangeMin <= p.doseRangeMax
  }

  lemma ProceduresValid(id: NuclideId)
    ensures forall p :: p in GetNuclide(id).procedures ==> ValidProcedure(p)
  {
  }

  /** Whatever `GetProcedure` finds is a catalogued procedure. */
  lemma FoundProcedureValid(nuclideId: NuclideId, procedureId: string)
    requires GetProcedure(nuclideId, procedureId).Some?
    ensures ValidProcedure(GetProcedure(nuclideId, procedureId).value)
  {
    ProceduresValid(nuclideId);
  }

  /** Procedure ids are unique across the whole catalogue: an id names a
      procedure of at most one nuclide, and at most once within it. */
  lemma ProcedureIdsUnique(n1: NuclideId, n2: NuclideId, i: nat, j: nat)
    requires i < |GetNuclide(n1).procedures| && j < |GetNuclide(n2).procedures|
    requires GetNuclide(n1).procedures[i].id == GetNuclide(n2).procedures[j].id
    ensures n1 == n2 && i == j
  {
  }

  /** Looking up a catalogued procedure by its own id finds it. */
  lemma GetProcedureFindsEntry(nuclideId: NuclideId, i: nat)
    requires i < |GetNuclide(nuclideId).procedures|
    ensures GetProcedure(nuclideId, GetNuclide(nuclideId).procedures[i].id)
            == Some(GetNuclide(nuclideId).procedures[i])
  {
    var p := GetNuclide(nuclideId).procedures[i];
    var r := GetProcedure(nuclideId, p.id);
    assert r.Some?;
    var k :| 0 <= k < |GetNuclide(nuclideId).procedures| && GetNuclide(nuclideId).procedures[k] == r.value;
    ProcedureIdsUnique(nuclideId, nuclideId, i, k);
  }

  /** A procedure id never resolves under another nuclide. */
  lemma GetProcedureOtherNuclide(n1: NuclideId, n2: NuclideId, i: nat)
    requires i < |GetNuclide(n1).procedures| && n1 != n2
    ensures GetProcedure(n2, GetNuclide(n1).procedures[i].id).None?
  {
    var id := GetNuclide(n1).procedures[i].id;
    if GetProcedure(n2, id).Some? {
      var k :| 0 <= k < |GetNuclide(n2).procedures| && GetNuclide(n2).procedures[k] == GetProcedure(n2, id).value;
      ProcedureIdsUnique(n1, n2, i, k);
    }
  }

  /** Lu-177 DOTATATE therapy is a fixed activity of 7400 MBq. */
  lemma LutetiumFixedDose()
    ensures GetProcedure(Lu177, "lu177-dotatate").Some?
    ensures GetProcedure(Lu177, "lu177-dotatate").value.doseRangeMin == 7400
    ensures GetProcedure(Lu177, "lu177-dotatate").value.doseRangeMax == 7400
  {
    GetProcedureFindsEntry(Lu177, 0);
  }

  /** Effective half-lives are at most the physical one (biological
      clearance only shortens them) except for F-18 and Ga-68, whose
      rounded effective values 110/60 h and 68/60 h exceed the physical
      ones by less than 0.5%. */
  lemma EffectiveWithinPhysical(id: NuclideId, i: nat)
    requires i < |GetNuclide(id).procedures|
    ensures id != F18 && id != Ga68 ==>
              GetNuclide(id).procedures[i].effectiveHalfLifeHours <= GetNuclide(id).physicalHalfLifeHours
    ensures id == F18 || id == Ga68 ==>
              GetNuclide(id).physicalHalfLifeHours < GetNuclide(id).procedures[i].effectiveHalfLifeHours
              < 1.005 * GetNuclide(id).physicalHalfLifeHours
  {
  }
}
