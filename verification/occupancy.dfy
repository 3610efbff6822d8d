/** The three contact scenarios (src/lib/occupancy.ts): how close a family
    member is to the patient and for what fraction of the day. */
module Occupancy {
  import opened Wrappers
  import opened Types
  import Seqs

  /** `CONTACT_SCENARIOS`, closest first. */
  const ContactScenarios: seq<ContactScenario> := [
    ContactScenario("hug", "밀착/허그", "\U{1F917}", 0.3, 0.05, "하루 ~1.2시간 밀착 접촉"),
    ContactScenario("same-room", "같은 방", "\U{1F6CB}\U{FE0F}", 1.0, 0.25, "하루 ~6시간 같은 방"),
    ContactScenario("same-house", "같은 집", "\U{1F3E0}", 2.0, 0.25, "일상적 거리 유지")
  ]

  const ScenarioIds: seq<string> := ["hug", "same-room", "same-house"]

  /** Every scenario is a physical setup: a positive distance and an
      occupancy factor in (0, 1]. */
  predicate Physical(s: ContactScenario) {
    s.distance > 0.0 && 0.0 < s.occupancyFactor <= 1.0
  }

  /** The scenarios carry the ids "hug", "same-room", "same-house" in that
      order, are physical, and get strictly farther away. */
  lemma ScenarioTable()
    ensures |ContactScenarios| == |ScenarioIds|
    ensures forall i :: 0 <= i < |ContactScenarios| ==> ContactScenarios[i].id == ScenarioIds[i]
    ensures forall i :: 0 <= i < |ContactScenarios| ==> Physical(ContactScenarios[i])
    ensures forall i, j :: 0 <= i < j < |ContactScenarios| ==>
              ContactScenarios[i].distance < ContactScenarios[j].distance
    ensures forall i, j :: 0 <= i < j < |ContactScenarios| ==>
              ContactScenarios[i].occupancyFactor <= ContactScenarios[j].occupancyFactor
  {
  }

  /** Every scenario is physical. */
  lemma AllPhysical()
    ensures forall i :: 0 <= i < |ContactScenarios| ==> Physical(ContactScenarios[i])
  {
    ScenarioTable();
  }

  /** `getScenario`: the scenario with that id, if any. */
  function GetScenario(id: string): (r: Option<ContactScenario>)
    ensures r.Some? ==> r.value in ContactScenarios && r.value.id == id
    ensures r.None? <==> id !in ScenarioIds
  {
    ScenarioTable();
    Seqs.Find(ContactScenarios, (s: ContactScenario) => s.id == id)
  }

  /** Looking a listed scenario up by its id returns it. */
  lemma GetScenarioRoundTrip(i: nat)
    requires i < |ContactScenarios|
    ensures GetScenario(ContactScenarios[i].id) == Some(ContactScenarios[i])
  {
    ScenarioTable();
    var r := GetScenario(ContactScenarios[i].id);
    assert r.Some?;
  }
}
