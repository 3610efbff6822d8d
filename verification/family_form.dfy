/** The family list editor (src/components/input/FamilyForm.tsx): adding,
    editing and removing members, and when the Next button is enabled.
    Member ids, generated from the clock in the source, are parameters. */
module FamilyForm {
  import opened Wrappers
  import opened Types
  import opened Text
  import DoseLimits
  import Validation

  /** The member `addMember` creates: no name, 30 years old, not pregnant,
      adult with a 1 mSv limit. */
  function NewMember(id: string): FamilyMember {
    FamilyMember(id, "", 30.0, false, Adult, 1.0)
  }

  /** The hard-coded category and limit of a new member are the ones the
      categoriser and either standard derive from its age and flag. */
  lemma NewMemberDerived(id: string, standard: DoseStandard)
    ensures DoseLimits.Derived(NewMember(id), standard)
  {
    DoseLimits.LimitIsPublished(standard, Adult);
  }

  /** Every member's category and limit are derived from its age, its
      pregnancy flag and `standard`. */
  predicate AllDerived(family: seq<FamilyMember>, standard: DoseStandard) {
    forall i :: 0 <= i < |family| ==> DoseLimits.Derived(family[i], standard)
  }

  /** `addMember`: the new member goes at the end; the others stay as they were. */
  function AddMember(family: seq<FamilyMember>, id: string): (r: seq<FamilyMember>)
    ensures |r| == |family| + 1 && r[..|family|] == family
    ensures r[|family|] == FamilyMember(id, "", 30.0, false, Adult, 1.0)
    ensures forall standard :: AllDerived(family, standard) ==> AllDerived(r, standard)
  {
    forall standard ensures DoseLimits.Derived(NewMember(id), standard) {
      NewMemberDerived(id, standard);
    }
    family + [NewMember(id)]
  }

  /** The fields an edit can set: the name, the age or the pregnancy flag. */
  datatype Update = Update(name: Option<string>, age: Option<real>, isPregnant: Option<bool>)

  /** `{ ...m, ...updates }`. */
  function Apply(m: FamilyMember, u: Update): FamilyMember {
    m.(name := if u.name.Some? then u.name.value else m.name,
       age := if u.age.Some? then u.age.value else m.age,
       isPregnant := if u.isPregnant.Some? then u.isPregnant.value else m.isPregnant)
  }

  /** `updateMember`: members with another id are untouched; a member with
      that id gets the edit and then a category and limit recomputed from
      its new age and flag under `standard`. */
  function UpdateMember(family: seq<FamilyMember>, standard: DoseStandard,
                        id: string, u: Update): (r: seq<FamilyMember>)
    ensures |r| == |family|
    ensures forall i :: 0 <= i < |family| && family[i].id != id ==> r[i] == family[i]
    ensures forall i :: 0 <= i < |family| && family[i].id == id ==>
              && r[i].id == id
              && r[i].name == (if u.name.Some? then u.name.value else family[i].name)
              && r[i].age == (if u.age.Some? then u.age.value else family[i].age)
              && r[i].isPregnant == (if u.isPregnant.Some? then u.isPregnant.value else family[i].isPregnant)
              && DoseLimits.Derived(r[i], standard)
    ensures AllDerived(family, standard) ==> AllDerived(r, standard)
  {
    seq(|family|, i requires 0 <= i < |family| =>
      if family[i].id != id then family[i] else DoseLimits.Rederive(Apply(family[i], u), standard))
  }

  /** `removeMember`: every member with that id goes; the others stay, in
      their order. */
  function RemoveMember(family: seq<FamilyMember>, id: string): (r: seq<FamilyMember>)
    ensures |r| <= |family|
    ensures forall m :: m in r <==> m in family && m.id != id
    ensures forall i :: 0 <= i < |r| ==> r[i].id != id
    decreases |family|
  {
    if |family| == 0 then []
    else
      var rest := RemoveMember(family[1..], id);
      assert forall m :: m in family <==> m == family[0] || m in family[1..];
      if family[0].id == id then rest else [family[0]] + rest
  }

  /** Removal keeps the order of the members that stay: removing from a
      list cut in two is removing from each part and joining the results. */
  lemma {:induction false} RemoveKeepsOrder(front: seq<FamilyMember>, back: seq<FamilyMember>, id: string)
    ensures RemoveMember(front + back, id) == RemoveMember(front, id) + RemoveMember(back, id)
    decreases |front|
  {
    if |front| == 0 {
      assert front + back == back;
    } else {
      assert (front + back)[0] == front[0];
      assert (front + back)[1..] == front[1..] + back;
      RemoveKeepsOrder(front[1..], back, id);
    }
  }

  /** Removing keeps every remaining member derived. */
  lemma RemovePreservesDerived(family: seq<FamilyMember>, id: string, standard: DoseStandard)
    requires AllDerived(family, standard)
    ensures AllDerived(RemoveMember(family, id), standard)
  {
    var r := RemoveMember(family, id);
    forall i | 0 <= i < |r| ensures DoseLimits.Derived(r[i], standard) {
      assert r[i] in r;
      var k :| 0 <= k < |family| && family[k] == r[i];
    }
  }

  /** The Next button is enabled: at least one member and every name has a
      non-whitespace character. */
  predicate NextEnabled(family: seq<FamilyMember>) {
    !(|family| == 0 || exists i :: 0 <= i < |family| && Trim(family[i].name) == [])
  }

  /** Next is enabled exactly when `validateFamily` reports neither the empty
      list nor a missing name; ages outside [0, 120] do not block it. */
  lemma NextEnabledIff(family: seq<FamilyMember>)
    ensures NextEnabled(family) <==>
              && !Validation.Flagged(Validation.ValidateFamily(family), Validation.FamilyField)
              && forall k :: 0 <= k < |family| ==>
                   !Validation.Flagged(Validation.ValidateFamily(family), Validation.MemberName(k))
  {
    Validation.EmptyFamilyFlag(family);
    forall k | 0 <= k < |family|
      ensures Validation.Flagged(Validation.ValidateFamily(family), Validation.MemberName(k))
              <==> Trim(family[k].name) == []
    {
      Validation.MemberFlags(family, k);
      TrimEmptyIffBlank(family[k].name);
    }
  }

  /** A freshly added member blocks Next until it is named. */
  lemma AddedMemberBlocksNext(family: seq<FamilyMember>, id: string)
    ensures !NextEnabled(AddMember(family, id))
  {
    var r := AddMember(family, id);
    assert Trim(r[|family|].name) == [];
  }
}
