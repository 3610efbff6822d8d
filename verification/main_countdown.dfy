/** The headline countdown (src/components/result/MainCountdown.tsx): the
    longest wait for a hug over all members and whom it is for. */
module MainCountdown {
  import opened Wrappers
  import opened Types
  import Seqs

  /** `a > b` on seconds that may be `Infinity`. */
  predicate Exceeds(a: OrNever<int>, b: OrNever<int>) {
    match (a, b)
    case (Never, Finite(_)) => true
    case (Finite(x), Finite(y)) => x > y
    case _ => false
  }

  /** The seconds left until the "hug" scenario of a result is safe, or
      none when the result has no such scenario. */
  function HugRemaining(r: FamilyResult): (w: Option<OrNever<int>>)
    ensures w.None? <==> forall j :: 0 <= j < |r.scenarios| ==> r.scenarios[j].scenarioId != "hug"
  {
    match Seqs.Find(r.scenarios, (s: ScenarioResult) => s.scenarioId == "hug")
    case None => None
    case Some(s) => Some(s.remainingSeconds)
  }

  /** The hug wait of a result is the remaining seconds of its first "hug"
      scenario. */
  lemma HugRemainingIsFirstHug(r: FamilyResult)
    ensures HugRemaining(r).Some? ==>
              exists j :: 0 <= j < |r.scenarios| && r.scenarios[j].scenarioId == "hug"
                && HugRemaining(r).value == r.scenarios[j].remainingSeconds
                && forall i :: 0 <= i < j ==> r.scenarios[i].scenarioId != "hug"
  {
  }

  /** Whether result `r` would beat the running maximum `best`. */
  predicate Beats(r: FamilyResult, best: OrNever<int>) {
    HugRemaining(r).Some? && Exceeds(HugRemaining(r).value, best)
  }

  /** The loop of the component: start from 0 seconds and no member; take
      a member's hug wait whenever it is strictly longer than the longest so
      far. The first member with the longest wait is reported; when no wait
      is positive the maximum stays 0 and the member id empty. */
  method LongestWait(results: seq<FamilyResult>) returns (maxRemaining: OrNever<int>, latestMemberId: string)
    ensures maxRemaining.Finite? ==> maxRemaining.value >= 0
    ensures forall i :: 0 <= i < |results| ==> !Beats(results[i], maxRemaining)
    ensures maxRemaining == Finite(0) ==> latestMemberId == ""
    ensures maxRemaining != Finite(0) ==>
              exists k :: 0 <= k < |results|
                && HugRemaining(results[k]) == Some(maxRemaining)
                && latestMemberId == results[k].memberId
                && forall j :: 0 <= j < k ==> !Beats(results[j], Finite(0)) || Exceeds(maxRemaining, HugRemaining(results[j]).value)
  {
    maxRemaining, latestMemberId := Finite(0), "";
    var k := 0;
    for i := 0 to |results|
      invariant maxRemaining.Finite? ==> maxRemaining.value >= 0
      invariant forall j :: 0 <= j < i ==> !Beats(results[j], maxRemaining)
      invariant maxRemaining == Finite(0) ==> latestMemberId == ""
      invariant maxRemaining != Finite(0) ==>
                  && k < i
                  && HugRemaining(results[k]) == Some(maxRemaining)
                  && latestMemberId == results[k].memberId
                  && forall j :: 0 <= j < k ==> !Beats(results[j], Finite(0)) || Exceeds(maxRemaining, HugRemaining(results[j]).value)
    {
      var hug := HugRemaining(results[i]);
      if hug.Some? && Exceeds(hug.value, maxRemaining) {
        maxRemaining, latestMemberId, k := hug.value, results[i].memberId, i;
      }
    }
  }

  /** `allSafe`: no positive wait remains. */
  predicate AllSafe(maxRemaining: OrNever<int>) {
    maxRemaining.Finite? && maxRemaining.value <= 0
  }

  /** Everyone can be hugged now exactly when no member's hug wait is
      positive or infinite. */
  lemma AllSafeIff(results: seq<FamilyResult>, maxRemaining: OrNever<int>)
    requires maxRemaining.Finite? ==> maxRemaining.value >= 0
    requires forall i :: 0 <= i < |results| ==> !Beats(results[i], maxRemaining)
    requires maxRemaining != Finite(0) ==>
               exists k :: 0 <= k < |results| && HugRemaining(results[k]) == Some(maxRemaining)
    ensures AllSafe(maxRemaining) <==> forall i :: 0 <= i < |results| ==> !Beats(results[i], Finite(0))
  {
    if !AllSafe(maxRemaining) {
      var k :| 0 <= k < |results| && HugRemaining(results[k]) == Some(maxRemaining);
      assert Beats(results[k], Finite(0));
    }
  }

  /** The member the headline names: the first family member with that id. */
  function LatestMember(family: seq<FamilyMember>, latestMemberId: string): (r: Option<FamilyMember>)
    ensures r.Some? ==>
              exists k :: 0 <= k < |family| && family[k] == r.value && r.value.id == latestMemberId
                && forall j :: 0 <= j < k ==> family[j].id != latestMemberId
    ensures r.None? <==> forall j :: 0 <= j < |family| ==> family[j].id != latestMemberId
  {
    Seqs.Find(family, (m: FamilyMember) => m.id == latestMemberId)
  }
}
