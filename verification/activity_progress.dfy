/** The remaining-activity bar (src/components/result/ActivityProgress.tsx):
    the percentage clamped to [0, 100] and a colour band for it. */
module ActivityProgress {

  /** `Math.max(0, Math.min(100, percent))`. */
  function Clamp(percent: real): (c: real)
    ensures 0.0 <= c <= 100.0
    ensures 0.0 <= percent <= 100.0 ==> c == percent
    ensures percent < 0.0 ==> c == 0.0
    ensures percent > 100.0 ==> c == 100.0
  {
    var upper := if percent < 100.0 then percent else 100.0;
    if upper > 0.0 then upper else 0.0
  }

  /** The gradient of the bar: danger above 50 %, caution above 20 %,
      safe otherwise. */
  datatype Band = Danger | Caution | Safe

  function BandOf(percent: real): (b: Band)
    ensures b == Danger <==> Clamp(percent) > 50.0
    ensures b == Caution <==> 20.0 < Clamp(percent) <= 50.0
    ensures b == Safe <==> Clamp(percent) <= 20.0
  {
    var clamped := Clamp(percent);
    if clamped > 50.0 then Danger
    else if clamped > 20.0 then Caution
    else Safe
  }

  /** Severity of a band: safe 0, caution 1, danger 2. */
  function Severity(b: Band): nat {
    match b
    case Safe => 0
    case Caution => 1
    case Danger => 2
  }

  /** Clamping keeps the order of its inputs. */
  lemma ClampMonotone(p: real, q: real)
    requires p <= q
    ensures Clamp(p) <= Clamp(q)
  {
  }

  /** As the activity decays the band never gets more severe. */
  lemma BandMonotone(p: real, q: real)
    requires p <= q
    ensures Severity(BandOf(p)) <= Severity(BandOf(q))
  {
    ClampMonotone(p, q);
  }
}
