/** The radiation engine (src/lib/radiation.ts): exponential decay, the
    inverse-square dose rate, the cumulative dose from a start time to
    infinity and its inverse, the "hug time". Units: MBq, μSv, metres,
    hours. The transcendental functions come in as an `Analysis`. */
module Radiation {
  import opened Types
  import opened RealMath
  import opened RealArith

  /** `calcDecayConstant`: λ = ln 2 / T½. */
  function DecayConstant(halfLifeHours: real): (lambdaEff: real)
    requires halfLifeHours > 0.0
    ensures lambdaEff > 0.0
    ensures lambdaEff * halfLifeHours == Ln2
  {
    Ln2 / halfLifeHours
  }

  /** The decay exponent −λt. */
  function Exponent(lambdaEff: real, tHours: real): real {
    -lambdaEff * tHours
  }

  /** The time −x/λ brings the exponent to x. */
  lemma ExponentInverse(lambdaEff: real, x: real)
    requires lambdaEff != 0.0
    ensures Exponent(lambdaEff, -(1.0 / lambdaEff) * x) == x
  {
    CancelInverse(lambdaEff, x);
  }

  /** Scaling by e^(−λt) is undone by e^(λt). */
  lemma DecayUndone(m: Analysis, c: real, lambdaEff: real, tHours: real)
    ensures Lawful(m) ==> c * Exp(m, Exponent(lambdaEff, tHours)) * Exp(m, lambdaEff * tHours) == c
  {
    if Lawful(m) {
      ExpNegate(m, lambdaEff * tHours);
      assert Exponent(lambdaEff, tHours) == -(lambdaEff * tHours);
      assert Exp(m, Exponent(lambdaEff, tHours)) * Exp(m, lambdaEff * tHours) == 1.0;
      calc {
        c * Exp(m, Exponent(lambdaEff, tHours)) * Exp(m, lambdaEff * tHours);
        c * (Exp(m, Exponent(lambdaEff, tHours)) * Exp(m, lambdaEff * tHours));
        c * 1.0;
      }
    }
  }

  /** `calcActivityAtTime`: A(t) = A₀·e^(−λt); growing it back by e^(λt)
      recovers the administered activity. */
  function ActivityAtTime(m: Analysis, a0: real, lambdaEff: real, tHours: real): (a: real)
    ensures Lawful(m) ==> a * Exp(m, lambdaEff * tHours) == a0
  {
    DecayUndone(m, a0, lambdaEff, tHours);
    a0 * Exp(m, Exponent(lambdaEff, tHours))
  }

  /** `calcDoseRate`: Γ·A / d² (μSv/h); the rate times the squared distance
      is Γ·A, the inverse-square law. */
  function DoseRate(gamma: real, activity: real, distance: real): (rate: real)
    requires distance != 0.0
    ensures rate * (distance * distance) == gamma * activity
  {
    MulNonZero(distance, distance);
    (gamma * activity) / (distance * distance)
  }

  /** `calcCumulativeDoseFromTime`: dose (μSv) received from `tStart` on by
      an observer at `distance` for the fraction `occupancy` of the time,
      OF·Γ·A(tStart) / (λ·d²). */
  function CumulativeDoseFromTime(m: Analysis, gamma: real, a0: real, lambdaEff: real,
                                  tStart: real, distance: real, occupancy: real): (dose: real)
    requires lambdaEff != 0.0 && distance != 0.0
    ensures dose * lambdaEff == occupancy * DoseRate(gamma, ActivityAtTime(m, a0, lambdaEff, tStart), distance)
  {
    MulNonZero(lambdaEff, distance);
    MulNonZero(lambdaEff * distance, distance);
    MulNonZero(distance, distance);
    RateOverLambda(occupancy, gamma, ActivityAtTime(m, a0, lambdaEff, tStart), lambdaEff, distance, distance);
    occupancy * gamma * ActivityAtTime(m, a0, lambdaEff, tStart) / (lambdaEff * distance * distance)
  }

  /** The logarithm argument of `calcHugTime`: limit·λ·d² / (OF·Γ·A₀). */
  function HugArgument(gamma: real, a0: real, lambdaEff: real, distance: real,
                       occupancy: real, limitUSv: real): real
    requires occupancy != 0.0 && gamma != 0.0 && a0 != 0.0
  {
    MulNonZero(occupancy, gamma);
    MulNonZero(occupancy * gamma, a0);
    (limitUSv * lambdaEff * distance * distance) / (occupancy * gamma * a0)
  }

  /** `calcHugTime`: hours from injection until the remaining cumulative dose
      drops to `limitUSv`. An argument of 1 or more means "already safe" (0);
      0 or less means "never" (`Infinity`); otherwise −ln(argument)/λ,
      clamped below at 0. */
  function HugTime(m: Analysis, gamma: real, a0: real, lambdaEff: real, distance: real,
                   occupancy: real, limitUSv: real): (t: OrNever<real>)
    requires occupancy != 0.0 && gamma != 0.0 && a0 != 0.0
    ensures t.Finite? ==> t.value >= 0.0
    ensures HugArgument(gamma, a0, lambdaEff, distance, occupancy, limitUSv) >= 1.0 ==> t == Finite(0.0)
    ensures t.Never? <==> HugArgument(gamma, a0, lambdaEff, distance, occupancy, limitUSv) <= 0.0
  {
    var argument := HugArgument(gamma, a0, lambdaEff, distance, occupancy, limitUSv);
    if argument >= 1.0 then Finite(0.0)
    else if argument <= 0.0 then Never
    else
      ZeroFactor(limitUSv, lambdaEff, distance, distance);
      assert lambdaEff != 0.0;
      var tHug := LogSolution(m, lambdaEff, argument);
      Finite(if tHug > 0.0 then tHug else 0.0)
  }

  /** The unclamped hug time −(1/λ)·ln(argument): for λ > 0 and an argument
      strictly between 0 and 1 it is positive and solves e^(−λt) = argument. */
  function LogSolution(m: Analysis, lambdaEff: real, argument: real): (t: real)
    requires lambdaEff != 0.0
    ensures Lawful(m) && lambdaEff > 0.0 && 0.0 < argument < 1.0 ==>
              t > 0.0 && Exp(m, Exponent(lambdaEff, t)) == argument
  {
    LogSolutionFacts(m, lambdaEff, argument);
    -(1.0 / lambdaEff) * Ln(m, argument)
  }

  lemma LogSolutionFacts(m: Analysis, lambdaEff: real, argument: real)
    requires lambdaEff != 0.0
    ensures Lawful(m) && lambdaEff > 0.0 && 0.0 < argument < 1.0 ==>
              -(1.0 / lambdaEff) * Ln(m, argument) > 0.0
              && Exp(m, Exponent(lambdaEff, -(1.0 / lambdaEff) * Ln(m, argument))) == argument
  {
    if Lawful(m) && lambdaEff > 0.0 && 0.0 < argument < 1.0 {
      LnBelowOneNegative(m, argument);
      DivPos(1.0, lambdaEff);
      NegTimesNeg(-(1.0 / lambdaEff), Ln(m, argument));
      LogSolutionInverts(m, lambdaEff, argument);
    }
  }

  /** e^(−λ·(−ln(x)/λ)) = x for positive x. */
  lemma LogSolutionInverts(m: Analysis, lambdaEff: real, x: real)
    requires Lawful(m)
    requires lambdaEff != 0.0 && x > 0.0
    ensures Exp(m, Exponent(lambdaEff, -(1.0 / lambdaEff) * Ln(m, x))) == x
  {
    ExponentInverse(lambdaEff, Ln(m, x));
    LnInverse(m, x);
    assert Exponent(lambdaEff, -(1.0 / lambdaEff) * Ln(m, x)) == Ln(m, x);
    assert Exp(m, Exponent(lambdaEff, -(1.0 / lambdaEff) * Ln(m, x))) == Exp(m, Ln(m, x));
  }

  /** The squared safe distance OF·Γ·A / (λ·limit), clamped at 0 as
      `calcSafeDistance` does before taking the root. */
  function SafeRadicand(gamma: real, activity: real, lambdaEff: real,
                        occupancy: real, limitUSv: real): (r: real)
    requires lambdaEff != 0.0 && limitUSv != 0.0
    ensures r >= 0.0
  {
    MulNonZero(lambdaEff, limitUSv);
    var dSquared := (occupancy * gamma * activity) / (lambdaEff * limitUSv);
    if dSquared > 0.0 then dSquared else 0.0
  }

  /** `calcSafeDistance`: distance at which an observer present for the
      fraction `occupancy` of the time from now on receives exactly
      `limitUSv` from the current `activity`. */
  function SafeDistance(m: Analysis, gamma: real, activity: real, lambdaEff: real,
                        occupancy: real, limitUSv: real): (d: real)
    requires lambdaEff != 0.0 && limitUSv != 0.0
    ensures Lawful(m) ==> d >= 0.0 && d * d == SafeRadicand(gamma, activity, lambdaEff, occupancy, limitUSv)
  {
    var radicand := SafeRadicand(gamma, activity, lambdaEff, occupancy, limitUSv);
    SqrtWhenLawful(m, radicand);
    Sqrt(m, radicand)
  }

  /** `calcRemainingActivityPercent`: 100·e^(−λt), the percentage that
      growing back by e^(λt) turns into 100. */
  function RemainingActivityPercent(m: Analysis, lambdaEff: real, tHours: real): (pct: real)
    ensures Lawful(m) ==> pct * Exp(m, lambdaEff * tHours) == 100.0
  {
    DecayUndone(m, 100.0, lambdaEff, tHours);
    Exp(m, Exponent(lambdaEff, tHours)) * 100.0
  }

  /** Physical parameters of the formulas, all strictly positive. */
  predicate PositiveSetup(gamma: real, a0: real, lambdaEff: real, distance: real,
                          occupancy: real, limitUSv: real) {
    gamma > 0.0 && a0 > 0.0 && lambdaEff > 0.0 && distance > 0.0 && occupancy > 0.0 && limitUSv > 0.0
  }

  // ---------------------------------------------------------------------
  // Decay

  /** At injection the activity is the administered one and 100% remains. */
  lemma AtInjection(m: Analysis, a0: real, lambdaEff: real)
    requires Lawful(m)
    ensures ActivityAtTime(m, a0, lambdaEff, 0.0) == a0
    ensures RemainingActivityPercent(m, lambdaEff, 0.0) == 100.0
  {
    assert Exponent(lambdaEff, 0.0) == 0.0;
  }

  /** One half-life halves the activity and leaves 50%. */
  lemma HalfLifeHalves(m: Analysis, a0: real, halfLifeHours: real)
    requires Lawful(m)
    requires halfLifeHours > 0.0
    ensures ActivityAtTime(m, a0, DecayConstant(halfLifeHours), halfLifeHours) == a0 / 2.0
    ensures RemainingActivityPercent(m, DecayConstant(halfLifeHours), halfLifeHours) == 50.0
  {
    var lambdaEff := DecayConstant(halfLifeHours);
    assert Exponent(lambdaEff, halfLifeHours) == -Ln2;
    ExpNegate(m, Ln2);
    assert Exp(m, -Ln2) == 0.5;
  }

  /** e^(−λt) strictly decreases in t for λ > 0. */
  lemma DecayDecreasing(m: Analysis, lambdaEff: real, t1: real, t2: real)
    requires Lawful(m)
    requires lambdaEff > 0.0 && t1 < t2
    ensures Exp(m, Exponent(lambdaEff, t2)) < Exp(m, Exponent(lambdaEff, t1))
  {
    NegMulStrict(lambdaEff, t1, t2);
    ExpIncreasing(m, Exponent(lambdaEff, t2), Exponent(lambdaEff, t1));
  }

  /** The activity strictly decays over time and stays positive. */
  lemma ActivityDecreasing(m: Analysis, a0: real, lambdaEff: real, t1: real, t2: real)
    requires Lawful(m)
    requires a0 > 0.0 && lambdaEff > 0.0 && t1 < t2
    ensures 0.0 < ActivityAtTime(m, a0, lambdaEff, t2) < ActivityAtTime(m, a0, lambdaEff, t1)
  {
    DecayDecreasing(m, lambdaEff, t1, t2);
    ExpPositive(m, Exponent(lambdaEff, t2));
    MulPos(a0, Exp(m, Exponent(lambdaEff, t2)));
    MulStrict(a0, Exp(m, Exponent(lambdaEff, t2)), Exp(m, Exponent(lambdaEff, t1)));
  }

  /** The remaining percentage is the activity relative to the administered one. */
  lemma PercentIsActivityRatio(m: Analysis, a0: real, lambdaEff: real, tHours: real)
    requires a0 != 0.0
    ensures RemainingActivityPercent(m, lambdaEff, tHours) == 100.0 * ActivityAtTime(m, a0, lambdaEff, tHours) / a0
  {
  }

  /** The percentage scaled by A₀ is a hundred times the activity left. */
  lemma PercentScaled(m: Analysis, a0: real, lambdaEff: real, tHours: real)
    ensures RemainingActivityPercent(m, lambdaEff, tHours) * a0 == 100.0 * ActivityAtTime(m, a0, lambdaEff, tHours)
  {
    var e := Exp(m, Exponent(lambdaEff, tHours));
    assert e * 100.0 * a0 == 100.0 * (a0 * e);
  }

  /** After injection the remaining percentage lies in (0, 100]. */
  lemma PercentBounds(m: Analysis, lambdaEff: real, tHours: real)
    requires Lawful(m)
    requires lambdaEff > 0.0 && tHours >= 0.0
    ensures 0.0 < RemainingActivityPercent(m, lambdaEff, tHours) <= 100.0
  {
    ExpPositive(m, Exponent(lambdaEff, tHours));
    if tHours > 0.0 {
      DecayDecreasing(m, lambdaEff, 0.0, tHours);
    }
    AtInjection(m, 1.0, lambdaEff);
  }

  // ---------------------------------------------------------------------
  // Dose rate and cumulative dose

  /** Inverse-square law: doubling the distance quarters the dose rate. */
  lemma InverseSquare(gamma: real, activity: real, distance: real)
    requires distance != 0.0
    ensures DoseRate(gamma, activity, 2.0 * distance) == DoseRate(gamma, activity, distance) / 4.0
  {
    Quarter(gamma * activity, distance, distance);
  }

  /** The constant factor of the cumulative dose, OF·Γ·A₀ / (λ·d²): the
      whole dose an observer receives from injection on. */
  function DoseCoefficient(gamma: real, a0: real, lambdaEff: real, distance: real, occupancy: real): real
    requires lambdaEff != 0.0 && distance != 0.0
  {
    MulNonZero(lambdaEff, distance);
    MulNonZero(lambdaEff * distance, distance);
    occupancy * gamma * a0 / (lambdaEff * distance * distance)
  }

  /** Cumulative dose as the whole dose times the fraction e^(−λt) still to come. */
  lemma CumulativeDoseScaled(m: Analysis, gamma: real, a0: real, lambdaEff: real,
                             t: real, distance: real, occupancy: real)
    requires lambdaEff != 0.0 && distance != 0.0
    ensures CumulativeDoseFromTime(m, gamma, a0, lambdaEff, t, distance, occupancy)
            == DoseCoefficient(gamma, a0, lambdaEff, distance, occupancy) * Exp(m, Exponent(lambdaEff, t))
  {
    MulNonZero(lambdaEff, distance);
    MulNonZero(lambdaEff * distance, distance);
    Regroup(occupancy * gamma, ActivityAtTime(m, a0, lambdaEff, t), a0, Exp(m, Exponent(lambdaEff, t)),
            lambdaEff, distance, distance);
  }

  /** The whole dose is positive for a positive setup. */
  lemma CoefficientPositive(gamma: real, a0: real, lambdaEff: real, distance: real, occupancy: real)
    requires gamma > 0.0 && a0 > 0.0 && lambdaEff > 0.0 && distance > 0.0 && occupancy > 0.0
    ensures DoseCoefficient(gamma, a0, lambdaEff, distance, occupancy) > 0.0
  {
    MulPos(occupancy, gamma);
    MulPos(occupancy * gamma, a0);
    DivPos3(occupancy * gamma * a0, lambdaEff, distance, distance);
  }

  /** The whole dose grows with the administered activity. */
  lemma CoefficientMonotone(gamma: real, a0: real, a0': real, lambdaEff: real, distance: real, occupancy: real)
    requires gamma > 0.0 && lambdaEff > 0.0 && distance > 0.0 && occupancy > 0.0 && a0 <= a0'
    ensures DoseCoefficient(gamma, a0, lambdaEff, distance, occupancy)
            <= DoseCoefficient(gamma, a0', lambdaEff, distance, occupancy)
  {
    MulPos(occupancy, gamma);
    MulMono(occupancy * gamma, a0, a0');
    DivMono3(occupancy * gamma * a0, occupancy * gamma * a0', lambdaEff, distance, distance);
  }

  /** The later the exposure window opens, the less dose remains. */
  lemma CumulativeDoseDecreasing(m: Analysis, gamma: real, a0: real, lambdaEff: real,
                                 t1: real, t2: real, distance: real, occupancy: real)
    requires Lawful(m)
    requires gamma > 0.0 && a0 > 0.0 && lambdaEff > 0.0 && distance > 0.0 && occupancy > 0.0
    requires t1 < t2
    ensures CumulativeDoseFromTime(m, gamma, a0, lambdaEff, t2, distance, occupancy)
            < CumulativeDoseFromTime(m, gamma, a0, lambdaEff, t1, distance, occupancy)
  {
    CumulativeDoseScaled(m, gamma, a0, lambdaEff, t1, distance, occupancy);
    CumulativeDoseScaled(m, gamma, a0, lambdaEff, t2, distance, occupancy);
    CoefficientPositive(gamma, a0, lambdaEff, distance, occupancy);
    DecayDecreasing(m, lambdaEff, t1, t2);
    MulStrict(DoseCoefficient(gamma, a0, lambdaEff, distance, occupancy),
              Exp(m, Exponent(lambdaEff, t2)), Exp(m, Exponent(lambdaEff, t1)));
  }

  /** More administered activity never means less remaining dose. */
  lemma CumulativeDoseMonotoneInActivity(m: Analysis, gamma: real, a0: real, a0': real, lambdaEff: real,
                                         t: real, distance: real, occupancy: real)
    requires Lawful(m)
    requires gamma > 0.0 && lambdaEff > 0.0 && distance > 0.0 && occupancy > 0.0
    requires a0 <= a0'
    ensures CumulativeDoseFromTime(m, gamma, a0, lambdaEff, t, distance, occupancy)
            <= CumulativeDoseFromTime(m, gamma, a0', lambdaEff, t, distance, occupancy)
  {
    CumulativeDoseScaled(m, gamma, a0, lambdaEff, t, distance, occupancy);
    CumulativeDoseScaled(m, gamma, a0', lambdaEff, t, distance, occupancy);
    CoefficientMonotone(gamma, a0, a0', lambdaEff, distance, occupancy);
    ExpPositive(m, Exponent(lambdaEff, t));
    MulMonoRight(DoseCoefficient(gamma, a0, lambdaEff, distance, occupancy),
                 DoseCoefficient(gamma, a0', lambdaEff, distance, occupancy), Exp(m, Exponent(lambdaEff, t)));
  }

  /** The cumulative dose is the dose rate at the start time, weighted by
      the occupancy, integrated over the decay: OF·Ḋ(tStart)/λ. */
  lemma CumulativeIsRateOverLambda(m: Analysis, gamma: real, a0: real, lambdaEff: real,
                                   t: real, distance: real, occupancy: real)
    requires lambdaEff != 0.0 && distance != 0.0
    ensures CumulativeDoseFromTime(m, gamma, a0, lambdaEff, t, distance, occupancy)
            == occupancy * DoseRate(gamma, ActivityAtTime(m, a0, lambdaEff, t), distance) / lambdaEff
  {
    MulNonZero(lambdaEff, distance);
    MulNonZero(lambdaEff * distance, distance);
    MulNonZero(distance, distance);
    RateOverLambda(occupancy, gamma, ActivityAtTime(m, a0, lambdaEff, t), lambdaEff, distance, distance);
  }

  // ---------------------------------------------------------------------
  // Hug time

  /** Numerator and denominator of the hug-time argument are positive. */
  lemma ArgumentPositive(gamma: real, a0: real, lambdaEff: real, distance: real,
                         occupancy: real, limitUSv: real)
    requires PositiveSetup(gamma, a0, lambdaEff, distance, occupancy, limitUSv)
    ensures occupancy * gamma * a0 > 0.0
    ensures limitUSv * lambdaEff * distance * distance > 0.0
    ensures HugArgument(gamma, a0, lambdaEff, distance, occupancy, limitUSv) > 0.0
  {
    MulPos(occupancy, gamma);
    MulPos(occupancy * gamma, a0);
    MulPos(limitUSv, lambdaEff);
    MulPos(limitUSv * lambdaEff, distance);
    MulPos(limitUSv * lambdaEff * distance, distance);
    DivPos(limitUSv * lambdaEff * distance * distance, occupancy * gamma * a0);
  }

  /** Below the "already safe" threshold the hug time is the logarithmic
      solution and strictly positive. */
  lemma HugTimeSolution(m: Analysis, gamma: real, a0: real, lambdaEff: real, distance: real,
                        occupancy: real, limitUSv: real)
    requires Lawful(m)
    requires PositiveSetup(gamma, a0, lambdaEff, distance, occupancy, limitUSv)
    requires HugArgument(gamma, a0, lambdaEff, distance, occupancy, limitUSv) < 1.0
    ensures HugTime(m, gamma, a0, lambdaEff, distance, occupancy, limitUSv)
            == Finite(LogSolution(m, lambdaEff, HugArgument(gamma, a0, lambdaEff, distance, occupancy, limitUSv)))
    ensures LogSolution(m, lambdaEff, HugArgument(gamma, a0, lambdaEff, distance, occupancy, limitUSv)) > 0.0
  {
    ArgumentPositive(gamma, a0, lambdaEff, distance, occupancy, limitUSv);
  }

  /** Below the "already safe" threshold the dose remaining from the hug
      time on equals the limit exactly. */
  lemma HugTimeRoundTrip(m: Analysis, gamma: real, a0: real, lambdaEff: real, distance: real,
                         occupancy: real, limitUSv: real)
    requires Lawful(m)
    requires PositiveSetup(gamma, a0, lambdaEff, distance, occupancy, limitUSv)
    requires HugArgument(gamma, a0, lambdaEff, distance, occupancy, limitUSv) < 1.0
    ensures HugTime(m, gamma, a0, lambdaEff, distance, occupancy, limitUSv).Finite?
    ensures HugTime(m, gamma, a0, lambdaEff, distance, occupancy, limitUSv).value > 0.0
    ensures CumulativeDoseFromTime(m, gamma, a0, lambdaEff,
              HugTime(m, gamma, a0, lambdaEff, distance, occupancy, limitUSv).value,
              distance, occupancy) == limitUSv
  {
    HugTimeSolution(m, gamma, a0, lambdaEff, distance, occupancy, limitUSv);
    ArgumentPositive(gamma, a0, lambdaEff, distance, occupancy, limitUSv);
    var arg := HugArgument(gamma, a0, lambdaEff, distance, occupancy, limitUSv);
    var t := LogSolution(m, lambdaEff, arg);
    CumulativeDoseScaled(m, gamma, a0, lambdaEff, t, distance, occupancy);
    MulNonZero(lambdaEff, distance);
    MulNonZero(lambdaEff * distance, distance);
    CancelRatio(occupancy * gamma * a0, limitUSv, lambdaEff, distance, distance,
                DoseCoefficient(gamma, a0, lambdaEff, distance, occupancy), arg);
  }

  /** The "already safe" threshold compares the limit with the whole dose
      from injection on. */
  lemma AtInjectionDose(m: Analysis, gamma: real, a0: real, lambdaEff: real, distance: real,
                        occupancy: real, limitUSv: real)
    requires Lawful(m)
    requires PositiveSetup(gamma, a0, lambdaEff, distance, occupancy, limitUSv)
    ensures HugArgument(gamma, a0, lambdaEff, distance, occupancy, limitUSv) >= 1.0
            <==> CumulativeDoseFromTime(m, gamma, a0, lambdaEff, 0.0, distance, occupancy) <= limitUSv
  {
    ArgumentPositive(gamma, a0, lambdaEff, distance, occupancy, limitUSv);
    CoefficientPositive(gamma, a0, lambdaEff, distance, occupancy);
    CumulativeDoseScaled(m, gamma, a0, lambdaEff, 0.0, distance, occupancy);
    assert Exponent(lambdaEff, 0.0) == 0.0;
    DivPos3(1.0, lambdaEff, distance, distance);
    WithinLimitIff(occupancy * gamma * a0, limitUSv, lambdaEff, distance, distance,
                   DoseCoefficient(gamma, a0, lambdaEff, distance, occupancy),
                   HugArgument(gamma, a0, lambdaEff, distance, occupancy, limitUSv));
  }

  /** The hug time is the earliest safe moment: from any time at or after it
      the remaining dose is within the limit, and from any earlier time it
      is not. */
  lemma HugTimeIsEarliestSafeTime(m: Analysis, gamma: real, a0: real, lambdaEff: real, distance: real,
                                  occupancy: real, limitUSv: real, t: real)
    requires Lawful(m)
    requires PositiveSetup(gamma, a0, lambdaEff, distance, occupancy, limitUSv)
    requires t >= 0.0
    ensures HugTime(m, gamma, a0, lambdaEff, distance, occupancy, limitUSv).Finite?
    ensures CumulativeDoseFromTime(m, gamma, a0, lambdaEff, t, distance, occupancy) <= limitUSv
            <==> HugTime(m, gamma, a0, lambdaEff, distance, occupancy, limitUSv).value <= t
  {
    ArgumentPositive(gamma, a0, lambdaEff, distance, occupancy, limitUSv);
    if HugArgument(gamma, a0, lambdaEff, distance, occupancy, limitUSv) >= 1.0 {
      AtInjectionDose(m, gamma, a0, lambdaEff, distance, occupancy, limitUSv);
      if t > 0.0 {
        CumulativeDoseDecreasing(m, gamma, a0, lambdaEff, 0.0, t, distance, occupancy);
      }
    } else {
      HugTimeRoundTrip(m, gamma, a0, lambdaEff, distance, occupancy, limitUSv);
      var th := HugTime(m, gamma, a0, lambdaEff, distance, occupancy, limitUSv).value;
      if t < th {
        CumulativeDoseDecreasing(m, gamma, a0, lambdaEff, t, th, distance, occupancy);
      } else if t > th {
        CumulativeDoseDecreasing(m, gamma, a0, lambdaEff, th, t, distance, occupancy);
      }
    }
  }

  /** Hug time 0 exactly when the whole dose from injection on is within the limit. */
  lemma AlreadySafeIff(m: Analysis, gamma: real, a0: real, lambdaEff: real, distance: real,
                       occupancy: real, limitUSv: real)
    requires Lawful(m)
    requires PositiveSetup(gamma, a0, lambdaEff, distance, occupancy, limitUSv)
    ensures HugTime(m, gamma, a0, lambdaEff, distance, occupancy, limitUSv) == Finite(0.0)
            <==> CumulativeDoseFromTime(m, gamma, a0, lambdaEff, 0.0, distance, occupancy) <= limitUSv
  {
    HugTimeIsEarliestSafeTime(m, gamma, a0, lambdaEff, distance, occupancy, limitUSv, 0.0);
  }

  /** More activity never shortens the hug time; a higher limit never lengthens it. */
  lemma HugTimeMonotone(m: Analysis, gamma: real, a0: real, a0': real, lambdaEff: real, distance: real,
                        occupancy: real, limitUSv: real, limitUSv': real)
    requires Lawful(m)
    requires PositiveSetup(gamma, a0, lambdaEff, distance, occupancy, limitUSv)
    requires a0 <= a0' && 0.0 < limitUSv' <= limitUSv
    ensures HugTime(m, gamma, a0, lambdaEff, distance, occupancy, limitUSv).Finite?
    ensures HugTime(m, gamma, a0', lambdaEff, distance, occupancy, limitUSv').Finite?
    ensures HugTime(m, gamma, a0, lambdaEff, distance, occupancy, limitUSv).value
            <= HugTime(m, gamma, a0', lambdaEff, distance, occupancy, limitUSv').value
  {
    HugTimeIsEarliestSafeTime(m, gamma, a0', lambdaEff, distance, occupancy, limitUSv', 0.0);
    var t' := HugTime(m, gamma, a0', lambdaEff, distance, occupancy, limitUSv').value;
    HugTimeIsEarliestSafeTime(m, gamma, a0', lambdaEff, distance, occupancy, limitUSv', t');
    HugTimeIsEarliestSafeTime(m, gamma, a0, lambdaEff, distance, occupancy, limitUSv, t');
    CumulativeDoseMonotoneInActivity(m, gamma, a0, a0', lambdaEff, t', distance, occupancy);
  }

  // ---------------------------------------------------------------------
  // Safe distance

  lemma SafeDistanceNonNegative(m: Analysis, gamma: real, activity: real, lambdaEff: real,
                                occupancy: real, limitUSv: real)
    requires Lawful(m)
    requires lambdaEff != 0.0 && limitUSv != 0.0
    ensures SafeDistance(m, gamma, activity, lambdaEff, occupancy, limitUSv) >= 0.0
  {
    SqrtFacts(m, SafeRadicand(gamma, activity, lambdaEff, occupancy, limitUSv));
  }

  /** For a positive setup the clamp does not apply. */
  lemma RadicandPositive(gamma: real, activity: real, lambdaEff: real, occupancy: real, limitUSv: real)
    requires gamma > 0.0 && activity > 0.0 && lambdaEff > 0.0 && occupancy > 0.0 && limitUSv > 0.0
    ensures SafeRadicand(gamma, activity, lambdaEff, occupancy, limitUSv) > 0.0
    ensures SafeRadicand(gamma, activity, lambdaEff, occupancy, limitUSv)
            == occupancy * gamma * activity / (lambdaEff * limitUSv)
  {
    MulPos(occupancy, gamma);
    MulPos(occupancy * gamma, activity);
    MulPos(lambdaEff, limitUSv);
    DivPos(occupancy * gamma * activity, lambdaEff * limitUSv);
  }

  /** Higher current activity means a strictly larger safe distance. */
  lemma SafeDistanceIncreasing(m: Analysis, gamma: real, activity: real, activity': real,
                               lambdaEff: real, occupancy: real, limitUSv: real)
    requires Lawful(m)
    requires gamma > 0.0 && lambdaEff > 0.0 && occupancy > 0.0 && limitUSv > 0.0
    requires activity < activity' && activity' > 0.0
    ensures SafeDistance(m, gamma, activity, lambdaEff, occupancy, limitUSv)
            < SafeDistance(m, gamma, activity', lambdaEff, occupancy, limitUSv)
  {
    MulPos(occupancy, gamma);
    MulPos(lambdaEff, limitUSv);
    MulStrict(occupancy * gamma, activity, activity');
    DivStrict(occupancy * gamma * activity, occupancy * gamma * activity', lambdaEff * limitUSv);
    RadicandPositive(gamma, activity', lambdaEff, occupancy, limitUSv);
    SqrtIncreasing(m, SafeRadicand(gamma, activity, lambdaEff, occupancy, limitUSv),
                   SafeRadicand(gamma, activity', lambdaEff, occupancy, limitUSv));
  }

  /** At the safe distance the dose received from now on equals the limit. */
  lemma SafeDistanceMeetsLimit(m: Analysis, gamma: real, activity: real, lambdaEff: real,
                               occupancy: real, limitUSv: real)
    requires Lawful(m)
    requires PositiveSetup(gamma, activity, lambdaEff, 1.0, occupancy, limitUSv)
    ensures SafeDistance(m, gamma, activity, lambdaEff, occupancy, limitUSv) > 0.0
    ensures CumulativeDoseFromTime(m, gamma, activity, lambdaEff, 0.0,
              SafeDistance(m, gamma, activity, lambdaEff, occupancy, limitUSv), occupancy) == limitUSv
  {
    RadicandPositive(gamma, activity, lambdaEff, occupancy, limitUSv);
    SqrtFacts(m, SafeRadicand(gamma, activity, lambdaEff, occupancy, limitUSv));
    var d := SafeDistance(m, gamma, activity, lambdaEff, occupancy, limitUSv);
    ZeroSquare(d);
    InvertRadicand(occupancy * gamma * activity, lambdaEff, limitUSv, d, d);
    AtInjection(m, activity, lambdaEff);
  }
}
