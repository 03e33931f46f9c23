/** The proxy tier's decision: it fails a model on evidence of harm, and passes it only at full resolution. */
module ProxyGate {
  import opened Wrappers
  import opened Wilson

  const ENFORCE_MIN_PAIRS: int := 30
  const DEFAULT_FAIL_UNDER: real := 45.0
  const DEFAULT_MAX_REGRESSION: real := 5.0
  const MAX_CI_HALF_WIDTH_PP: real := DEFAULT_MAX_REGRESSION

  datatype Thresholds = Thresholds(failUnder: real, maxRegression: real, enforceMinPairs: int, maxCiHalfWidth: real)

  const DEFAULTS := Thresholds(DEFAULT_FAIL_UNDER, DEFAULT_MAX_REGRESSION, ENFORCE_MIN_PAIRS, MAX_CI_HALF_WIDTH_PP)

  datatype Mode = Enforcing | AdvisoryOnly
  datatype Verdict = Pass | Fail | Advisory

  datatype Decision = Decision(mode: Mode, verdict: Verdict, shouldFail: bool)

  /** Rounding to the nearest integer, halves to the even one. */
  function Round(x: real): int {
    var f := x.Floor;
    var d := x - f as real;
    if d < 0.5 || (d == 0.5 && f % 2 == 0) then f else f + 1
  }

  /** The number of fooled trials a percentage stands for. */
  function Successes(foolRate: real, n: nat): int {
    Round(Share(foolRate, n))
  }

  function Share(foolRate: real, n: nat): real {
    foolRate / 100.0 * n as real
  }

  /** root is what the source computes for the rate's interval. */
  predicate RootFor(root: real, foolRate: real, n: nat) {
    n > 0 ==> IsSqrt(root, Radicand(Successes(foolRate, n), n, Z))
  }

  /** The interval's bounds in percent; the vacuous ones without a measurement. */
  function FoolRateCi(foolRate: real, n: nat, root: real): (real, real)
    requires RootFor(root, foolRate, n)
  {
    if n == 0 then (0.0, 100.0) else
    var i := Wilson.Wilson(Successes(foolRate, n), n, Z, root);
    (i.lo * 100.0, i.hi * 100.0)
  }

  function Trials(nRealPairs: nat, nTrials: Option<nat>): nat {
    if nTrials.Some? && nTrials.value > 0 then nTrials.value else nRealPairs
  }

  function ProxyGateDecision(foolRate: real, nRealPairs: nat, baseline: Option<real>, nTrials: Option<nat>,
                             t: Thresholds, root: real): Decision
    requires RootFor(root, foolRate, Trials(nRealPairs, nTrials))
  {
    if nRealPairs < t.enforceMinPairs then Decision(AdvisoryOnly, Advisory, false) else
    var (lo, hi) := FoolRateCi(foolRate, Trials(nRealPairs, nTrials), root);
    var belowFloor := hi < t.failUnder;
    var regressed := baseline.Some? && hi < baseline.value - t.maxRegression;
    if belowFloor || regressed then Decision(Enforcing, Fail, true)
    else if (hi - lo) / 2.0 > t.maxCiHalfWidth then Decision(Enforcing, Advisory, false)
    else Decision(Enforcing, Pass, false)
  }

  /** The integer nearest to x, and of two equally near ones the even one. */
  lemma RoundIsNearest(x: real, i: int)
    ensures Round(x) == i <==>
      -0.5 <= x - i as real <= 0.5 && ((x - i as real == 0.5 || x - i as real == -0.5) ==> i % 2 == 0)
  {
    var f := x.Floor;
    assert f as real <= x < f as real + 1.0;
    assert i <= f - 1 ==> i as real <= f as real - 1.0;
    assert i >= f + 2 ==> i as real >= f as real + 2.0;
  }

  lemma RoundMonotone(x: real, y: real)
    requires x <= y
    ensures Round(x) <= Round(y)
  {
  }

  lemma ShareMonotone(low: real, high: real, n: nat)
    requires low <= high
    ensures Share(low, n) <= Share(high, n)
  {
  }

  /** A percentage of n trials is a number of trials between none and all. */
  lemma SuccessesInRange(foolRate: real, n: nat)
    requires 0.0 <= foolRate <= 100.0
    ensures 0 <= Successes(foolRate, n) <= n
  {
    ShareMonotone(0.0, foolRate, n);
    ShareMonotone(foolRate, 100.0, n);
    assert Share(0.0, n) == 0.0 && Share(100.0, n) == n as real;
    RoundWithin(Share(foolRate, n), n);
  }

  lemma RoundWithin(x: real, n: nat)
    requires 0.0 <= x <= n as real
    ensures 0 <= Round(x) <= n
  {
  }

  lemma SuccessesMonotone(low: real, high: real, n: nat)
    requires low <= high
    ensures Successes(low, n) <= Successes(high, n)
  {
    ShareMonotone(low, high, n);
    RoundMonotone(Share(low, n), Share(high, n));
  }

  /** The fool rate that was measured, in percent. */
  function Measured(foolRate: real, n: nat): real
    requires n > 0
  {
    Div(Successes(foolRate, n) as real, n as real) * 100.0
  }

  lemma CiAroundMeasured(foolRate: real, n: nat, root: real)
    requires 0.0 <= foolRate <= 100.0 && n > 0 && RootFor(root, foolRate, n)
    ensures var (lo, hi) := FoolRateCi(foolRate, n, root);
      && 0.0 <= lo <= Measured(foolRate, n) <= hi <= 100.0
      && (n >= 381 ==> (hi - lo) / 2.0 <= 5.0)
  {
    hide Round, Div, Radicand, Centre, HalfWidth, IsSqrt;
    SuccessesInRange(foolRate, n);
    BoundsAroundProportion(Successes(foolRate, n), n, Z, root);
    if n >= 381 {
      NarrowFrom381(Successes(foolRate, n), n, root);
    }
  }

  // ----- the decision without the interval -----

  /** A bound in percent is below a threshold in percent exactly when its share is. */
  lemma PercentBelow(share: real, threshold: real)
    ensures share * 100.0 < threshold <==> share < threshold / 100.0
  {
  }

  lemma HighBelowPercent(foolRate: real, n: nat, root: real, threshold: real)
    requires 0.0 <= foolRate <= 100.0 && n > 0 && RootFor(root, foolRate, n)
    ensures FoolRateCi(foolRate, n, root).1 < threshold <==>
      Rejects(Div(Successes(foolRate, n) as real, n as real), threshold / 100.0, n)
  {
    hide Div, Radicand, IsSqrt, Rejects, Successes, Wilson.Wilson;
    SuccessesInRange(foolRate, n);
    HighBelow(Successes(foolRate, n), n, root, threshold / 100.0);
    PercentBelow(Wilson.Wilson(Successes(foolRate, n), n, Z, root).hi, threshold);
  }

  lemma WiderThanPercent(foolRate: real, n: nat, root: real, limit: real)
    requires 0.0 <= foolRate <= 100.0 && n > 0 && RootFor(root, foolRate, n)
    ensures var (lo, hi) := FoolRateCi(foolRate, n, root);
      (hi - lo) / 2.0 > limit <==> Unresolved(Div(Successes(foolRate, n) as real, n as real), limit / 100.0, n)
  {
    hide Div, Radicand, IsSqrt, Unresolved, Successes, Wilson.Wilson;
    SuccessesInRange(foolRate, n);
    WiderThan(Successes(foolRate, n), n, root, limit / 100.0);
  }

  /** Exactly what is decided, from the counts: with enough real pairs a run fails when its trials rule out the floor or
      the allowed regression, is left open when they resolve too little, and passes otherwise. */
  lemma DecisionIs(foolRate: real, nRealPairs: nat, baseline: Option<real>, nTrials: Option<nat>, t: Thresholds,
                   root: real, n: nat)
    requires n == if nTrials.Some? && nTrials.value != 0 then nTrials.value else nRealPairs
    requires 0.0 <= foolRate <= 100.0 && n > 0 && RootFor(root, foolRate, n)
    ensures var d := ProxyGateDecision(foolRate, nRealPairs, baseline, nTrials, t, root);
      var p := Div(Successes(foolRate, n) as real, n as real);
      d == if nRealPairs < t.enforceMinPairs then Decision(AdvisoryOnly, Advisory, false)
           else if Rejects(p, t.failUnder / 100.0, n) then Decision(Enforcing, Fail, true)
           else if baseline.Some? && Rejects(p, (baseline.value - t.maxRegression) / 100.0, n) then
             Decision(Enforcing, Fail, true)
           else if Unresolved(p, t.maxCiHalfWidth / 100.0, n) then Decision(Enforcing, Advisory, false)
           else Decision(Enforcing, Pass, false)
  {
    hide FoolRateCi, RootFor, Rejects, Unresolved, Successes, Div;
    HighBelowPercent(foolRate, n, root, t.failUnder);
    if baseline.Some? {
      HighBelowPercent(foolRate, n, root, baseline.value - t.maxRegression);
    }
    WiderThanPercent(foolRate, n, root, t.maxCiHalfWidth);
  }

  /** Without a trial the interval says nothing: only thresholds out of its reach decide. */
  lemma DecisionWithoutTrials(foolRate: real, baseline: Option<real>, nTrials: Option<nat>, t: Thresholds, root: real)
    requires nTrials.None? || nTrials.value == 0
    ensures var harm := t.failUnder > 100.0 || (baseline.Some? && baseline.value - t.maxRegression > 100.0);
      ProxyGateDecision(foolRate, 0, baseline, nTrials, t, root) ==
        if t.enforceMinPairs > 0 then Decision(AdvisoryOnly, Advisory, false)
        else if harm then Decision(Enforcing, Fail, true)
        else if t.maxCiHalfWidth < 50.0 then Decision(Enforcing, Advisory, false)
        else Decision(Enforcing, Pass, false)
  {
  }

  /** A rate under the floor passes when it is not evidence of harm: 44.5 percent of 400 trials. */
  lemma UnderTheFloorCanPass(root: real)
    requires RootFor(root, 44.5, 400)
    ensures ProxyGateDecision(44.5, 400, None, None, DEFAULTS, root) == Decision(Enforcing, Pass, false)
  {
    RoundIsNearest(Share(44.5, 400), 178);
    var p := Div(178.0, 400.0);
    assert p == 0.445;
    DecisionIs(44.5, 400, None, None, DEFAULTS, root, 400);
  }

  /** At a fixed sample and baseline the failing rates are closed downward. */
  lemma FailClosedDownward(low: real, lowRoot: real, high: real, highRoot: real, nRealPairs: nat,
                           baseline: Option<real>, nTrials: Option<nat>, t: Thresholds)
    requires 0.0 <= low <= high <= 100.0
    requires RootFor(lowRoot, low, Trials(nRealPairs, nTrials)) && RootFor(highRoot, high, Trials(nRealPairs, nTrials))
    requires ProxyGateDecision(high, nRealPairs, baseline, nTrials, t, highRoot).verdict == Fail
    ensures ProxyGateDecision(low, nRealPairs, baseline, nTrials, t, lowRoot).verdict == Fail
  {
    hide Round, Successes, Div, Radicand, Centre, HalfWidth, IsSqrt;
    var n := Trials(nRealPairs, nTrials);
    SuccessesInRange(low, n);
    SuccessesInRange(high, n);
    SuccessesMonotone(low, high, n);
    if n > 0 {
      BoundsMonotone(Successes(low, n), lowRoot, Successes(high, n), highRoot, n, Z);
    }
  }

  /** A failing run measured a rate below the floor or below the allowed regression: nothing healthy fails. */
  lemma FailNeedsLowRate(foolRate: real, nRealPairs: nat, baseline: Option<real>, nTrials: Option<nat>,
                         t: Thresholds, root: real)
    requires 0.0 <= foolRate <= 100.0 && Trials(nRealPairs, nTrials) > 0
    requires RootFor(root, foolRate, Trials(nRealPairs, nTrials))
    requires ProxyGateDecision(foolRate, nRealPairs, baseline, nTrials, t, root).verdict == Fail
    ensures var rate := Measured(foolRate, Trials(nRealPairs, nTrials));
      rate < t.failUnder || (baseline.Some? && rate < baseline.value - t.maxRegression)
  {
    hide FoolRateCi, Measured, RootFor;
    CiAroundMeasured(foolRate, Trials(nRealPairs, nTrials), root);
  }

  /** A passing run measured no worse than twice the half-width limit under the floor and the baseline. */
  lemma PassNeedsHighRate(foolRate: real, nRealPairs: nat, baseline: Option<real>, nTrials: Option<nat>,
                          t: Thresholds, root: real)
    requires 0.0 <= foolRate <= 100.0 && Trials(nRealPairs, nTrials) > 0
    requires RootFor(root, foolRate, Trials(nRealPairs, nTrials))
    requires ProxyGateDecision(foolRate, nRealPairs, baseline, nTrials, t, root).verdict == Pass
    ensures var rate, slack := Measured(foolRate, Trials(nRealPairs, nTrials)), 2.0 * t.maxCiHalfWidth;
      && nRealPairs >= t.enforceMinPairs
      && rate >= t.failUnder - slack
      && (baseline.Some? ==> rate >= baseline.value - t.maxRegression - slack)
  {
    hide FoolRateCi, Measured, RootFor;
    CiAroundMeasured(foolRate, Trials(nRealPairs, nTrials), root);
  }

  /** With the default thresholds, 30 real pairs and 381 trials always yield a verdict. */
  lemma DefaultsDecide(foolRate: real, nRealPairs: nat, baseline: Option<real>, nTrials: Option<nat>, root: real)
    requires 0.0 <= foolRate <= 100.0 && nRealPairs >= 30 && Trials(nRealPairs, nTrials) >= 381
    requires RootFor(root, foolRate, Trials(nRealPairs, nTrials))
    ensures var d := ProxyGateDecision(foolRate, nRealPairs, baseline, nTrials, DEFAULTS, root);
      d.mode == Enforcing && d.verdict != Advisory && (d.shouldFail <==> d.verdict == Fail)
  {
    hide FoolRateCi, RootFor;
    CiAroundMeasured(foolRate, Trials(nRealPairs, nTrials), root);
  }

  /** The rate, in percent, of half of n trials. */
  ghost function MiddleRate(n: nat): real
    requires n > 0
  {
    Div((n / 2) as real, n as real) * 100.0
  }

  lemma MiddleRateRounds(n: nat)
    requires n > 0
    ensures Successes(MiddleRate(n), n) == n / 2
  {
    var share := Div((n / 2) as real, n as real);
    hide Div;
    assert MiddleRate(n) / 100.0 == share;
    assert Share(MiddleRate(n), n) == (n / 2) as real;
  }

  /** No smaller number is enough: up to 380 trials the middle rate, without a baseline, is left undecided. */
  lemma UndecidedUpTo380(n: nat, nRealPairs: nat, root: real)
    requires 0 < n <= 380 && nRealPairs >= 30 && RootFor(root, MiddleRate(n), n)
    ensures ProxyGateDecision(MiddleRate(n), nRealPairs, None, Some(n), DEFAULTS, root) ==
      Decision(Enforcing, Advisory, false)
  {
    MiddleRateRounds(n);
    hide Div, Radicand, Centre, HalfWidth, MiddleRate;
    BoundsAroundProportion(n / 2, n, Z, root);
    WideUpTo380(n, root);
    MiddleHigh(n, root);
  }
}
