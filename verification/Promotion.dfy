/** The promote-or-keep decision between two evaluation verdicts, iterated over a stream of candidates. */
module Promotion {
  import opened Wrappers

  datatype Verdict = Pass | Fail | Skip | Unknown(name: string)

  /** The parts of a verdict file the decision reads; mean and interval may be missing. */
  datatype Report = Report(adapter: string, verdict: Verdict, mean: Option<real>, ci: Option<(real, real)>)

  datatype Decision = Promote | Keep | Rollback

  function Decide(incumbent: Report, candidate: Report, tolerance: real): Decision {
    if candidate.verdict == Fail then Rollback
    else if candidate.verdict == Skip then Keep
    else if incumbent.verdict == Fail && candidate.verdict == Pass then Promote
    else if incumbent.verdict == Skip && candidate.verdict == Pass then Promote
    else if incumbent.verdict == Pass && candidate.verdict == Pass then
      if incumbent.mean.None? || candidate.mean.None? then Keep
      else if incumbent.ci.Some? && candidate.ci.Some? && candidate.ci.value.0 > incumbent.ci.value.1 then Promote
      else if candidate.mean.value - incumbent.mean.value > tolerance then Promote
      else Keep
    else Keep
  }

  /** The interval, when both it and the mean are reported, is in order and contains the mean up to a slack. */
  predicate Near(r: Report, slack: real) {
    r.mean.Some? && r.ci.Some? ==>
      r.ci.value.0 <= r.ci.value.1 && r.ci.value.0 - slack <= r.mean.value <= r.ci.value.1 + slack
  }

  /** And contains it. */
  predicate Coherent(r: Report) {
    Near(r, 0.0)
  }

  ghost predicate AllCoherent(rs: seq<Report>) {
    forall i | 0 <= i < |rs| :: Coherent(rs[i])
  }

  /** Whatever the reports, only a passing candidate is promoted. */
  lemma OnlyPassIsPromoted(incumbent: Report, candidate: Report, tolerance: real)
    requires Decide(incumbent, candidate, tolerance) == Promote
    ensures candidate.verdict == Pass
    ensures incumbent.verdict == Pass ==> incumbent.mean.Some? && candidate.mean.Some?
  {
  }

  /** A candidate is rolled back exactly when it fails, and adopted exactly when it is promoted. */
  lemma RollbackIffFails(incumbent: Report, candidate: Report, tolerance: real)
    ensures Decide(incumbent, candidate, tolerance) == Rollback <==> candidate.verdict == Fail
    ensures Run(incumbent, [candidate], tolerance) ==
      if Decide(incumbent, candidate, tolerance) == Promote then candidate else incumbent
  {
    RunNext(incumbent, [], candidate, tolerance);
    assert [] + [candidate] == [candidate];
  }

  /** Over a passing incumbent only one with a strictly higher mean is. */
  lemma PromotionRaisesMean(incumbent: Report, candidate: Report, tolerance: real)
    requires tolerance >= 0.0 && Coherent(incumbent) && Coherent(candidate)
    requires incumbent.verdict == Pass && Decide(incumbent, candidate, tolerance) == Promote
    ensures incumbent.mean.Some? && candidate.mean.Some? && candidate.mean.value > incumbent.mean.value
  {
  }

  ghost predicate DisplaceEachOther(a: Report, b: Report, tolerance: real) {
    Decide(a, b, tolerance) == Promote && Decide(b, a, tolerance) == Promote
  }

  /** Only passing reports with a mean and an interval can displace each other. */
  lemma OnlyCompleteReportsDisplace(a: Report, b: Report, tolerance: real)
    requires tolerance >= 0.0 && DisplaceEachOther(a, b, tolerance)
    ensures Complete(a) && Complete(b)
  {
  }

  predicate Complete(r: Report) {
    r.verdict == Pass && r.mean.Some? && r.ci.Some?
  }

  /** Two adapters never displace each other when the slacks of their intervals add up to at most the tolerance. */
  lemma NoMutualDisplacement(a: Report, slackA: real, b: Report, slackB: real, tolerance: real)
    requires tolerance >= 0.0 && slackA + slackB <= tolerance && Near(a, slackA) && Near(b, slackB)
    ensures !DisplaceEachOther(a, b, tolerance)
  {
  }

  /** What is left of the tolerance is exactly the slack a report may have: beyond it, and only beyond it, some
      report within the given slack displaces it and is displaced by it. */
  lemma MutualDisplacement(b: Report, slack: real, tolerance: real)
    requires slack >= 0.0 && tolerance >= 0.0 && Complete(b)
    ensures (exists a :: Near(a, slack) && DisplaceEachOther(a, b, tolerance)) <==> !Near(b, tolerance - slack)
  {
    var (lo, hi) := b.ci.value;
    var m := b.mean.value;
    var left := tolerance - slack;
    if hi < lo {
      OpponentAt((hi + lo) / 2.0, (hi + lo) / 2.0, b, slack, tolerance);
    } else if m < lo - left {
      var x := (m + tolerance + lo + slack) / 2.0;
      OpponentAt(x, x - slack, b, slack, tolerance);
    } else if m > hi + left {
      var x := (m - tolerance + hi - slack) / 2.0;
      OpponentAt(x, x + slack, b, slack, tolerance);
    }
    if a :| Near(a, slack) && DisplaceEachOther(a, b, tolerance) {
      if Near(b, left) {
        NoMutualDisplacement(a, slack, b, left, tolerance);
      }
    }
  }

  lemma OpponentAt(mean: real, point: real, b: Report, slack: real, tolerance: real)
    requires Complete(b) && point - slack <= mean <= point + slack
    requires point < b.ci.value.0 || b.mean.value - mean > tolerance
    requires point > b.ci.value.1 || mean - b.mean.value > tolerance
    ensures exists a :: Near(a, slack) && DisplaceEachOther(a, b, tolerance)
  {
    var a := Report("a", Pass, Some(mean), Some((point, point)));
    assert Near(a, slack) && DisplaceEachOther(a, b, tolerance);
  }

  /** So the reports within a slack are free of mutual displacement exactly when the slack is at most half the
      tolerance. */
  lemma SlackLimit(slack: real, tolerance: real)
    requires slack >= 0.0 && tolerance >= 0.0
    ensures (forall a, b | Near(a, slack) && Near(b, slack) :: !DisplaceEachOther(a, b, tolerance)) <==>
      2.0 * slack <= tolerance
  {
    if 2.0 * slack <= tolerance {
      forall a, b | Near(a, slack) && Near(b, slack) ensures !DisplaceEachOther(a, b, tolerance) {
        NoMutualDisplacement(a, slack, b, slack, tolerance);
      }
    } else {
      var b := Report("b", Pass, Some(slack), Some((0.0, 0.0)));
      MutualDisplacement(b, slack, tolerance);
    }
  }

  /** The incumbent after each candidate was judged in turn and adopted when promoted. */
  function Run(incumbent: Report, candidates: seq<Report>, tolerance: real): Report {
    if candidates == [] then incumbent else
    var before := Run(incumbent, candidates[..|candidates| - 1], tolerance);
    var candidate := candidates[|candidates| - 1];
    if Decide(before, candidate, tolerance) == Promote then candidate else before
  }

  lemma RunNext(incumbent: Report, candidates: seq<Report>, c: Report, tolerance: real)
    ensures Run(incumbent, candidates + [c], tolerance) ==
      var before := Run(incumbent, candidates, tolerance);
      if Decide(before, c, tolerance) == Promote then c else before
  {
  }

  lemma {:induction false} RunCoherent(incumbent: Report, candidates: seq<Report>, tolerance: real)
    requires Coherent(incumbent) && AllCoherent(candidates)
    ensures Coherent(Run(incumbent, candidates, tolerance))
  {
    if candidates != [] {
      RunCoherent(incumbent, candidates[..|candidates| - 1], tolerance);
    }
  }

  /** Whatever the reports, a passing incumbent stays passing. */
  lemma {:induction false} PassStays(incumbent: Report, candidates: seq<Report>, tolerance: real)
    requires incumbent.verdict == Pass
    ensures Run(incumbent, candidates, tolerance).verdict == Pass
  {
    if candidates != [] {
      PassStays(incumbent, candidates[..|candidates| - 1], tolerance);
    }
  }

  /** It is either kept or followed by one with a higher mean. */
  lemma {:induction false} PassRises(incumbent: Report, candidates: seq<Report>, tolerance: real)
    requires tolerance >= 0.0 && Coherent(incumbent) && AllCoherent(candidates) && incumbent.verdict == Pass
    ensures var last := Run(incumbent, candidates, tolerance);
      last == incumbent || (incumbent.mean.Some? && last.mean.Some? && last.mean.value > incumbent.mean.value)
  {
    if candidates != [] {
      var earlier := candidates[..|candidates| - 1];
      PassRises(incumbent, earlier, tolerance);
      PassStays(incumbent, earlier, tolerance);
      RunCoherent(incumbent, earlier, tolerance);
      var before, c := Run(incumbent, earlier, tolerance), candidates[|candidates| - 1];
      if Decide(before, c, tolerance) == Promote {
        PromotionRaisesMean(before, c, tolerance);
      }
    }
  }

  lemma {:induction false} RunSplits(incumbent: Report, first: seq<Report>, second: seq<Report>, tolerance: real)
    ensures Run(incumbent, first + second, tolerance) == Run(Run(incumbent, first, tolerance), second, tolerance)
  {
    if second == [] {
      assert first + second == first;
    } else {
      var front, c := second[..|second| - 1], second[|second| - 1];
      RunSplits(incumbent, first, front, tolerance);
      assert first + second == first + front + [c] && second == front + [c];
      RunNext(incumbent, first + front, c, tolerance);
      RunNext(Run(incumbent, first, tolerance), front, c, tolerance);
    }
  }

  /** What displaces an incumbent passes. */
  lemma {:induction false} DisplacedByPass(incumbent: Report, candidates: seq<Report>, tolerance: real)
    ensures var last := Run(incumbent, candidates, tolerance); last == incumbent || last.verdict == Pass
  {
    if candidates != [] {
      DisplacedByPass(incumbent, candidates[..|candidates| - 1], tolerance);
    }
  }

  /** Promotions never cycle: an incumbent that is displaced never comes back. */
  lemma DisplacedNeverReturns(incumbent: Report, first: seq<Report>, second: seq<Report>, tolerance: real)
    requires tolerance >= 0.0 && Coherent(incumbent) && AllCoherent(first) && AllCoherent(second)
    requires Run(incumbent, first, tolerance) != incumbent
    ensures Run(incumbent, first + second, tolerance) != incumbent
  {
    RunSplits(incumbent, first, second, tolerance);
    DisplacedByPass(incumbent, first, tolerance);
    PassStays(Run(incumbent, first, tolerance), second, tolerance);
    if incumbent.verdict == Pass {
      PassRises(incumbent, first, tolerance);
    }
    RunCoherent(incumbent, first, tolerance);
    PassRises(Run(incumbent, first, tolerance), second, tolerance);
  }

  /** A passing report has a mean to be compared by. */
  predicate Measured(r: Report) {
    r.verdict == Pass ==> r.mean.Some?
  }

  /** Greedy adoption is near-optimal: no passing candidate beats the final incumbent by more than the tolerance. */
  lemma FinalIsNearBest(incumbent: Report, candidates: seq<Report>, tolerance: real, i: nat)
    requires tolerance >= 0.0 && Coherent(incumbent) && AllCoherent(candidates) && i < |candidates|
    requires incumbent.verdict in {Pass, Fail, Skip} && Measured(incumbent)
    requires forall j | 0 <= j < |candidates| :: Measured(candidates[j])
    requires candidates[i].verdict == Pass
    ensures var last := Run(incumbent, candidates, tolerance);
      && last.verdict == Pass && last.mean.Some? && candidates[i].mean.Some?
      && candidates[i].mean.value <= last.mean.value + tolerance
  {
    assert Measured(candidates[i]);
    var upTo, rest := candidates[..i + 1], candidates[i + 1..];
    assert candidates == upTo + rest && upTo == candidates[..i] + [candidates[i]];
    RunSplits(incumbent, upTo, rest, tolerance);
    RunNext(incumbent, candidates[..i], candidates[i], tolerance);
    RunKeepsKind(incumbent, candidates[..i], tolerance);
    RunCoherent(incumbent, upTo, tolerance);
    RunKeepsKind(incumbent, candidates, tolerance);
    PassStays(Run(incumbent, upTo, tolerance), rest, tolerance);
    PassRises(Run(incumbent, upTo, tolerance), rest, tolerance);
  }

  lemma {:induction false} RunKeepsKind(incumbent: Report, candidates: seq<Report>, tolerance: real)
    requires incumbent.verdict in {Pass, Fail, Skip} && Measured(incumbent)
    requires forall j | 0 <= j < |candidates| :: Measured(candidates[j])
    ensures var last := Run(incumbent, candidates, tolerance); last.verdict in {Pass, Fail, Skip} && Measured(last)
  {
    if candidates != [] {
      RunKeepsKind(incumbent, candidates[..|candidates| - 1], tolerance);
    }
  }

  /** Nothing ever displaces an incumbent exactly when it passes without a mean, or its verdict is not a known one. */
  lemma StuckIncumbent(incumbent: Report, tolerance: real)
    ensures (forall c :: Decide(incumbent, c, tolerance) != Promote) <==>
      (incumbent.verdict == Pass && incumbent.mean.None?) || incumbent.verdict.Unknown?
  {
    var mean := if incumbent.mean.Some? then incumbent.mean.value + tolerance + 1.0 else 0.0;
    var better := Report("better", Pass, Some(mean), None);
    assert Decide(incumbent, better, tolerance) == Promote || incumbent.verdict.Unknown? || incumbent.mean.None?;
  }

  /** And then over any run. */
  lemma {:induction false} StuckStays(incumbent: Report, candidates: seq<Report>, tolerance: real)
    requires (incumbent.verdict == Pass && incumbent.mean.None?) || incumbent.verdict.Unknown?
    ensures Run(incumbent, candidates, tolerance) == incumbent
  {
    if candidates != [] {
      StuckStays(incumbent, candidates[..|candidates| - 1], tolerance);
    }
  }
}
