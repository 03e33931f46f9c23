/** When the overall win rate is what the win rates of the dimensions add up to. */
module RaterAgreement {
  import opened Wrappers
  import opened RatingIngest
  import opened Sequences

  /** The ratings were handed in under these ids, in this order. */
  ghost predicate HasIds(ratings: seq<Rating>, ids: seq<RatingId>) {
    |ratings| == |ids| && forall i | 0 <= i < |ids| :: ratings[i].id == ids[i]
  }

  /** How often a reply is rated under them. */
  function Times(ids: seq<RatingId>, mapping: Mapping, item: Hidden): nat {
    if ids == [] then 0 else
    Times(ids[..|ids| - 1], mapping, item) + if Entry(mapping, ids[|ids| - 1]) == Some(item) then 1 else 0
  }

  /** Every pair with both sides rated has each of them rated once. */
  ghost predicate RatedApart(ids: seq<RatingId>, mapping: Mapping) {
    forall p: nat :: PairApart(ids, mapping, p)
  }

  predicate PairApart(ids: seq<RatingId>, mapping: Mapping, p: nat) {
    var ofReal, ofModel := Times(ids, mapping, Hidden(Real, p)), Times(ids, mapping, Hidden(Model, p));
    ofReal == 0 || ofModel == 0 || ofReal == ofModel == 1
  }

  /** The overall rate is the wins of all dimensions over their comparable pairs. */
  ghost predicate AddsUp(ratings: seq<Rating>, mapping: Mapping, n: nat) {
    var latest, median, all := LatestScores(ratings, mapping), MedianScores(ratings, mapping), |DIMENSIONS|;
    Ratio(AllWins(latest, all, n), AllCompared(latest, all, n)) ==
      Ratio(AllWins(median, all, n), AllCompared(median, all, n))
  }

  // ----- pairs rated apart add up -----

  lemma {:induction false} NotRated(ratings: seq<Rating>, ids: seq<RatingId>, mapping: Mapping, item: Hidden)
    requires HasIds(ratings, ids) && Times(ids, mapping, item) == 0
    ensures Latest(ratings, mapping, item).None?
  {
    if ids != [] {
      NotRated(ratings[..|ids| - 1], ids[..|ids| - 1], mapping, item);
    }
  }

  lemma {:induction false} RatedAtMostOnce(ratings: seq<Rating>, ids: seq<RatingId>, mapping: Mapping, item: Hidden,
                                           d: Dimension)
    requires HasIds(ratings, ids) && Times(ids, mapping, item) <= 1
    ensures MedianOf(Given(ratings, mapping, item, d)) == LatestScore(ratings, mapping, item.pair, item.source, d)
  {
    hide Median;
    if ids != [] {
      var before := ratings[..|ids| - 1];
      if Entry(mapping, ids[|ids| - 1]) == Some(item) {
        NotRated(before, ids[..|ids| - 1], mapping, item);
        NoneGiven(before, mapping, item, d);
        var score := ratings[|ids| - 1].scores.Of(d);
        if score.Some? {
          MedianOfOne(score.value);
          assert [] + [score.value] == [score.value];
        }
      } else {
        RatedAtMostOnce(before, ids[..|ids| - 1], mapping, item, d);
      }
    }
  }

  /** Whether a pair is compared, and who wins it, is the same by the latest scores as by the medians. */
  ghost predicate SameOutcome(latest: Scoring, median: Scoring, p: int, d: Dimension) {
    && Comparable(latest, p, d) == Comparable(median, p, d)
    && RealWins(latest, p, d) == RealWins(median, p, d)
  }

  lemma ApartSameOutcome(ratings: seq<Rating>, ids: seq<RatingId>, mapping: Mapping, p: nat, d: Dimension)
    requires HasIds(ratings, ids) && PairApart(ids, mapping, p)
    ensures SameOutcome(LatestScores(ratings, mapping), MedianScores(ratings, mapping), p, d)
  {
    hide Latest, Given, Median, Times, HasIds;
    var latest, median := LatestScores(ratings, mapping), MedianScores(ratings, mapping);
    forall source | Times(ids, mapping, Hidden(source, p)) <= 1 ensures latest(p, source, d) == median(p, source, d) {
      RatedAtMostOnce(ratings, ids, mapping, Hidden(source, p), d);
      assert median(p, source, d) == MedianOf(Given(ratings, mapping, Hidden(source, p), d));
      assert latest(p, source, d) == LatestScore(ratings, mapping, p, source, d);
    }
    forall source | Times(ids, mapping, Hidden(source, p)) == 0 ensures latest(p, source, d).None? {
      NotRated(ratings, ids, mapping, Hidden(source, p));
      assert latest(p, source, d) == LatestScore(ratings, mapping, p, source, d);
    }
  }

  lemma SameCounts(latest: Scoring, median: Scoring, d: Dimension, n: nat)
    requires forall p | 0 <= p < n :: SameOutcome(latest, median, p, d)
    ensures Wins(latest, d, n) == Wins(median, d, n) && Compared(latest, d, n) == Compared(median, d, n)
  {
    forall p | 0 <= p < n
      ensures RealWins(latest, p, d) == RealWins(median, p, d) && Comparable(latest, p, d) == Comparable(median, p, d)
    {
      assert SameOutcome(latest, median, p, d);
    }
    SumSame(WinOf(latest, d), WinOf(median, d), n);
    SumSame(BothOf(latest, d), BothOf(median, d), n);
  }

  lemma ApartAddsUp(ratings: seq<Rating>, ids: seq<RatingId>, mapping: Mapping, n: nat)
    requires HasIds(ratings, ids) && RatedApart(ids, mapping)
    ensures AddsUp(ratings, mapping, n)
  {
    hide HasIds, PairApart, SameOutcome, Wins, Compared, AllWins, AllCompared, LatestScores, MedianScores;
    var latest, median := LatestScores(ratings, mapping), MedianScores(ratings, mapping);
    forall d ensures Wins(latest, d, n) == Wins(median, d, n) && Compared(latest, d, n) == Compared(median, d, n) {
      forall p | 0 <= p < n ensures SameOutcome(latest, median, p, d) {
        assert PairApart(ids, mapping, p);
        ApartSameOutcome(ratings, ids, mapping, p, d);
      }
      SameCounts(latest, median, d, n);
    }
    SameTotals(latest, median, |DIMENSIONS|, n);
  }

  // ----- and no others do for all scores -----

  function ToneOnly(score: real): Scores {
    Scores(Some(score), None, None, None)
  }

  const SILENT := Scores(None, None, None, None)

  /** The last rating of `spoilt` is low and its others high, those of `other` lie between; the rest say nothing.
      `later` tells whether another rating of `spoilt` follows. */
  function Spoil(ids: seq<RatingId>, mapping: Mapping, spoilt: Hidden, other: Hidden, later: bool): (r: seq<Rating>)
    ensures |r| == |ids|
  {
    if ids == [] then [] else
    var id := ids[|ids| - 1];
    var e := Entry(mapping, id);
    Spoil(ids[..|ids| - 1], mapping, spoilt, other, later || e == Some(spoilt))
      + [Rating(id, if e == Some(spoilt) then ToneOnly(if later then 9.0 else 1.0)
                    else if e == Some(other) then ToneOnly(2.0) else SILENT)]
  }

  lemma {:induction false} SpoilHasIds(ids: seq<RatingId>, mapping: Mapping, spoilt: Hidden, other: Hidden, later: bool)
    ensures HasIds(Spoil(ids, mapping, spoilt, other, later), ids)
  {
    if ids != [] {
      SpoilHasIds(ids[..|ids| - 1], mapping, spoilt, other, later || Entry(mapping, ids[|ids| - 1]) == Some(spoilt));
    }
  }

  function Many(score: real, k: nat): seq<real> {
    if k == 0 then [] else Many(score, k - 1) + [score]
  }

  /** What the spoilt side gets. */
  function Spoilt(k: nat, later: bool): seq<real> {
    if later || k == 0 then Many(9.0, k) else Many(9.0, k - 1) + [1.0]
  }

  lemma SpoilLast(ids: seq<RatingId>, mapping: Mapping, spoilt: Hidden, other: Hidden, later: bool)
    requires ids != []
    ensures var r, e := Spoil(ids, mapping, spoilt, other, later), Entry(mapping, ids[|ids| - 1]);
      && r[..|r| - 1] == Spoil(ids[..|ids| - 1], mapping, spoilt, other, later || e == Some(spoilt))
      && Behind(mapping, r[|r| - 1]) == e
      && r[|r| - 1].scores == if e == Some(spoilt) then ToneOnly(if later then 9.0 else 1.0)
                              else if e == Some(other) then ToneOnly(2.0) else SILENT
  {
  }

  lemma {:induction false} SpoiltScores(ids: seq<RatingId>, mapping: Mapping, spoilt: Hidden, other: Hidden,
                                        later: bool)
    requires spoilt != other
    ensures var r, k := Spoil(ids, mapping, spoilt, other, later), Times(ids, mapping, spoilt);
      && Given(r, mapping, spoilt, Tone) == Spoilt(k, later)
      && (k > 0 ==> Latest(r, mapping, spoilt) == Some(ToneOnly(if later then 9.0 else 1.0)))
  {
    if ids != [] {
      hide Spoil, Behind;
      SpoilLast(ids, mapping, spoilt, other, later);
      SpoiltScores(ids[..|ids| - 1], mapping, spoilt, other, later || Entry(mapping, ids[|ids| - 1]) == Some(spoilt));
    }
  }

  lemma {:induction false} OtherScores(ids: seq<RatingId>, mapping: Mapping, spoilt: Hidden, other: Hidden, later: bool)
    requires spoilt != other
    ensures var r, k := Spoil(ids, mapping, spoilt, other, later), Times(ids, mapping, other);
      && Given(r, mapping, other, Tone) == Many(2.0, k)
      && (k > 0 ==> Latest(r, mapping, other) == Some(ToneOnly(2.0)))
  {
    if ids != [] {
      hide Spoil, Behind;
      SpoilLast(ids, mapping, spoilt, other, later);
      OtherScores(ids[..|ids| - 1], mapping, spoilt, other, later || Entry(mapping, ids[|ids| - 1]) == Some(spoilt));
    }
  }

  lemma {:induction false} SilentScores(ids: seq<RatingId>, mapping: Mapping, spoilt: Hidden, other: Hidden,
                                        later: bool, item: Hidden, d: Dimension)
    requires (item != spoilt && item != other) || d != Tone
    ensures var r := Spoil(ids, mapping, spoilt, other, later);
      Given(r, mapping, item, d) == [] && LatestScore(r, mapping, item.pair, item.source, d).None?
  {
    if ids != [] {
      hide Spoil, Behind;
      SpoilLast(ids, mapping, spoilt, other, later);
      var last := Entry(mapping, ids[|ids| - 1]);
      SilentScores(ids[..|ids| - 1], mapping, spoilt, other, later || last == Some(spoilt), item, d);
    }
  }

  // ----- medians of those scores -----

  lemma {:induction false} ManyFirst(score: real, k: nat)
    requires k > 0
    ensures Many(score, k) == [score] + Many(score, k - 1)
  {
    if k > 1 {
      ManyFirst(score, k - 1);
    }
  }

  lemma {:induction false} SortMany(score: real, k: nat)
    ensures Sort(AtMost, Many(score, k)) == Many(score, k)
    ensures |Many(score, k)| == k && forall i | 0 <= i < k :: Many(score, k)[i] == score
  {
    if k > 0 {
      ManyFirst(score, k);
      SortMany(score, k - 1);
      if k > 1 {
        ManyFirst(score, k - 1);
      }
    }
  }

  lemma {:induction false} SortSpoilt(k: nat)
    ensures Sort(AtMost, Many(9.0, k) + [1.0]) == [1.0] + Many(9.0, k)
  {
    if k == 0 {
      assert Many(9.0, 0) + [1.0] == [1.0];
    } else {
      var s := Many(9.0, k) + [1.0];
      ManyFirst(9.0, k);
      assert s[0] == 9.0 && s[1..] == Many(9.0, k - 1) + [1.0];
      SortSpoilt(k - 1);
      var sorted := [1.0] + Many(9.0, k - 1);
      assert sorted[1..] == Many(9.0, k - 1);
      InsertNine(k - 1);
    }
  }

  lemma InsertNine(k: nat)
    ensures Insert(AtMost, 9.0, Many(9.0, k)) == Many(9.0, k + 1)
  {
    ManyFirst(9.0, k + 1);
    if k > 0 {
      ManyFirst(9.0, k);
    }
  }

  /** Rated more than once, the spoilt side has a high median and a low last score. */
  lemma SpoiltMedian(k: nat)
    requires k >= 2
    ensures Spoilt(k, false) != [] && Median(Spoilt(k, false)) > 2.0
  {
    var nines := Many(9.0, k - 1);
    SortMany(9.0, k - 1);
    SortSpoilt(k - 1);
    var sorted := [1.0] + nines;
    assert forall i | 0 < i < k :: sorted[i] == 9.0;
  }

  lemma OtherMedian(k: nat)
    requires k >= 1
    ensures Many(2.0, k) != [] && Median(Many(2.0, k)) == 2.0
  {
    SortMany(2.0, k);
  }

  // ----- sums with one entry -----

  lemma {:induction false} SumOfOne(f: int -> real, p: nat, n: nat)
    requires p < n && forall q | 0 <= q < n && q != p :: f(q) == 0.0
    ensures Sum(f, n) == f(p)
  {
    if p == n - 1 {
      SumOfNone(f, n - 1);
    } else {
      SumOfOne(f, p, n - 1);
    }
  }

  lemma {:induction false} SumOfNone(f: int -> real, n: nat)
    requires forall q | 0 <= q < n :: f(q) == 0.0
    ensures Sum(f, n) == 0.0
  {
    if n > 0 {
      SumOfNone(f, n - 1);
    }
  }

  /** Only pair p is compared, and only by tone. */
  ghost predicate OnlyTone(score: Scoring, p: nat) {
    Comparable(score, p, Tone) && forall q, d | q != p || d != Tone :: !Comparable(score, q, d)
  }

  lemma OnlyToneCounts(score: Scoring, p: nat, d: Dimension, n: nat)
    requires p < n && OnlyTone(score, p)
    ensures Compared(score, d, n) == One(d == Tone) && Wins(score, d, n) == One(d == Tone && RealWins(score, p, Tone))
  {
    SumOfOne(WinOf(score, d), p, n);
    SumOfOne(BothOf(score, d), p, n);
  }

  lemma OnlyToneTotals(score: Scoring, p: nat, n: nat)
    requires p < n && OnlyTone(score, p)
    ensures AllCompared(score, |DIMENSIONS|, n) == 1.0 &&
      AllWins(score, |DIMENSIONS|, n) == One(RealWins(score, p, Tone))
  {
    forall d
      ensures Compared(score, d, n) == One(d == Tone) && Wins(score, d, n) == One(d == Tone && RealWins(score, p, Tone))
    {
      OnlyToneCounts(score, p, d, n);
    }
    hide Compared, Wins, RealWins, OnlyTone;
    assert AllCompared(score, 0, n) == AllWins(score, 0, n) == 0.0;
    assert DIMENSIONS[0] == Tone && DIMENSIONS[1] != Tone && DIMENSIONS[2] != Tone && DIMENSIONS[3] != Tone;
    assert AllCompared(score, 1, n) == AllCompared(score, 2, n) == AllCompared(score, 3, n) == 1.0;
    assert AllWins(score, 1, n) == AllWins(score, 2, n) == AllWins(score, 3, n) == One(RealWins(score, p, Tone));
  }

  /** Both scorings compare the spoilt pair by tone only; by the medians the spoilt side wins, by the latest scores it
      loses. */
  lemma SpoilSplits(ids: seq<RatingId>, mapping: Mapping, p: nat, side: Source)
    requires side != Unknown
    requires Times(ids, mapping, Hidden(side, p)) >= 2 && Times(ids, mapping, Hidden(Against(side), p)) >= 1
    ensures var r := Spoil(ids, mapping, Hidden(side, p), Hidden(Against(side), p), false);
      var latest, median := LatestScores(r, mapping), MedianScores(r, mapping);
      && OnlyTone(latest, p) && OnlyTone(median, p)
      && RealWins(latest, p, Tone) != RealWins(median, p, Tone)
  {
    var spoilt, other := Hidden(side, p), Hidden(Against(side), p);
    var r := Spoil(ids, mapping, spoilt, other, false);
    var latest, median := LatestScores(r, mapping), MedianScores(r, mapping);
    SpoiltScores(ids, mapping, spoilt, other, false);
    OtherScores(ids, mapping, spoilt, other, false);
    SpoiltMedian(Times(ids, mapping, spoilt));
    OtherMedian(Times(ids, mapping, other));
    hide Spoil, Times, Latest, Given, Median, Spoilt, Many;
    forall q, source, d | Hidden(source, q) !in {spoilt, other} || d != Tone
      ensures latest(q, source, d).None? && median(q, source, d).None?
    {
      SilentScores(ids, mapping, spoilt, other, false, Hidden(source, q), d);
      assert median(q, source, d) == MedianOf(Given(r, mapping, Hidden(source, q), d));
      assert latest(q, source, d) == LatestScore(r, mapping, q, source, d);
    }
    assert latest(p, side, Tone) == LatestScore(r, mapping, p, side, Tone) == Some(1.0);
    assert latest(p, Against(side), Tone) == LatestScore(r, mapping, p, Against(side), Tone) == Some(2.0);
    assert median(p, side, Tone) == MedianOf(Given(r, mapping, spoilt, Tone));
    assert median(p, Against(side), Tone) == MedianOf(Given(r, mapping, other, Tone)) == Some(2.0);
  }

  function Against(side: Source): Source {
    if side == Real then Model else Real
  }

  lemma SpoilDoesNotAddUp(ids: seq<RatingId>, mapping: Mapping, n: nat, p: nat, side: Source)
    returns (ratings: seq<Rating>)
    requires p < n && side != Unknown
    requires Times(ids, mapping, Hidden(side, p)) >= 2 && Times(ids, mapping, Hidden(Against(side), p)) >= 1
    ensures HasIds(ratings, ids) && !AddsUp(ratings, mapping, n)
  {
    ratings := Spoil(ids, mapping, Hidden(side, p), Hidden(Against(side), p), false);
    SpoilHasIds(ids, mapping, Hidden(side, p), Hidden(Against(side), p), false);
    SpoilSplits(ids, mapping, p, side);
    var latest, median := LatestScores(ratings, mapping), MedianScores(ratings, mapping);
    hide OnlyTone, RealWins, LatestScores, MedianScores, AllWins, AllCompared, Spoil, Times;
    OnlyToneTotals(latest, p, n);
    OnlyToneTotals(median, p, n);
  }

  lemma {:induction false} RatedIsBelow(ids: seq<RatingId>, mapping: Mapping, item: Hidden, n: nat)
    requires PairsBelow(mapping, n) && Times(ids, mapping, item) > 0
    ensures 0 <= item.pair < n
  {
    if Entry(mapping, ids[|ids| - 1]) != Some(item) {
      RatedIsBelow(ids[..|ids| - 1], mapping, item, n);
    }
  }

  /** Whatever is scored, the overall rate adds up, exactly when no pair has both sides rated and one of them more than
      once. */
  lemma AddsUpIffRatedApart(ids: seq<RatingId>, mapping: Mapping, n: nat)
    requires PairsBelow(mapping, n)
    ensures (forall ratings | HasIds(ratings, ids) :: AddsUp(ratings, mapping, n)) <==> RatedApart(ids, mapping)
  {
    hide AddsUp, HasIds, Times;
    if RatedApart(ids, mapping) {
      forall ratings | HasIds(ratings, ids) ensures AddsUp(ratings, mapping, n) {
        ApartAddsUp(ratings, ids, mapping, n);
      }
    } else {
      var p: nat :| !PairApart(ids, mapping, p);
      RatedIsBelow(ids, mapping, Hidden(Real, p), n);
      var side := if Times(ids, mapping, Hidden(Real, p)) >= 2 then Real else Model;
      var ratings := SpoilDoesNotAddUp(ids, mapping, n, p, side);
    }
  }
}
