/** Joining blind ratings back to the hidden labels, and the win rates computed from them. */
module RatingIngest {
  import opened Sequences
  import opened Wrappers

  datatype Dimension = Tone | Vocabulary | Humor | DecisionStyle

  const DIMENSIONS := [Tone, Vocabulary, Humor, DecisionStyle]

  datatype Source = Real | Model | Unknown

  datatype Scores = Scores(
    tone: Option<real>, vocabulary: Option<real>, humor: Option<real>, decisionStyle: Option<real>)
  {
    function Of(d: Dimension): Option<real> {
      match d
      case Tone => tone
      case Vocabulary => vocabulary
      case Humor => humor
      case DecisionStyle => decisionStyle
    }
  }

  datatype RatingId = RatingId(text: string)

  datatype Rating = Rating(id: RatingId, scores: Scores)

  /** What the exported file keeps about a rating id and the rater never sees. */
  datatype Hidden = Hidden(source: Source, pair: int)

  type Mapping = map<RatingId, Hidden>

  /** The scores stored for a pair. */
  datatype Held = Held(ofReal: Option<Scores>, ofModel: Option<Scores>) {
    function Of(source: Source): Option<Scores> {
      match source
      case Real => ofReal
      case Model => ofModel
      case Unknown => None
    }

    function With(source: Source, scores: Scores): Held {
      if source == Real then Held(Some(scores), ofModel) else Held(ofReal, Some(scores))
    }

    function Score(source: Source, d: Dimension): Option<real> {
      match Of(source)
      case None => None
      case Some(scores) => scores.Of(d)
    }
  }

  datatype Aggregate = Aggregate(meanReal: real, meanModel: real, realWinRate: real)

  datatype Report = Report(dimensions: map<Dimension, Aggregate>, overall: real)

  // ----- sums -----

  function Ratio(a: real, b: real): real {
    if b == 0.0 then 0.0 else a / b
  }

  /** f(0) + ... + f(n - 1). */
  ghost function Sum(f: int -> real, n: nat): real {
    if n == 0 then 0.0 else Sum(f, n - 1) + f(n - 1)
  }

  ghost function SumOver(f: int -> real, keys: seq<int>): real {
    if keys == [] then 0.0 else SumOver(f, keys[..|keys| - 1]) + f(keys[|keys| - 1])
  }

  function Total(s: seq<real>): real {
    if s == [] then 0.0 else Total(s[..|s| - 1]) + s[|s| - 1]
  }

  function ListMean(s: seq<real>): (mean: real)
    ensures mean == Ratio(Total(s), |s| as real)
  {
    if s == [] then 0.0 else Total(s) / |s| as real
  }

  lemma {:induction false} SumSame(f: int -> real, g: int -> real, n: nat)
    requires forall p | 0 <= p < n :: f(p) == g(p)
    ensures Sum(f, n) == Sum(g, n)
  {
    if n > 0 {
      SumSame(f, g, n - 1);
    }
  }

  lemma SumNext(f: int -> real, keys: seq<int>, i: nat)
    requires i < |keys|
    ensures SumOver(f, keys[..i + 1]) == SumOver(f, keys[..i]) + f(keys[i])
  {
    assert keys[..i + 1][..i] == keys[..i];
  }

  lemma TotalNext(s: seq<real>, x: real)
    ensures Total(s + [x]) == Total(s) + x
  {
  }

  lemma {:induction false} SumWithout(f: int -> real, keys: seq<int>, i: nat)
    requires i < |keys|
    ensures SumOver(f, keys) == SumOver(f, keys[..i] + keys[i + 1..]) + f(keys[i])
  {
    var n := |keys| - 1;
    if i == n {
      assert keys[..i] + keys[i + 1..] == keys[..n];
    } else {
      SumWithout(f, keys[..n], i);
      var rest := keys[..i] + keys[i + 1..];
      assert rest[..|rest| - 1] == keys[..n][..i] + keys[..n][i + 1..];
    }
  }

  lemma KeysWithout(keys: seq<int>, i: nat)
    requires i < |keys| && Distinct(keys)
    ensures var rest := keys[..i] + keys[i + 1..];
      Distinct(rest) && forall p :: p in rest <==> p in keys && p != keys[i]
  {
  }

  /** In whatever order the keys come, and whichever others there are, as long as those add nothing. */
  lemma {:induction false} SumOverKeys(f: int -> real, keys: seq<int>, n: nat)
    requires Distinct(keys) && forall k | k in keys :: 0 <= k < n
    requires forall p | 0 <= p < n && p !in keys :: f(p) == 0.0
    ensures SumOver(f, keys) == Sum(f, n)
  {
    if n == 0 {
      First(keys);
    } else if n - 1 in keys {
      var i :| 0 <= i < |keys| && keys[i] == n - 1;
      SumWithout(f, keys, i);
      KeysWithout(keys, i);
      SumOverKeys(f, keys[..i] + keys[i + 1..], n - 1);
    } else {
      SumOverKeys(f, keys, n - 1);
    }
  }

  // ----- medians -----

  predicate AtMost(x: real, y: real) {
    x <= y
  }

  /** The middle value, or the mean of the two in the middle. */
  function Median(s: seq<real>): real
    requires s != []
  {
    var sorted, half := Sort(AtMost, s), |s| / 2;
    if |s| % 2 == 1 then sorted[half] else (sorted[half - 1] + sorted[half]) / 2.0
  }

  ghost predicate Ascending(s: seq<real>) {
    forall i, j | 0 <= i < j < |s| :: s[i] <= s[j]
  }

  lemma {:induction false} InsertAscending(x: real, s: seq<real>)
    requires Ascending(s)
    ensures Ascending(Insert(AtMost, x, s))
    ensures forall y | y in Insert(AtMost, x, s) :: y == x || y in s
  {
    if s != [] && !AtMost(x, s[0]) {
      InsertAscending(x, s[1..]);
      var out := Insert(AtMost, x, s[1..]);
      assert forall j | 0 <= j < |out| :: out[j] in out;
    }
  }

  lemma {:induction false} SortAscending(s: seq<real>)
    ensures Ascending(Sort(AtMost, s))
  {
    if s != [] {
      SortAscending(s[1..]);
      InsertAscending(s[0], Sort(AtMost, s[1..]));
    }
  }

  lemma {:induction false} AscendingIsUnique(a: seq<real>, b: seq<real>)
    requires Ascending(a) && Ascending(b) && multiset(a) == multiset(b)
    ensures a == b
    decreases |a|
  {
    if a == [] {
      EmptyPermutation(a, b);
    } else {
      var j := SameElements(a, b, 0);
      var k := SameElements(b, a, 0);
      assert a[0] == b[0];
      TailPermutation(a, b);
      AscendingIsUnique(a[1..], b[1..]);
    }
  }

  ghost predicate NoneAbove(a: seq<real>, b: seq<real>) {
    forall x, y | x in a && y in b :: x <= y
  }

  /** Some scores stand in the middle: as many are no larger as are no smaller. */
  ghost predicate Middle(s: seq<real>, low: seq<real>, middle: seq<real>, high: seq<real>) {
    && multiset(s) == multiset(low) + multiset(middle) + multiset(high) && |low| == |high|
    && NoneAbove(low, middle) && NoneAbove(low, high) && NoneAbove(middle, high)
  }

  /** Sorting two parts, none of the first above one of the second, sorts them one after the other. */
  lemma SortsApart(s: seq<real>, low: seq<real>, high: seq<real>)
    requires multiset(s) == multiset(low) + multiset(high) && NoneAbove(low, high)
    ensures Sort(AtMost, s) == Sort(AtMost, low) + Sort(AtMost, high)
  {
    hide Sort, Ascending, NoneAbove;
    var l, h := Sort(AtMost, low), Sort(AtMost, high);
    SortPermutes(AtMost, s);
    SortPermutes(AtMost, low);
    SortPermutes(AtMost, high);
    SortAscending(s);
    SortAscending(low);
    SortAscending(high);
    StillNoneAbove(l, h, low, high);
    BothAscending(l, h);
    AscendingIsUnique(Sort(AtMost, s), l + h);
  }

  lemma StillNoneAbove(l: seq<real>, h: seq<real>, low: seq<real>, high: seq<real>)
    requires multiset(l) == multiset(low) && multiset(h) == multiset(high) && NoneAbove(low, high)
    ensures NoneAbove(l, h)
  {
    forall x, y | x in l && y in h ensures x <= y {
      assert x in multiset(low) && y in multiset(high);
      assert x in low && y in high;
    }
  }

  lemma BothAscending(l: seq<real>, h: seq<real>)
    requires Ascending(l) && Ascending(h) && NoneAbove(l, h)
    ensures Ascending(l + h)
  {
    forall i, j | 0 <= i < j < |l + h| ensures (l + h)[i] <= (l + h)[j] {
      if i < |l| <= j {
        assert l[i] in l && h[j - |l|] in h;
      }
    }
  }

  lemma MiddleSorts(s: seq<real>, low: seq<real>, middle: seq<real>, high: seq<real>)
    requires Middle(s, low, middle, high)
    ensures Sort(AtMost, s) == Sort(AtMost, low) + Sort(AtMost, middle) + Sort(AtMost, high)
    ensures |s| == |low| + |middle| + |high|
  {
    hide Sort;
    assert |multiset(s)| == |multiset(low)| + |multiset(middle)| + |multiset(high)|;
    assert forall y | y in middle + high :: y in middle || y in high;
    assert NoneAbove(low, middle + high);
    hide NoneAbove;
    SortsApart(middle + high, middle, high);
    SortsApart(s, low, middle + high);
    Associative(Sort(AtMost, low), Sort(AtMost, middle), Sort(AtMost, high));
  }

  /** With one score in the middle that is the median; with two, their mean. */
  lemma MedianIsMiddle(s: seq<real>, low: seq<real>, middle: seq<real>, high: seq<real>)
    requires Middle(s, low, middle, high) && 1 <= |middle| <= 2
    ensures s != [] && Median(s) == if |middle| == 1 then middle[0] else (middle[0] + middle[1]) / 2.0
  {
    MiddleSorts(s, low, middle, high);
    SortOfTwo(middle);
    hide Sort, Middle;
    MiddleOf(Sort(AtMost, low), Sort(AtMost, middle), Sort(AtMost, high));
  }

  lemma MiddleOf(l: seq<real>, m: seq<real>, h: seq<real>)
    requires |l| == |h| && 1 <= |m| <= 2
    ensures var all, half := l + m + h, |l + m + h| / 2;
      && (|all| % 2 == 1 <==> |m| == 1)
      && (|m| == 1 ==> all[half] == m[0])
      && (|m| == 2 ==> half > 0 && all[half - 1] == m[0] && all[half] == m[1])
  {
  }

  lemma SortOfTwo(s: seq<real>)
    requires 1 <= |s| <= 2
    ensures var t := Sort(AtMost, s); t == s || (|s| == 2 && t == [s[1], s[0]])
  {
    if |s| == 2 {
      assert Sort(AtMost, s[1..]) == [s[1]];
    }
  }

  // ----- what the ratings say about a pair -----

  /** The hidden entry of an id, when it is known and its pair index is valid. */
  function Entry(mapping: Mapping, id: RatingId): Option<Hidden> {
    if id in mapping && mapping[id].pair >= 0 then Some(mapping[id]) else None
  }

  function Behind(mapping: Mapping, r: Rating): Option<Hidden> {
    Entry(mapping, r.id)
  }

  /** Every later rating of the same item replaces the scores of the earlier ones. */
  ghost function Latest(ratings: seq<Rating>, mapping: Mapping, item: Hidden): Option<Scores> {
    if ratings == [] then None else
    var last := ratings[|ratings| - 1];
    if Behind(mapping, last) == Some(item) then Some(last.scores) else Latest(ratings[..|ratings| - 1], mapping, item)
  }

  /** All the scores an item was given in one dimension. */
  ghost function Given(ratings: seq<Rating>, mapping: Mapping, item: Hidden, d: Dimension): seq<real> {
    if ratings == [] then [] else
    var before, last := Given(ratings[..|ratings| - 1], mapping, item, d), ratings[|ratings| - 1];
    if Behind(mapping, last) == Some(item) && last.scores.Of(d).Some? then before + [last.scores.Of(d).value]
    else before
  }

  ghost function LatestScore(ratings: seq<Rating>, mapping: Mapping, p: int, source: Source,
                             d: Dimension): Option<real> {
    match Latest(ratings, mapping, Hidden(source, p))
    case None => None
    case Some(scores) => scores.Of(d)
  }

  // ----- the gathered pairs -----

  /** The stored pairs are those with a rating, and hold the latest scores of each side. */
  ghost predicate Gathered(ratings: seq<Rating>, mapping: Mapping, keys: seq<int>, data: map<int, Held>) {
    && Distinct(keys)
    && (forall p :: p in keys <==> p in data)
    && (forall p | p in data :: p >= 0 && exists id :: id in mapping && mapping[id].pair == p)
    && (forall p, source | source != Unknown :: Stored(data, p, source) == Latest(ratings, mapping, Hidden(source, p)))
  }

  function Stored(data: map<int, Held>, p: int, source: Source): Option<Scores> {
    if p in data then data[p].Of(source) else None
  }

  method Gather(ratings: seq<Rating>, mapping: Mapping) returns (keys: seq<int>, data: map<int, Held>)
    ensures Gathered(ratings, mapping, keys, data)
  {
    keys, data := [], map[];
    for i := 0 to |ratings|
      invariant Gathered(ratings[..i], mapping, keys, data)
    {
      hide Gathered, Latest;
      var rating := ratings[i];
      assert ratings[..i + 1] == ratings[..i] + [rating];
      if rating.id !in mapping {
        GatherOther(ratings[..i], mapping, keys, data, rating);
        continue;
      }
      var meta := mapping[rating.id];
      if meta.pair < 0 {
        GatherOther(ratings[..i], mapping, keys, data, rating);
        continue;
      }
      if meta.source in {Real, Model} {
        GatherOne(ratings[..i], mapping, keys, data, rating);
        if meta.pair !in data {
          keys := keys + [meta.pair];
          data := data[meta.pair := Held(None, None)];
        }
        data := data[meta.pair := data[meta.pair].With(meta.source, rating.scores)];
      } else {
        GatherOther(ratings[..i], mapping, keys, data, rating);
      }
    }
    assert ratings[..|ratings|] == ratings;
  }

  lemma LatestNext(ratings: seq<Rating>, mapping: Mapping, r: Rating, item: Hidden)
    ensures Latest(ratings + [r], mapping, item) ==
      if Behind(mapping, r) == Some(item) then Some(r.scores) else Latest(ratings, mapping, item)
  {
    assert (ratings + [r])[..|ratings|] == ratings;
  }

  lemma GatherOther(ratings: seq<Rating>, mapping: Mapping, keys: seq<int>, data: map<int, Held>, r: Rating)
    requires Gathered(ratings, mapping, keys, data)
    requires Behind(mapping, r).None? || Behind(mapping, r).value.source == Unknown
    ensures Gathered(ratings + [r], mapping, keys, data)
  {
    hide Distinct, Stored, Latest;
    forall p, source ensures source != Unknown ==>
      Latest(ratings + [r], mapping, Hidden(source, p)) == Latest(ratings, mapping, Hidden(source, p))
    {
      LatestNext(ratings, mapping, r, Hidden(source, p));
    }
  }

  lemma GatherOne(ratings: seq<Rating>, mapping: Mapping, keys: seq<int>, data: map<int, Held>, r: Rating)
    requires Gathered(ratings, mapping, keys, data)
    requires Behind(mapping, r).Some? && Behind(mapping, r).value.source != Unknown
    ensures var Hidden(source, p) := Behind(mapping, r).value;
      && (p in data ==> Gathered(ratings + [r], mapping, keys, data[p := data[p].With(source, r.scores)]))
      && (p !in data ==>
            Gathered(ratings + [r], mapping, keys + [p], data[p := Held(None, None).With(source, r.scores)]))
  {
    var Hidden(side, pair) := Behind(mapping, r).value;
    assert r.id in mapping && mapping[r.id].pair == pair;
    var held := if pair in data then data[pair] else Held(None, None);
    var now := data[pair := held.With(side, r.scores)];
    hide Latest, Entry;
    forall p, source | source != Unknown
      ensures Stored(now, p, source) == Latest(ratings + [r], mapping, Hidden(source, p))
    {
      LatestNext(ratings, mapping, r, Hidden(source, p));
      assert Stored(data, p, source) == Latest(ratings, mapping, Hidden(source, p));
    }
    hide Stored;
  }

  // ----- the report -----

  /** What a pair scored on one side in one dimension, if it was scored. */
  type Scoring = (int, Source, Dimension) -> Option<real>

  function Value(score: Option<real>): real {
    if score.Some? then score.value else 0.0
  }

  function One(b: bool): real {
    if b then 1.0 else 0.0
  }

  predicate Comparable(score: Scoring, p: int, d: Dimension) {
    score(p, Real, d).Some? && score(p, Model, d).Some?
  }

  predicate RealWins(score: Scoring, p: int, d: Dimension) {
    Comparable(score, p, d) && score(p, Real, d).value > score(p, Model, d).value
  }

  ghost function Mean(score: Scoring, source: Source, d: Dimension, n: nat): real {
    Ratio(Sum(Values(score, source, d), n), Sum(Presence(score, source, d), n))
  }

  ghost function Values(score: Scoring, source: Source, d: Dimension): int -> real {
    p => Value(score(p, source, d))
  }

  ghost function Presence(score: Scoring, source: Source, d: Dimension): int -> real {
    p => One(score(p, source, d).Some?)
  }

  ghost function WinOf(score: Scoring, d: Dimension): int -> real {
    p => One(RealWins(score, p, d))
  }

  ghost function BothOf(score: Scoring, d: Dimension): int -> real {
    p => One(Comparable(score, p, d))
  }

  /** In how many of the first n pairs the real reply wins a dimension. */
  ghost function Wins(score: Scoring, d: Dimension, n: nat): real {
    Sum(WinOf(score, d), n)
  }

  /** How many of the first n pairs have both sides scored in a dimension. */
  ghost function Compared(score: Scoring, d: Dimension, n: nat): real {
    Sum(BothOf(score, d), n)
  }

  ghost function AllWins(score: Scoring, k: nat, n: nat): real
    requires k <= |DIMENSIONS|
  {
    if k == 0 then 0.0 else AllWins(score, k - 1, n) + Wins(score, DIMENSIONS[k - 1], n)
  }

  ghost function AllCompared(score: Scoring, k: nat, n: nat): real
    requires k <= |DIMENSIONS|
  {
    if k == 0 then 0.0 else AllCompared(score, k - 1, n) + Compared(score, DIMENSIONS[k - 1], n)
  }

  ghost function AggregateOf(score: Scoring, median: Scoring, d: Dimension, n: nat): Aggregate {
    Aggregate(Mean(score, Real, d, n), Mean(score, Model, d, n), Ratio(Wins(median, d, n), Compared(median, d, n)))
  }

  /** Means and the overall rate from one scoring, win rates per dimension from another. */
  ghost predicate Reports(report: Report, score: Scoring, median: Scoring, n: nat) {
    && (forall d :: d in report.dimensions && report.dimensions[d] == AggregateOf(score, median, d, n))
    && report.overall == Ratio(AllWins(score, |DIMENSIONS|, n), AllCompared(score, |DIMENSIONS|, n))
  }

  ghost function LatestScores(ratings: seq<Rating>, mapping: Mapping): Scoring {
    (p, source, d) => LatestScore(ratings, mapping, p, source, d)
  }

  ghost function MedianScores(ratings: seq<Rating>, mapping: Mapping): Scoring {
    (p, source, d) => MedianOf(Given(ratings, mapping, Hidden(source, p), d))
  }

  function MedianOf(s: seq<real>): Option<real> {
    if s == [] then None else Some(Median(s))
  }

  lemma MedianOfOne(x: real)
    ensures MedianOf([x]) == Some(x)
  {
    assert Sort(AtMost, [x]) == [x];
  }

  lemma {:induction false} SumOfMultiple(f: int -> real, g: int -> real, x: real, n: nat)
    requires forall p | 0 <= p < n :: f(p) == x * g(p)
    ensures Sum(f, n) == x * Sum(g, n)
  {
    if n > 0 {
      SumOfMultiple(f, g, x, n - 1);
      assert x * (Sum(g, n - 1) + g(n - 1)) == x * Sum(g, n - 1) + x * g(n - 1);
    }
  }

  lemma {:induction false} SumIsPositive(f: int -> real, n: nat, p: nat)
    requires p < n && f(p) > 0.0 && forall q | 0 <= q < n :: f(q) >= 0.0
    ensures Sum(f, n) > 0.0
  {
    if p < n - 1 {
      SumIsPositive(f, n - 1, p);
    } else {
      SumIsNotNegative(f, n - 1);
    }
  }

  lemma {:induction false} SumIsNotNegative(f: int -> real, n: nat)
    requires forall q | 0 <= q < n :: f(q) >= 0.0
    ensures Sum(f, n) >= 0.0
  {
    if n > 0 {
      SumIsNotNegative(f, n - 1);
    }
  }

  lemma RatioOfMultiple(a: real, x: real, b: real)
    requires a == x * b && b > 0.0
    ensures Ratio(a, b) == x
  {
  }

  lemma MeanOfEqual(score: Scoring, source: Source, d: Dimension, n: nat, p: nat, x: real)
    requires forall q | 0 <= q < n :: score(q, source, d) in {None, Some(x)}
    requires p < n && score(p, source, d) == Some(x)
    ensures Mean(score, source, d, n) == x
  {
    hide Sum, Ratio;
    var values, presence := Values(score, source, d), Presence(score, source, d);
    SumOfMultiple(values, presence, x, n);
    SumIsPositive(presence, n, p);
    RatioOfMultiple(Sum(values, n), x, Sum(presence, n));
  }

  /** Which side is which: when every real reply scores x and every model's reply y, the report says so, and the real
      side wins every comparable pair exactly when x is higher. */
  lemma SidesAreNamed(report: Report, score: Scoring, n: nat, d: Dimension, p: nat, x: real, y: real)
    requires Reports(report, score, score, n)
    requires forall q | 0 <= q < n :: score(q, Real, d) in {None, Some(x)} && score(q, Model, d) in {None, Some(y)}
    requires p < n && score(p, Real, d) == Some(x) && score(p, Model, d) == Some(y)
    ensures d in report.dimensions
    ensures report.dimensions[d] == Aggregate(x, y, if x > y then 1.0 else 0.0)
  {
    hide Sum, Ratio, Mean;
    MeanOfEqual(score, Real, d, n, p, x);
    MeanOfEqual(score, Model, d, n, p, y);
    var wins, both := WinOf(score, d), BothOf(score, d);
    SumOfMultiple(wins, both, if x > y then 1.0 else 0.0, n);
    SumIsPositive(both, n, p);
    RatioOfMultiple(Sum(wins, n), if x > y then 1.0 else 0.0, Sum(both, n));
  }

  /** Where nothing was scored there is neither a mean nor a win. */
  lemma NothingScored(report: Report, score: Scoring, n: nat, d: Dimension)
    requires Reports(report, score, score, n)
    requires forall q, source | 0 <= q < n :: score(q, source, d).None?
    ensures d in report.dimensions && report.dimensions[d] == Aggregate(0.0, 0.0, 0.0)
  {
    hide Sum, Ratio;
    SumOfMultiple(Presence(score, Real, d), Presence(score, Real, d), 0.0, n);
    SumOfMultiple(Presence(score, Model, d), Presence(score, Model, d), 0.0, n);
    SumOfMultiple(BothOf(score, d), BothOf(score, d), 0.0, n);
    RatioOfNone(Sum(Values(score, Real, d), n));
    RatioOfNone(Sum(Values(score, Model, d), n));
    RatioOfNone(Sum(WinOf(score, d), n));
  }

  lemma RatioOfNone(a: real)
    ensures Ratio(a, 0.0) == 0.0
  {
  }

  /** Of several ratings of a reply the last one is its latest. */
  lemma LatestIsLast(before: seq<Rating>, r: Rating, after: seq<Rating>, mapping: Mapping, item: Hidden)
    requires Behind(mapping, r) == Some(item) && forall other | other in after :: Behind(mapping, other) != Some(item)
    ensures Latest(before + [r] + after, mapping, item) == Some(r.scores)
    decreases |after|
  {
    hide Behind;
    if after == [] {
      assert before + [r] + after == before + [r];
      LatestNext(before, mapping, r, item);
    } else {
      var front, last := after[..|after| - 1], after[|after| - 1];
      assert last in after;
      LatestIsLast(before, r, front, mapping, item);
      assert before + [r] + after == before + [r] + front + [last];
      LatestNext(before + [r] + front, mapping, last, item);
    }
  }

  ghost predicate PairsBelow(mapping: Mapping, n: nat) {
    forall id | id in mapping :: mapping[id].pair < n
  }

  method DimensionMean(ghost ratings: seq<Rating>, ghost mapping: Mapping, ghost n: nat,
                       keys: seq<int>, data: map<int, Held>, source: Source, d: Dimension)
    returns (mean: real)
    requires Gathered(ratings, mapping, keys, data) && PairsBelow(mapping, n) && source != Unknown
    ensures mean == Mean(LatestScores(ratings, mapping), source, d, n)
  {
    ghost var score := LatestScores(ratings, mapping);
    HeldAreLatest(ratings, mapping, keys, data, source, d);
    LatestSuffice(ratings, mapping, keys, data, n, source, d);
    hide *;
    var scores := HeldScores(score, keys, data, source, d);
    mean := ListMean(scores);
  }

  method HeldScores(ghost score: Scoring, keys: seq<int>, data: map<int, Held>, source: Source, d: Dimension)
    returns (scores: seq<real>)
    requires forall p | p in keys :: p in data && data[p].Score(source, d) == score(p, source, d)
    ensures Total(scores) == SumOver(Values(score, source, d), keys)
    ensures |scores| as real == SumOver(Presence(score, source, d), keys)
  {
    scores := [];
    for i := 0 to |keys|
      invariant Total(scores) == SumOver(Values(score, source, d), keys[..i])
      invariant |scores| as real == SumOver(Presence(score, source, d), keys[..i])
    {
      hide SumOver, Total;
      SumNext(Values(score, source, d), keys, i);
      SumNext(Presence(score, source, d), keys, i);
      var key := keys[i];
      assert key in keys;
      var held := data[key].Score(source, d);
      if held.Some? {
        TotalNext(scores, held.value);
        scores := scores + [held.value];
      }
    }
    assert keys[..|keys|] == keys;
  }

  lemma HeldAreLatest(ratings: seq<Rating>, mapping: Mapping, keys: seq<int>, data: map<int, Held>, source: Source,
                      d: Dimension)
    requires Gathered(ratings, mapping, keys, data) && source != Unknown
    ensures forall p | p in keys ::
      p in data && data[p].Score(source, d) == LatestScores(ratings, mapping)(p, source, d)
  {
    hide Gathered, LatestScore;
    forall p | p in keys ensures p in data && data[p].Score(source, d) == LatestScores(ratings, mapping)(p, source, d) {
      StoredIsLatest(ratings, mapping, keys, data, p, source);
    }
  }

  /** The mean over the gathered pairs is the mean over all pairs. */
  lemma LatestSuffice(ratings: seq<Rating>, mapping: Mapping, keys: seq<int>, data: map<int, Held>, n: nat,
                      source: Source, d: Dimension)
    requires Gathered(ratings, mapping, keys, data) && PairsBelow(mapping, n) && source != Unknown
    ensures var score := LatestScores(ratings, mapping);
      Mean(score, source, d, n) ==
        Ratio(SumOver(Values(score, source, d), keys), SumOver(Presence(score, source, d), keys))
  {
    var score := LatestScores(ratings, mapping);
    KeysSuffice(ratings, mapping, keys, data, n);
    hide Gathered, PairsBelow, LatestScore, Given, Ratio;
    forall p | p !in keys ensures Values(score, source, d)(p) == Presence(score, source, d)(p) == 0.0 {
      assert score(p, source, d) == LatestScore(ratings, mapping, p, source, d) == None;
    }
    SumOverKeys(Values(score, source, d), keys, n);
    SumOverKeys(Presence(score, source, d), keys, n);
  }

  lemma StoredIsLatest(ratings: seq<Rating>, mapping: Mapping, keys: seq<int>, data: map<int, Held>, p: int,
                       source: Source)
    requires Gathered(ratings, mapping, keys, data) && p in keys && source != Unknown
    ensures p in data && forall d :: data[p].Score(source, d) == LatestScore(ratings, mapping, p, source, d)
  {
  }

  /** A pair that was not gathered has no rating. */
  lemma KeysSuffice(ratings: seq<Rating>, mapping: Mapping, keys: seq<int>, data: map<int, Held>, n: nat)
    requires Gathered(ratings, mapping, keys, data) && PairsBelow(mapping, n)
    ensures Distinct(keys) && forall k | k in keys :: 0 <= k < n
    ensures forall p, source, d | p !in keys && source != Unknown ::
      LatestScore(ratings, mapping, p, source, d).None? && Given(ratings, mapping, Hidden(source, p), d) == []
  {
    forall p, source, d | p !in keys && source != Unknown
      ensures LatestScore(ratings, mapping, p, source, d).None? && Given(ratings, mapping, Hidden(source, p), d) == []
    {
      assert Stored(data, p, source) == Latest(ratings, mapping, Hidden(source, p));
      NoneGiven(ratings, mapping, Hidden(source, p), d);
    }
  }

  lemma {:induction false} NoneGiven(ratings: seq<Rating>, mapping: Mapping, item: Hidden, d: Dimension)
    requires Latest(ratings, mapping, item).None?
    ensures Given(ratings, mapping, item, d) == []
  {
    if ratings != [] {
      NoneGiven(ratings[..|ratings| - 1], mapping, item, d);
    }
  }

  /** Every score of one dimension, per side, found by going through the ratings again for each pair. */
  method DimensionWins(ratings: seq<Rating>, mapping: Mapping, ghost n: nat,
                       keys: seq<int>, ghost data: map<int, Held>, d: Dimension)
    returns (rate: real)
    requires Gathered(ratings, mapping, keys, data) && PairsBelow(mapping, n)
    ensures var median := MedianScores(ratings, mapping); rate == Ratio(Wins(median, d, n), Compared(median, d, n))
  {
    ghost var median := MedianScores(ratings, mapping);
    var wins, pairs := 0, 0;
    KeysSuffice(ratings, mapping, keys, data, n);
    for i := 0 to |keys|
      invariant wins as real == SumOver(WinOf(median, d), keys[..i]) &&
        pairs as real == SumOver(BothOf(median, d), keys[..i])
    {
      hide Gathered, Given, Median, SumOver;
      SumNext(WinOf(median, d), keys, i);
      SumNext(BothOf(median, d), keys, i);
      var ofReal, ofModel := CollectScores(ratings, mapping, keys[i], d);
      if ofReal != [] && ofModel != [] {
        if Median(ofReal) > Median(ofModel) {
          wins := wins + 1;
        }
        pairs := pairs + 1;
      }
    }
    assert keys[..|keys|] == keys;
    hide Gathered, SumOver, Given, Median;
    SumOverKeys(WinOf(median, d), keys, n);
    SumOverKeys(BothOf(median, d), keys, n);
    rate := if pairs > 0 then wins as real / pairs as real else 0.0;
  }

  method CollectScores(ratings: seq<Rating>, mapping: Mapping, p: int, d: Dimension)
    returns (ofReal: seq<real>, ofModel: seq<real>)
    requires p >= 0
    ensures ofReal == Given(ratings, mapping, Hidden(Real, p), d)
    ensures ofModel == Given(ratings, mapping, Hidden(Model, p), d)
  {
    ofReal, ofModel := [], [];
    for i := 0 to |ratings|
      invariant ofReal == Given(ratings[..i], mapping, Hidden(Real, p), d)
      invariant ofModel == Given(ratings[..i], mapping, Hidden(Model, p), d)
    {
      var rating := ratings[i];
      assert ratings[..i + 1][..i] == ratings[..i];
      if rating.id !in mapping {
        continue;
      }
      var meta := mapping[rating.id];
      if meta.pair != p {
        continue;
      }
      var score := rating.scores.Of(d);
      if score.Some? {
        if meta.source == Real {
          ofReal := ofReal + [score.value];
        } else if meta.source == Model {
          ofModel := ofModel + [score.value];
        }
      }
    }
    assert ratings[..|ratings|] == ratings;
  }

  method OverallWins(ghost ratings: seq<Rating>, ghost mapping: Mapping, ghost n: nat,
                     keys: seq<int>, data: map<int, Held>)
    returns (rate: real)
    requires Gathered(ratings, mapping, keys, data) && PairsBelow(mapping, n)
    ensures var score := LatestScores(ratings, mapping);
      rate == Ratio(AllWins(score, |DIMENSIONS|, n), AllCompared(score, |DIMENSIONS|, n))
  {
    ghost var score := LatestScores(ratings, mapping);
    var wins, pairs := 0, 0;
    for k := 0 to |DIMENSIONS|
      invariant wins as real == AllWins(score, k, n) && pairs as real == AllCompared(score, k, n)
    {
      var d := DIMENSIONS[k];
      HeldAreLatest(ratings, mapping, keys, data, Real, d);
      HeldAreLatest(ratings, mapping, keys, data, Model, d);
      CountsSuffice(ratings, mapping, keys, data, n, d);
      hide LatestScores, Gathered, SumOver, Wins, Compared;
      var moreWins, morePairs := CountHeld(score, keys, data, d);
      wins, pairs := wins + moreWins, pairs + morePairs;
    }
    rate := if pairs > 0 then wins as real / pairs as real else 0.0;
  }

  method CountHeld(ghost score: Scoring, keys: seq<int>, data: map<int, Held>, d: Dimension)
    returns (wins: nat, pairs: nat)
    requires forall p | p in keys :: p in data && data[p].Score(Real, d) == score(p, Real, d)
    requires forall p | p in keys :: p in data && data[p].Score(Model, d) == score(p, Model, d)
    ensures wins as real == SumOver(WinOf(score, d), keys) && pairs as real == SumOver(BothOf(score, d), keys)
  {
    wins, pairs := 0, 0;
    for i := 0 to |keys|
      invariant wins as real == SumOver(WinOf(score, d), keys[..i]) &&
        pairs as real == SumOver(BothOf(score, d), keys[..i])
    {
      hide SumOver;
      SumNext(WinOf(score, d), keys, i);
      SumNext(BothOf(score, d), keys, i);
      var key := keys[i];
      assert key in keys;
      var ofReal, ofModel := data[key].Score(Real, d), data[key].Score(Model, d);
      if ofReal.Some? && ofModel.Some? {
        if ofReal.value > ofModel.value {
          wins := wins + 1;
        }
        pairs := pairs + 1;
      }
    }
    assert keys[..|keys|] == keys;
  }

  /** Counting over the gathered pairs is counting over all pairs. */
  lemma CountsSuffice(ratings: seq<Rating>, mapping: Mapping, keys: seq<int>, data: map<int, Held>, n: nat,
                      d: Dimension)
    requires Gathered(ratings, mapping, keys, data) && PairsBelow(mapping, n)
    ensures var score := LatestScores(ratings, mapping);
      Wins(score, d, n) == SumOver(WinOf(score, d), keys) && Compared(score, d, n) == SumOver(BothOf(score, d), keys)
  {
    var score := LatestScores(ratings, mapping);
    KeysSuffice(ratings, mapping, keys, data, n);
    hide Gathered, PairsBelow, LatestScore, Given;
    forall p | p !in keys ensures WinOf(score, d)(p) == BothOf(score, d)(p) == 0.0 {
      assert score(p, Real, d) == LatestScore(ratings, mapping, p, Real, d) == None;
    }
    SumOverKeys(WinOf(score, d), keys, n);
    SumOverKeys(BothOf(score, d), keys, n);
  }

  method IngestRatings(ratings: seq<Rating>, mapping: Mapping, ghost n: nat) returns (report: Report)
    requires PairsBelow(mapping, n)
    ensures Reports(report, LatestScores(ratings, mapping), MedianScores(ratings, mapping), n)
  {
    hide Mean, Wins, Compared, AllWins, AllCompared, LatestScores, MedianScores, Gathered;
    var keys, data := Gather(ratings, mapping);
    ghost var latest, median := LatestScores(ratings, mapping), MedianScores(ratings, mapping);
    var dimensions: map<Dimension, Aggregate> := map[];
    for k := 0 to |DIMENSIONS|
      invariant forall d | d in DIMENSIONS[..k] :: d in dimensions && dimensions[d] == AggregateOf(latest, median, d, n)
    {
      var d := DIMENSIONS[k];
      var meanReal := DimensionMean(ratings, mapping, n, keys, data, Real, d);
      var meanModel := DimensionMean(ratings, mapping, n, keys, data, Model, d);
      var rate := DimensionWins(ratings, mapping, n, keys, data, d);
      dimensions := dimensions[d := Aggregate(meanReal, meanModel, rate)];
    }
    var overall := OverallWins(ratings, mapping, n, keys, data);
    report := Report(dimensions, overall);
    assert DIMENSIONS[..|DIMENSIONS|] == DIMENSIONS;
    forall d: Dimension ensures d in DIMENSIONS {
      assert d == DIMENSIONS[match d case Tone => 0 case Vocabulary => 1 case Humor => 2 case DecisionStyle => 3];
    }
  }

  // ----- one rating per id -----

  ghost predicate OnePerId(ratings: seq<Rating>) {
    forall i, j | 0 <= i < j < |ratings| :: ratings[i].id != ratings[j].id
  }

  /** No two ids stand for the same reply. */
  ghost predicate Opaque(mapping: Mapping) {
    forall id, other | id in mapping && other in mapping && mapping[id] == mapping[other] :: id == other
  }

  lemma {:induction false} Unrated(ratings: seq<Rating>, mapping: Mapping, item: Hidden)
    requires forall r | r in ratings :: Behind(mapping, r) != Some(item)
    ensures Latest(ratings, mapping, item).None?
  {
    hide Behind;
    if ratings != [] {
      Unrated(ratings[..|ratings| - 1], mapping, item);
    }
  }

  lemma {:induction false} RatedOnce(ratings: seq<Rating>, mapping: Mapping, item: Hidden, d: Dimension)
    requires OnePerId(ratings) && Opaque(mapping)
    ensures MedianOf(Given(ratings, mapping, item, d)) == LatestScore(ratings, mapping, item.pair, item.source, d)
  {
    if ratings != [] {
      var before, last := ratings[..|ratings| - 1], ratings[|ratings| - 1];
      if Behind(mapping, last) == Some(item) {
        Unrated(before, mapping, item);
        NoneGiven(before, mapping, item, d);
      } else {
        RatedOnce(before, mapping, item, d);
      }
    }
  }

  /** Each rating repeats the judgement of the reply behind its id, and every judgement was handed in. */
  ghost predicate HandedIn(ratings: seq<Rating>, mapping: Mapping, judged: map<Hidden, Scores>) {
    && (forall r | r in ratings && Behind(mapping, r).Some? :: Judges(judged, Behind(mapping, r).value, r.scores))
    && (forall item | item in judged :: exists r :: r in ratings && Behind(mapping, r) == Some(item))
  }

  predicate Judges(judged: map<Hidden, Scores>, item: Hidden, scores: Scores) {
    item in judged && judged[item] == scores
  }

  ghost function Judgement(judged: map<Hidden, Scores>): Scoring {
    (p, source, d) => if Hidden(source, p) in judged then judged[Hidden(source, p)].Of(d) else None
  }

  lemma {:induction false} LatestIsGiven(ratings: seq<Rating>, mapping: Mapping, item: Hidden)
    ensures Latest(ratings, mapping, item).Some? ==>
      exists r :: r in ratings && Behind(mapping, r) == Some(item) && Latest(ratings, mapping, item) == Some(r.scores)
    ensures Latest(ratings, mapping, item).None? ==> forall r | r in ratings :: Behind(mapping, r) != Some(item)
  {
    hide Behind;
    if ratings != [] {
      var before, last := ratings[..|ratings| - 1], ratings[|ratings| - 1];
      assert ratings == before + [last];
      if Behind(mapping, last) != Some(item) {
        LatestIsGiven(before, mapping, item);
      }
    }
  }

  lemma LatestIsJudgement(ratings: seq<Rating>, mapping: Mapping, judged: map<Hidden, Scores>, p: int, source: Source,
                          d: Dimension)
    requires HandedIn(ratings, mapping, judged)
    ensures LatestScore(ratings, mapping, p, source, d) == Judgement(judged)(p, source, d)
  {
    hide Behind, Latest;
    LatestIsGiven(ratings, mapping, Hidden(source, p));
  }

  lemma SameScoring(report: Report, score: Scoring, median: Scoring, other: Scoring, n: nat)
    requires Reports(report, score, median, n)
    requires forall p, source, d | 0 <= p < n && source != Unknown ::
      score(p, source, d) == median(p, source, d) == other(p, source, d)
    ensures Reports(report, other, other, n)
  {
    hide Ratio;
    forall d: Dimension
      ensures Mean(score, Real, d, n) == Mean(other, Real, d, n) && Mean(score, Model, d, n) == Mean(other, Model, d, n)
    {
      SameMean(score, other, Real, d, n);
      SameMean(score, other, Model, d, n);
    }
    forall d: Dimension
      ensures Wins(score, d, n) == Wins(median, d, n) == Wins(other, d, n)
      ensures Compared(score, d, n) == Compared(median, d, n) == Compared(other, d, n)
    {
      SameWins(score, other, d, n);
      SameWins(median, other, d, n);
    }
    hide Mean, Wins, Compared;
    SameTotals(score, other, |DIMENSIONS|, n);
  }

  lemma SameMean(score: Scoring, other: Scoring, source: Source, d: Dimension, n: nat)
    requires forall p | 0 <= p < n :: score(p, source, d) == other(p, source, d)
    ensures Mean(score, source, d, n) == Mean(other, source, d, n)
  {
    SumSame(Values(score, source, d), Values(other, source, d), n);
    SumSame(Presence(score, source, d), Presence(other, source, d), n);
  }

  lemma SameWins(score: Scoring, other: Scoring, d: Dimension, n: nat)
    requires forall p | 0 <= p < n :: score(p, Real, d) == other(p, Real, d) && score(p, Model, d) == other(p, Model, d)
    ensures Wins(score, d, n) == Wins(other, d, n) && Compared(score, d, n) == Compared(other, d, n)
  {
    SumSame(WinOf(score, d), WinOf(other, d), n);
    SumSame(BothOf(score, d), BothOf(other, d), n);
  }

  lemma {:induction false} SameTotals(score: Scoring, other: Scoring, k: nat, n: nat)
    requires k <= |DIMENSIONS|
    requires forall d :: Wins(score, d, n) == Wins(other, d, n) && Compared(score, d, n) == Compared(other, d, n)
    ensures AllWins(score, k, n) == AllWins(other, k, n) && AllCompared(score, k, n) == AllCompared(other, k, n)
  {
    hide Wins, Compared;
    if k > 0 {
      SameTotals(score, other, k - 1, n);
    }
  }

  /** With one rating per id the report is the one read directly off the judgements, and its overall rate
      is all the wins over all the comparable pairs. */
  lemma ReportIsJudgement(report: Report, ratings: seq<Rating>, mapping: Mapping, judged: map<Hidden, Scores>, n: nat)
    requires Reports(report, LatestScores(ratings, mapping), MedianScores(ratings, mapping), n)
    requires OnePerId(ratings) && Opaque(mapping) && HandedIn(ratings, mapping, judged)
    ensures Reports(report, Judgement(judged), Judgement(judged), n)
  {
    hide Reports, OnePerId, Opaque, HandedIn, LatestScore, Given, Judgement, MedianOf;
    var score, median, other := LatestScores(ratings, mapping), MedianScores(ratings, mapping), Judgement(judged);
    forall p, source, d ensures score(p, source, d) == median(p, source, d) == other(p, source, d) {
      RatedOnce(ratings, mapping, Hidden(source, p), d);
      LatestIsJudgement(ratings, mapping, judged, p, source, d);
      assert median(p, source, d) == MedianOf(Given(ratings, mapping, Hidden(source, p), d));
      assert score(p, source, d) == LatestScore(ratings, mapping, p, source, d);
    }
    SameScoring(report, score, median, other, n);
  }
}
