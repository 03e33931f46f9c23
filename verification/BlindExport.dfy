/** Exporting reply pairs for blind rating: two items a pair, shuffled, under opaque ids. */
module BlindExport {
  import opened Wrappers
  import opened RatingIngest
  import opened Sequences

  datatype Text = Text(chars: string)

  datatype Pair = Pair(prompt: Text, realResponse: Text, modelResponse: Text)

  datatype Item = Item(prompt: Text, response: Text, hidden: Hidden)

  datatype Row = Row(id: RatingId, item: Item)

  // ----- rating ids -----

  function Digits(n: nat): (s: string) {
    if n < 10 then [Digit(n)] else Digits(n / 10) + [Digit(n % 10)]
  }

  function Digit(d: nat): char
    requires d < 10
  {
    ['0', '1', '2', '3', '4', '5', '6', '7', '8', '9'][d]
  }

  /** Zeros in front up to a width. */
  function Padded(s: string, width: nat): string {
    seq(if |s| < width then width - |s| else 0, i => '0') + s
  }

  function IdOf(index: nat): RatingId {
    RatingId("r" + Padded(Digits(index + 1), 5))
  }

  ghost function Number(s: string): nat {
    if s == "" then 0 else 10 * Number(s[..|s| - 1]) + if '0' <= s[|s| - 1] <= '9' then (s[|s| - 1] - '0') as nat else 0
  }

  lemma {:induction false} NumberOfDigits(n: nat, zeros: string)
    requires forall i | 0 <= i < |zeros| :: zeros[i] == '0'
    ensures Number(zeros + Digits(n)) == n
  {
    if n < 10 {
      Zeros(zeros);
      NumberNext(zeros, n);
    } else {
      NumberOfDigits(n / 10, zeros);
      hide Number;
      NumberNext(zeros + Digits(n / 10), n % 10);
      assert zeros + Digits(n) == zeros + Digits(n / 10) + [Digit(n % 10)];
    }
  }

  lemma NumberNext(s: string, d: nat)
    requires d < 10
    ensures Number(s + [Digit(d)]) == 10 * Number(s) + d
  {
    assert (s + [Digit(d)])[..|s|] == s;
  }

  lemma {:induction false} Zeros(zeros: string)
    requires forall i | 0 <= i < |zeros| :: zeros[i] == '0'
    ensures Number(zeros) == 0
  {
    if zeros != "" {
      Zeros(zeros[..|zeros| - 1]);
    }
  }

  lemma NumberOfPadded(n: nat)
    ensures Number(Padded(Digits(n), 5)) == n
  {
    hide Digits, Number;
    NumberOfDigits(n, seq(if |Digits(n)| < 5 then 5 - |Digits(n)| else 0, i => '0'));
  }

  lemma AfterLetter(a: string, b: string)
    requires "r" + a == "r" + b
    ensures a == b
  {
    assert ("r" + a)[1..] == a;
    assert ("r" + b)[1..] == b;
  }

  lemma IdsAreUnique(i: nat, j: nat)
    requires IdOf(i) == IdOf(j)
    ensures i == j
  {
    NumberOfPadded(i + 1);
    NumberOfPadded(j + 1);
    hide Digits, Number, Padded;
    AfterLetter(Padded(Digits(i + 1), 5), Padded(Digits(j + 1), 5));
  }

  lemma {:induction false} DigitsAreDigits(n: nat)
    ensures Digits(n) != "" && forall i | 0 <= i < |Digits(n)| :: '0' <= Digits(n)[i] <= '9'
    ensures n > 0 ==> Digits(n)[0] != '0'
  {
    if n >= 10 {
      DigitsAreDigits(n / 10);
    }
  }

  /** Ids count up from one: the letter r and the number, with zeros in front up to five digits. */
  lemma IdReads(index: nat)
    ensures var digits := IdOf(index).text[1..];
      && IdOf(index).text == "r" + digits
      && Number(digits) == index + 1
      && (forall i | 0 <= i < |digits| :: '0' <= digits[i] <= '9')
      && |digits| >= 5 && (|digits| > 5 ==> digits[0] != '0')
  {
    NumberOfPadded(index + 1);
    DigitsAreDigits(index + 1);
    hide Digits, Number;
    var digits := Padded(Digits(index + 1), 5);
    assert IdOf(index).text[1..] == digits;
  }

  // ----- the export -----

  /** Item k of the unshuffled list: the real reply of pair k / 2, then the model's. */
  function ItemOf(pairs: seq<Pair>, k: nat): Item
    requires k < 2 * |pairs|
  {
    var pair := pairs[k / 2];
    if k % 2 == 0 then Item(pair.prompt, pair.realResponse, Hidden(Real, k / 2))
    else Item(pair.prompt, pair.modelResponse, Hidden(Model, k / 2))
  }

  /** The order a shuffle of n items leaves them in. */
  ghost predicate IsShuffle(order: seq<nat>, n: nat) {
    |order| == n && Distinct(order) && forall k | 0 <= k < n :: order[k] < n
  }

  ghost predicate Exported(pairs: seq<Pair>, order: seq<nat>, rows: seq<Row>)
    requires IsShuffle(order, 2 * |pairs|)
  {
    |rows| == |order| && forall k | 0 <= k < |rows| :: rows[k] == Row(IdOf(k), ItemOf(pairs, order[k]))
  }

  method ExportBlindPairs(pairs: seq<Pair>, order: seq<nat>) returns (rows: seq<Row>)
    requires IsShuffle(order, 2 * |pairs|)
    ensures Exported(pairs, order, rows)
  {
    var items: seq<Item> := [];
    for i := 0 to |pairs|
      invariant |items| == 2 * i && forall k | 0 <= k < |items| :: items[k] == ItemOf(pairs, k)
    {
      var pair := pairs[i];
      items := items + [Item(pair.prompt, pair.realResponse, Hidden(Real, i))];
      items := items + [Item(pair.prompt, pair.modelResponse, Hidden(Model, i))];
    }
    var shuffled := seq(|order|, k requires 0 <= k < |order| => items[order[k]]);
    rows := [];
    for k := 0 to |shuffled|
      invariant |rows| == k && forall j | 0 <= j < k :: rows[j] == Row(IdOf(j), ItemOf(pairs, order[j]))
    {
      rows := rows + [Row(IdOf(k), shuffled[k])];
    }
  }

  /** The mapping of the first n rows; a repeated id keeps its last row. */
  ghost function Mapped(rows: seq<Row>, n: nat): Mapping
    requires n <= |rows|
  {
    if n == 0 then map[] else Mapped(rows, n - 1)[rows[n - 1].id := rows[n - 1].item.hidden]
  }

  method LoadExported(rows: seq<Row>) returns (mapping: Mapping)
    ensures mapping == Mapped(rows, |rows|)
  {
    mapping := map[];
    for i := 0 to |rows|
      invariant mapping == Mapped(rows, i)
    {
      mapping := mapping[rows[i].id := rows[i].item.hidden];
    }
  }

  /** Of rows with one id the last one counts. */
  lemma {:induction false} LastRowWins(rows: seq<Row>, n: nat, k: nat)
    requires k < n <= |rows| && forall j | k < j < n :: rows[j].id != rows[k].id
    ensures rows[k].id in Mapped(rows, n) && Mapped(rows, n)[rows[k].id] == rows[k].item.hidden
  {
    if k < n - 1 {
      LastRowWins(rows, n - 1, k);
    }
  }

  /** The mapping of exported rows: an id for every reply, and a reply for every id. */
  ghost predicate MapsRows(mapping: Mapping, rows: seq<Row>, n: nat)
    requires n <= |rows|
  {
    && (forall k | 0 <= k < n :: rows[k].id in mapping && mapping[rows[k].id] == rows[k].item.hidden)
    && (forall id | id in mapping :: HasRow(rows, n, id))
  }

  ghost predicate HasRow(rows: seq<Row>, n: nat, id: RatingId)
    requires n <= |rows|
  {
    exists k :: 0 <= k < n && rows[k].id == id
  }

  ghost predicate IdsDiffer(rows: seq<Row>, n: nat)
    requires n <= |rows|
  {
    forall j, k | 0 <= j < k < n :: rows[j].id != rows[k].id
  }

  lemma {:induction false} MappedMapsRows(rows: seq<Row>, n: nat)
    requires n <= |rows| && IdsDiffer(rows, n)
    ensures MapsRows(Mapped(rows, n), rows, n)
  {
    hide HasRow;
    if n > 0 {
      assert IdsDiffer(rows, n - 1) && forall k | 0 <= k < n - 1 :: rows[k].id != rows[n - 1].id;
      hide MapsRows, IdsDiffer;
      MappedMapsRows(rows, n - 1);
      MapNext(Mapped(rows, n - 1), rows, n - 1);
    }
  }

  lemma MapNext(mapping: Mapping, rows: seq<Row>, n: nat)
    requires n < |rows| && MapsRows(mapping, rows, n) && forall k | 0 <= k < n :: rows[k].id != rows[n].id
    ensures MapsRows(mapping[rows[n].id := rows[n].item.hidden], rows, n + 1)
  {
    forall id | HasRow(rows, n, id) || id == rows[n].id ensures HasRow(rows, n + 1, id) {
    }
    hide HasRow;
  }

  lemma ExportIsOpaque(pairs: seq<Pair>, order: seq<nat>, rows: seq<Row>, mapping: Mapping)
    requires IsShuffle(order, 2 * |pairs|) && Exported(pairs, order, rows) && MapsRows(mapping, rows, |rows|)
    ensures Opaque(mapping) && PairsBelow(mapping, |pairs|)
  {
    hide IdOf, ItemOf;
    forall id, other | id in mapping && other in mapping && mapping[id] == mapping[other] ensures id == other {
      var j :| 0 <= j < |rows| && rows[j].id == id;
      var k :| 0 <= k < |rows| && rows[k].id == other;
      SamePlace(pairs, order[j], order[k]);
    }
    forall id | id in mapping ensures mapping[id].pair < |pairs| {
      var k :| 0 <= k < |rows| && rows[k].id == id;
      PlaceOf(pairs, order[k]);
    }
  }

  lemma PlaceOf(pairs: seq<Pair>, k: nat)
    requires k < 2 * |pairs|
    ensures 0 <= ItemOf(pairs, k).hidden.pair < |pairs|
  {
  }

  lemma SamePlace(pairs: seq<Pair>, j: nat, k: nat)
    requires j < 2 * |pairs| && k < 2 * |pairs| && ItemOf(pairs, j).hidden == ItemOf(pairs, k).hidden
    ensures j == k
  {
  }

  /** A rating of the row with its id. */
  ghost predicate Rates(rows: seq<Row>, r: Rating, item: Hidden) {
    exists k :: 0 <= k < |rows| && rows[k].id == r.id && rows[k].item.hidden == item
  }

  /** The rater judged replies by what their rows show: each rating says what was thought of that row's reply. */
  ghost predicate RatedBlind(rows: seq<Row>, ratings: seq<Rating>, judged: map<Hidden, Scores>) {
    && (forall r, item | r in ratings && Rates(rows, r, item) :: Judges(judged, item, r.scores))
    && (forall item | item in judged :: exists r :: r in ratings && Rates(rows, r, item))
  }

  lemma RatedBlindIsHandedIn(rows: seq<Row>, ratings: seq<Rating>, mapping: Mapping, judged: map<Hidden, Scores>)
    requires MapsRows(mapping, rows, |rows|) && RatedBlind(rows, ratings, judged)
    requires forall k | 0 <= k < |rows| :: rows[k].item.hidden.pair >= 0
    ensures HandedIn(ratings, mapping, judged)
  {
  }

  // ----- what the rater reads -----

  function ReplyOf(pair: Pair, source: Source): Text
    requires source != Unknown
  {
    if source == Real then pair.realResponse else pair.modelResponse
  }

  /** Every row shows the reply it is labelled with, below the prompt of that reply's pair. */
  lemma RowsShowReplies(pairs: seq<Pair>, order: seq<nat>, rows: seq<Row>, k: nat)
    requires IsShuffle(order, 2 * |pairs|) && Exported(pairs, order, rows) && k < |rows|
    ensures var Item(prompt, response, Hidden(source, p)) := rows[k].item;
      && 0 <= p < |pairs| && source != Unknown
      && prompt == pairs[p].prompt && response == ReplyOf(pairs[p], source)
  {
  }

  lemma ShuffleHits(order: seq<nat>, n: nat, x: nat)
    requires IsShuffle(order, n) && x < n
    ensures x in order
  {
    if x !in order {
      var pool := NatsBelow(n);
      DistinctFit(order, pool - {x});
    }
  }

  lemma {:induction false} NatsBelow(n: nat) returns (pool: set<nat>)
    ensures |pool| == n && forall y: nat :: y in pool <==> y < n
  {
    pool := {};
    if n > 0 {
      var fewer := NatsBelow(n - 1);
      pool := fewer + {n - 1};
    }
  }

  /** And every reply of every pair has a row. */
  lemma EveryReplyHasARow(pairs: seq<Pair>, order: seq<nat>, rows: seq<Row>, p: nat, source: Source) returns (k: nat)
    requires IsShuffle(order, 2 * |pairs|) && Exported(pairs, order, rows) && p < |pairs| && source != Unknown
    ensures k < |rows| && rows[k].item == Item(pairs[p].prompt, ReplyOf(pairs[p], source), Hidden(source, p))
  {
    var x := if source == Real then 2 * p else 2 * p + 1;
    ShuffleHits(order, 2 * |pairs|, x);
    k :| 0 <= k < |order| && order[k] == x;
    assert rows[k] == Row(IdOf(k), ItemOf(pairs, x));
  }

  /** A rater's opinion of a reply, from its prompt and its text alone. */
  type Rater = (Text, Text) -> Scores

  /** The ratings are the rater's opinions of what the rows with their ids show. */
  ghost predicate RatedBy(rows: seq<Row>, ratings: seq<Rating>, rater: Rater) {
    forall r, k | r in ratings && 0 <= k < |rows| && rows[k].id == r.id ::
      r.scores == rater(rows[k].item.prompt, rows[k].item.response)
  }

  ghost predicate AllRated(rows: seq<Row>, ratings: seq<Rating>) {
    forall k | 0 <= k < |rows| :: exists r :: r in ratings && r.id == rows[k].id
  }

  /** What the rater thinks of both replies of every pair. */
  ghost function Opinions(pairs: seq<Pair>, rater: Rater): Scoring {
    (p, source, d) =>
      if 0 <= p < |pairs| && source != Unknown then rater(pairs[p].prompt, ReplyOf(pairs[p], source)).Of(d) else None
  }

  ghost predicate WasRated(rows: seq<Row>, ratings: seq<Rating>, item: Hidden) {
    exists r :: r in ratings && Rates(rows, r, item)
  }

  /** The scores of the replies that were rated at all. */
  ghost function OfRated(score: Scoring, rows: seq<Row>, ratings: seq<Rating>): Scoring {
    (p, source, d) => if WasRated(rows, ratings, Hidden(source, p)) then score(p, source, d) else None
  }

  ghost function HiddenItems(rows: seq<Row>): set<Hidden> {
    set row | row in rows :: row.item.hidden
  }

  /** The opinions that were handed in, by what their rows hide. */
  ghost function OpinionOn(pairs: seq<Pair>, rater: Rater, item: Hidden): Scores {
    if 0 <= item.pair < |pairs| && item.source != Unknown then
      rater(pairs[item.pair].prompt, ReplyOf(pairs[item.pair], item.source))
    else Scores(None, None, None, None)
  }

  ghost function HandedInBy(pairs: seq<Pair>, rows: seq<Row>, ratings: seq<Rating>, rater: Rater): map<Hidden, Scores> {
    map item | item in HiddenItems(rows) && WasRated(rows, ratings, item) :: OpinionOn(pairs, rater, item)
  }

  lemma RatedByIsBlind(pairs: seq<Pair>, order: seq<nat>, rows: seq<Row>, ratings: seq<Rating>, rater: Rater)
    requires IsShuffle(order, 2 * |pairs|) && Exported(pairs, order, rows) && RatedBy(rows, ratings, rater)
    ensures RatedBlind(rows, ratings, HandedInBy(pairs, rows, ratings, rater))
  {
    hide Exported, IsShuffle;
    var judged := HandedInBy(pairs, rows, ratings, rater);
    forall r, item | r in ratings && Rates(rows, r, item) ensures Judges(judged, item, r.scores) {
      var k :| 0 <= k < |rows| && rows[k].id == r.id && rows[k].item.hidden == item;
      RowsShowReplies(pairs, order, rows, k);
      assert rows[k] in rows;
    }
  }

  /** The judgements that were handed in are the opinions on the rated replies. */
  lemma HandedInAreOpinions(pairs: seq<Pair>, rows: seq<Row>, ratings: seq<Rating>, rater: Rater,
                            p: int, source: Source, d: Dimension)
    requires 0 <= p < |pairs| && source != Unknown
    ensures Judgement(HandedInBy(pairs, rows, ratings, rater))(p, source, d) ==
      OfRated(Opinions(pairs, rater), rows, ratings)(p, source, d)
  {
    var item := Hidden(source, p);
    if WasRated(rows, ratings, item) {
      var r :| r in ratings && Rates(rows, r, item);
      var k :| 0 <= k < |rows| && rows[k].id == r.id && rows[k].item.hidden == item;
      assert rows[k] in rows;
    }
  }

  lemma AllWereRated(pairs: seq<Pair>, order: seq<nat>, rows: seq<Row>, ratings: seq<Rating>, p: int, source: Source)
    requires IsShuffle(order, 2 * |pairs|) && Exported(pairs, order, rows) && AllRated(rows, ratings)
    requires 0 <= p < |pairs| && source != Unknown
    ensures WasRated(rows, ratings, Hidden(source, p))
  {
    hide Exported, IsShuffle;
    var k := EveryReplyHasARow(pairs, order, rows, p, source);
    var r :| r in ratings && r.id == rows[k].id;
    assert Rates(rows, r, Hidden(source, p));
  }

  lemma ReportIsOpinion(pairs: seq<Pair>, order: seq<nat>, rows: seq<Row>, ratings: seq<Rating>, rater: Rater,
                        report: Report)
    requires IsShuffle(order, 2 * |pairs|) && Exported(pairs, order, rows)
    requires var judged := HandedInBy(pairs, rows, ratings, rater);
      Reports(report, Judgement(judged), Judgement(judged), |pairs|)
    ensures var rated := OfRated(Opinions(pairs, rater), rows, ratings); Reports(report, rated, rated, |pairs|)
    ensures AllRated(rows, ratings) ==> Reports(report, Opinions(pairs, rater), Opinions(pairs, rater), |pairs|)
  {
    hide Exported, IsShuffle, Judgement, HandedInBy, Reports, AllRated;
    var score, opinions := Judgement(HandedInBy(pairs, rows, ratings, rater)), Opinions(pairs, rater);
    var rated := OfRated(opinions, rows, ratings);
    forall p, source, d | 0 <= p < |pairs| && source != Unknown ensures score(p, source, d) == rated(p, source, d) {
      HandedInAreOpinions(pairs, rows, ratings, rater, p, source, d);
    }
    SameScoring(report, score, score, rated, |pairs|);
    if AllRated(rows, ratings) {
      forall p, source, d | 0 <= p < |pairs| && source != Unknown
        ensures rated(p, source, d) == opinions(p, source, d)
      {
        AllWereRated(pairs, order, rows, ratings, p, source);
      }
      SameScoring(report, rated, rated, opinions, |pairs|);
    }
  }

  /** The whole round: export under any shuffle, rate each id at most once in any order by what its row shows, load,
      ingest. The report is the one of the rater's opinions of the unshuffled pairs; nothing of the shuffle is left. */
  method IngestExport(pairs: seq<Pair>, ghost order: seq<nat>, rows: seq<Row>, ratings: seq<Rating>, ghost rater: Rater)
    returns (report: Report)
    requires IsShuffle(order, 2 * |pairs|) && Exported(pairs, order, rows)
    requires OnePerId(ratings) && RatedBy(rows, ratings, rater)
    ensures var rated := OfRated(Opinions(pairs, rater), rows, ratings); Reports(report, rated, rated, |pairs|)
    ensures AllRated(rows, ratings) ==> Reports(report, Opinions(pairs, rater), Opinions(pairs, rater), |pairs|)
  {
    hide Exported, IsShuffle, Reports, RatedBy, RatedBlind, OnePerId, MapsRows, Mapped, Opaque, PairsBelow, HandedIn;
    ghost var judged := HandedInBy(pairs, rows, ratings, rater);
    var mapping := LoadExported(rows);
    LoadedMapsRows(pairs, order, rows, mapping);
    ExportIsOpaque(pairs, order, rows, mapping);
    RatedByIsBlind(pairs, order, rows, ratings, rater);
    RatedBlindIsHandedIn(rows, ratings, mapping, judged);
    report := IngestRatings(ratings, mapping, |pairs|);
    ReportIsJudgement(report, ratings, mapping, judged, |pairs|);
    ReportIsOpinion(pairs, order, rows, ratings, rater, report);
  }

  lemma LoadedMapsRows(pairs: seq<Pair>, order: seq<nat>, rows: seq<Row>, mapping: Mapping)
    requires IsShuffle(order, 2 * |pairs|) && Exported(pairs, order, rows) && mapping == Mapped(rows, |rows|)
    ensures MapsRows(mapping, rows, |rows|) && forall k | 0 <= k < |rows| :: rows[k].item.hidden.pair >= 0
  {
    forall j, k | 0 <= j < k < |rows| ensures rows[j].id != rows[k].id {
      if IdOf(j) == IdOf(k) {
        IdsAreUnique(j, k);
      }
    }
    MappedMapsRows(rows, |rows|);
  }
}
