/** Folding follow-up rows of a one-bubble-per-row corpus back into whole replies. */
module FollowUps {
  import opened Sequences
  import opened Wrappers
  import opened Lines

  datatype Row = Row(prompt: string, completion: string)

  /** A row whose prompt ends with the speaker's own earlier bubbles, of which there is at least one. */
  datatype FollowUp = FollowUp(incoming: Option<string>, first: string, rest: seq<string>, completion: string) {
    function Bubbles(): seq<string> { [first] + rest }
  }

  const OWN := "Seth: "
  const THEIRS := "Them: "

  // ----- reading a prompt -----

  function LineText(line: string): string {
    if THEIRS <= line then line[|THEIRS|..]
    else if OWN <= line then line[|OWN|..]
    else line
  }

  /** The speaker's own bubbles that a prompt's lines end with. */
  function Bubbles(lines: seq<string>): seq<string> {
    if lines == [] || !(OWN <= lines[|lines| - 1]) then [] else
    Bubbles(lines[..|lines| - 1]) + [lines[|lines| - 1][|OWN|..]]
  }

  function BeforeBubbles(lines: seq<string>): seq<string> {
    if lines == [] || !(OWN <= lines[|lines| - 1]) then lines else BeforeBubbles(lines[..|lines| - 1])
  }

  /** The incoming line a prompt ends with, below its own bubbles. */
  function Incoming(prompt: string): Option<string> {
    var rest := BeforeBubbles(Split(prompt));
    if rest == [] then None else Some(LineText(rest[|rest| - 1]))
  }

  function OwnBubbles(prompt: string): seq<string> {
    Bubbles(Split(prompt))
  }

  /** The incoming text is the same whether its line is bare or labelled, and whatever stands above the label. */
  lemma LabelIsIgnored(above: string, text: string)
    requires '\n' !in text && !(THEIRS <= text) && !(OWN <= text)
    ensures Incoming(text) == Incoming(THEIRS + text) == Incoming(above + "\n" + (THEIRS + text)) == Some(text)
    ensures OwnBubbles(text) == OwnBubbles(THEIRS + text) == OwnBubbles(above + "\n" + (THEIRS + text)) == []
  {
    SplitOfLine(text, "");
    SplitOfLine(THEIRS + text, "");
    SplitOfLast(above, THEIRS + text);
    assert (THEIRS + text)[|THEIRS|..] == text && THEIRS <= THEIRS + text;
    assert (THEIRS + text)[0] == 'T' && OWN[0] == 'S';
  }

  method SplitFollowup(prompt: string) returns (incoming: Option<string>, bubbles: seq<string>)
    ensures incoming == Incoming(prompt) && bubbles == OwnBubbles(prompt)
  {
    var lines := Split(prompt);
    bubbles := [];
    while lines != [] && OWN <= lines[|lines| - 1]
      invariant Bubbles(Split(prompt)) == Bubbles(lines) + bubbles
      invariant BeforeBubbles(Split(prompt)) == BeforeBubbles(lines)
      decreases |lines|
    {
      bubbles := [lines[|lines| - 1][|OWN|..]] + bubbles;
      lines := lines[..|lines| - 1];
    }
    incoming := if lines != [] then Some(LineText(lines[|lines| - 1])) else None;
  }

  // ----- heads and follow-ups -----

  /** The row itself if it holds a first bubble. */
  function HeadPart(row: Row): seq<Row> {
    if OwnBubbles(row.prompt) == [] then [row] else []
  }

  /** The follow-up a row is if it holds a later bubble. */
  function FollowPart(row: Row): seq<FollowUp> {
    var bubbles := OwnBubbles(row.prompt);
    if bubbles == [] then [] else [FollowUp(Incoming(row.prompt), bubbles[0], bubbles[1..], row.completion)]
  }

  function Heads(rows: seq<Row>): seq<Row> {
    if rows == [] then [] else Heads(rows[..|rows| - 1]) + HeadPart(rows[|rows| - 1])
  }

  function FollowUpsOf(rows: seq<Row>): seq<FollowUp> {
    if rows == [] then [] else FollowUpsOf(rows[..|rows| - 1]) + FollowPart(rows[|rows| - 1])
  }

  type HeadKey = (Option<string>, string)

  function KeyOf(row: Row): HeadKey {
    (Incoming(row.prompt), row.completion)
  }

  /** The first head with a key. */
  function HeadAt(heads: seq<Row>, key: HeadKey): (r: Option<nat>)
    ensures r.Some? ==> r.value < |heads| && KeyOf(heads[r.value]) == key
  {
    if heads == [] then None else
    var earlier := HeadAt(heads[..|heads| - 1], key);
    if earlier.Some? then earlier
    else if KeyOf(heads[|heads| - 1]) == key then Some(|heads| - 1)
    else None
  }

  /** The head a follow-up belongs to: same incoming line, same first bubble. */
  function HeadFor(heads: seq<Row>, f: FollowUp): (r: Option<nat>)
    ensures r.Some? ==> r.value < |heads|
  {
    HeadAt(heads, (f.incoming, f.first))
  }

  // ----- the order of folding: fewest earlier bubbles first, ties as given -----

  /** The order of folding: shorter prompts first. */
  predicate NoLonger(f: FollowUp, g: FollowUp) {
    |f.rest| <= |g.rest|
  }

  /** The texts of the heads so far, and the follow-ups that found no place. */
  datatype State = State(texts: seq<string>, dropped: seq<FollowUp>)

  /** A follow-up fits where its own earlier bubbles are exactly the text so far. */
  predicate Fits(text: string, f: FollowUp) {
    text == Join(f.Bubbles())
  }

  function Fold(heads: seq<Row>, s: State, f: FollowUp): State
    requires |s.texts| == |heads|
  {
    var at := HeadFor(heads, f);
    if at.None? || !Fits(s.texts[at.value], f) then s.(dropped := s.dropped + [f])
    else s.(texts := s.texts[at.value := s.texts[at.value] + "\n" + f.completion])
  }

  function Completions(rows: seq<Row>): seq<string> {
    seq(|rows|, i requires 0 <= i < |rows| => rows[i].completion)
  }

  function FoldAll(heads: seq<Row>, fs: seq<FollowUp>): (s: State)
    ensures |s.texts| == |heads|
  {
    if fs == [] then State(Completions(heads), []) else
    Fold(heads, FoldAll(heads, fs[..|fs| - 1]), fs[|fs| - 1])
  }

  function Merged(rows: seq<Row>): State {
    FoldAll(Heads(rows), Sort(NoLonger, FollowUpsOf(rows)))
  }

  /** A row of the corpus as the merge edits it in place. */
  class RowCell {
    const prompt: string
    var completion: string

    constructor (row: Row)
      ensures prompt == row.prompt && completion == row.completion
    {
      prompt, completion := row.prompt, row.completion;
    }
  }

  ghost predicate Holds(out: seq<RowCell>, heads: seq<Row>, texts: seq<string>)
    reads out
  {
    && |out| == |heads| == |texts|
    && (forall i | 0 <= i < |out| :: out[i].prompt == heads[i].prompt && out[i].completion == texts[i])
    && (forall i, j | 0 <= i < j < |out| :: out[i] != out[j])
  }

  /** The dictionary of heads finds what HeadAt finds. */
  ghost predicate Indexes(index: map<HeadKey, RowCell>, out: seq<RowCell>, heads: seq<Row>) {
    && |out| == |heads|
    && forall key {:trigger HeadAt(heads, key)} ::
         && (key in index <==> HeadAt(heads, key).Some?)
         && (key in index ==> index[key] == out[HeadAt(heads, key).value])
  }

  lemma RowNext(rows: seq<Row>, i: nat)
    requires i < |rows|
    ensures var r, bubbles := rows[i], OwnBubbles(rows[i].prompt);
      if bubbles == [] then
        && Heads(rows[..i + 1]) == Heads(rows[..i]) + [r]
        && Completions(Heads(rows[..i + 1])) == Completions(Heads(rows[..i])) + [r.completion]
        && FollowUpsOf(rows[..i + 1]) == FollowUpsOf(rows[..i])
      else
        && Heads(rows[..i + 1]) == Heads(rows[..i])
        && FollowUpsOf(rows[..i + 1]) == FollowUpsOf(rows[..i])
             + [FollowUp(Incoming(r.prompt), bubbles[0], bubbles[1..], r.completion)]
  {
    assert rows[..i + 1][..i] == rows[..i];
  }

  lemma FoldNext(heads: seq<Row>, fs: seq<FollowUp>, i: nat)
    requires i < |fs|
    ensures FoldAll(heads, fs[..i + 1]) == Fold(heads, FoldAll(heads, fs[..i]), fs[i])
  {
    assert fs[..i + 1][..i] == fs[..i];
  }

  method MergeFollowups(rows: seq<Row>) returns (out: seq<RowCell>, dropped: nat)
    ensures fresh(out)
    ensures Holds(out, Heads(rows), Merged(rows).texts)
    ensures dropped == |Merged(rows).dropped|
  {
    var index: map<HeadKey, RowCell> := map[];
    out := [];
    var followups: seq<FollowUp> := [];
    hide Incoming, OwnBubbles, Join, HeadAt, Sort, Heads, FollowUpsOf, FoldAll, Completions;
    NoRows();
    for i := 0 to |rows|
      invariant fresh(out)
      invariant followups == FollowUpsOf(rows[..i])
      invariant Holds(out, Heads(rows[..i]), Completions(Heads(rows[..i])))
      invariant Indexes(index, out, Heads(rows[..i]))
    {
      var r := rows[i];
      RowNext(rows, i);
      var incoming, bubbles := SplitFollowup(r.prompt);
      if bubbles != [] {
        followups := followups + [FollowUp(incoming, bubbles[0], bubbles[1..], r.completion)];
        continue;
      }
      var row := new RowCell(r);
      IndexNext(index, out, Heads(rows[..i]), r, row);
      if (incoming, r.completion) !in index {
        index := index[(incoming, r.completion) := row];
      }
      out := out + [row];
    }
    assert rows[..|rows|] == rows;
    ghost var heads := Heads(rows);
    var ordered := Sort(NoLonger, followups);
    dropped := 0;
    NothingFolded(heads);
    for i := 0 to |ordered|
      invariant fresh(out)
      invariant Holds(out, heads, FoldAll(heads, ordered[..i]).texts)
      invariant dropped == |FoldAll(heads, ordered[..i]).dropped|
    {
      var f := ordered[i];
      FoldNext(heads, ordered, i);
      assert HeadFor(heads, f) == HeadAt(heads, (f.incoming, f.first));
      if (f.incoming, f.first) !in index || index[(f.incoming, f.first)].completion != Join(f.Bubbles()) {
        dropped := dropped + 1;
        continue;
      }
      var head := index[(f.incoming, f.first)];
      head.completion := head.completion + "\n" + f.completion;
    }
    assert ordered[..|ordered|] == ordered;
  }

  lemma NoRows()
    ensures FollowUpsOf([]) == [] && Heads([]) == [] && Completions([]) == [] && Indexes(map[], [], [])
  {
  }

  lemma NothingFolded(heads: seq<Row>)
    ensures FoldAll(heads, []) == State(Completions(heads), [])
  {
  }

  lemma IndexNext(index: map<HeadKey, RowCell>, out: seq<RowCell>, heads: seq<Row>, r: Row, row: RowCell)
    requires Indexes(index, out, heads)
    ensures Indexes(if KeyOf(r) in index then index else index[KeyOf(r) := row], out + [row], heads + [r])
  {
  }

  // ----- every row ends up in exactly one place -----

  /** The follow-ups that were folded in, in the order of folding. */
  ghost function Taken(heads: seq<Row>, fs: seq<FollowUp>): seq<FollowUp> {
    if fs == [] then [] else
    var f, before := fs[|fs| - 1], FoldAll(heads, fs[..|fs| - 1]);
    Taken(heads, fs[..|fs| - 1]) + if Fold(heads, before, f).dropped == before.dropped then [f] else []
  }

  /** The follow-ups that belong to head i. */
  ghost function For(heads: seq<Row>, fs: seq<FollowUp>, i: nat): seq<FollowUp> {
    if fs == [] then [] else
    For(heads, fs[..|fs| - 1], i) + if HeadFor(heads, fs[|fs| - 1]) == Some(i) then [fs[|fs| - 1]] else []
  }

  /** A first bubble with follow-ups added. */
  ghost function Reply(first: string, added: seq<FollowUp>): string {
    if added == [] then first else Reply(first, added[..|added| - 1]) + "\n" + added[|added| - 1].completion
  }

  /** Each follow-up had exactly the text before it as its own earlier bubbles. */
  ghost predicate Continues(first: string, added: seq<FollowUp>) {
    forall j | 0 <= j < |added| :: Fits(Reply(first, added[..j]), added[j])
  }

  lemma ContinuesNext(first: string, added: seq<FollowUp>, f: FollowUp)
    requires Continues(first, added) && Fits(Reply(first, added), f)
    ensures Continues(first, added + [f])
    ensures Reply(first, added + [f]) == Reply(first, added) + "\n" + f.completion
  {
    hide Reply, Fits;
    forall j | 0 <= j < |added + [f]| ensures Fits(Reply(first, (added + [f])[..j]), (added + [f])[j]) {
      assert (added + [f])[..j] == added[..j];
      assert added[..|added|] == added;
    }
    ReplyNext(first, added, f);
  }

  lemma ReplyNext(first: string, added: seq<FollowUp>, f: FollowUp)
    ensures Reply(first, added + [f]) == Reply(first, added) + "\n" + f.completion
  {
  }

  lemma ForNext(heads: seq<Row>, fs: seq<FollowUp>, f: FollowUp, i: nat)
    ensures For(heads, fs + [f], i) ==
      if HeadFor(heads, f) == Some(i) then For(heads, fs, i) + [f] else For(heads, fs, i)
  {
  }

  /** Folding f changes text i exactly when f belongs to head i and fits there, and then f is not dropped. */
  lemma FoldEffect(heads: seq<Row>, s: State, f: FollowUp, i: nat)
    requires i < |heads| == |s.texts|
    ensures var here := HeadFor(heads, f) == Some(i);
      && Fold(heads, s, f).texts[i] ==
        (if here && Fits(s.texts[i], f) then s.texts[i] + "\n" + f.completion else s.texts[i])
      && (here ==> (Fold(heads, s, f).dropped == s.dropped <==> Fits(s.texts[i], f)))
  {
  }

  lemma TakenNext(heads: seq<Row>, earlier: seq<FollowUp>, f: FollowUp)
    ensures var before, after := FoldAll(heads, earlier), FoldAll(heads, earlier + [f]);
      if Fold(heads, before, f).dropped == before.dropped then
        after.dropped == before.dropped && Taken(heads, earlier + [f]) == Taken(heads, earlier) + [f]
      else
        after.dropped == before.dropped + [f] && Taken(heads, earlier + [f]) == Taken(heads, earlier)
  {
  }

  /** Each text is its head's completion followed by follow-ups of that head that continue it one by one. */
  lemma {:induction false} TextsAreReplies(heads: seq<Row>, fs: seq<FollowUp>, i: nat)
    requires i < |heads|
    ensures var added := For(heads, Taken(heads, fs), i);
      && FoldAll(heads, fs).texts[i] == Reply(heads[i].completion, added)
      && Continues(heads[i].completion, added)
  {
    if fs != [] {
      var earlier, f := fs[..|fs| - 1], fs[|fs| - 1];
      assert FoldAll(heads, fs) == Fold(heads, FoldAll(heads, earlier), f);
      hide For, Reply, Continues, Fits, HeadFor, FoldAll, Taken, Fold;
      var before, taken := FoldAll(heads, earlier), Taken(heads, earlier);
      assert fs == earlier + [f];
      TakenNext(heads, earlier, f);
      TextsAreReplies(heads, earlier, i);
      FoldEffect(heads, before, f, i);
      ForNext(heads, taken, f, i);
      if HeadFor(heads, f) == Some(i) && Fits(before.texts[i], f) {
        ContinuesNext(heads[i].completion, For(heads, taken, i), f);
      }
    }
  }

  /** a and b together hold the elements of c, as often as c does. */
  ghost predicate Partition<T>(a: seq<T>, b: seq<T>, c: seq<T>) {
    multiset(a) + multiset(b) == multiset(c)
  }

  lemma PartitionNext<T>(a: seq<T>, b: seq<T>, c: seq<T>, x: T)
    requires Partition(a, b, c)
    ensures Partition(a + [x], b, c + [x]) && Partition(a, b + [x], c + [x])
  {
  }

  lemma {:induction false} TakenOrDropped(heads: seq<Row>, fs: seq<FollowUp>)
    ensures Partition(Taken(heads, fs), FoldAll(heads, fs).dropped, fs)
  {
    if fs != [] {
      hide Taken, FoldAll, Fold, Partition;
      var earlier, f := fs[..|fs| - 1], fs[|fs| - 1];
      TakenOrDropped(heads, earlier);
      TakenNext(heads, earlier, f);
      PartitionNext(Taken(heads, earlier), FoldAll(heads, earlier).dropped, earlier, f);
      assert fs == earlier + [f];
    }
  }

  lemma {:induction false} RowsSplit(rows: seq<Row>)
    ensures |Heads(rows)| + |FollowUpsOf(rows)| == |rows|
  {
    if rows != [] {
      RowsSplit(rows[..|rows| - 1]);
    }
  }

  /** Conservation: every row is an output row, or folded into one, or counted as dropped. */
  lemma RowsConserved(rows: seq<Row>)
    ensures var taken := Taken(Heads(rows), Sort(NoLonger, FollowUpsOf(rows)));
      && |rows| == |Merged(rows).texts| + |taken| + |Merged(rows).dropped|
      && multiset(taken) + multiset(Merged(rows).dropped) == multiset(FollowUpsOf(rows))
  {
    var heads, ordered := Heads(rows), Sort(NoLonger, FollowUpsOf(rows));
    RowsSplit(rows);
    SortPermutes(NoLonger, FollowUpsOf(rows));
    TakenOrDropped(heads, ordered);
    assert |multiset(FollowUpsOf(rows))| == |Taken(heads, ordered)| + |FoldAll(heads, ordered).dropped|;
  }

  /** What the corpus builder promises of its repair: whole replies, built only from rows that continue them. */
  lemma MergedRepliesContinue(rows: seq<Row>, i: nat)
    requires i < |Heads(rows)|
    ensures var heads, head := Heads(rows), Heads(rows)[i];
      var added := For(heads, Taken(heads, Sort(NoLonger, FollowUpsOf(rows))), i);
      && Merged(rows).texts[i] == Reply(head.completion, added)
      && Continues(head.completion, added)
      && forall f | f in added :: f.incoming == Incoming(head.prompt) && f.first == head.completion
  {
    var heads := Heads(rows);
    TextsAreReplies(heads, Sort(NoLonger, FollowUpsOf(rows)), i);
    ForBelongs(heads, Taken(heads, Sort(NoLonger, FollowUpsOf(rows))), i);
  }

  lemma {:induction false} ForBelongs(heads: seq<Row>, fs: seq<FollowUp>, i: nat)
    requires i < |heads|
    ensures forall f | f in For(heads, fs, i) ::
      f.incoming == Incoming(heads[i].prompt) && f.first == heads[i].completion
  {
    if fs != [] {
      ForBelongs(heads, fs[..|fs| - 1], i);
    }
  }
}
