/** When a corpus split from replies merges back into them, whatever the order of its rows. */
module MergeBack {
  import opened Sequences
  import opened Wrappers
  import opened Lines
  import opened FollowUps
  import opened WholeReplies

  ghost function WholeRow(x: Exchange): Row {
    Row(x.context, Join(x.bubbles))
  }

  ghost function WholeRows(xs: seq<Exchange>): seq<Row> {
    seq(|xs|, m requires 0 <= m < |xs| => WholeRow(xs[m]))
  }

  /** The prompt of every head with its text. */
  ghost function Answers(heads: seq<Row>, texts: seq<string>): seq<Row>
    requires |texts| == |heads|
  {
    seq(|heads|, i requires 0 <= i < |heads| => Row(heads[i].prompt, texts[i]))
  }

  ghost function Output(rows: seq<Row>): seq<Row> {
    Answers(Heads(rows), Merged(rows).texts)
  }

  ghost predicate MergesBack(rows: seq<Row>, xs: seq<Exchange>) {
    Merged(rows).dropped == [] && multiset(Output(rows)) == multiset(WholeRows(xs))
  }

  // ----- nothing is dropped -----

  /** What a shuffled corpus is read as. */
  lemma ShuffleReads(xs: seq<Exchange>, rows: seq<Row>)
    requires AllValid(xs) && ShuffleOf(rows, xs)
    ensures multiset(Heads(rows)) == multiset(FirstRows(xs))
    ensures multiset(FollowUpsOf(rows)) == multiset(Follows(xs))
    ensures var fs := Sort(NoLonger, FollowUpsOf(rows)); multiset(fs) == multiset(Follows(xs)) && Sorted(fs)
  {
    hide Heads, FollowUpsOf, Sort, Follows, FirstRows;
    ReadsPermuted(rows, Corpus(xs));
    CorpusReads(xs);
    SortPermutes(NoLonger, FollowUpsOf(rows));
    SortSorted(FollowUpsOf(rows));
  }

  lemma AllFolded(xs: seq<Exchange>, rows: seq<Row>)
    requires AllValid(xs) && OneSplitPerKey(xs) && ShuffleOf(rows, xs)
    ensures AllTaken(Heads(rows), Sort(NoLonger, FollowUpsOf(rows)))
  {
    hide AllTaken, Heads, FollowUpsOf, Sort, Follows, FirstRows, OneSplitPerKey, Sorted, AllValid;
    var fs := Sort(NoLonger, FollowUpsOf(rows));
    ShuffleReads(xs, rows);
    NothingDropped(Heads(rows), xs, fs, |fs|);
    assert fs[..|fs|] == fs;
  }

  /** How many follow-ups are second bubbles. */
  ghost function Seconds(fs: seq<FollowUp>): nat {
    if fs == [] then 0 else Seconds(fs[..|fs| - 1]) + if fs[|fs| - 1].rest == [] then 1 else 0
  }

  lemma {:induction false} SecondsAppend(a: seq<FollowUp>, b: seq<FollowUp>)
    ensures Seconds(a + b) == Seconds(a) + Seconds(b)
  {
    if b == [] {
      assert a + b == a;
    } else {
      var front, last := b[..|b| - 1], b[|b| - 1];
      SecondsAppend(a, front);
      assert (a + b)[..|a + b| - 1] == a + front && (a + b)[|a + b| - 1] == last;
    }
  }

  lemma {:induction false} SecondsPermuted(a: seq<FollowUp>, b: seq<FollowUp>)
    requires multiset(a) == multiset(b)
    ensures Seconds(a) == Seconds(b)
    decreases |a|
  {
    hide Seconds;
    if a == [] {
      EmptyPermutation(a, b);
    } else {
      var front, x := a[..|a| - 1], a[|a| - 1];
      var p, q := TakeOut(a, b);
      SecondsPermuted(front, p + q);
      assert a == front + [x];
      SecondsAppend(front, [x]);
      SecondsAppend(p, q);
      SecondsAppend(p + [x], q);
      SecondsAppend(p, [x]);
    }
  }

  lemma {:induction false} SecondsOfChain(x: Exchange, n: nat)
    requires n <= |x.bubbles|
    ensures Seconds(Chain(x, n)) == if n > 1 then 1 else 0
  {
    if n > 1 {
      SecondsOfChain(x, n - 1);
    }
  }

  lemma {:induction false} ForOwnChain(heads: seq<Row>, x: Exchange, i: nat, n: nat)
    requires Valid(x) && n <= |x.bubbles| && HeadAt(heads, KeyOfExchange(x)) == Some(i)
    ensures For(heads, Chain(x, n), i) == Chain(x, n)
  {
    if n > 1 {
      hide HeadAt, Valid;
      ForOwnChain(heads, x, i, n - 1);
    }
  }

  /** Among the follow-ups for head i of the first p replies are the second bubbles of replies m and m'. */
  lemma {:induction false} SecondsFor(heads: seq<Row>, xs: seq<Exchange>, i: nat, m: nat, m': nat, p: nat)
    requires AllValid(xs) && m < m' < |xs| && p <= |xs| && Several(xs[m]) && Several(xs[m'])
    requires HeadAt(heads, KeyOfExchange(xs[m])) == HeadAt(heads, KeyOfExchange(xs[m'])) == Some(i)
    ensures Seconds(For(heads, Follows(xs[..p]), i)) >= (if m < p then 1 else 0) + (if m' < p then 1 else 0)
  {
    hide HeadAt, Valid, For, Follows, Chain, KeyOfExchange, Seconds;
    if p > 0 {
      SecondsFor(heads, xs, i, m, m', p - 1);
      var x := xs[p - 1];
      FollowsNext(xs, p - 1);
      ForAppend(heads, Follows(xs[..p - 1]), Chain(x, |x.bubbles|), i);
      SecondsAppend(For(heads, Follows(xs[..p - 1]), i), For(heads, Chain(x, |x.bubbles|), i));
      if p - 1 == m || p - 1 == m' {
        ForOwnChain(heads, x, i, |x.bubbles|);
        SecondsOfChain(x, |x.bubbles|);
      }
    }
  }

  lemma {:induction false} ReplyGrows(first: string, added: seq<FollowUp>)
    ensures |Reply(first, added)| >= |first| + |added|
  {
    if added != [] {
      ReplyGrows(first, added[..|added| - 1]);
    }
  }

  /** Only the first follow-up added to a bubble can be a second bubble. */
  lemma {:induction false} OneSecond(first: string, added: seq<FollowUp>)
    requires Continues(first, added) && forall f | f in added :: f.first == first
    ensures Seconds(added) <= 1
  {
    if |added| > 1 {
      hide Reply;
      var earlier, f := added[..|added| - 1], added[|added| - 1];
      forall j | 0 <= j < |earlier| ensures Fits(Reply(first, earlier[..j]), earlier[j]) {
        assert added[..j] == earlier[..j];
      }
      OneSecond(first, earlier);
      ReplyGrows(first, earlier);
      assert Fits(Reply(first, earlier), f);
      assert f.rest == [] ==> f.Bubbles() == [first];
      SecondsEarlier(added);
    }
  }

  lemma SecondsEarlier(added: seq<FollowUp>)
    requires added != []
    ensures Seconds(added) == Seconds(added[..|added| - 1]) + if added[|added| - 1].rest == [] then 1 else 0
  {
  }

  /** When nothing is dropped, every follow-up is in the reply of its head. */
  lemma AllInTheirReplies(xs: seq<Exchange>, rows: seq<Row>, i: nat) returns (added: seq<FollowUp>)
    requires AllValid(xs) && ShuffleOf(rows, xs) && Merged(rows).dropped == [] && i < |Heads(rows)|
    ensures multiset(added) == multiset(For(Heads(rows), Follows(xs), i))
    ensures var first := Heads(rows)[i].completion;
      && Merged(rows).texts[i] == Reply(first, added) && Continues(first, added)
      && forall f | f in added :: f.first == first
  {
    hide Heads, FollowUpsOf, Sort, Follows, FoldAll, Taken, For, Reply, Continues, ShuffleOf;
    var heads, fs := Heads(rows), Sort(NoLonger, FollowUpsOf(rows));
    ShuffleReads(xs, rows);
    TakenOrDropped(heads, fs);
    ForPermuted(heads, Taken(heads, fs), Follows(xs), i);
    MergedRepliesContinue(rows, i);
    added := For(heads, Taken(heads, fs), i);
  }

  /** Two replies of several bubbles with one key: whatever the order, one of them loses a bubble. */
  lemma SecondIsDropped(xs: seq<Exchange>, rows: seq<Row>, m: nat, m': nat)
    requires AllValid(xs) && ShuffleOf(rows, xs) && m < m' < |xs| && Several(xs[m]) && Several(xs[m'])
    requires KeyOfExchange(xs[m]) == KeyOfExchange(xs[m'])
    ensures Merged(rows).dropped != []
  {
    hide Heads, FollowUpsOf, Follows, For, Reply, Continues, ShuffleOf, Merged, Seconds, FirstRows, KeyOfExchange,
         Valid;
    if Merged(rows).dropped == [] {
      var heads := Heads(rows);
      assert xs[..|xs|] == xs;
      ShuffleReads(xs, rows);
      var i := HeadIndex(heads, xs, m);
      var added := AllInTheirReplies(xs, rows, i);
      OneSecond(heads[i].completion, added);
      SecondsPermuted(added, For(heads, Follows(xs), i));
      SecondsFor(heads, xs, i, m, m', |xs|);
    }
  }

  /** Such replies: the last bubble of one of them is lost. */
  lemma LostBubble(xs: seq<Exchange>, rows: seq<Row>)
    requires xs == [Exchange("hi", [], ["a", "b"]), Exchange("hi", [], ["a", "c"])] && ShuffleOf(rows, xs)
    ensures AllValid(xs) && Merged(rows).dropped != []
  {
    hide Merged, ShuffleOf;
    SplitOfLine("hi", "");
    SecondIsDropped(xs, rows, 0, 1);
  }

  /** In any order, nothing is dropped exactly when no two replies of several bubbles start alike. */
  lemma NoneDroppedIff(xs: seq<Exchange>, rows: seq<Row>)
    requires AllValid(xs) && ShuffleOf(rows, xs)
    ensures Merged(rows).dropped == [] <==> OneSplitPerKey(xs)
  {
    hide ShuffleOf, Valid, KeyOfExchange;
    if OneSplitPerKey(xs) {
      AllFolded(xs, rows);
    } else {
      var m, m' :| 0 <= m < |xs| && 0 <= m' < |xs| && KeyOfExchange(xs[m]) == KeyOfExchange(xs[m'])
        && Several(xs[m]) && Several(xs[m']) && m != m';
      SecondIsDropped(xs, rows, if m < m' then m else m', if m < m' then m' else m);
    }
  }

  // ----- the replies come back -----

  /** The heads, with the first p replies grown where the merge finds them. */
  ghost function Grown(heads: seq<Row>, xs: seq<Exchange>, p: nat): (r: seq<Row>)
    requires AllValid(xs) && p <= |xs|
    ensures |r| == |heads|
  {
    if p == 0 then heads else
    var before, x := Grown(heads, xs, p - 1), xs[p - 1];
    var at := HeadAt(heads, KeyOfExchange(x));
    if Several(x) && at.Some? then before[at.value := WholeRow(x)] else before
  }

  /** No reply of several bubbles among the first p is found at head i. */
  ghost predicate NotFoundBefore(heads: seq<Row>, xs: seq<Exchange>, i: nat, p: nat)
    requires AllValid(xs) && p <= |xs|
  {
    forall m | 0 <= m < p && Several(xs[m]) :: HeadAt(heads, KeyOfExchange(xs[m])) != Some(i)
  }

  lemma {:induction false} GrownElsewhere(heads: seq<Row>, xs: seq<Exchange>, i: nat, p: nat)
    requires AllValid(xs) && p <= |xs| && i < |heads| && NotFoundBefore(heads, xs, i, p)
    ensures Grown(heads, xs, p)[i] == heads[i]
  {
    hide HeadAt, KeyOfExchange;
    if p > 0 {
      GrownElsewhere(heads, xs, i, p - 1);
    }
  }

  lemma OnlyOwner(heads: seq<Row>, xs: seq<Exchange>, m: nat, i: nat, m': nat)
    requires AllValid(xs) && Owns(heads, xs, m, i) && m' < |xs| && Several(xs[m']) && m' != m
    ensures HeadAt(heads, KeyOfExchange(xs[m'])) != Some(i)
  {
  }

  lemma {:induction false} GrownOwned(heads: seq<Row>, xs: seq<Exchange>, m: nat, i: nat, p: nat)
    requires AllValid(xs) && m < p <= |xs| && i < |heads| && Owns(heads, xs, m, i)
    ensures Grown(heads, xs, p)[i] == WholeRow(xs[m])
  {
    hide OneSplitPerKey, FirstRows, HeadAt, KeyOfExchange, Valid, WholeRow;
    if m < p - 1 {
      GrownOwned(heads, xs, m, i, p - 1);
      if Several(xs[p - 1]) {
        OnlyOwner(heads, xs, m, i, p - 1);
      }
    }
  }

  /** The rows of the replies, the first p of them whole. */
  ghost function PartWhole(xs: seq<Exchange>, p: nat): (r: seq<Row>)
    requires AllValid(xs)
    ensures |r| == |xs|
  {
    seq(|xs|, m requires 0 <= m < |xs| => if m < p then WholeRow(xs[m]) else FirstRow(xs[m]))
  }

  lemma PartWholeStart(xs: seq<Exchange>)
    requires AllValid(xs)
    ensures PartWhole(xs, 0) == FirstRows(xs)
  {
    hide FirstRows, FirstRow, WholeRow, Valid;
    forall m: nat | m < |xs| ensures FirstRows(xs)[m] == PartWhole(xs, 0)[m] {
      FirstRowsAt(xs, m);
    }
  }

  lemma PartWholeEnd(xs: seq<Exchange>)
    requires AllValid(xs)
    ensures PartWhole(xs, |xs|) == WholeRows(xs)
  {
    hide FirstRow, WholeRow, Valid;
  }

  lemma PartWholeNext(xs: seq<Exchange>, p: nat)
    requires AllValid(xs) && p < |xs|
    ensures PartWhole(xs, p)[p] == FirstRow(xs[p])
    ensures PartWhole(xs, p + 1) == PartWhole(xs, p)[p := WholeRow(xs[p])]
  {
    hide FirstRow, WholeRow;
  }

  lemma SingleIsWhole(x: Exchange)
    requires Valid(x) && !Several(x)
    ensures WholeRow(x) == FirstRow(x)
  {
  }

  lemma SameUpdate<T>(a: seq<T>, i: nat, b: seq<T>, j: nat, v: T)
    requires i < |a| && j < |b| && a[i] == b[j] && multiset(a) == multiset(b)
    ensures multiset(a[i := v]) == multiset(b[j := v])
  {
  }

  lemma HeadOfOwner(heads: seq<Row>, xs: seq<Exchange>, m: nat, i: nat)
    requires AllValid(xs) && OneContextPerSplit(xs) && Owns(heads, xs, m, i)
    ensures i < |heads| && heads[i] == FirstRow(xs[m])
  {
    hide Valid, FirstRows, Incoming, OneSplitPerKey;
    OwnedRow(heads, xs, m, i);
    var m' := SameElements(heads, FirstRows(xs), i);
    FirstRowsAt(xs, m');
    assert KeyOfExchange(xs[m']) == KeyOfExchange(xs[m]);
  }

  lemma GrownNext(heads: seq<Row>, xs: seq<Exchange>, p: nat) returns (i: nat)
    requires AllValid(xs) && OneSplitPerKey(xs) && OneContextPerSplit(xs) && p < |xs| && Several(xs[p])
    requires multiset(heads) == multiset(FirstRows(xs))
    ensures i < |heads| && Grown(heads, xs, p)[i] == FirstRow(xs[p])
    ensures Grown(heads, xs, p + 1) == Grown(heads, xs, p)[i := WholeRow(xs[p])]
  {
    hide OneSplitPerKey, OneContextPerSplit, FirstRows, FirstRow, Valid, WholeRow, KeyOfExchange, HeadAt, Owns;
    i := HeadIndex(heads, xs, p);
    FoundIsOwned(heads, xs, p, i);
    HeadOfOwner(heads, xs, p, i);
    forall m | 0 <= m < p && Several(xs[m]) ensures HeadAt(heads, KeyOfExchange(xs[m])) != Some(i) {
      OnlyOwner(heads, xs, p, i, m);
    }
    GrownElsewhere(heads, xs, i, p);
  }

  lemma {:induction false} GrownIsPartWhole(heads: seq<Row>, xs: seq<Exchange>, p: nat)
    requires AllValid(xs) && OneSplitPerKey(xs) && OneContextPerSplit(xs) && p <= |xs|
    requires multiset(heads) == multiset(FirstRows(xs))
    ensures multiset(Grown(heads, xs, p)) == multiset(PartWhole(xs, p))
  {
    hide PartWhole, OneSplitPerKey, OneContextPerSplit, FirstRows, FirstRow, AllValid, WholeRow, Grown;
    if p == 0 {
      PartWholeStart(xs);
      NothingGrown(heads, xs);
    } else {
      GrownIsPartWhole(heads, xs, p - 1);
      if Several(xs[p - 1]) {
        PartWholeNext(xs, p - 1);
        var i := GrownNext(heads, xs, p - 1);
        SameUpdate(Grown(heads, xs, p - 1), i, PartWhole(xs, p - 1), p - 1, WholeRow(xs[p - 1]));
      } else {
        WholeAlready(heads, xs, p - 1);
      }
    }
  }

  lemma NothingGrown(heads: seq<Row>, xs: seq<Exchange>)
    requires AllValid(xs)
    ensures Grown(heads, xs, 0) == heads
  {
  }

  lemma WholeAlready(heads: seq<Row>, xs: seq<Exchange>, p: nat)
    requires AllValid(xs) && p < |xs| && !Several(xs[p])
    ensures PartWhole(xs, p + 1) == PartWhole(xs, p) && Grown(heads, xs, p + 1) == Grown(heads, xs, p)
  {
    hide WholeRow, FirstRow, Valid;
    SingleIsWhole(xs[p]);
  }

  lemma {:induction false} ForNone(heads: seq<Row>, fs: seq<FollowUp>, i: nat)
    requires forall f | f in fs :: HeadFor(heads, f) != Some(i)
    ensures For(heads, fs, i) == []
  {
    hide HeadFor;
    if fs != [] {
      assert fs[|fs| - 1] in fs;
      ForNone(heads, fs[..|fs| - 1], i);
    }
  }

  /** A head at which no reply of several bubbles is found gets nothing. */
  lemma NoFollowsFor(heads: seq<Row>, xs: seq<Exchange>, fs: seq<FollowUp>, i: nat)
    requires AllValid(xs) && multiset(fs) == multiset(Follows(xs)) && NotFoundBefore(heads, xs, i, |xs|)
    ensures For(heads, fs, i) == []
  {
    hide Follows, HeadAt, Valid, For;
    forall f | f in fs ensures HeadFor(heads, f) != Some(i) {
      assert f in multiset(Follows(xs));
      var m := InFollows(xs, f);
    }
    ForNone(heads, fs, i);
  }

  lemma TextAt(xs: seq<Exchange>, rows: seq<Row>, i: nat)
    requires AllValid(xs) && OneSplitPerKey(xs) && OneContextPerSplit(xs) && ShuffleOf(rows, xs) && i < |Heads(rows)|
    ensures Output(rows)[i] == Grown(Heads(rows), xs, |xs|)[i]
  {
    hide Heads, FollowUpsOf, Sort, Follows, FirstRows, OneSplitPerKey, OneContextPerSplit, Sorted, For, Reply, FoldAll,
         Taken, Grown, Owns, Valid, HeadAt, Join, Chain, ShuffleOf, KeyOfExchange, Continues;
    var heads, fs := Heads(rows), Sort(NoLonger, FollowUpsOf(rows));
    ShuffleReads(xs, rows);
    AllFolded(xs, rows);
    TextsAreReplies(heads, fs, i);
    if m: nat :| m < |xs| && Several(xs[m]) && HeadAt(heads, KeyOfExchange(xs[m])) == Some(i) {
      FoundIsOwned(heads, xs, m, i);
      HeadOfOwner(heads, xs, m, i);
      OrderedFollows(heads, xs, fs, m, i);
      ReplyOfChain(xs[m], |xs[m].bubbles|);
      assert xs[m].bubbles[..|xs[m].bubbles|] == xs[m].bubbles;
      GrownOwned(heads, xs, m, i, |xs|);
    } else {
      NoFollowsFor(heads, xs, fs, i);
      NothingAdded(heads[i].completion);
      GrownElsewhere(heads, xs, i, |xs|);
    }
  }

  lemma NothingAdded(first: string)
    ensures Reply(first, []) == first
  {
  }

  /** Whatever the order of its rows, a corpus split from such replies is merged back into exactly those replies. */
  lemma MergeUndoesSplitting(xs: seq<Exchange>, rows: seq<Row>)
    requires AllValid(xs) && OneSplitPerKey(xs) && OneContextPerSplit(xs) && ShuffleOf(rows, xs)
    ensures MergesBack(rows, xs)
  {
    hide Heads, FollowUpsOf, Sort, Follows, FirstRows, OneSplitPerKey, OneContextPerSplit, AllValid, Grown, PartWhole,
         ShuffleOf, FoldAll;
    var heads := Heads(rows);
    ShuffleReads(xs, rows);
    AllFolded(xs, rows);
    forall i: nat | i < |heads| ensures Output(rows)[i] == Grown(heads, xs, |xs|)[i] {
      TextAt(xs, rows, i);
    }
    assert Output(rows) == Grown(heads, xs, |xs|);
    GrownIsPartWhole(heads, xs, |xs|);
    PartWholeEnd(xs);
  }

  // ----- a reply in the wrong context -----

  lemma {:induction false} HeadsAreRows(rows: seq<Row>, i: nat)
    requires i < |Heads(rows)|
    ensures Heads(rows)[i] in rows && OwnBubbles(Heads(rows)[i].prompt) == []
  {
    hide OwnBubbles;
    if i < |Heads(rows[..|rows| - 1])| {
      HeadsAreRows(rows[..|rows| - 1], i);
    }
  }

  lemma FirstRowIsHead(x: Exchange)
    requires Valid(x)
    ensures OwnBubbles(FirstRow(x).prompt) == []
  {
    hide OwnBubbles, Incoming;
    assert x.ContextAt(0) == x.context;
  }

  lemma FirstRowInCorpus(xs: seq<Exchange>, m: nat)
    requires AllValid(xs) && m < |xs|
    ensures FirstRow(xs[m]) in Corpus(xs)
  {
    hide FirstRow, FirstRows, Corpus, Heads, Valid;
    CorpusReads(xs);
    FirstRowsAt(xs, m);
    HeadsAreRows(Corpus(xs), m);
  }

  lemma InFront<T>(s: seq<T>, x: T) returns (rest: seq<T>)
    requires x in s
    ensures multiset(s) == multiset(rest) + multiset{x}
  {
    var i :| 0 <= i < |s| && s[i] == x;
    rest := s[..i] + s[i + 1..];
    assert s == s[..i] + [x] + s[i + 1..];
    TakenFrom(s[..i], x, s[i + 1..]);
  }

  lemma TwoAndRest<T>(x: T, y: T, rest: seq<T>)
    ensures multiset([x, y] + rest) == multiset(rest) + multiset{y} + multiset{x}
  {
  }

  /** The rows with two given ones in front, in either order. */
  lemma TwoInFront<T>(s: seq<T>, x: T, y: T) returns (rest: seq<T>)
    requires x in s && y in s && x != y
    ensures multiset([x, y] + rest) == multiset(s) == multiset([y, x] + rest)
  {
    var others := InFront(s, x);
    assert y in multiset(s);
    assert y in multiset(others);
    rest := InFront(others, y);
    TwoAndRest(x, y, rest);
    TwoAndRest(y, x, rest);
  }

  lemma TwoHeadsInFront(x: Row, y: Row, rest: seq<Row>)
    requires OwnBubbles(x.prompt) == [] && OwnBubbles(y.prompt) == []
    ensures Heads([x, y] + rest) == [x, y] + Heads(rest) && FollowUpsOf([x, y] + rest) == FollowUpsOf(rest)
  {
    hide OwnBubbles, Heads, FollowUpsOf;
    ReadsOne(x);
    ReadsOne(y);
    assert [x, y] == [x] + [y];
    ReadsAppend([x], [y]);
    ReadsAppend([x, y], rest);
    AppendEmpty(FollowUpsOf(rest));
  }

  /** The merge sees only the keys of the heads. */
  ghost predicate SameKeys(a: seq<Row>, b: seq<Row>) {
    |a| == |b| && forall i | 0 <= i < |a| :: KeyOf(a[i]) == KeyOf(b[i])
  }

  lemma {:induction false} SameHeadAt(a: seq<Row>, b: seq<Row>, key: HeadKey)
    requires SameKeys(a, b)
    ensures HeadAt(a, key) == HeadAt(b, key)
  {
    hide KeyOf;
    if a != [] {
      SameHeadAt(a[..|a| - 1], b[..|b| - 1], key);
    }
  }

  lemma {:induction false} SameFold(a: seq<Row>, b: seq<Row>, fs: seq<FollowUp>)
    requires SameKeys(a, b)
    ensures FoldAll(a, fs) == FoldAll(b, fs)
  {
    if fs == [] {
      assert Completions(a) == Completions(b) by {
        assert forall i | 0 <= i < |a| :: KeyOf(a[i]).1 == a[i].completion && KeyOf(b[i]).1 == b[i].completion;
      }
    } else {
      hide Fits, HeadAt, SameKeys;
      var f := fs[|fs| - 1];
      SameFold(a, b, fs[..|fs| - 1]);
      SameHeadAt(a, b, (f.incoming, f.first));
    }
  }

  lemma {:induction false} FirstHeadIsFound(heads: seq<Row>)
    requires heads != []
    ensures HeadAt(heads, KeyOf(heads[0])) == Some(0)
  {
    hide KeyOf;
    if |heads| > 1 {
      FirstHeadIsFound(heads[..|heads| - 1]);
    } else {
      assert heads[..0] == [];
    }
  }

  lemma {:induction false} InFor(heads: seq<Row>, fs: seq<FollowUp>, f: FollowUp, i: nat)
    requires f in fs && HeadFor(heads, f) == Some(i)
    ensures f in For(heads, fs, i)
  {
    hide HeadFor;
    if f in fs[..|fs| - 1] {
      InFor(heads, fs[..|fs| - 1], f, i);
    } else {
      assert f == fs[|fs| - 1];
    }
  }

  lemma {:induction false} SecondInFollows(xs: seq<Exchange>, m: nat)
    requires AllValid(xs) && m < |xs| && Several(xs[m])
    ensures Follow(xs[m], 1) in Follows(xs)
  {
    hide Follow, Chain;
    if m < |xs| - 1 {
      SecondInFollows(xs[..|xs| - 1], m);
    } else {
      ChainAt(xs[m], |xs[m].bubbles|, 1);
      assert Chain(xs[m], |xs[m].bubbles|)[0] in Chain(xs[m], |xs[m].bubbles|);
    }
  }

  /** Of two heads with the key of a split reply, the first gets longer and the second stays. */
  lemma FirstGrows(xs: seq<Exchange>, rows: seq<Row>, m: nat)
    requires AllValid(xs) && ShuffleOf(rows, xs) && Merged(rows).dropped == [] && m < |xs| && Several(xs[m])
    requires |Heads(rows)| >= 2 && KeyOf(Heads(rows)[0]) == KeyOf(Heads(rows)[1]) == KeyOfExchange(xs[m])
    ensures Merged(rows).texts[0] != Merged(rows).texts[1]
  {
    hide Heads, FollowUpsOf, Follows, For, Reply, Continues, ShuffleOf, Merged, FirstRows, Valid, HeadAt;
    var heads := Heads(rows);
    var first := AllInTheirReplies(xs, rows, 0);
    var second := AllInTheirReplies(xs, rows, 1);
    FirstHeadIsFound(heads);
    SecondInFollows(xs, m);
    InFor(heads, Follows(xs), Follow(xs[m], 1), 0);
    assert Follow(xs[m], 1) in multiset(first);
    ReplyGrows(heads[0].completion, first);
    assert forall f | f in Follows(xs) :: HeadFor(heads, f) == HeadAt(heads, (f.incoming, f.first)) != Some(1);
    ForNone(heads, Follows(xs), 1);
    EmptyPermutation([], second);
    NothingAdded(heads[1].completion);
  }

  lemma TextPerHead(rows: seq<Row>)
    ensures |Merged(rows).texts| == |Heads(rows)|
  {
  }

  lemma AnswersOfTwo(x: Row, y: Row, rest: seq<Row>, texts: seq<string>)
    requires |texts| == |rest| + 2
    ensures Answers([x, y] + rest, texts) ==
      [Row(x.prompt, texts[0]), Row(y.prompt, texts[1])] + Answers(rest, texts[2..])
  {
    var heads := [x, y] + rest;
    assert forall i | 0 <= i < |rest| :: heads[i + 2] == rest[i] && texts[2..][i] == texts[i + 2];
  }

  lemma Crossed(x: string, y: string, t: string, u: string, rest: seq<Row>)
    requires x != y && t != u
    ensures multiset([Row(x, t), Row(y, u)] + rest) != multiset([Row(y, t), Row(x, u)] + rest)
  {
    var a, b := [Row(x, t), Row(y, u)], [Row(y, t), Row(x, u)];
    assert multiset(a + rest)[Row(x, t)] == 1 + multiset(rest)[Row(x, t)];
    assert multiset(b + rest)[Row(x, t)] == multiset(rest)[Row(x, t)];
  }

  /** With its key in two contexts, a reply of several bubbles ends up in the wrong one for some order of the rows. */
  lemma WrongContext(xs: seq<Exchange>, m: nat, m': nat) returns (rows: seq<Row>)
    requires AllValid(xs) && m < |xs| && m' < |xs| && Several(xs[m])
    requires KeyOfExchange(xs[m]) == KeyOfExchange(xs[m']) && xs[m].context != xs[m'].context
    ensures ShuffleOf(rows, xs) && !MergesBack(rows, xs)
  {
    hide Heads, FollowUpsOf, Corpus, Merged, OwnBubbles, Incoming, WholeRows, FoldAll, Answers;
    var x, y := FirstRow(xs[m]), FirstRow(xs[m']);
    FirstRowIsHead(xs[m]);
    FirstRowIsHead(xs[m']);
    FirstRowInCorpus(xs, m);
    FirstRowInCorpus(xs, m');
    var rest := TwoInFront(Corpus(xs), x, y);
    var one, other := [x, y] + rest, [y, x] + rest;
    TwoHeadsInFront(x, y, rest);
    TwoHeadsInFront(y, x, rest);
    SwappedMerge(x, y, rest);
    var texts := Merged(one).texts;
    TextPerHead(one);
    AnswersOfTwo(x, y, Heads(rest), texts);
    AnswersOfTwo(y, x, Heads(rest), texts);
    if Merged(one).dropped == [] {
      FirstGrows(xs, one, m);
      Crossed(x.prompt, y.prompt, texts[0], texts[1], Answers(Heads(rest), texts[2..]));
    }
    rows := if MergesBack(one, xs) then other else one;
  }

  lemma SwappedMerge(x: Row, y: Row, rest: seq<Row>)
    requires OwnBubbles(x.prompt) == [] && OwnBubbles(y.prompt) == [] && KeyOf(x) == KeyOf(y)
    ensures Merged([x, y] + rest) == Merged([y, x] + rest)
  {
    hide Heads, FollowUpsOf, FoldAll, KeyOf, OwnBubbles, Sort;
    TwoHeadsInFront(x, y, rest);
    TwoHeadsInFront(y, x, rest);
    SameFold([x, y] + Heads(rest), [y, x] + Heads(rest), Sort(NoLonger, FollowUpsOf(rest)));
  }

  /** Every order of the rows merges back into the replies, exactly when of the replies that start alike only one has
      several bubbles, and the others, if there is such a one, answer its context. */
  lemma MergesBackIff(xs: seq<Exchange>)
    requires AllValid(xs)
    ensures (forall rows | ShuffleOf(rows, xs) :: MergesBack(rows, xs)) <==>
      OneSplitPerKey(xs) && OneContextPerSplit(xs)
  {
    hide ShuffleOf, Valid, KeyOfExchange, MergesBack;
    if !OneSplitPerKey(xs) {
      InOrder(xs);
      NoneDroppedIff(xs, Corpus(xs));
      LostIsNotBack(Corpus(xs), xs);
    } else if !OneContextPerSplit(xs) {
      var m, m' :| 0 <= m < |xs| && 0 <= m' < |xs| && KeyOfExchange(xs[m]) == KeyOfExchange(xs[m'])
        && Several(xs[m]) && xs[m].context != xs[m'].context;
      var rows := WrongContext(xs, m, m');
    } else {
      forall rows | ShuffleOf(rows, xs) ensures MergesBack(rows, xs) {
        MergeUndoesSplitting(xs, rows);
      }
    }
  }

  lemma InOrder(xs: seq<Exchange>)
    ensures ShuffleOf(Corpus(xs), xs)
  {
  }

  lemma LostIsNotBack(rows: seq<Row>, xs: seq<Exchange>)
    requires Merged(rows).dropped != []
    ensures !MergesBack(rows, xs)
  {
  }
}
