/** Merging undoes splitting: a corpus of one-bubble rows, in any order, yields the whole replies again. */
module WholeReplies {
  import opened Sequences
  import opened Wrappers
  import opened Lines
  import opened FollowUps

  /** A reply of one or more bubbles to a context. The rows of later bubbles may show more or less of the history above
      the incoming line, or label it: they stand under the contexts in `later`, as far as there are any. */
  datatype Exchange = Exchange(context: string, later: seq<string>, bubbles: seq<string>) {
    function ContextAt(k: nat): string { if 0 < k <= |later| then later[k - 1] else context }
  }

  /** Only the last bubble may hold a newline: the others must be read back from one line of a prompt each. */
  ghost predicate Valid(x: Exchange) {
    && x.bubbles != [] && NoNewlines(x.bubbles[..|x.bubbles| - 1])
    && forall k: nat | k < |x.bubbles| ::
         OwnBubbles(x.ContextAt(k)) == [] && Incoming(x.ContextAt(k)) == Incoming(x.context)
  }

  predicate Several(x: Exchange) {
    |x.bubbles| > 1
  }

  /** A context with own bubbles below it. */
  ghost function Under(context: string, bubbles: seq<string>): string {
    if bubbles == [] then context else
    Under(context, bubbles[..|bubbles| - 1]) + "\n" + (OWN + bubbles[|bubbles| - 1])
  }

  /** The prompt under which bubble k is a completion: its context and the bubbles before it. */
  ghost function PromptOf(x: Exchange, k: nat): string
    requires k <= |x.bubbles|
  {
    Under(x.ContextAt(k), x.bubbles[..k])
  }

  /** One row for each of the first n bubbles. */
  ghost function RowsOf(x: Exchange, n: nat): seq<Row>
    requires n <= |x.bubbles|
  {
    if n == 0 then [] else RowsOf(x, n - 1) + [Row(PromptOf(x, n - 1), x.bubbles[n - 1])]
  }

  ghost function Corpus(xs: seq<Exchange>): seq<Row> {
    if xs == [] then [] else
    Corpus(xs[..|xs| - 1]) + RowsOf(xs[|xs| - 1], |xs[|xs| - 1].bubbles|)
  }

  // ----- reading the prompts of an exchange -----

  lemma BubblesAppend(lines: seq<string>, b: string)
    ensures Bubbles(lines + [OWN + b]) == Bubbles(lines) + [b]
    ensures BeforeBubbles(lines + [OWN + b]) == BeforeBubbles(lines)
  {
  }

  lemma ReadsNext(text: string, b: string)
    requires '\n' !in b
    ensures OwnBubbles(text + "\n" + (OWN + b)) == OwnBubbles(text) + [b]
    ensures Incoming(text + "\n" + (OWN + b)) == Incoming(text)
  {
    hide Split, Bubbles, BeforeBubbles, LineText;
    assert '\n' !in OWN + b;
    SplitOfLast(text, OWN + b);
    BubblesAppend(Split(text), b);
  }

  lemma {:induction false} UnderReads(context: string, bubbles: seq<string>)
    requires OwnBubbles(context) == [] && NoNewlines(bubbles)
    ensures OwnBubbles(Under(context, bubbles)) == bubbles && Incoming(Under(context, bubbles)) == Incoming(context)
  {
    hide OwnBubbles, Incoming;
    if bubbles != [] {
      var earlier, b := bubbles[..|bubbles| - 1], bubbles[|bubbles| - 1];
      UnderReads(context, earlier);
      ReadsNext(Under(context, earlier), b);
      assert bubbles == earlier + [b];
    }
  }

  lemma PromptReads(x: Exchange, k: nat)
    requires Valid(x) && k < |x.bubbles|
    ensures OwnBubbles(PromptOf(x, k)) == x.bubbles[..k]
    ensures Incoming(PromptOf(x, k)) == Incoming(x.context)
  {
    hide OwnBubbles, Incoming, Under;
    var earlier := x.bubbles[..|x.bubbles| - 1];
    assert forall j | 0 <= j < k :: x.bubbles[..k][j] == earlier[j];
    UnderReads(x.ContextAt(k), x.bubbles[..k]);
  }

  ghost function FirstRow(x: Exchange): Row
    requires x.bubbles != []
  {
    Row(x.context, x.bubbles[0])
  }

  ghost function Follow(x: Exchange, k: nat): FollowUp
    requires 0 < k < |x.bubbles|
  {
    FollowUp(Incoming(x.context), x.bubbles[0], x.bubbles[1..k], x.bubbles[k])
  }

  /** The follow-ups among the rows of the first n bubbles. */
  ghost function Chain(x: Exchange, n: nat): seq<FollowUp>
    requires n <= |x.bubbles|
  {
    if n <= 1 then [] else Chain(x, n - 1) + [Follow(x, n - 1)]
  }

  lemma ReadsSnoc(rows: seq<Row>, row: Row)
    ensures FollowUpsOf(rows + [row]) == FollowUpsOf(rows) + FollowPart(row)
    ensures Heads(rows + [row]) == Heads(rows) + HeadPart(row)
  {
  }

  lemma {:induction false} ReadsAppend(a: seq<Row>, b: seq<Row>)
    ensures FollowUpsOf(a + b) == FollowUpsOf(a) + FollowUpsOf(b)
    ensures Heads(a + b) == Heads(a) + Heads(b)
  {
    if b == [] {
      assert a + b == a;
    } else {
      hide HeadPart, FollowPart, FollowUpsOf, Heads;
      var front, last := b[..|b| - 1], b[|b| - 1];
      ReadsAppend(a, front);
      assert b == front + [last];
      Associative(a, front, [last]);
      ReadsSnoc(a + front, last);
      ReadsSnoc(front, last);
      Associative(FollowUpsOf(a), FollowUpsOf(front), FollowPart(last));
      Associative(Heads(a), Heads(front), HeadPart(last));
    }
  }

  lemma ReadsOne(row: Row)
    ensures FollowUpsOf([row]) == FollowPart(row) && Heads([row]) == HeadPart(row)
  {
  }

  lemma FollowRead(x: Exchange, n: nat)
    requires 1 < n <= |x.bubbles|
    ensures var earlier := x.bubbles[..n - 1];
      FollowUp(Incoming(x.context), earlier[0], earlier[1..], x.bubbles[n - 1]) == Follow(x, n - 1)
  {
  }

  lemma RowReads(x: Exchange, k: nat)
    requires Valid(x) && k < |x.bubbles|
    ensures var row := Row(PromptOf(x, k), x.bubbles[k]);
      if k == 0 then FollowUpsOf([row]) == [] && Heads([row]) == [FirstRow(x)]
      else FollowUpsOf([row]) == [Follow(x, k)] && Heads([row]) == []
  {
    hide OwnBubbles, Incoming, FollowUpsOf, Heads, Follow;
    var row := Row(PromptOf(x, k), x.bubbles[k]);
    PromptReads(x, k);
    ReadsOne(row);
    if k > 0 {
      assert x.bubbles[..k] != [];
      FollowRead(x, k + 1);
    }
  }

  lemma AppendEmpty<T>(s: seq<T>)
    ensures s + [] == s && [] + s == s
  {
  }

  lemma FirstRowReads(x: Exchange)
    requires Valid(x)
    ensures FollowUpsOf(RowsOf(x, 1)) == Chain(x, 1) && Heads(RowsOf(x, 1)) == [FirstRow(x)]
  {
  }

  lemma NextRowReads(x: Exchange, n: nat)
    requires Valid(x) && 0 < n < |x.bubbles|
    requires FollowUpsOf(RowsOf(x, n)) == Chain(x, n) && Heads(RowsOf(x, n)) == [FirstRow(x)]
    ensures FollowUpsOf(RowsOf(x, n + 1)) == Chain(x, n + 1) && Heads(RowsOf(x, n + 1)) == [FirstRow(x)]
  {
    hide OwnBubbles, Incoming, FollowUpsOf, Heads, Follow, PromptOf, FirstRow, Valid;
    var row := [Row(PromptOf(x, n), x.bubbles[n])];
    RowReads(x, n);
    ReadsAppend(RowsOf(x, n), row);
    AppendEmpty(Heads(RowsOf(x, n)));
  }

  lemma {:induction false} RowsOfReads(x: Exchange, n: nat)
    requires Valid(x) && 0 < n <= |x.bubbles|
    ensures FollowUpsOf(RowsOf(x, n)) == Chain(x, n)
    ensures Heads(RowsOf(x, n)) == [FirstRow(x)]
  {
    hide FollowUpsOf, Heads, Chain, RowsOf, FirstRow, Valid;
    if n == 1 {
      FirstRowReads(x);
    } else {
      RowsOfReads(x, n - 1);
      NextRowReads(x, n - 1);
    }
  }

  /** Where the last element of a stands in a permutation of a. */
  lemma TakeOut<T>(a: seq<T>, b: seq<T>) returns (p: seq<T>, q: seq<T>)
    requires a != [] && multiset(a) == multiset(b)
    ensures b == p + [a[|a| - 1]] + q && multiset(a[..|a| - 1]) == multiset(p + q)
  {
    var front, x := a[..|a| - 1], a[|a| - 1];
    assert a == front + [x] + [] && front + [] == front;
    assert x in multiset(a);
    var j :| 0 <= j < |b| && b[j] == x;
    p, q := b[..j], b[j + 1..];
    assert b == p + [x] + q;
    TakenFrom(front, x, []);
    TakenFrom(p, x, q);
    SameRest(multiset(front), multiset(p + q), multiset{x});
  }

  /** What is read from rows does not depend on their order. */
  lemma {:induction false} ReadsPermuted(a: seq<Row>, b: seq<Row>)
    requires multiset(a) == multiset(b)
    ensures multiset(FollowUpsOf(a)) == multiset(FollowUpsOf(b))
    ensures multiset(Heads(a)) == multiset(Heads(b))
    decreases |a|
  {
    hide FollowUpsOf, Heads;
    if a == [] {
      EmptyPermutation(a, b);
    } else {
      var front, x := a[..|a| - 1], a[|a| - 1];
      var p, q := TakeOut(a, b);
      ReadsPermuted(front, p + q);
      assert a == front + [x];
      ReadsAppend(front, [x]);
      ReadsAppend(p, q);
      ReadsAppend(p + [x], q);
      ReadsAppend(p, [x]);
    }
  }

  lemma {:induction false} ForAppend(heads: seq<Row>, a: seq<FollowUp>, b: seq<FollowUp>, i: nat)
    ensures For(heads, a + b, i) == For(heads, a, i) + For(heads, b, i)
  {
    if b == [] {
      assert a + b == a;
    } else {
      var front, last := b[..|b| - 1], b[|b| - 1];
      ForAppend(heads, a, front, i);
      assert (a + b)[..|a + b| - 1] == a + front && (a + b)[|a + b| - 1] == last;
    }
  }

  lemma {:induction false} ForPermuted(heads: seq<Row>, a: seq<FollowUp>, b: seq<FollowUp>, i: nat)
    requires multiset(a) == multiset(b)
    ensures multiset(For(heads, a, i)) == multiset(For(heads, b, i))
    decreases |a|
  {
    hide For;
    if a == [] {
      EmptyPermutation(a, b);
    } else {
      var front, x := a[..|a| - 1], a[|a| - 1];
      var p, q := TakeOut(a, b);
      ForPermuted(heads, front, p + q, i);
      assert a == front + [x];
      ForAppend(heads, front, [x], i);
      ForAppend(heads, p, q, i);
      ForAppend(heads, p + [x], q, i);
      ForAppend(heads, p, [x], i);
    }
  }

  // ----- shuffled corpora -----

  ghost predicate AllValid(xs: seq<Exchange>) {
    forall m | 0 <= m < |xs| :: Valid(xs[m])
  }

  ghost function KeyOfExchange(x: Exchange): HeadKey
    requires Valid(x)
  {
    KeyOf(FirstRow(x))
  }

  /** Of the replies that start with the same bubble below the same incoming line, one at most has several bubbles. */
  ghost predicate OneSplitPerKey(xs: seq<Exchange>)
    requires AllValid(xs)
  {
    forall m, m' | 0 <= m < |xs| && 0 <= m' < |xs| && KeyOfExchange(xs[m]) == KeyOfExchange(xs[m']) ::
      Several(xs[m]) && Several(xs[m']) ==> m == m'
  }

  /** And all of them answer the context which that one answers. */
  ghost predicate OneContextPerSplit(xs: seq<Exchange>)
    requires AllValid(xs)
  {
    forall m, m' | 0 <= m < |xs| && 0 <= m' < |xs| && KeyOfExchange(xs[m]) == KeyOfExchange(xs[m']) ::
      Several(xs[m]) ==> xs[m].context == xs[m'].context
  }

  ghost predicate ShuffleOf(rows: seq<Row>, xs: seq<Exchange>) {
    multiset(rows) == multiset(Corpus(xs))
  }

  ghost function FirstRows(xs: seq<Exchange>): (r: seq<Row>)
    requires AllValid(xs)
    ensures |r| == |xs|
  {
    if xs == [] then [] else FirstRows(xs[..|xs| - 1]) + [FirstRow(xs[|xs| - 1])]
  }

  ghost function Follows(xs: seq<Exchange>): seq<FollowUp>
    requires AllValid(xs)
  {
    if xs == [] then [] else Follows(xs[..|xs| - 1]) + Chain(xs[|xs| - 1], |xs[|xs| - 1].bubbles|)
  }

  lemma {:induction false} CorpusReads(xs: seq<Exchange>)
    requires AllValid(xs)
    ensures Heads(Corpus(xs)) == FirstRows(xs) && FollowUpsOf(Corpus(xs)) == Follows(xs)
  {
    if xs != [] {
      hide FollowUpsOf, Heads, Chain, RowsOf, FirstRow, Valid;
      var last := xs[|xs| - 1];
      CorpusReads(xs[..|xs| - 1]);
      RowsOfReads(last, |last.bubbles|);
      ReadsAppend(Corpus(xs[..|xs| - 1]), RowsOf(last, |last.bubbles|));
    }
  }

  lemma {:induction false} FirstRowsAt(xs: seq<Exchange>, m: nat)
    requires AllValid(xs) && m < |xs|
    ensures FirstRows(xs)[m] == FirstRow(xs[m])
  {
    if m < |xs| - 1 {
      FirstRowsAt(xs[..|xs| - 1], m);
    }
  }

  lemma {:induction false} HeadAtFinds(heads: seq<Row>, j: nat)
    requires j < |heads|
    ensures HeadAt(heads, KeyOf(heads[j])).Some?
  {
    hide KeyOf;
    if j < |heads| - 1 {
      HeadAtFinds(heads[..|heads| - 1], j);
    }
  }

  /** Head i of a shuffled corpus is where the merge finds reply m, which has several bubbles. */
  ghost predicate Owns(heads: seq<Row>, xs: seq<Exchange>, m: nat, i: nat)
    requires AllValid(xs)
  {
    && OneSplitPerKey(xs) && multiset(heads) == multiset(FirstRows(xs))
    && m < |xs| && Several(xs[m]) && HeadAt(heads, KeyOfExchange(xs[m])) == Some(i)
  }

  /** Every reply of a shuffled corpus has a head with its key. */
  lemma HeadIndex(heads: seq<Row>, xs: seq<Exchange>, m: nat) returns (i: nat)
    requires AllValid(xs) && m < |xs| && multiset(heads) == multiset(FirstRows(xs))
    ensures i < |heads| && HeadAt(heads, KeyOfExchange(xs[m])) == Some(i)
  {
    hide HeadAt, KeyOf, Valid, FirstRows;
    FirstRowsAt(xs, m);
    var j := SameElements(FirstRows(xs), heads, m);
    HeadAtFinds(heads, j);
    i := HeadAt(heads, KeyOfExchange(xs[m])).value;
  }

  /** Two replies' follow-ups never belong to the same head. */
  lemma HeadForFollow(heads: seq<Row>, xs: seq<Exchange>, m: nat, i: nat, m': nat, k: nat)
    requires AllValid(xs) && m' < |xs| && Owns(heads, xs, m, i)
    requires 0 < k < |xs[m'].bubbles|
    ensures HeadFor(heads, Follow(xs[m'], k)) == Some(i) <==> m' == m
  {
  }

  lemma {:induction false} ForChain(heads: seq<Row>, xs: seq<Exchange>, m: nat, i: nat, m': nat, n: nat)
    requires AllValid(xs) && m' < |xs| && Owns(heads, xs, m, i)
    requires n <= |xs[m'].bubbles|
    ensures For(heads, Chain(xs[m'], n), i) == if m' == m then Chain(xs[m'], n) else []
  {
    if n > 1 {
      var earlier, f := Chain(xs[m'], n - 1), Follow(xs[m'], n - 1);
      assert Chain(xs[m'], n) == earlier + [f];
      hide HeadFor, Valid, Follow, Owns, Chain, For;
      ForChain(heads, xs, m, i, m', n - 1);
      HeadForFollow(heads, xs, m, i, m', n - 1);
      ForNext(heads, earlier, f, i);
    }
  }

  lemma ForFollowsNext(heads: seq<Row>, xs: seq<Exchange>, m: nat, i: nat, p: nat)
    requires AllValid(xs) && p < |xs| && m < |xs| && Owns(heads, xs, m, i)
    ensures p == m ==>
      For(heads, Follows(xs[..p + 1]), i) == For(heads, Follows(xs[..p]), i) + Chain(xs[m], |xs[m].bubbles|)
    ensures p != m ==>
      For(heads, Follows(xs[..p + 1]), i) == For(heads, Follows(xs[..p]), i)
  {
    hide Owns, Valid, Chain, For, Follows;
    var last := Chain(xs[p], |xs[p].bubbles|);
    FollowsNext(xs, p);
    ForAppend(heads, Follows(xs[..p]), last, i);
    ForChain(heads, xs, m, i, p, |xs[p].bubbles|);
    AppendEmpty(For(heads, Follows(xs[..p]), i));
  }

  lemma {:induction false} ForFollowsBefore(heads: seq<Row>, xs: seq<Exchange>, m: nat, i: nat, p: nat)
    requires AllValid(xs) && p <= m < |xs| && Owns(heads, xs, m, i)
    ensures For(heads, Follows(xs[..p]), i) == []
  {
    hide Owns, Valid, Chain, HeadFor;
    if p == 0 {
      assert xs[..0] == [];
    } else {
      hide For, Follows;
      ForFollowsBefore(heads, xs, m, i, p - 1);
      ForFollowsNext(heads, xs, m, i, p - 1);
    }
  }

  lemma {:induction false} ForFollows(heads: seq<Row>, xs: seq<Exchange>, m: nat, i: nat, p: nat)
    requires AllValid(xs) && m < p <= |xs| && Owns(heads, xs, m, i)
    ensures For(heads, Follows(xs[..p]), i) == Chain(xs[m], |xs[m].bubbles|)
  {
    hide Owns, Valid, Chain, For, Follows;
    ForFollowsNext(heads, xs, m, i, p - 1);
    if m < p - 1 {
      ForFollows(heads, xs, m, i, p - 1);
    } else {
      ForFollowsBefore(heads, xs, m, i, p - 1);
      AppendEmpty(Chain(xs[m], |xs[m].bubbles|));
    }
  }

  lemma FollowsNext(xs: seq<Exchange>, p: nat)
    requires AllValid(xs) && p < |xs|
    ensures Follows(xs[..p + 1]) == Follows(xs[..p]) + Chain(xs[p], |xs[p].bubbles|)
  {
    assert xs[..p + 1][..p] == xs[..p];
  }

  // ----- the order of folding -----

  ghost predicate Sorted(fs: seq<FollowUp>) {
    forall i, j | 0 <= i < j < |fs| :: |fs[i].rest| <= |fs[j].rest|
  }

  ghost predicate StrictlySorted(fs: seq<FollowUp>) {
    forall i, j | 0 <= i < j < |fs| :: |fs[i].rest| < |fs[j].rest|
  }

  lemma {:induction false} InsertSorted(f: FollowUp, sorted: seq<FollowUp>)
    requires Sorted(sorted)
    ensures Sorted(Insert(NoLonger, f, sorted))
    ensures forall g | g in Insert(NoLonger, f, sorted) :: g == f || g in sorted
  {
    if sorted != [] && |f.rest| > |sorted[0].rest| {
      InsertSorted(f, sorted[1..]);
      var out := Insert(NoLonger, f, sorted[1..]);
      assert forall j | 0 <= j < |out| :: out[j] in out;
    }
  }

  lemma {:induction false} SortSorted(fs: seq<FollowUp>)
    ensures Sorted(Sort(NoLonger, fs))
  {
    if fs != [] {
      SortSorted(fs[1..]);
      InsertSorted(fs[0], Sort(NoLonger, fs[1..]));
    }
  }

  lemma {:induction false} ForSorted(heads: seq<Row>, fs: seq<FollowUp>, i: nat)
    requires Sorted(fs)
    ensures Sorted(For(heads, fs, i))
    ensures forall f | f in For(heads, fs, i) :: f in fs
  {
    hide HeadFor;
    if fs != [] {
      var front := fs[..|fs| - 1];
      ForSorted(heads, front, i);
      var out := For(heads, front, i);
      assert forall j | 0 <= j < |out| :: out[j] in out;
    }
  }

  /** Sorting leaves no choice when all keys differ. */
  lemma {:induction false} SortedIsUnique(a: seq<FollowUp>, b: seq<FollowUp>)
    requires Sorted(a) && StrictlySorted(b) && multiset(a) == multiset(b)
    ensures a == b
    decreases |a|
  {
    if a == [] {
      EmptyPermutation(a, b);
    } else {
      var j := SameElements(a, b, 0);
      var k := SameElements(b, a, 0);
      assert |a[0].rest| <= |a[k].rest| == |b[0].rest|;
      assert j == 0;
      TailPermutation(a, b);
      SortedIsUnique(a[1..], b[1..]);
    }
  }

  lemma {:induction false} ChainAt(x: Exchange, n: nat, k: nat)
    requires 0 < k < n <= |x.bubbles|
    ensures |Chain(x, n)| == n - 1
    ensures Chain(x, n)[k - 1] == Follow(x, k) && Chain(x, n)[..k - 1] == Chain(x, k)
  {
    hide Follow;
    if k < n - 1 {
      ChainAt(x, n - 1, k);
      assert Chain(x, n)[..k - 1] == Chain(x, n - 1)[..k - 1];
    } else if n > 2 {
      ChainAt(x, n - 1, 1);
    }
  }

  lemma ChainSorted(x: Exchange, n: nat)
    requires 0 < n <= |x.bubbles|
    ensures StrictlySorted(Chain(x, n))
  {
    var c := Chain(x, n);
    forall i, j | 0 <= i < j < |c| ensures |c[i].rest| < |c[j].rest| {
      ChainAt(x, n, 1);
      ChainAt(x, n, i + 1);
      ChainAt(x, n, j + 1);
    }
  }

  /** In a sorted shuffle, the follow-ups of a reply come exactly in the order of its bubbles. */
  lemma OrderedFollows(heads: seq<Row>, xs: seq<Exchange>, fs: seq<FollowUp>, m: nat, i: nat)
    requires AllValid(xs) && m < |xs| && Owns(heads, xs, m, i)
    requires multiset(fs) == multiset(Follows(xs)) && Sorted(fs)
    ensures For(heads, fs, i) == Chain(xs[m], |xs[m].bubbles|)
  {
    hide Owns, Chain, For, Follows;
    ForFollows(heads, xs, m, i, |xs|);
    assert xs[..|xs|] == xs;
    ForPermuted(heads, fs, Follows(xs), i);
    ForSorted(heads, fs, i);
    ChainSorted(xs[m], |xs[m].bubbles|);
    SortedIsUnique(For(heads, fs, i), Chain(xs[m], |xs[m].bubbles|));
  }

  // ----- the whole replies -----

  lemma JoinSnoc(a: seq<string>, b: string)
    requires a != []
    ensures Join(a + [b]) == Join(a) + "\n" + b
  {
    hide Join, Ended;
    JoinAppend(a, [b]);
    JoinThenEnd(a);
    JoinOne(b);
  }

  lemma JoinOne(b: string)
    ensures Join([b]) == b
  {
  }

  lemma {:induction false} ReplyOfChain(x: Exchange, n: nat)
    requires Valid(x) && 0 < n <= |x.bubbles|
    ensures Reply(x.bubbles[0], Chain(x, n)) == Join(x.bubbles[..n])
  {
    hide Join;
    if n == 1 {
      assert x.bubbles[..1] == [x.bubbles[0]];
      JoinOne(x.bubbles[0]);
    } else {
      ReplyOfChain(x, n - 1);
      assert x.bubbles[..n] == x.bubbles[..n - 1] + [x.bubbles[n - 1]];
      JoinSnoc(x.bubbles[..n - 1], x.bubbles[n - 1]);
      ReplyNext(x.bubbles[0], Chain(x, n - 1), Follow(x, n - 1));
    }
  }

  lemma FollowFits(x: Exchange, k: nat)
    requires Valid(x) && 0 < k < |x.bubbles|
    ensures Fits(Reply(x.bubbles[0], Chain(x, k)), Follow(x, k))
  {
    hide Join, Reply;
    ReplyOfChain(x, k);
    assert Follow(x, k).Bubbles() == x.bubbles[..k];
  }

  lemma {:induction false} InFollows(xs: seq<Exchange>, f: FollowUp) returns (m: nat)
    requires AllValid(xs) && f in Follows(xs)
    ensures m < |xs| && exists k | 0 < k < |xs[m].bubbles| :: f == Follow(xs[m], k)
  {
    var last := xs[|xs| - 1];
    if f in Follows(xs[..|xs| - 1]) {
      m := InFollows(xs[..|xs| - 1], f);
    } else {
      m := |xs| - 1;
      var j :| 0 <= j < |Chain(last, |last.bubbles|)| && Chain(last, |last.bubbles|)[j] == f;
      if |last.bubbles| > 1 {
        ChainAt(last, |last.bubbles|, 1);
        ChainAt(last, |last.bubbles|, j + 1);
      }
    }
  }

  /** The follow-up whose turn it is continues what its reply has become so far. */
  lemma TurnFits(heads: seq<Row>, xs: seq<Exchange>, earlier: seq<FollowUp>, f: FollowUp, later: seq<FollowUp>,
                 m: nat, i: nat)
    requires AllValid(xs) && m < |xs| && Owns(heads, xs, m, i) && HeadFor(heads, f) == Some(i)
    requires For(heads, earlier + [f] + later, i) == Chain(xs[m], |xs[m].bubbles|)
    requires Taken(heads, earlier) == earlier
    ensures Fits(FoldAll(heads, earlier).texts[i], f)
  {
    hide Owns, Chain, For, Fits, Reply, FoldAll, Taken, HeadFor, Follow;
    var x := xs[m];
    OwnedRow(heads, xs, m, i);
    ForAppend(heads, earlier + [f], later, i);
    ForNext(heads, earlier, f, i);
    TextsAreReplies(heads, earlier, i);
    var n, k := |x.bubbles|, |For(heads, earlier, i)| + 1;
    ChainLength(x, n);
    ChainAt(x, n, k);
    Middle(For(heads, earlier, i), f, For(heads, later, i), Chain(x, n));
    FollowFits(x, k);
  }

  lemma OwnedRow(heads: seq<Row>, xs: seq<Exchange>, m: nat, i: nat)
    requires AllValid(xs) && m < |xs| && Owns(heads, xs, m, i)
    ensures i < |heads| && heads[i].completion == xs[m].bubbles[0]
  {
  }

  lemma {:induction false} ChainLength(x: Exchange, n: nat)
    requires 0 < n <= |x.bubbles|
    ensures |Chain(x, n)| == n - 1
  {
    if n > 1 {
      ChainAt(x, n, 1);
    }
  }

  lemma Middle<T>(a: seq<T>, x: T, b: seq<T>, whole: seq<T>)
    requires whole == a + [x] + b
    ensures whole[|a|] == x && whole[..|a|] == a
  {
  }

  lemma FoundIsOwned(heads: seq<Row>, xs: seq<Exchange>, m: nat, i: nat)
    requires AllValid(xs) && OneSplitPerKey(xs) && multiset(heads) == multiset(FirstRows(xs))
    requires m < |xs| && Several(xs[m]) && HeadAt(heads, KeyOfExchange(xs[m])) == Some(i)
    ensures Owns(heads, xs, m, i)
  {
  }

  /** In a sorted shuffle every follow-up has a head, and fits there when its turn comes. */
  lemma TurnOf(heads: seq<Row>, xs: seq<Exchange>, fs: seq<FollowUp>, p: nat) returns (i: nat)
    requires AllValid(xs) && OneSplitPerKey(xs) && multiset(heads) == multiset(FirstRows(xs))
    requires multiset(fs) == multiset(Follows(xs)) && Sorted(fs) && p < |fs|
    requires Taken(heads, fs[..p]) == fs[..p]
    ensures i < |heads| && HeadFor(heads, fs[p]) == Some(i) && Fits(FoldAll(heads, fs[..p]).texts[i], fs[p])
  {
    hide Owns, Chain, For, Fits, FoldAll, Taken, HeadFor, Follow, Follows, FirstRows, OneSplitPerKey, Sorted, Valid;
    var j := SameElements(fs, Follows(xs), p);
    var m := InFollows(xs, fs[p]);
    i := HeadIndex(heads, xs, m);
    var k :| 0 < k < |xs[m].bubbles| && fs[p] == Follow(xs[m], k);
    FoundIsOwned(heads, xs, m, i);
    HeadForFollow(heads, xs, m, i, m, k);
    OrderedFollows(heads, xs, fs, m, i);
    assert fs == fs[..p] + [fs[p]] + fs[p + 1..];
    TurnFits(heads, xs, fs[..p], fs[p], fs[p + 1..], m, i);
    OwnedRow(heads, xs, m, i);
  }

  ghost predicate AllTaken(heads: seq<Row>, fs: seq<FollowUp>) {
    FoldAll(heads, fs).dropped == [] && Taken(heads, fs) == fs
  }

  lemma NoneToTake(heads: seq<Row>)
    ensures AllTaken(heads, [])
  {
  }

  lemma TakeNext(heads: seq<Row>, earlier: seq<FollowUp>, f: FollowUp, i: nat)
    requires AllTaken(heads, earlier) && i < |heads| && HeadFor(heads, f) == Some(i)
    requires Fits(FoldAll(heads, earlier).texts[i], f)
    ensures AllTaken(heads, earlier + [f])
  {
    hide Fits, FoldAll, Taken, HeadFor, Fold;
    FoldEffect(heads, FoldAll(heads, earlier), f, i);
    TakenNext(heads, earlier, f);
  }

  /** Folding a sorted shuffle drops nothing. */
  lemma {:induction false} NothingDropped(heads: seq<Row>, xs: seq<Exchange>, fs: seq<FollowUp>, p: nat)
    requires AllValid(xs) && OneSplitPerKey(xs) && multiset(heads) == multiset(FirstRows(xs))
    requires multiset(fs) == multiset(Follows(xs)) && Sorted(fs) && p <= |fs|
    ensures AllTaken(heads, fs[..p])
  {
    hide Fits, FoldAll, Taken, HeadFor, Follows, FirstRows, OneSplitPerKey, Sorted, AllValid;
    if p == 0 {
      NoneToTake(heads);
      assert fs[..0] == [];
    } else {
      NothingDropped(heads, xs, fs, p - 1);
      var i := TurnOf(heads, xs, fs, p - 1);
      hide AllTaken;
      assert fs[..p] == fs[..p - 1] + [fs[p - 1]];
      TakeNext(heads, fs[..p - 1], fs[p - 1], i);
    }
  }

}
