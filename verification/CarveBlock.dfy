/** Cutting one anchored block of lines out of a text, keeping some of its lines behind. */
module CarveBlock {
  import opened Sequences
  import opened Wrappers
  import opened Lines

  const MARKER := "@@CARVE_DROPPED@@"

  /** An inclusive range of block indices. */
  datatype Span = Span(first: nat, last: nat) {
    predicate Holds(k: nat) { first <= k <= last }
  }

  datatype Failure =
    | NotUnique(anchor: string, count: nat)
    | OutOfOrder(start: int, end: nat)
    | Overlap
    | NeedsOneMarker(found: nat)
    | StrayMarker

  /** A call: the file's text, its anchors, the lines to drop, and the replacement's text. */
  datatype Request = Request(
    text: string, start: string, startOffset: int, endAfter: string, prefix: bool,
    drops: seq<string>, ranges: seq<(string, string)>, replacement: string)

  /** A carve: lines s to e - 1 are the block, `dropped` indexes the lines of it that stay behind. */
  datatype Carving = Carving(
    s: nat, e: nat, dropped: set<nat>, moved: seq<string>, kept: seq<string>, repl: seq<string>,
    blockOut: string, fileOut: string)

  // ----- anchors -----

  predicate Hit(line: string, text: string, prefix: bool) {
    if prefix then text <= line else line == text
  }

  function Hits(lines: seq<string>, text: string, prefix: bool, lo: nat): (r: seq<nat>)
    ensures forall i :: i in r <==> lo <= i < |lines| && Hit(lines[i], text, prefix)
    ensures forall a, b | 0 <= a < b < |r| :: r[a] < r[b]
    decreases |lines| - lo
  {
    if lo >= |lines| then [] else
    var rest := Hits(lines, text, prefix, lo + 1);
    assert forall b | 0 <= b < |rest| :: rest[b] in rest;
    if Hit(lines[lo], text, prefix) then [lo] + rest else rest
  }

  /** The index of the one line from lo on that the anchor matches. */
  function Unique(lines: seq<string>, text: string, prefix: bool, lo: nat): (r: Result<nat, Failure>)
    ensures r.Ok? ==> lo <= r.value < |lines|
  {
    var found := Hits(lines, text, prefix, lo);
    if |found| != 1 then Err(NotUnique(text, |found|)) else
    assert found[0] in found;
    Ok(found[0])
  }

  /** An anchor is accepted exactly when one line matches it, and that line is the one reported. */
  lemma UniqueMeaning(lines: seq<string>, text: string, prefix: bool, lo: nat)
    ensures var r := Unique(lines, text, prefix, lo);
      && (forall i: nat :: r == Ok(i) <==> OnlyHit(lines, text, prefix, lo, i))
      && (r.Err? ==> r.error.NotUnique? && r.error.count == |Hits(lines, text, prefix, lo)|)
  {
    hide Hit, OnlyHit;
    forall i: nat ensures Unique(lines, text, prefix, lo) == Ok(i) <==> OnlyHit(lines, text, prefix, lo, i) {
      OnlyHitIsOnly(lines, text, prefix, lo, i);
    }
  }

  lemma OnlyHitIsOnly(lines: seq<string>, text: string, prefix: bool, lo: nat, i: nat)
    ensures OnlyHit(lines, text, prefix, lo, i) <==> Hits(lines, text, prefix, lo) == [i]
  {
    hide Hit;
    var found := Hits(lines, text, prefix, lo);
    assert forall j: nat :: j in found <==> lo <= j < |lines| && Hit(lines[j], text, prefix);
    assert found == [i] ==> i in found && forall j | j in found :: j == i;
    assert |found| > 0 ==> found[0] in found;
    assert |found| > 1 ==> found[1] in found;
  }

  ghost predicate OnlyHit(lines: seq<string>, text: string, prefix: bool, lo: nat, i: nat) {
    && lo <= i < |lines| && Hit(lines[i], text, prefix)
    && forall j | lo <= j < |lines| && Hit(lines[j], text, prefix) :: j == i
  }

  // ----- the lines to keep -----

  function AddSpan(earlier: Result<seq<Span>, Failure>, first: Result<nat, Failure>, last: Result<nat, Failure>):
    Result<seq<Span>, Failure>
  {
    if earlier.Err? then earlier
    else if first.Err? then Err(first.error)
    else if last.Err? then Err(last.error)
    else Ok(earlier.value + [Span(first.value, last.value)])
  }

  /** The spans of the first i single lines to drop. */
  function LineSpans(block: seq<string>, drops: seq<string>, prefix: bool, i: nat): Result<seq<Span>, Failure>
    requires i <= |drops|
  {
    if i == 0 then Ok([]) else
    var at := Unique(block, drops[i - 1], prefix, 0);
    AddSpan(LineSpans(block, drops, prefix, i - 1), at, at)
  }

  /** The spans of all single lines and of the first i ranges to drop. */
  function AllSpans(block: seq<string>, drops: seq<string>, ranges: seq<(string, string)>, prefix: bool, i: nat):
    Result<seq<Span>, Failure>
    requires i <= |ranges|
  {
    if i == 0 then LineSpans(block, drops, prefix, |drops|) else
    var first := Unique(block, ranges[i - 1].0, prefix, 0);
    AddSpan(AllSpans(block, drops, ranges, prefix, i - 1), first,
            if first.Ok? then Unique(block, ranges[i - 1].1, prefix, first.value) else first)
  }

  lemma {:induction false} LineSpansInBlock(block: seq<string>, drops: seq<string>, prefix: bool, i: nat)
    requires i <= |drops|
    ensures var r := LineSpans(block, drops, prefix, i); r.Ok? ==> InBlock(r.value, |block|)
  {
    if i > 0 {
      LineSpansInBlock(block, drops, prefix, i - 1);
    }
  }

  lemma {:induction false} AllSpansInBlock(block: seq<string>, drops: seq<string>, ranges: seq<(string, string)>,
                                           prefix: bool, i: nat)
    requires i <= |ranges|
    ensures var r := AllSpans(block, drops, ranges, prefix, i); r.Ok? ==> InBlock(r.value, |block|)
  {
    if i == 0 {
      LineSpansInBlock(block, drops, prefix, |drops|);
    } else {
      AllSpansInBlock(block, drops, ranges, prefix, i - 1);
    }
  }

  predicate InBlock(spans: seq<Span>, n: nat) {
    forall i | 0 <= i < |spans| :: spans[i].first <= spans[i].last < n
  }

  predicate Before(a: Span, b: Span) {
    a.first < b.first || (a.first == b.first && a.last <= b.last)
  }

  /** How many spans hold index k. */
  function Count(spans: seq<Span>, k: nat): nat {
    if spans == [] then 0 else (if spans[0].Holds(k) then 1 else 0) + Count(spans[1..], k)
  }

  lemma {:induction false} CountAppend(a: seq<Span>, b: seq<Span>, k: nat)
    ensures Count(a + b, k) == Count(a, k) + Count(b, k)
  {
    if a == [] {
      assert a + b == b;
    } else {
      CountAppend(a[1..], b, k);
      assert (a + b)[1..] == a[1..] + b;
    }
  }

  lemma {:induction false} CountInsert(x: Span, sorted: seq<Span>, k: nat)
    ensures Count(Insert(Before, x, sorted), k) == Count([x] + sorted, k)
  {
    if sorted != [] && !Before(x, sorted[0]) {
      CountInsert(x, sorted[1..], k);
      CountAppend([x], sorted[1..], k);
    }
    CountAppend([x], sorted, k);
  }

  lemma {:induction false} CountSort(spans: seq<Span>, k: nat)
    ensures Count(Sort(Before, spans), k) == Count(spans, k)
  {
    if spans != [] {
      CountSort(spans[1..], k);
      CountInsert(spans[0], Sort(Before, spans[1..]), k);
      CountAppend([spans[0]], Sort(Before, spans[1..]), k);
    }
  }

  ghost predicate Intersecting(spans: seq<Span>) {
    exists i, j, k: nat :: 0 <= i < j < |spans| && spans[i].Holds(k) && spans[j].Holds(k)
  }

  lemma {:induction false} CountedTwice(spans: seq<Span>, k: nat) returns (i: nat, j: nat)
    requires Count(spans, k) >= 1
    ensures i < |spans| && spans[i].Holds(k)
    ensures Count(spans, k) >= 2 ==> i < j < |spans| && spans[j].Holds(k)
  {
    if spans[0].Holds(k) {
      i := 0;
      j := 0;
      if Count(spans, k) >= 2 {
        var i', j' := CountedTwice(spans[1..], k);
        j := i' + 1;
      }
    } else {
      i, j := CountedTwice(spans[1..], k);
      i, j := i + 1, j + 1;
    }
  }

  lemma {:induction false} CountAtLeast(spans: seq<Span>, i: nat, j: nat, k: nat)
    requires i <= j < |spans| && spans[i].Holds(k) && spans[j].Holds(k)
    ensures Count(spans, k) >= if i < j then 2 else 1
  {
    if i > 0 {
      CountAtLeast(spans[1..], i - 1, j - 1, k);
    } else if j > 0 {
      CountAtLeast(spans[1..], j - 1, j - 1, k);
    }
  }

  /** Two spans intersect exactly when some index is counted twice. */
  lemma IntersectingIsCountedTwice(spans: seq<Span>)
    ensures Intersecting(spans) <==> exists k: nat :: Count(spans, k) >= 2
  {
    if k: nat :| Count(spans, k) >= 2 {
      var i, j := CountedTwice(spans, k);
    }
    if i, j, k: nat :| 0 <= i < j < |spans| && spans[i].Holds(k) && spans[j].Holds(k) {
      CountAtLeast(spans, i, j, k);
    }
  }

  /** The block indices that some span holds. */
  ghost function Covered(spans: seq<Span>, n: nat): set<nat> {
    set k: nat | k < n && Count(spans, k) > 0
  }

  /** Marks every index of the spans as dropped, refusing an index that is marked already. */
  method DroppedIndices(spans: seq<Span>, n: nat) returns (r: Result<set<nat>, Failure>)
    requires InBlock(spans, n)
    ensures r.Err? ==> r.error == Overlap
    ensures r.Err? <==> Intersecting(spans)
    ensures r.Ok? ==> r.value == Covered(spans, n)
  {
    IntersectingIsCountedTwice(spans);
    var dropped: set<nat> := {};
    for i := 0 to |spans|
      invariant forall k: nat :: k in dropped <==> k < n && Count(spans[..i], k) > 0
      invariant forall k: nat :: Count(spans[..i], k) <= 1
    {
      var span := spans[i];
      for k := span.first to span.last + 1
        invariant forall x: nat :: x in dropped <==> x < n && (Count(spans[..i], x) > 0 || span.first <= x < k)
        invariant forall x: nat | span.first <= x < k :: Count(spans[..i], x) == 0
      {
        if k in dropped {
          CountNext(spans, i, k);
          return Err(Overlap);
        }
        dropped := dropped + {k};
      }
      ghost var done := spans[..i + 1];
      forall k: nat ensures Count(done, k) == (Count(spans[..i], k) + if span.Holds(k) then 1 else 0) <= 1 {
        CountNext(spans, i, k);
        assert span.Holds(k) ==> Count(spans[..i], k) == 0;
      }
    }
    assert spans[..|spans|] == spans;
    return Ok(dropped);
  }

  lemma CountNext(spans: seq<Span>, i: nat, k: nat)
    requires i < |spans|
    ensures Count(spans[..i + 1], k) == Count(spans[..i], k) + if spans[i].Holds(k) then 1 else 0
    ensures Count(spans, k) >= Count(spans[..i + 1], k)
  {
    assert spans[..i + 1] == spans[..i] + [spans[i]];
    CountAppend(spans[..i], [spans[i]], k);
    assert spans == spans[..i + 1] + spans[i + 1..];
    CountAppend(spans[..i + 1], spans[i + 1..], k);
  }

  /** The block lines whose index is, or is not, dropped, in block order. */
  function Select<T>(block: seq<T>, dropped: set<nat>, want: bool): seq<T> {
    if block == [] then [] else
    var last := |block| - 1;
    Select(block[..last], dropped, want) + if (last in dropped) == want then [block[last]] else []
  }

  /** Puts the kept lines back at the dropped indices between the moved ones. */
  function Weave<T>(moved: seq<T>, kept: seq<T>, dropped: set<nat>, n: nat): seq<T>
    requires |moved| + |kept| == n
  {
    if n == 0 then [] else
    if n - 1 in dropped && kept != [] then
      Weave(moved, kept[..|kept| - 1], dropped, n - 1) + [kept[|kept| - 1]]
    else if moved != [] then
      Weave(moved[..|moved| - 1], kept, dropped, n - 1) + [moved[|moved| - 1]]
    else
      kept
  }

  lemma SelectNext<T>(block: seq<T>, dropped: set<nat>)
    requires block != []
    ensures var front, last := block[..|block| - 1], |block| - 1;
      var x, here := block[last], last in dropped;
      && block == front + [x]
      && Select(block, dropped, here) == Select(front, dropped, here) + [x]
      && Select(block, dropped, !here) == Select(front, dropped, !here)
  {
  }

  lemma {:induction false} SelectConserves<T>(block: seq<T>, dropped: set<nat>)
    ensures var moved, kept := Select(block, dropped, false), Select(block, dropped, true);
      && |moved| + |kept| == |block|
      && multiset(moved) + multiset(kept) == multiset(block)
  {
    if block != [] {
      SelectNext(block, dropped);
      hide Select;
      SelectConserves(block[..|block| - 1], dropped);
    }
  }

  /** Nothing of the block is lost and its order is kept: weaving the two parts rebuilds it. */
  lemma {:induction false} WeaveOfSelect<T>(block: seq<T>, dropped: set<nat>)
    ensures |Select(block, dropped, false)| + |Select(block, dropped, true)| == |block|
    ensures Weave(Select(block, dropped, false), Select(block, dropped, true), dropped, |block|) == block
  {
    SelectConserves(block, dropped);
    if block != [] {
      SelectNext(block, dropped);
      hide Select, Weave;
      var front := block[..|block| - 1];
      WeaveOfSelect(front, dropped);
      WeaveNext(Select(front, dropped, false), Select(front, dropped, true), dropped, block[|front|]);
    }
  }

  lemma WeaveNext<T>(moved: seq<T>, kept: seq<T>, dropped: set<nat>, x: T)
    ensures var n := |moved| + |kept|;
      Weave(moved, kept, dropped, n) + [x] ==
        if n in dropped then Weave(moved, kept + [x], dropped, n + 1) else Weave(moved + [x], kept, dropped, n + 1)
  {
  }

  // ----- the replacement -----

  function ReplacementLines(replacement: string): seq<string> {
    var lines := Split(replacement);
    if lines[|lines| - 1] == "" then lines[..|lines| - 1] else lines
  }

  /** The indices of the marker lines. */
  function Markers(repl: seq<string>, i: nat): (r: seq<nat>)
    ensures forall m | m in r :: i <= m < |repl| && Strip(repl[m]) == MARKER
    decreases |repl| - i
  {
    if i >= |repl| then [] else
    (if Strip(repl[i]) == MARKER then [i] else []) + Markers(repl, i + 1)
  }

  /** The lines that take the block's place: the kept ones stand in for the marker. */
  function Splice(repl: seq<string>, kept: seq<string>): seq<string> {
    var markers := Markers(repl, 0);
    if markers == [] then repl else
    assert markers[0] in markers;
    repl[..markers[0]] + kept + repl[markers[0] + 1..]
  }

  /** The replacement's own lines that end up in the file. */
  function WithoutMarker(repl: seq<string>): seq<string> {
    Splice(repl, [])
  }

  lemma SpliceConserves(repl: seq<string>, kept: seq<string>)
    requires kept != [] ==> Markers(repl, 0) != []
    ensures multiset(Splice(repl, kept)) == multiset(WithoutMarker(repl)) + multiset(kept)
  {
  }

  // ----- the carve -----

  /** What a request yields. */
  ghost function Plan(q: Request): Result<Carving, Failure> {
    var lines := Split(q.text);
    var first, after := Unique(lines, q.start, q.prefix, 0), Unique(lines, q.endAfter, q.prefix, 0);
    if first.Err? then Err(first.error)
    else if after.Err? then Err(after.error)
    else if !(0 <= first.value + q.startOffset < after.value) then
      Err(OutOfOrder(first.value + q.startOffset, after.value))
    else PlanBlock(q, lines, first.value + q.startOffset, after.value)
  }

  ghost function PlanBlock(q: Request, lines: seq<string>, s: nat, e: nat): Result<Carving, Failure>
    requires s < e < |lines|
  {
    var block := lines[s..e];
    var spans := AllSpans(block, q.drops, q.ranges, q.prefix, |q.ranges|);
    if spans.Err? then Err(spans.error)
    else if Intersecting(spans.value) then Err(Overlap)
    else
      var dropped := Covered(spans.value, e - s);
      var kept, moved := Select(block, dropped, true), Select(block, dropped, false);
      var repl := ReplacementLines(q.replacement);
      var markers := Markers(repl, 0);
      if kept != [] && |markers| != 1 then Err(NeedsOneMarker(|markers|))
      else if kept == [] && markers != [] then Err(StrayMarker)
      else
        var spliced := Splice(repl, kept);
        Ok(Carving(s, e, dropped, moved, kept, spliced,
                   Join(moved) + "\n", Join(lines[..s] + spliced + lines[e..])))
  }

  lemma SortKeeps(spans: seq<Span>, n: nat)
    requires InBlock(spans, n)
    ensures InBlock(Sort(Before, spans), n)
    ensures Intersecting(Sort(Before, spans)) <==> Intersecting(spans)
    ensures Covered(Sort(Before, spans), n) == Covered(spans, n)
  {
    hide Intersecting, Sort;
    IntersectingIsCountedTwice(spans);
    IntersectingIsCountedTwice(Sort(Before, spans));
    if Intersecting(spans) {
      var k: nat :| Count(spans, k) >= 2;
      CountSort(spans, k);
    }
    if Intersecting(Sort(Before, spans)) {
      var k: nat :| Count(Sort(Before, spans), k) >= 2;
      CountSort(spans, k);
    }
    forall k: nat ensures Count(Sort(Before, spans), k) == Count(spans, k) {
      CountSort(spans, k);
    }
    SortInBlock(spans, n);
  }

  lemma {:induction false} InsertInBlock(x: Span, sorted: seq<Span>, n: nat)
    requires InBlock(sorted, n) && x.first <= x.last < n
    ensures InBlock(Insert(Before, x, sorted), n)
  {
    if sorted != [] && !Before(x, sorted[0]) {
      InsertInBlock(x, sorted[1..], n);
    }
  }

  lemma {:induction false} SortInBlock(spans: seq<Span>, n: nat)
    requires InBlock(spans, n)
    ensures InBlock(Sort(Before, spans), n)
  {
    if spans != [] {
      SortInBlock(spans[1..], n);
      InsertInBlock(spans[0], Sort(Before, spans[1..]), n);
    }
  }

  method Carve(q: Request) returns (r: Result<Carving, Failure>)
    ensures r == Plan(q)
  {
    hide Split, Unique, AllSpans, Intersecting, Covered, Count, Select, Markers, Strip, Sort, Join, ReplacementLines;
    var lines := Split(q.text);
    var first := Unique(lines, q.start, q.prefix, 0);
    if first.Err? {
      return Err(first.error);
    }
    var after := Unique(lines, q.endAfter, q.prefix, 0);
    if after.Err? {
      return Err(after.error);
    }
    var s, e := first.value + q.startOffset, after.value;
    if !(0 <= s < e) {
      return Err(OutOfOrder(s, e));
    }
    var block := lines[s..e];
    var found := FindSpans(block, q.drops, q.ranges, q.prefix);
    if found.Err? {
      return Err(found.error);
    }
    AllSpansInBlock(block, q.drops, q.ranges, q.prefix, |q.ranges|);
    SortKeeps(found.value, e - s);
    var spans := Sort(Before, found.value);
    var marked := DroppedIndices(spans, e - s);
    if marked.Err? {
      return Err(marked.error);
    }
    var dropped := marked.value;
    var kept := Select(block, dropped, true);
    var moved := Select(block, dropped, false);
    var repl := ReplacementLines(q.replacement);
    var markers := Markers(repl, 0);
    if kept != [] && |markers| != 1 {
      return Err(NeedsOneMarker(|markers|));
    }
    if kept == [] && markers != [] {
      return Err(StrayMarker);
    }
    if markers != [] {
      assert markers[0] in markers;
      repl := repl[..markers[0]] + kept + repl[markers[0] + 1..];
    }
    return Ok(Carving(s, e, dropped, moved, kept, repl, Join(moved) + "\n", Join(lines[..s] + repl + lines[e..])));
  }

  method FindSpans(block: seq<string>, drops: seq<string>, ranges: seq<(string, string)>, prefix: bool)
    returns (r: Result<seq<Span>, Failure>)
    ensures r == AllSpans(block, drops, ranges, prefix, |ranges|)
  {
    var spans: seq<Span> := [];
    for i := 0 to |drops|
      invariant LineSpans(block, drops, prefix, i) == Ok(spans)
    {
      var at := Unique(block, drops[i], prefix, 0);
      if at.Err? {
        FailedLine(block, drops, prefix, i + 1, |drops|);
        FailedRange(block, drops, ranges, prefix, 0, |ranges|);
        return Err(at.error);
      }
      spans := spans + [Span(at.value, at.value)];
    }
    for i := 0 to |ranges|
      invariant AllSpans(block, drops, ranges, prefix, i) == Ok(spans)
    {
      var first := Unique(block, ranges[i].0, prefix, 0);
      if first.Err? {
        FailedRange(block, drops, ranges, prefix, i + 1, |ranges|);
        return Err(first.error);
      }
      var last := Unique(block, ranges[i].1, prefix, first.value);
      if last.Err? {
        FailedRange(block, drops, ranges, prefix, i + 1, |ranges|);
        return Err(last.error);
      }
      spans := spans + [Span(first.value, last.value)];
    }
    return Ok(spans);
  }

  lemma {:induction false} FailedLine(block: seq<string>, drops: seq<string>, prefix: bool, i: nat, j: nat)
    requires i <= j <= |drops| && LineSpans(block, drops, prefix, i).Err?
    ensures LineSpans(block, drops, prefix, j) == LineSpans(block, drops, prefix, i)
  {
    if i < j {
      FailedLine(block, drops, prefix, i, j - 1);
    }
  }

  lemma {:induction false} FailedRange(block: seq<string>, drops: seq<string>, ranges: seq<(string, string)>,
                                       prefix: bool, i: nat, j: nat)
    requires i <= j <= |ranges| && AllSpans(block, drops, ranges, prefix, i).Err?
    ensures AllSpans(block, drops, ranges, prefix, j) == AllSpans(block, drops, ranges, prefix, i)
  {
    if i < j {
      FailedRange(block, drops, ranges, prefix, i, j - 1);
    }
  }

  // ----- what a carve keeps -----

  /** The parts a successful plan is made of. */
  lemma PlanParts(q: Request, c: Carving)
    requires Plan(q) == Ok(c)
    ensures var lines, own := Split(q.text), ReplacementLines(q.replacement);
      && c.s < c.e < |lines|
      && c.moved == Select(lines[c.s..c.e], c.dropped, false) && c.kept == Select(lines[c.s..c.e], c.dropped, true)
      && c.repl == Splice(own, c.kept) && (c.kept != [] ==> Markers(own, 0) != [])
      && c.blockOut == Join(c.moved) + "\n" && c.fileOut == Join(lines[..c.s] + c.repl + lines[c.e..])
  {
  }

  /** Character for character: the text is cut at line boundaries, and only the block's place changes. */
  lemma CarveReplacesBlock(q: Request, c: Carving)
    requires Plan(q) == Ok(c)
    ensures var lines := Split(q.text);
      var above, block, below := Ended(lines[..c.s]), Ended(lines[c.s..c.e]), Join(lines[c.e..]);
      && q.text == above + block + below
      && c.fileOut == above + Ended(c.repl) + below
  {
    hide Plan, Select, Splice, Split, Join, Ended;
    PlanParts(q, c);
    var lines := Split(q.text);
    JoinOfSplit(q.text);
    assert lines == lines[..c.s] + lines[c.s..c.e] + lines[c.e..];
    JoinThree(lines[..c.s], lines[c.s..c.e], lines[c.e..]);
    JoinThree(lines[..c.s], c.repl, lines[c.e..]);
  }

  lemma JoinThree(a: seq<string>, b: seq<string>, c: seq<string>)
    requires c != []
    ensures Join(a + b + c) == Ended(a) + Ended(b) + Join(c)
  {
    hide Join, Ended;
    JoinAppend(a + b, c);
    EndedAppend(a, b);
  }

  /** The block file holds the moved lines, each ended; with none of them it is the empty line that joining
      no lines and adding a newline makes. */
  lemma BlockFileEnds(q: Request, c: Carving)
    requires Plan(q) == Ok(c)
    ensures c.blockOut == Ended(c.moved) <==> c.moved != []
    ensures c.moved == [] ==> c.blockOut == "\n"
  {
    PlanParts(q, c);
    if c.moved != [] {
      JoinThenEnd(c.moved);
    }
  }

  /** The spans of a request cover every line of its block. */
  ghost predicate DropsWholeBlock(q: Request) {
    var lines := Split(q.text);
    var first, after := Unique(lines, q.start, q.prefix, 0), Unique(lines, q.endAfter, q.prefix, 0);
    && first.Ok? && after.Ok? && 0 <= first.value + q.startOffset < after.value
    && CoversBlock(q, lines[first.value + q.startOffset..after.value])
  }

  ghost predicate CoversBlock(q: Request, block: seq<string>) {
    var spans := AllSpans(block, q.drops, q.ranges, q.prefix, |q.ranges|);
    spans.Ok? && forall k: nat | k < |block| :: Count(spans.value, k) > 0
  }

  lemma {:induction false} SelectsNone<T>(block: seq<T>, dropped: set<nat>)
    ensures Select(block, dropped, false) == [] <==> forall k: nat | k < |block| :: k in dropped
  {
    if block != [] {
      SelectsNone(block[..|block| - 1], dropped);
    }
  }

  lemma PlanDrops(q: Request, c: Carving)
    requires Plan(q) == Ok(c)
    ensures var lines := Split(q.text);
      var first, after := Unique(lines, q.start, q.prefix, 0), Unique(lines, q.endAfter, q.prefix, 0);
      && first.Ok? && after.Ok? && c.s == first.value + q.startOffset && c.e == after.value && c.s < c.e < |lines|
      && var spans := AllSpans(lines[c.s..c.e], q.drops, q.ranges, q.prefix, |q.ranges|);
      && spans.Ok? && c.dropped == Covered(spans.value, c.e - c.s)
  {
    hide Split, Select, Unique, AllSpans, Intersecting, Markers, Splice, Join, ReplacementLines, Covered;
  }

  /** So the block file is exactly the moved lines unless the request drops every line of its block. */
  lemma BlockFileIsMoved(q: Request, c: Carving)
    requires Plan(q) == Ok(c)
    ensures c.blockOut == Ended(c.moved) <==> !DropsWholeBlock(q)
    ensures DropsWholeBlock(q) ==> c.blockOut == "\n"
  {
    hide Plan, Split, Select, Unique, AllSpans, Join, Ended, Count, Splice, Markers, ReplacementLines, Covered,
         CoversBlock;
    PlanParts(q, c);
    PlanDrops(q, c);
    BlockFileEnds(q, c);
    SelectsNone(Split(q.text)[c.s..c.e], c.dropped);
    CoversAll(q, Split(q.text)[c.s..c.e]);
  }

  lemma CoversAll(q: Request, block: seq<string>)
    requires AllSpans(block, q.drops, q.ranges, q.prefix, |q.ranges|).Ok?
    ensures CoversBlock(q, block) <==>
      forall k: nat | k < |block| ::
        k in Covered(AllSpans(block, q.drops, q.ranges, q.prefix, |q.ranges|).value, |block|)
  {
    hide AllSpans, Count;
    var spans := AllSpans(block, q.drops, q.ranges, q.prefix, |q.ranges|).value;
    forall k: nat | k < |block| ensures k in Covered(spans, |block|) <==> Count(spans, k) > 0 {
    }
  }

  /** Such a request: its one-line block stays behind in the marker's place. */
  lemma WholeBlockDropped(q: Request)
    requires q == Request("a\nb", "a", 0, "b", false, ["a"], [], MARKER)
    ensures DropsWholeBlock(q)
    ensures Plan(q) == Ok(Carving(0, 1, {0}, [], ["a"], ["a"], "\n", "a\nb"))
  {
    var lines := ["a", "b"];
    AnchorsFound(q, lines);
    PlanOneLine(q, lines);
    OneSpan(q);
    assert lines[0..1] == ["a"];
    hide Split, Unique, AllSpans, PlanBlock;
    assert Count([Span(0, 0)], 0) == 1;
    assert CoversBlock(q, ["a"]);
  }

  lemma AnchorsFound(q: Request, lines: seq<string>)
    requires q.text == "a\nb" && lines == ["a", "b"]
    ensures Split(q.text) == lines && Unique(lines, "a", false, 0) == Ok(0) && Unique(lines, "b", false, 0) == Ok(1)
  {
    SplitOfLine("a", "b");
    SplitOfLine("b", "");
    assert "a" + "\n" + "b" == q.text;
    hide Split, Hits;
    OnlyHitIsOnly(lines, "a", false, 0, 0);
    OnlyHitIsOnly(lines, "b", false, 0, 1);
  }

  lemma PlanOneLine(q: Request, lines: seq<string>)
    requires q.drops == ["a"] && q.ranges == [] && !q.prefix && q.replacement == MARKER && lines == ["a", "b"]
    ensures PlanBlock(q, lines, 0, 1) == Ok(Carving(0, 1, {0}, [], ["a"], ["a"], "\n", "a\nb"))
  {
    hide AllSpans, Covered, Intersecting, Select, Markers, Splice, ReplacementLines, Strip, PlanBlock;
    var block := lines[0..1];
    assert block == ["a"];
    OneSpan(q);
    MarkerOnly();
    OneLineSelected(block);
    OneCovered([Span(0, 0)]);
    assert lines[..0] + ["a"] + lines[1..] == lines;
    JoinedTexts(lines);
    assert "" + "\n" == "\n";
    hide Join;
    PlanOf(q, lines, 0, 1, [Span(0, 0)]);
  }

  lemma JoinedTexts(lines: seq<string>)
    requires lines == ["a", "b"]
    ensures Join([]) == "" && Join(lines) == "a\nb"
  {
  }

  /** A plan from its spans, when they do not intersect and one marker takes what they keep. */
  lemma PlanOf(q: Request, lines: seq<string>, s: nat, e: nat, spans: seq<Span>)
    requires s < e < |lines| && AllSpans(lines[s..e], q.drops, q.ranges, q.prefix, |q.ranges|) == Ok(spans)
    requires !Intersecting(spans) && |Markers(ReplacementLines(q.replacement), 0)| == 1
    requires Select(lines[s..e], Covered(spans, e - s), true) != []
    ensures var dropped := Covered(spans, e - s);
      var kept, moved := Select(lines[s..e], dropped, true), Select(lines[s..e], dropped, false);
      var repl := Splice(ReplacementLines(q.replacement), kept);
      PlanBlock(q, lines, s, e) ==
        Ok(Carving(s, e, dropped, moved, kept, repl, Join(moved) + "\n", Join(lines[..s] + repl + lines[e..])))
  {
    hide AllSpans, Covered, Intersecting, Select, Markers, Splice, ReplacementLines, Join;
  }

  lemma OneCovered(spans: seq<Span>)
    requires spans == [Span(0, 0)]
    ensures Covered(spans, 1) == {0} && !Intersecting(spans)
  {
    assert Count(spans, 0) == 1;
    hide Count;
    forall k: nat ensures k in Covered(spans, 1) <==> k == 0 {
    }
  }

  lemma OneLineSelected(block: seq<string>)
    requires block == ["a"]
    ensures Select(block, {0}, true) == ["a"] && Select(block, {0}, false) == []
  {
    assert block[..0] == [];
  }

  lemma OneSpan(q: Request)
    requires q.drops == ["a"] && q.ranges == [] && !q.prefix
    ensures AllSpans(["a"], q.drops, q.ranges, q.prefix, |q.ranges|) == Ok([Span(0, 0)])
  {
    assert Hits(["a"], "a", false, 0) == [0];
    assert [] + [Span(0, 0)] == [Span(0, 0)];
    assert LineSpans(["a"], q.drops, false, 0) == Ok([]);
    assert LineSpans(["a"], q.drops, false, 1) == Ok([Span(0, 0)]);
  }

  lemma MarkerOnly()
    ensures ReplacementLines(MARKER) == [MARKER] && Markers([MARKER], 0) == [0] && Splice([MARKER], ["a"]) == ["a"]
  {
    assert '\n' !in MARKER && !IsSpace('@');
    NothingToStrip(MARKER);
    hide Markers, Strip, Splice, ReplacementLines;
    MarkerAlone(MARKER, "a");
  }

  lemma MarkerAlone(line: string, kept: string)
    requires '\n' !in line && line != "" && Strip(line) == MARKER
    ensures ReplacementLines(line) == [line] && Markers([line], 0) == [0] && Splice([line], [kept]) == [kept]
  {
    SplitOfLine(line, "");
    hide Split, Strip;
    assert Markers([line], 1) == [];
    assert Markers([line], 0) == [0];
    hide Markers;
    assert [line][..0] + [kept] + [line][1..] == [kept];
  }

  /** Without drops the cut is verbatim: the block file is the text between the two line starts. */
  lemma CarveVerbatim(q: Request, c: Carving)
    requires Plan(q) == Ok(c) && q.drops == [] && q.ranges == []
    ensures var lines := Split(q.text);
      var from, to := |Ended(lines[..c.s])|, |Ended(lines[..c.e])|;
      && from <= to <= |q.text|
      && c.blockOut == q.text[from..to]
      && c.fileOut == q.text[..from] + Ended(ReplacementLines(q.replacement)) + q.text[to..]
  {
    hide Plan, Split, Select, Markers, Splice, Join, ReplacementLines, Ended;
    NothingDropped(q, c);
    var lines := Split(q.text);
    CarveReplacesBlock(q, c);
    BlockFileEnds(q, c);
    assert lines[..c.e] == lines[..c.s] + lines[c.s..c.e];
    EndedAppend(lines[..c.s], lines[c.s..c.e]);
  }

  lemma NothingDropped(q: Request, c: Carving)
    requires Plan(q) == Ok(c) && q.drops == [] && q.ranges == []
    ensures c.s < c.e < |Split(q.text)|
    ensures c.moved == Split(q.text)[c.s..c.e] && c.moved != [] && c.repl == ReplacementLines(q.replacement)
  {
    hide Split, Select, Unique, Strip, Join, ReplacementLines, Sort;
    PlanParts(q, c);
    var block := Split(q.text)[c.s..c.e];
    assert AllSpans(block, [], [], q.prefix, 0) == LineSpans(block, [], q.prefix, 0) == Ok([]);
    assert c.dropped == {};
    SelectAll(block);
  }

  lemma {:induction false} SelectAll<T>(block: seq<T>)
    ensures Select(block, {}, false) == block && Select(block, {}, true) == []
  {
    if block != [] {
      SelectAll(block[..|block| - 1]);
    }
  }

  /** With drops, the moved and the kept lines together are the block, each in block order. */
  lemma CarveRebuilds(q: Request, c: Carving)
    requires Plan(q) == Ok(c)
    ensures |c.moved| + |c.kept| == c.e - c.s
    ensures Weave(c.moved, c.kept, c.dropped, c.e - c.s) == Split(q.text)[c.s..c.e]
  {
    hide Plan, Split, Select, Weave, Join, Splice, Markers, ReplacementLines;
    PlanParts(q, c);
    WeaveOfSelect(Split(q.text)[c.s..c.e], c.dropped);
  }

  /** No line is lost or invented: the new file and the moved lines have the lines of the old file
      and of the replacement without its marker. */
  lemma CarveConserves(q: Request, c: Carving)
    requires Plan(q) == Ok(c)
    ensures multiset(Split(c.fileOut)) + multiset(c.moved)
         == multiset(Split(q.text)) + multiset(WithoutMarker(ReplacementLines(q.replacement)))
  {
    hide Plan, Select, Markers, Splice, Split, Join, ReplacementLines, WithoutMarker;
    PlanParts(q, c);
    var lines, own := Split(q.text), ReplacementLines(q.replacement);
    var block, out := lines[c.s..c.e], lines[..c.s] + c.repl + lines[c.e..];
    FileLines(q, c);
    SelectConserves(block, c.dropped);
    SpliceConserves(own, c.kept);
    assert lines == lines[..c.s] + block + lines[c.e..];
  }

  /** The written text splits back into exactly the lines that were joined. */
  lemma FileLines(q: Request, c: Carving)
    requires Plan(q) == Ok(c)
    ensures Split(c.fileOut) == Split(q.text)[..c.s] + c.repl + Split(q.text)[c.e..]
  {
    hide Plan, Markers, Split, Join, Select, Splice, ReplacementLines;
    PlanParts(q, c);
    var lines := Split(q.text);
    JoinOfSplit(q.text);
    SelectNoNewlines(lines[c.s..c.e], c.dropped, true);
    SpliceNoNewlines(q.replacement, c.kept);
    SplitOfJoin(lines[..c.s] + c.repl + lines[c.e..]);
  }

  lemma SpliceNoNewlines(replacement: string, kept: seq<string>)
    requires NoNewlines(kept)
    ensures NoNewlines(Splice(ReplacementLines(replacement), kept))
  {
    hide Split, Join, Strip, Markers;
    JoinOfSplit(replacement);
    var own, out := ReplacementLines(replacement), Splice(ReplacementLines(replacement), kept);
    assert NoNewlines(own);
    if Markers(own, 0) != [] {
      var m := Markers(own, 0)[0];
      assert m in Markers(own, 0);
      forall i | 0 <= i < |out| ensures '\n' !in out[i] {
        assert out[i] == if i < m then own[i] else if i < m + |kept| then kept[i - m] else own[i - |kept| + 1];
      }
    }
  }

  lemma {:induction false} SelectNoNewlines(block: seq<string>, dropped: set<nat>, want: bool)
    requires NoNewlines(block)
    ensures NoNewlines(Select(block, dropped, want))
  {
    if block != [] {
      SelectNoNewlines(block[..|block| - 1], dropped, want);
    }
  }

  // ----- where the kept lines go -----

  /** The lines a replacement is made of: it is these lines, each ended, or joined when its last line is not ended. */
  lemma OwnLines(replacement: string)
    ensures var own := ReplacementLines(replacement);
      && NoNewlines(own)
      && (replacement == Ended(own) || (own != [] && own[|own| - 1] != "" && replacement == Join(own)))
  {
    hide Split, Join, Ended;
    JoinOfSplit(replacement);
    var lines := Split(replacement);
    if lines[|lines| - 1] == "" {
      var own := lines[..|lines| - 1];
      assert lines == own + [""];
      JoinAppend(own, [""]);
      JoinOne("");
    }
  }

  lemma JoinOne(line: string)
    ensures Join([line]) == line
  {
  }

  lemma {:induction false} MarkersAre(repl: seq<string>, i: nat, m: nat)
    ensures m in Markers(repl, i) <==> i <= m < |repl| && Strip(repl[m]) == MARKER
    decreases |repl| - i
  {
    hide Strip;
    if i < |repl| {
      MarkersAre(repl, i + 1, m);
    }
  }

  /** Line m of a replacement is its one marker. */
  ghost predicate OnlyMarker(own: seq<string>, m: nat) {
    && m < |own| && Strip(own[m]) == MARKER
    && forall j | 0 <= j < |own| && j != m :: Strip(own[j]) != MARKER
  }

  lemma OneMarker(own: seq<string>)
    requires |Markers(own, 0)| == 1
    ensures OnlyMarker(own, Markers(own, 0)[0])
  {
    hide Strip, Markers;
    var found := Markers(own, 0);
    assert found[0] in found;
    forall j: nat | j < |own| && j != found[0] ensures Strip(own[j]) != MARKER {
      MarkersAre(own, 0, j);
    }
  }

  lemma NoMarker(own: seq<string>)
    requires Markers(own, 0) == []
    ensures forall j | 0 <= j < |own| :: Strip(own[j]) != MARKER
  {
    hide Strip, Markers;
    forall j: nat | j < |own| ensures Strip(own[j]) != MARKER {
      MarkersAre(own, 0, j);
    }
  }

  lemma PlanMarkers(q: Request, c: Carving)
    requires Plan(q) == Ok(c)
    ensures var found := Markers(ReplacementLines(q.replacement), 0); if c.kept == [] then found == [] else |found| == 1
  {
    hide Split, Select, Unique, AllSpans, Intersecting, Markers, Splice, Join, ReplacementLines, Covered;
  }

  /** The new file, line by line: the replacement stands in the block's place, and in it the kept lines stand where its
      one marker was, in block order. */
  lemma KeptInPlace(q: Request, c: Carving) returns (m: nat)
    requires Plan(q) == Ok(c)
    ensures var lines, own := Split(q.text), ReplacementLines(q.replacement);
      && c.s < c.e < |lines|
      && (c.kept == [] ==>
            && (forall j | 0 <= j < |own| :: Strip(own[j]) != MARKER)
            && Split(c.fileOut) == lines[..c.s] + own + lines[c.e..])
      && (c.kept != [] ==>
            && OnlyMarker(own, m)
            && Split(c.fileOut) == lines[..c.s] + (own[..m] + c.kept + own[m + 1..]) + lines[c.e..])
  {
    hide Plan, Split, Select, Join, ReplacementLines, Markers, Strip;
    PlanParts(q, c);
    PlanMarkers(q, c);
    FileLines(q, c);
    var own := ReplacementLines(q.replacement);
    if c.kept == [] {
      NoMarker(own);
      m := 0;
    } else {
      OneMarker(own);
      m := Markers(own, 0)[0];
    }
  }

  // ----- what is accepted -----

  /** Span i of the single lines, then of the ranges, to drop: its anchors each match one line, the last one from the
      first one on. */
  ghost predicate IsSpan(block: seq<string>, drops: seq<string>, ranges: seq<(string, string)>, prefix: bool, i: nat,
                         span: Span)
    requires i < |drops| + |ranges|
  {
    if i < |drops| then OnlyHit(block, drops[i], prefix, 0, span.first) && span.last == span.first
    else
      && OnlyHit(block, ranges[i - |drops|].0, prefix, 0, span.first)
      && OnlyHit(block, ranges[i - |drops|].1, prefix, span.first, span.last)
  }

  ghost predicate AreSpans(block: seq<string>, drops: seq<string>, ranges: seq<(string, string)>, prefix: bool, n: nat,
                           spans: seq<Span>)
    requires n <= |drops| + |ranges|
  {
    |spans| == n && forall i | 0 <= i < n :: IsSpan(block, drops, ranges, prefix, i, spans[i])
  }

  lemma UniqueIff(lines: seq<string>, text: string, prefix: bool, lo: nat, i: nat)
    ensures Unique(lines, text, prefix, lo) == Ok(i) <==> OnlyHit(lines, text, prefix, lo, i)
  {
    UniqueMeaning(lines, text, prefix, lo);
  }

  lemma {:induction false} LineSpansIff(block: seq<string>, drops: seq<string>, ranges: seq<(string, string)>,
                                        prefix: bool, n: nat, spans: seq<Span>)
    requires n <= |drops|
    ensures LineSpans(block, drops, prefix, n) == Ok(spans) <==> AreSpans(block, drops, ranges, prefix, n, spans)
  {
    hide OnlyHit, Unique;
    if n > 0 {
      var earlier := LineSpans(block, drops, prefix, n - 1);
      if earlier.Ok? {
        LineSpansIff(block, drops, ranges, prefix, n - 1, earlier.value);
      }
      if |spans| == n {
        var front, last := spans[..n - 1], spans[n - 1];
        assert spans == front + [last];
        LineSpansIff(block, drops, ranges, prefix, n - 1, front);
        UniqueIff(block, drops[n - 1], prefix, 0, last.first);
        AreSpansNext(block, drops, ranges, prefix, n - 1, front, last);
      }
    }
  }

  lemma AreSpansNext(block: seq<string>, drops: seq<string>, ranges: seq<(string, string)>, prefix: bool, n: nat,
                     front: seq<Span>, last: Span)
    requires n < |drops| + |ranges| && |front| == n
    ensures AreSpans(block, drops, ranges, prefix, n + 1, front + [last]) <==>
      AreSpans(block, drops, ranges, prefix, n, front) && IsSpan(block, drops, ranges, prefix, n, last)
  {
    hide IsSpan;
    var spans := front + [last];
    assert forall i | 0 <= i < n :: spans[i] == front[i];
    assert spans[n] == last;
  }

  /** The spans found are exactly those the anchors determine. */
  lemma {:induction false} AllSpansIff(block: seq<string>, drops: seq<string>, ranges: seq<(string, string)>,
                                       prefix: bool, n: nat, spans: seq<Span>)
    requires n <= |ranges|
    ensures AllSpans(block, drops, ranges, prefix, n) == Ok(spans) <==>
      AreSpans(block, drops, ranges, prefix, |drops| + n, spans)
  {
    hide OnlyHit, Unique;
    if n == 0 {
      LineSpansIff(block, drops, ranges, prefix, |drops|, spans);
    } else if |spans| == |drops| + n {
      var front, last := spans[..|drops| + n - 1], spans[|drops| + n - 1];
      assert spans == front + [last];
      AllSpansIff(block, drops, ranges, prefix, n - 1, front);
      UniqueIff(block, ranges[n - 1].0, prefix, 0, last.first);
      UniqueIff(block, ranges[n - 1].1, prefix, last.first, last.last);
      AreSpansNext(block, drops, ranges, prefix, |drops| + n - 1, front, last);
    } else {
      AllSpansCount(block, drops, ranges, prefix, n);
    }
  }

  lemma {:induction false} AllSpansCount(block: seq<string>, drops: seq<string>, ranges: seq<(string, string)>,
                                         prefix: bool, n: nat)
    requires n <= |ranges|
    ensures var r := AllSpans(block, drops, ranges, prefix, n); r.Ok? ==> |r.value| == |drops| + n
  {
    hide Unique;
    if n > 0 {
      AllSpansCount(block, drops, ranges, prefix, n - 1);
    } else {
      LineSpansCount(block, drops, prefix, |drops|);
    }
  }

  lemma {:induction false} LineSpansCount(block: seq<string>, drops: seq<string>, prefix: bool, n: nat)
    requires n <= |drops|
    ensures var r := LineSpans(block, drops, prefix, n); r.Ok? ==> |r.value| == n
  {
    hide Unique;
    if n > 0 {
      LineSpansCount(block, drops, prefix, n - 1);
    }
  }

  lemma {:induction false} SelectsNothing<T>(block: seq<T>, dropped: set<nat>)
    ensures Select(block, dropped, true) == [] <==> forall k: nat | k < |block| :: k !in dropped
  {
    if block != [] {
      SelectsNothing(block[..|block| - 1], dropped);
    }
  }

  /** Lines are kept back exactly when there is a span. */
  lemma KeepsIfSpans<T>(block: seq<T>, spans: seq<Span>)
    requires InBlock(spans, |block|)
    ensures Select(block, Covered(spans, |block|), true) == [] <==> spans == []
  {
    SelectsNothing(block, Covered(spans, |block|));
    hide Select;
    if spans != [] {
      CountAtLeast(spans, 0, 0, spans[0].first);
      assert spans[0].first in Covered(spans, |block|);
    }
  }

  lemma {:induction false} MarkersAscend(repl: seq<string>, i: nat)
    ensures forall j, k | 0 <= j < k < |Markers(repl, i)| :: Markers(repl, i)[j] < Markers(repl, i)[k]
    decreases |repl| - i
  {
    hide Strip;
    if i < |repl| {
      MarkersAscend(repl, i + 1);
      var rest := Markers(repl, i + 1);
      assert forall k | 0 <= k < |rest| :: rest[k] in rest;
    }
  }

  lemma OneMarkerIff(own: seq<string>)
    ensures |Markers(own, 0)| == 1 <==> exists m: nat :: OnlyMarker(own, m)
  {
    hide Strip, Markers, OnlyMarker;
    if |Markers(own, 0)| == 1 {
      OneMarker(own);
    }
    if m: nat :| OnlyMarker(own, m) {
      OnlyOne(own, m);
    }
  }

  lemma OnlyOne(own: seq<string>, m: nat)
    requires OnlyMarker(own, m)
    ensures Markers(own, 0) == [m]
  {
    hide Strip, Markers;
    var found := Markers(own, 0);
    MarkersAre(own, 0, m);
    MarkersAscend(own, 0);
    forall k | 0 <= k < |found| ensures found[k] == m {
      assert found[k] in found;
    }
    AllTheSame(found, m);
  }

  lemma AllTheSame(s: seq<nat>, m: nat)
    requires m in s && (forall k | 0 <= k < |s| :: s[k] == m) && (|s| > 1 ==> s[0] < s[1])
    ensures s == [m]
  {
  }

  lemma NoMarkerIff(own: seq<string>)
    ensures Markers(own, 0) == [] <==> forall j | 0 <= j < |own| :: Strip(own[j]) != MARKER
  {
    hide Strip, Markers;
    if Markers(own, 0) == [] {
      NoMarker(own);
    } else {
      var m := Markers(own, 0)[0];
      assert m in Markers(own, 0);
    }
  }

  /** What makes a request acceptable: anchors that match one line each, in order; drops that do, and do not intersect;
      and one marker in the replacement for them, or none without them. */
  ghost predicate Acceptable(q: Request, first: nat, after: nat, spans: seq<Span>) {
    var lines, own, s := Split(q.text), ReplacementLines(q.replacement), first + q.startOffset;
    && OnlyHit(lines, q.start, q.prefix, 0, first) && OnlyHit(lines, q.endAfter, q.prefix, 0, after)
    && 0 <= s < after
    && AreSpans(lines[s..after], q.drops, q.ranges, q.prefix, |q.drops| + |q.ranges|, spans)
    && !Intersecting(spans)
    && if spans == [] then forall j | 0 <= j < |own| :: Strip(own[j]) != MARKER else exists m: nat :: OnlyMarker(own, m)
  }

  lemma CarvedIsAcceptable(q: Request, c: Carving) returns (first: nat, spans: seq<Span>)
    requires Plan(q) == Ok(c)
    ensures Acceptable(q, first, c.e, spans)
  {
    hide Split, Select, Unique, Intersecting, Markers, Strip, Splice, Join, ReplacementLines, Covered, AreSpans,
         OnlyHit, AllSpans, OnlyMarker;
    var lines := Split(q.text);
    first := Unique(lines, q.start, q.prefix, 0).value;
    UniqueIff(lines, q.start, q.prefix, 0, first);
    UniqueIff(lines, q.endAfter, q.prefix, 0, c.e);
    var block := lines[c.s..c.e];
    spans := AllSpans(block, q.drops, q.ranges, q.prefix, |q.ranges|).value;
    AllSpansIff(block, q.drops, q.ranges, q.prefix, |q.ranges|, spans);
    AllSpansInBlock(block, q.drops, q.ranges, q.prefix, |q.ranges|);
    KeepsIfSpans(block, spans);
    OneMarkerIff(ReplacementLines(q.replacement));
    NoMarkerIff(ReplacementLines(q.replacement));
  }

  /** An acceptable request is carved between its anchors, and keeps back the lines of its spans. */
  lemma AcceptableIsCarved(q: Request, first: nat, after: nat, spans: seq<Span>)
    requires Acceptable(q, first, after, spans)
    ensures Plan(q).Ok? && Plan(q).value.s == first + q.startOffset && Plan(q).value.e == after
    ensures Plan(q).value.dropped == Covered(spans, after - Plan(q).value.s)
  {
    hide Split, Select, Unique, Intersecting, Markers, Strip, Splice, Join, ReplacementLines, Covered, AreSpans,
         OnlyHit, AllSpans, OnlyMarker;
    var lines, s := Split(q.text), first + q.startOffset;
    UniqueIff(lines, q.start, q.prefix, 0, first);
    UniqueIff(lines, q.endAfter, q.prefix, 0, after);
    var block := lines[s..after];
    AllSpansIff(block, q.drops, q.ranges, q.prefix, |q.ranges|, spans);
    AllSpansInBlock(block, q.drops, q.ranges, q.prefix, |q.ranges|);
    KeepsIfSpans(block, spans);
    OneMarkerIff(ReplacementLines(q.replacement));
    NoMarkerIff(ReplacementLines(q.replacement));
  }

  /** So a request is carved exactly when it is acceptable. */
  lemma CarvesIff(q: Request)
    ensures Plan(q).Ok? <==> exists first: nat, after: nat, spans :: Acceptable(q, first, after, spans)
  {
    hide Plan, Acceptable;
    if Plan(q).Ok? {
      var first, spans := CarvedIsAcceptable(q, Plan(q).value);
    }
    if first: nat, after: nat, spans :| Acceptable(q, first, after, spans) {
      AcceptableIsCarved(q, first, after, spans);
    }
  }
}
