/** Blanking inline code spans (section 6.1 of the CommonMark specification), and both passes together. */
module InlineCode {
  import opened Wrappers
  import opened Lines
  import opened Sequences
  import opened FencedCode

  /** How many backticks stand at i. */
  function Backticks(text: string, i: nat): (n: nat)
    requires i <= |text|
    ensures i + n <= |text|
    ensures forall p | i <= p < i + n :: text[p] == '`'
    ensures i + n < |text| ==> text[i + n] != '`'
    decreases |text| - i
  {
    if i < |text| && text[i] == '`' then 1 + Backticks(text, i + 1) else 0
  }

  /** A whole run of n backticks starts at i. */
  predicate RunAt(text: string, i: nat, n: nat) {
    && 0 < n && i + n <= |text|
    && (forall p | i <= p < i + n :: text[p] == '`')
    && (i > 0 ==> text[i - 1] != '`')
    && (i + n < |text| ==> text[i + n] != '`')
  }

  /** The first run of exactly n backticks from j on. */
  function Closing(text: string, j: nat, n: nat): (r: Option<nat>)
    requires j <= |text|
    ensures r.Some? ==> j <= r.value && RunAt(text, r.value, n)
    ensures r.Some? ==> forall k | j <= k < r.value :: !RunAt(text, k, n)
    ensures r.None? ==> forall k | j <= k :: !RunAt(text, k, n)
    decreases |text| - j
  {
    if RunAt(text, j, n) then Some(j)
    else if j == |text| then None
    else Closing(text, j + 1, n)
  }

  /** A code span: from the start of its opening run to the end of its closing one, both `ticks` long. */
  datatype Span = Span(start: nat, ticks: nat, end: nat)

  /** The span that opens at i, if one does. */
  function SpanAt(text: string, i: nat): (r: Option<Span>)
    requires i < |text|
    ensures r.Some? ==> r.value.start == i && IsPair(text, r.value)
    ensures r.None? ==> forall n, b: nat | RunAt(text, i, n) && i < b :: !RunAt(text, b, n)
  {
    var n := Backticks(text, i);
    if n == 0 || (i > 0 && text[i - 1] == '`') then None else
    RunHere(text, i);
    match Closing(text, i + n, n)
    case None => None
    case Some(j) => Some(Span(i, n, j + n))
  }

  /** The spans a left-to-right scan from i finds. */
  function Spans(text: string, i: nat): (r: seq<Span>)
    requires i <= |text|
    decreases |text| - i
  {
    if i == |text| then [] else
    match SpanAt(text, i)
    case None => Spans(text, i + 1)
    case Some(s) => [s] + Spans(text, s.end)
  }

  // ----- what a span is -----

  /** From a whole run to the end of the nearest later run of the same length. */
  predicate IsPair(text: string, s: Span) {
    && RunAt(text, s.start, s.ticks)
    && s.start + 2 * s.ticks < s.end
    && RunAt(text, s.end - s.ticks, s.ticks)
    && NoRun(text, s.start + s.ticks, s.end - s.ticks, s.ticks)
  }

  predicate NoRun(text: string, from: nat, to: nat, n: nat) {
    forall k | from <= k < to :: !RunAt(text, k, n)
  }

  ghost predicate Covered(spans: seq<Span>, p: nat) {
    exists s | s in spans :: s.start <= p < s.end
  }

  /** Pairs in order and apart, such that every run with a later run of its length lies inside one. */
  ghost predicate LeftmostPairs(text: string, spans: seq<Span>, i: nat) {
    && (forall s | s in spans :: IsPair(text, s) && i <= s.start)
    && (forall k, l | 0 <= k < l < |spans| :: spans[k].end <= spans[l].start)
    && (forall a: nat, b: nat, n | i <= a < b && RunAt(text, a, n) && RunAt(text, b, n) :: Covered(spans, a))
  }

  /** The text with exactly the characters of the spans blanked. */
  ghost predicate SpansBlanked(text: string, spans: seq<Span>, out: string) {
    |out| == |text| && Blanking(text, spans, out)
  }

  /** A first part of that text. */
  ghost predicate Blanking(text: string, spans: seq<Span>, out: string) {
    |out| <= |text| && forall p | 0 <= p < |out| :: out[p] == BlankedAt(text, spans, p)
  }

  ghost function BlankedAt(text: string, spans: seq<Span>, p: nat): char
    requires p < |text|
  {
    if Covered(spans, p) && text[p] != '\n' then ' ' else text[p]
  }

  // ----- runs -----

  lemma RunHere(text: string, i: nat)
    requires i < |text| && text[i] == '`' && (i > 0 ==> text[i - 1] != '`')
    ensures RunAt(text, i, Backticks(text, i))
    ensures forall n | RunAt(text, i, n) :: n == Backticks(text, i)
  {
  }

  // ----- the scan -----

  lemma CoveredFirst(s: Span, rest: seq<Span>, p: nat)
    ensures Covered([s] + rest, p) <==> s.start <= p < s.end || Covered(rest, p)
  {
  }

  /** From i on, the spans of the whole text cover what those still to be found cover. */
  ghost predicate Scanned(text: string, i: nat)
    requires i <= |text|
  {
    forall p: nat | i <= p < |text| :: Covered(Spans(text, 0), p) <==> Covered(Spans(text, i), p)
  }

  lemma {:induction false} SpansFrom(text: string, i: nat)
    requires i <= |text|
    ensures forall s | s in Spans(text, i) :: i <= s.start && IsPair(text, s)
    decreases |text| - i
  {
    hide IsPair;
    if i < |text| {
      match SpanAt(text, i)
      case None => SpansFrom(text, i + 1);
      case Some(s) =>
        PairBounds(text, s);
        SpansFrom(text, s.end);
    }
  }

  lemma PairBounds(text: string, s: Span)
    requires IsPair(text, s)
    ensures 0 < s.ticks && s.start < s.end <= |text|
  {
  }

  lemma ScanSpan(text: string, i: nat, s: Span)
    requires i < |text| && Scanned(text, i) && SpanAt(text, i) == Some(s)
    ensures i < s.end <= |text| && Scanned(text, s.end)
    ensures forall p: nat | i <= p < s.end :: Covered(Spans(text, 0), p)
  {
  }

  lemma ScanOn(text: string, i: nat)
    requires i < |text| && Scanned(text, i) && SpanAt(text, i).None?
    ensures Scanned(text, i + 1) && !Covered(Spans(text, 0), i)
  {
    SpansFrom(text, i + 1);
  }

  lemma BlankOn(text: string, spans: seq<Span>, out: string, end: nat)
    requires Blanking(text, spans, out) && |out| < end <= |text|
    requires forall p: nat | |out| <= p < end :: Covered(spans, p)
    ensures Blanking(text, spans, out + Blank(text[|out|..end]))
  {
  }

  lemma CopyOn(text: string, spans: seq<Span>, out: string)
    requires Blanking(text, spans, out) && |out| < |text| && !Covered(spans, |out|)
    ensures Blanking(text, spans, out + [text[|out|]])
  {
  }

  /** The substitution: blanks each match and copies what lies between matches. */
  method StripInlineCode(text: string) returns (out: string)
    ensures SpansBlanked(text, Spans(text, 0), out)
  {
    ghost var spans := Spans(text, 0);
    out := "";
    var i := 0;
    while i < |text|
      invariant 0 <= i <= |text| && Scanned(text, i)
      invariant |out| == i
      invariant Blanking(text, spans, out)
    {
      hide *;
      match SpanAt(text, i) {
        case Some(s) =>
          ScanSpan(text, i, s);
          BlankOn(text, spans, out, s.end);
          out := out + Blank(text[i..s.end]);
          i := s.end;
        case None =>
          ScanOn(text, i);
          CopyOn(text, spans, out);
          out := out + [text[i]];
          i := i + 1;
      }
    }
  }

  // ----- the scan finds exactly the leftmost pairs -----

  lemma NoRunsPast(text: string, i: nat)
    requires |text| <= i
    ensures forall a: nat, n | i <= a :: !RunAt(text, a, n)
  {
  }

  lemma {:induction false} SpansAreLeftmostPairs(text: string, i: nat)
    requires i <= |text|
    ensures LeftmostPairs(text, Spans(text, i), i)
    decreases |text| - i
  {
    hide IsPair, RunAt, Covered;
    if i == |text| {
      NoRunsPast(text, i);
    } else {
      match SpanAt(text, i)
      case None => SpansAreLeftmostPairs(text, i + 1);
      case Some(s) =>
        PairBounds(text, s);
        SpansAreLeftmostPairs(text, s.end);
        PairsAfterFirst(text, s, Spans(text, s.end));
    }
  }

  lemma PairsAfterFirst(text: string, s: Span, rest: seq<Span>)
    requires IsPair(text, s) && LeftmostPairs(text, rest, s.end)
    ensures LeftmostPairs(text, [s] + rest, s.start)
  {
    hide IsPair, RunAt, Covered;
    PairBounds(text, s);
    forall p: nat ensures Covered([s] + rest, p) <==> s.start <= p < s.end || Covered(rest, p) {
      CoveredFirst(s, rest, p);
    }
  }

  /** Two whole pairs that open at the same run are the same. */
  lemma SamePair(text: string, s: Span, t: Span)
    requires IsPair(text, s) && IsPair(text, t) && s.start == t.start
    ensures s == t
  {
  }

  /** No other spans fit that description. */
  lemma {:induction false} LeftmostPairsAreSpans(text: string, spans: seq<Span>, i: nat)
    requires i <= |text| && LeftmostPairs(text, spans, i)
    ensures spans == Spans(text, i)
    decreases |text| - i
  {
    hide LeftmostPairs, SpanAt, IsPair;
    if i == |text| {
      NoPairsPast(text, spans);
    } else {
      match SpanAt(text, i)
      case None =>
        PairsFromNext(text, spans, i);
        LeftmostPairsAreSpans(text, spans, i + 1);
      case Some(s) =>
        PairBounds(text, s);
        FirstSpan(text, spans, s);
        LeftmostPairsAreSpans(text, spans[1..], s.end);
    }
  }

  lemma NoPairsPast(text: string, spans: seq<Span>)
    requires LeftmostPairs(text, spans, |text|)
    ensures spans == []
  {
    hide RunAt, Covered, IsPair;
    PairsStartInside(text);
    First(spans);
  }

  lemma PairsStartInside(text: string)
    ensures forall s | IsPair(text, s) :: s.start < |text|
  {
  }

  lemma PairsFromNext(text: string, spans: seq<Span>, i: nat)
    requires i < |text| && SpanAt(text, i).None? && LeftmostPairs(text, spans, i)
    ensures LeftmostPairs(text, spans, i + 1)
  {
    hide RunAt, Covered, SpanAt, IsPair;
    NoPairOpens(text, i);
  }

  lemma NoPairOpens(text: string, i: nat)
    requires i < |text| && SpanAt(text, i).None?
    ensures forall s | IsPair(text, s) :: s.start != i
  {
  }

  lemma CoversItsRun(text: string, spans: seq<Span>, s: Span)
    requires LeftmostPairs(text, spans, s.start) && IsPair(text, s)
    requires forall t | t in spans :: t.start < t.end
    ensures spans != [] && spans[0] == s
  {
    hide RunAt;
    assert Covered(spans, s.start) by {
      assert RunAt(text, s.end - s.ticks, s.ticks);
    }
    var t :| t in spans && t.start <= s.start < t.end;
    SamePair(text, s, t);
    assert spans[0] in spans;
  }

  lemma FirstSpan(text: string, spans: seq<Span>, s: Span)
    requires LeftmostPairs(text, spans, s.start) && IsPair(text, s)
    ensures spans != [] && spans[0] == s
    ensures LeftmostPairs(text, spans[1..], s.end)
  {
    hide RunAt, IsPair, Covered;
    forall t | t in spans ensures t.start < t.end {
      PairBounds(text, t);
    }
    CoversItsRun(text, spans, s);
    var rest := spans[1..];
    assert spans == [s] + rest;
    forall p: nat ensures Covered(spans, p) <==> s.start <= p < s.end || Covered(rest, p) {
      CoveredFirst(s, rest, p);
    }
  }

  // ----- blanking spans keeps the shape of the text and leaves none to blank -----

  lemma SpansBlankedCopies(text: string, spans: seq<Span>, out: string)
    requires SpansBlanked(text, spans, out)
    ensures BlankedCopy(text, out)
  {
  }

  lemma AfterSpan(text: string, spans: seq<Span>, p: nat)
    requires forall s | s in spans :: IsPair(text, s)
    requires 0 < p < |text| && Covered(spans, p - 1) && !Covered(spans, p)
    ensures text[p] != '`'
  {
  }

  lemma BeforeSpan(text: string, spans: seq<Span>, p: nat)
    requires forall s | s in spans :: IsPair(text, s)
    requires p + 1 < |text| && !Covered(spans, p) && Covered(spans, p + 1)
    ensures text[p] != '`'
  {
  }

  /** A run that survives was a run outside every span. */
  lemma SurvivingRun(text: string, out: string, a: nat, n: nat)
    requires SpansBlanked(text, Spans(text, 0), out) && RunAt(out, a, n)
    ensures RunAt(text, a, n) && !Covered(Spans(text, 0), a)
  {
    var spans := Spans(text, 0);
    SpansFrom(text, 0);
    hide Spans, Covered, IsPair, SpanAt;
    assert forall p: nat | p < |out| && out[p] == '`' :: text[p] == '`' && !Covered(spans, p);
    var last: nat := a + n - 1;
    assert out[a] == '`' && out[last] == '`';
    if a > 0 && Covered(spans, a - 1) {
      AfterSpan(text, spans, a);
    }
    if a + n < |text| && Covered(spans, last + 1) {
      BeforeSpan(text, spans, last);
    }
  }

  lemma NothingLeftToBlank(text: string, out: string)
    requires SpansBlanked(text, Spans(text, 0), out)
    ensures Spans(out, 0) == []
  {
    SpansAreLeftmostPairs(text, 0);
    hide RunAt, IsPair, Covered, Spans, SpansBlanked;
    forall a: nat, b: nat, n | a < b && RunAt(out, a, n) && RunAt(out, b, n) ensures false {
      SurvivingRun(text, out, a, n);
      SurvivingRun(text, out, b, n);
    }
    LeftmostPairsAreSpans(out, [], 0);
  }

  lemma StripInlineIsIdempotent(text: string, out: string, again: string)
    requires SpansBlanked(text, Spans(text, 0), out) && SpansBlanked(out, Spans(out, 0), again)
    ensures again == out
  {
    NothingLeftToBlank(text, out);
  }

  // ----- both passes -----

  /** What `mid` and `out` are after the fenced and after the inline pass over a text. */
  ghost predicate Stripped(text: string, mid: string, out: string) {
    FencesBlanked(Split(text), Split(mid)) && SpansBlanked(mid, Spans(mid, 0), out)
  }

  method StripCode(text: string) returns (ghost mid: string, out: string)
    ensures Stripped(text, mid, out)
    ensures BlankedCopy(text, out)
  {
    var unfenced := StripFencedBlocks(text);
    out := StripInlineCode(unfenced);
    mid := unfenced;
    assert Stripped(text, mid, out);
    hide *;
    SpansBlankedCopies(unfenced, Spans(unfenced, 0), out);
    CopyOfCopy(text, unfenced, out);
  }

  lemma CopyOfCopy(text: string, mid: string, out: string)
    requires BlankedCopy(text, mid) && BlankedCopy(mid, out)
    ensures BlankedCopy(text, out)
  {
  }

  /** A second run of both passes changes nothing exactly when no line of the first result opens a fence. */
  lemma StripTwice(text: string, mid: string, out: string, mid2: string, again: string)
    requires Stripped(text, mid, out) && Stripped(out, mid2, again)
    ensures again == out <==> forall line | line in Split(out) :: Opens(line).None?
  {
    var lines, blanked := Split(out), Split(mid2);
    JoinOfSplit(out);
    JoinOfSplit(mid2);
    if forall line | line in lines :: Opens(line).None? {
      assert again == out by {
        hide Opens, SpansBlanked, Split, Join;
        NoOpenersNoBlocks(lines, 0);
        assert blanked == lines;
        StripInlineIsIdempotent(mid, out, again);
      }
    } else {
      assert again != out by {
        FenceChangesText(lines, blanked);
        SpansBlankedCopies(mid2, Spans(mid2, 0), again);
        CopyChangesToo(out, mid2, again);
      }
    }
  }

  /** Blanks only add up. */
  lemma CopyChangesToo(text: string, mid: string, out: string)
    requires BlankedCopy(text, mid) && BlankedCopy(mid, out) && mid != text
    ensures out != text
  {
  }

  lemma FenceChangesText(lines: seq<string>, out: seq<string>)
    requires NoNewlines(lines) && FencesBlanked(lines, out)
    requires exists line | line in lines :: Opens(line).Some?
    ensures BlankedCopy(Join(lines), Join(out)) && Join(out) != Join(lines)
  {
    hide Opens, Blocks, InBlock, Join, BlankedCopy, Split;
    JoinBlanked(lines, out);
    SplitOfJoin(lines);
    SplitOfJoin(out);
    var k :| 0 <= k < |lines| && Opens(lines[k]).Some?;
    if !InBlock(Blocks(lines, 0), k) {
      OutsideOpensNothing(lines, 0, k);
    }
    FenceShows(lines[k]);
  }

  lemma FenceShows(line: string)
    requires Opens(line).Some? && '\n' !in line
    ensures Blank(line) != line
  {
  }

  lemma OneSpan(text: string)
    requires text == "`x`~~~"
    ensures Spans(text, 0) == [Span(0, 1, 3)]
  {
    var s := Span(0, 1, 3);
    assert LeftmostPairs(text, [s], 0) by {
      assert s in [s] && Covered([s], 0);
      forall a: nat, n | RunAt(text, a, n) ensures a == 0 || a == 2 {
        assert text[a] == '`';
      }
    }
    LeftmostPairsAreSpans(text, [s], 0);
  }

  lemma FirstStrip(text: string)
    requires text == "`x`~~~"
    ensures Stripped(text, text, "   ~~~")
  {
    var s := Span(0, 1, 3);
    SplitOfLine(text, "");
    assert RunOf(text, ' ') == 0 && RunOf(text, '`') == 1;
    hide RunOf;
    assert text[0..] == text;
    assert Opens(text).None?;
    hide Opens;
    NoOpenersNoBlocks([text], 0);
    OneSpan(text);
    hide Spans, Split, Blocks;
    assert s in [s] && Covered([s], 0) && Covered([s], 1) && Covered([s], 2);
  }

  lemma TildesOpen(line: string)
    requires line == "   ~~~"
    ensures Opens(line) == Some(Fence('~', 3))
  {
    var tildes := line[3..];
    assert line[1..][1..][1..] == tildes;
    assert RunOf(line[1..][1..], ' ') == 1;
    assert RunOf(line, ' ') == 3;
    assert tildes == "~~~" && tildes[1..][1..] == "~";
    assert RunOf(tildes, '~') == 3;
  }

  lemma SecondStrip(text: string, blank: string)
    requires text == "   ~~~" && blank == "      "
    ensures Stripped(text, blank, blank)
  {
    SplitOfLine(text, "");
    SplitOfLine(blank, "");
    FenceAlone(text);
    NoTicksNoSpans(blank);
    hide Blocks, Split, Spans;
  }

  lemma FenceAlone(text: string)
    requires text == "   ~~~"
    ensures Blocks([text], 0) == [Block(0, 1)] && InBlock([Block(0, 1)], 0)
  {
    TildesOpen(text);
    hide Opens;
    assert Block(0, 1) in [Block(0, 1)];
  }

  lemma NoTicksNoSpans(text: string)
    requires forall p | 0 <= p < |text| :: text[p] != '`'
    ensures Spans(text, 0) == []
  {
    forall a: nat, n ensures !RunAt(text, a, n) {
      assert 0 < n && a + n <= |text| ==> text[a] != '`';
    }
    hide RunAt;
    LeftmostPairsAreSpans(text, [], 0);
  }

  /** A span in front of a fence keeps the first run from seeing the fence, and not the second. */
  lemma StripTwiceDiffers()
    ensures Stripped("`x`~~~", "`x`~~~", "   ~~~")
    ensures Stripped("   ~~~", "      ", "      ")
  {
    FirstStrip("`x`~~~");
    SecondStrip("   ~~~", "      ");
  }
}
