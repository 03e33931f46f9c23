/** Blanking fenced code blocks line by line (section 4.5 of the CommonMark specification). */
module FencedCode {
  import opened Wrappers
  import opened Lines

  /** The character and the length of the run that opened a block. */
  datatype Fence = Fence(mark: char, length: nat)

  /** How many characters `c` a text starts with. */
  function RunOf(s: string, c: char): (n: nat)
    ensures n <= |s|
    ensures n < |s| ==> s[n] != c
  {
    if s != "" && s[0] == c then 1 + RunOf(s[1..], c) else 0
  }

  /** At most three spaces, a run of three or more marks, and no backtick after a run of backticks. */
  function Opens(line: string): Option<Fence> {
    var indent := RunOf(line, ' ');
    if indent > 3 || indent == |line| || line[indent] !in {'`', '~'} then None else
    var mark, rest := line[indent], line[indent..];
    var length := RunOf(rest, mark);
    if length < 3 || (mark == '`' && '`' in rest[length..]) then None else Some(Fence(mark, length))
  }

  /** At most three spaces, a run at least as long as the opening one, and nothing but white space after it. */
  predicate Closes(line: string, fence: Fence) {
    var indent := RunOf(line, ' ');
    var stripped := line[indent..];
    var run := RunOf(stripped, fence.mark);
    indent <= 3 && run >= fence.length && Strip(stripped[run..]) == ""
  }

  ghost function Copies(c: char, n: nat): string {
    seq(n, i => c)
  }

  lemma {:induction false} RunOfCopies(c: char, n: nat, rest: string)
    requires rest == "" || rest[0] != c
    ensures RunOf(Copies(c, n) + rest, c) == n
  {
    if n == 0 {
      assert Copies(c, n) + rest == rest;
    } else {
      RunOfCopies(c, n - 1, rest);
      assert (Copies(c, n) + rest)[1..] == Copies(c, n - 1) + rest;
    }
  }

  lemma {:induction false} RunIsCopies(s: string, c: char)
    ensures s[..RunOf(s, c)] == Copies(c, RunOf(s, c))
  {
    if s != "" && s[0] == c {
      RunIsCopies(s[1..], c);
      assert s[..RunOf(s, c)] == [c] + s[1..][..RunOf(s[1..], c)];
    }
  }

  /** A line is an indent, a run of marks that ends there, and the rest. */
  ghost predicate IsFenceLine(line: string, indent: nat, mark: char, length: nat, rest: string) {
    && indent <= 3 && line == Copies(' ', indent) + (Copies(mark, length) + rest)
    && length > 0 && (rest == "" || rest[0] != mark)
  }

  lemma FenceLineRuns(line: string, indent: nat, mark: char, length: nat, rest: string)
    requires IsFenceLine(line, indent, mark, length, rest) && mark != ' '
    ensures RunOf(line, ' ') == indent && indent < |line| && line[indent] == mark
    ensures line[indent..] == Copies(mark, length) + rest && RunOf(line[indent..], mark) == length
    ensures line[indent..][length..] == rest
  {
    hide RunOf;
    RunOfCopies(' ', indent, Copies(mark, length) + rest);
    RunOfCopies(mark, length, rest);
    assert line[indent..] == Copies(mark, length) + rest;
  }

  lemma RunsFenceLine(line: string, mark: char)
    requires var indent := RunOf(line, ' '); indent <= 3 && RunOf(line[indent..], mark) > 0
    ensures var indent := RunOf(line, ' ');
      var length := RunOf(line[indent..], mark);
      IsFenceLine(line, indent, mark, length, line[indent..][length..])
  {
    var indent := RunOf(line, ' ');
    var length := RunOf(line[indent..], mark);
    RunIsCopies(line, ' ');
    RunIsCopies(line[indent..], mark);
    hide RunOf;
    assert line == line[..indent] + line[indent..];
    assert line[indent..] == line[indent..][..length] + line[indent..][length..];
  }

  /** A line opens a block exactly when it is at most three spaces, a run of three or more backticks or tildes, and a
      rest that neither continues the run nor, after backticks, holds one. */
  lemma OpensIff(line: string, fence: Fence)
    ensures Opens(line) == Some(fence) <==>
      && fence.mark in {'`', '~'} && fence.length >= 3
      && exists indent: nat, rest ::
           IsFenceLine(line, indent, fence.mark, fence.length, rest) && (fence.mark == '`' ==> '`' !in rest)
  {
    hide RunOf, IsFenceLine;
    if Opens(line) == Some(fence) {
      RunsFenceLine(line, fence.mark);
    }
    forall indent: nat, rest | fence.mark != ' ' && IsFenceLine(line, indent, fence.mark, fence.length, rest)
      ensures RunOf(line, ' ') == indent <= 3 && indent < |line| && line[indent] == fence.mark
      ensures RunOf(line[indent..], fence.mark) == fence.length && line[indent..][fence.length..] == rest
    {
      FenceLineRuns(line, indent, fence.mark, fence.length, rest);
      IndentIsSmall(line, indent, fence.mark, fence.length, rest);
    }
  }

  lemma IndentIsSmall(line: string, indent: nat, mark: char, length: nat, rest: string)
    requires IsFenceLine(line, indent, mark, length, rest)
    ensures indent <= 3
  {
  }

  /** A line closes it exactly when it is at most three spaces, at least as long a run of the same mark, and white
      space. */
  lemma ClosesIff(line: string, fence: Fence)
    requires fence.mark in {'`', '~'} && fence.length > 0
    ensures Closes(line, fence) <==>
      exists indent: nat, length: nat, rest ::
        IsFenceLine(line, indent, fence.mark, length, rest) && length >= fence.length && Strip(rest) == ""
  {
    hide RunOf, IsFenceLine, Strip;
    if Closes(line, fence) {
      RunsFenceLine(line, fence.mark);
    }
    forall indent: nat, length: nat, rest | IsFenceLine(line, indent, fence.mark, length, rest)
      ensures RunOf(line, ' ') == indent <= 3 && indent <= |line|
      ensures RunOf(line[indent..], fence.mark) == length && line[indent..][length..] == rest
    {
      FenceLineRuns(line, indent, fence.mark, length, rest);
      IndentIsSmall(line, indent, fence.mark, length, rest);
    }
  }

  function Blank(s: string): (r: string)
    ensures |r| == |s|
    ensures forall p | 0 <= p < |s| :: r[p] == if s[p] == '\n' then '\n' else ' '
  {
    seq(|s|, p requires 0 <= p < |s| => if s[p] == '\n' then '\n' else ' ')
  }

  // ----- blocks -----

  /** The first line from i on that closes the fence; past the end when none does. */
  function EndOf(lines: seq<string>, fence: Fence, i: nat): (e: nat)
    requires i <= |lines|
    ensures i <= e <= |lines|
    ensures forall k | i <= k < e :: !Closes(lines[k], fence)
    ensures e < |lines| ==> Closes(lines[e], fence)
    decreases |lines| - i
  {
    if i == |lines| || Closes(lines[i], fence) then i else EndOf(lines, fence, i + 1)
  }

  /** A block: its first line, and the first line after it. */
  datatype Block = Block(first: nat, after: nat)

  /** The fenced blocks from line i on: each opener starts one that runs through its closing line, or to the end. */
  function Blocks(lines: seq<string>, i: nat): (r: seq<Block>)
    requires i <= |lines|
    ensures forall b | b in r :: i <= b.first < b.after <= |lines|
    decreases |lines| - i
  {
    if i == |lines| then [] else
    match Opens(lines[i])
    case None => Blocks(lines, i + 1)
    case Some(fence) =>
      var e := EndOf(lines, fence, i + 1);
      var after := if e < |lines| then e + 1 else e;
      [Block(i, after)] + Blocks(lines, after)
  }

  ghost predicate InBlock(blocks: seq<Block>, k: nat) {
    exists b | b in blocks :: b.first <= k < b.after
  }

  /** The lines with exactly the lines of fenced blocks blanked. */
  ghost predicate FencesBlanked(lines: seq<string>, out: seq<string>) {
    && |out| == |lines|
    && forall k | 0 <= k < |lines| :: out[k] == if InBlock(Blocks(lines, 0), k) then Blank(lines[k]) else lines[k]
  }

  lemma InFirstOrRest(b: Block, rest: seq<Block>, k: nat)
    ensures InBlock([b] + rest, k) <==> b.first <= k < b.after || InBlock(rest, k)
  {
  }

  /** Where a scan stands before line i: outside any block, or in one that a fence opened. */
  ghost predicate Scanning(lines: seq<string>, i: nat, open: Option<Fence>)
    requires i <= |lines|
  {
    match open
    case None => forall k: nat | i <= k < |lines| :: InBlock(Blocks(lines, 0), k) <==> InBlock(Blocks(lines, i), k)
    case Some(fence) =>
      var after := AfterEnd(lines, fence, i);
      forall k: nat | i <= k < |lines| ::
        InBlock(Blocks(lines, 0), k) <==> k < after || InBlock(Blocks(lines, after), k)
  }

  ghost function AfterEnd(lines: seq<string>, fence: Fence, i: nat): (r: nat)
    requires i <= |lines|
    ensures i <= r <= |lines|
  {
    var e := EndOf(lines, fence, i);
    if e < |lines| then e + 1 else e
  }

  lemma ScanOutside(lines: seq<string>, i: nat)
    requires i < |lines| && Scanning(lines, i, None)
    ensures Scanning(lines, i + 1, Opens(lines[i]))
    ensures InBlock(Blocks(lines, 0), i) <==> Opens(lines[i]).Some?
  {
    hide Opens, Scanning, InBlock, Blocks;
    match Opens(lines[i])
    case None => ScanPlain(lines, i);
    case Some(fence) => ScanOpener(lines, i, fence);
  }

  lemma ScanOpener(lines: seq<string>, i: nat, fence: Fence)
    requires i < |lines| && Scanning(lines, i, None) && Opens(lines[i]) == Some(fence)
    ensures Scanning(lines, i + 1, Some(fence)) && InBlock(Blocks(lines, 0), i)
  {
    hide Opens, InBlock, Blocks, AfterEnd;
    var after := AfterEnd(lines, fence, i + 1);
    BlockOpens(lines, i, fence);
    forall k: nat | i <= k < |lines|
      ensures InBlock(Blocks(lines, 0), k) <==> k < after || InBlock(Blocks(lines, after), k)
    {
      InFirstOrRest(Block(i, after), Blocks(lines, after), k);
    }
  }

  lemma BlockOpens(lines: seq<string>, i: nat, fence: Fence)
    requires i < |lines| && Opens(lines[i]) == Some(fence)
    ensures var after := AfterEnd(lines, fence, i + 1);
      i < after && Blocks(lines, i) == [Block(i, after)] + Blocks(lines, after)
  {
    hide Opens, Closes;
  }

  lemma ScanPlain(lines: seq<string>, i: nat)
    requires i < |lines| && Scanning(lines, i, None) && Opens(lines[i]).None?
    ensures Scanning(lines, i + 1, None) && !InBlock(Blocks(lines, 0), i)
  {
    assert Blocks(lines, i) == Blocks(lines, i + 1);
    BlocksFrom(lines, i + 1);
    hide Opens, InBlock, Blocks;
  }

  lemma BlocksFrom(lines: seq<string>, i: nat)
    requires i <= |lines|
    ensures forall k: nat | k < i :: !InBlock(Blocks(lines, i), k)
  {
    hide Blocks;
  }

  lemma ScanInside(lines: seq<string>, i: nat, fence: Fence)
    requires i < |lines| && Scanning(lines, i, Some(fence))
    ensures Scanning(lines, i + 1, if Closes(lines[i], fence) then None else Some(fence))
    ensures InBlock(Blocks(lines, 0), i)
  {
    hide Closes, InBlock, Blocks;
  }

  method StripFencedBlocks(text: string) returns (out: string)
    ensures FencesBlanked(Split(text), Split(out))
    ensures BlankedCopy(text, out)
  {
    ghost var given := Split(text);
    var lines := Split(text);
    var open: Option<Fence> := None;
    for i := 0 to |lines|
      invariant |lines| == |given| && Scanning(given, i, open)
      invariant forall k | i <= k < |lines| :: lines[k] == given[k]
      invariant forall k | 0 <= k < i :: lines[k] == if InBlock(Blocks(given, 0), k) then Blank(given[k]) else given[k]
    {
      hide Blocks, Opens, Closes, InBlock, Scanning;
      var line := lines[i];
      if open.None? {
        ScanOutside(given, i);
        var m := Opens(line);
        if m.Some? {
          open := m;
          lines := lines[i := Blank(line)];
        }
        continue;
      }
      ScanInside(given, i, open.value);
      if Closes(line, open.value) {
        open := None;
      }
      lines := lines[i := Blank(line)];
    }
    JoinOfSplit(text);
    JoinBlanked(given, lines);
    SplitOfJoin(lines);
    return Join(lines);
  }

  // ----- what blanking keeps -----

  /** Same length, every newline in its place, and no character changed but into a space. */
  ghost predicate BlankedCopy(text: string, out: string) {
    |out| == |text| && forall p | 0 <= p < |text| :: out[p] == text[p] || (text[p] != '\n' && out[p] == ' ')
  }

  lemma {:induction false} JoinBlanked(lines: seq<string>, out: seq<string>)
    requires |out| == |lines| && NoNewlines(lines)
    requires forall k | 0 <= k < |lines| :: out[k] == lines[k] || out[k] == Blank(lines[k])
    ensures BlankedCopy(Join(lines), Join(out)) && NoNewlines(out)
  {
    if |lines| > 1 {
      JoinBlanked(lines[1..], out[1..]);
      assert NoNewlines(out[1..]);
    }
  }

  lemma SpacesOnly(line: string)
    requires forall p | 0 <= p < |line| :: line[p] == ' '
    ensures RunOf(line, ' ') == |line| && Opens(line).None?
  {
  }

  /** A line outside every block opens none. */
  lemma {:induction false} OutsideOpensNothing(lines: seq<string>, i: nat, k: nat)
    requires i <= k < |lines| && !InBlock(Blocks(lines, i), k)
    ensures Opens(lines[k]).None?
    decreases |lines| - i
  {
    hide Opens, Closes, EndOf;
    if Opens(lines[i]).None? {
      if i < k {
        OutsideOpensNothing(lines, i + 1, k);
      }
    } else {
      var after := AfterEnd(lines, Opens(lines[i]).value, i + 1);
      InFirstOrRest(Block(i, after), Blocks(lines, after), k);
      OutsideOpensNothing(lines, after, k);
    }
  }

  lemma {:induction false} NoOpenersNoBlocks(lines: seq<string>, i: nat)
    requires i <= |lines| && forall k | i <= k < |lines| :: Opens(lines[k]).None?
    ensures Blocks(lines, i) == []
    decreases |lines| - i
  {
    if i < |lines| {
      NoOpenersNoBlocks(lines, i + 1);
    }
  }

  /** Stripping fenced blocks twice strips nothing more. */
  lemma StripFencedIsIdempotent(lines: seq<string>, out: seq<string>, again: seq<string>)
    requires NoNewlines(lines) && FencesBlanked(lines, out) && FencesBlanked(out, again)
    ensures again == out
  {
    hide Opens, Blocks;
    forall k | 0 <= k < |out| ensures Opens(out[k]).None? {
      if InBlock(Blocks(lines, 0), k) {
        SpacesOnly(out[k]);
      } else {
        OutsideOpensNothing(lines, 0, k);
      }
    }
    NoOpenersNoBlocks(out, 0);
  }

  // ----- what a block is -----

  /** A block starts with a line that opens it and runs through the first later line that closes it, or to the end. */
  ghost predicate IsBlock(lines: seq<string>, b: Block) {
    && b.first < b.after <= |lines|
    && match Opens(lines[b.first])
       case None => false
       case Some(fence) =>
         && (forall k | b.first < k < b.after - 1 :: !Closes(lines[k], fence))
         && (b.after < |lines| ==> b.first < b.after - 1 && Closes(lines[b.after - 1], fence))
  }

  ghost predicate AreBlocks(lines: seq<string>, i: nat, blocks: seq<Block>) {
    && (forall b | b in blocks :: i <= b.first && IsBlock(lines, b))
    && (forall j, k | 0 <= j < k < |blocks| :: blocks[j].after <= blocks[k].first)
    && (forall k: nat | i <= k < |lines| && Opens(lines[k]).Some? :: InBlock(blocks, k))
  }

  lemma AreBlocksNext(lines: seq<string>, i: nat, after: nat, rest: seq<Block>)
    requires IsBlock(lines, Block(i, after)) && AreBlocks(lines, after, rest)
    ensures AreBlocks(lines, i, [Block(i, after)] + rest)
  {
    hide IsBlock, Opens, InBlock;
    var b := Block(i, after);
    BlockIsLonger(lines, b);
    assert forall k | 0 <= k < |rest| :: rest[k] in rest;
    forall k: nat | i <= k < |lines| && Opens(lines[k]).Some? ensures InBlock([b] + rest, k) {
      InFirstOrRest(b, rest, k);
    }
  }

  lemma BlockIsLonger(lines: seq<string>, b: Block)
    requires IsBlock(lines, b)
    ensures b.first < b.after
  {
  }

  lemma AreBlocksSkip(lines: seq<string>, i: nat, blocks: seq<Block>)
    requires i < |lines| && Opens(lines[i]).None? && AreBlocks(lines, i + 1, blocks)
    ensures AreBlocks(lines, i, blocks)
  {
    hide IsBlock, Opens, InBlock;
  }

  /** The blocks are apart and in order, and every line from i on that could open one lies in one. */
  lemma {:induction false} BlocksAreBlocks(lines: seq<string>, i: nat)
    requires i <= |lines|
    ensures AreBlocks(lines, i, Blocks(lines, i))
    decreases |lines| - i
  {
    hide Opens, Closes, IsBlock;
    if i < |lines| {
      if Opens(lines[i]).None? {
        BlocksAreBlocks(lines, i + 1);
        AreBlocksSkip(lines, i, Blocks(lines, i + 1));
      } else {
        hide AreBlocks;
        var after := AfterEnd(lines, Opens(lines[i]).value, i + 1);
        BlockOpens(lines, i, Opens(lines[i]).value);
        BlocksAreBlocks(lines, after);
        FirstBlock(lines, i, after);
        AreBlocksNext(lines, i, after, Blocks(lines, after));
      }
    }
  }

  lemma FirstBlock(lines: seq<string>, i: nat, after: nat)
    requires i < |lines| && Opens(lines[i]).Some? && after == AfterEnd(lines, Opens(lines[i]).value, i + 1)
    ensures IsBlock(lines, Block(i, after))
  {
    hide Opens, Closes;
  }
}
