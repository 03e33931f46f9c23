/** Texts and their lines: Python's split and join on a newline, and strip. */
module Lines {

  function Split(text: string): (lines: seq<string>)
    ensures lines != []
  {
    if text == "" then [""]
    else if text[0] == '\n' then [""] + Split(text[1..])
    else
      var rest := Split(text[1..]);
      [[text[0]] + rest[0]] + rest[1..]
  }

  function Join(lines: seq<string>): string {
    if lines == [] then ""
    else if |lines| == 1 then lines[0]
    else lines[0] + "\n" + Join(lines[1..])
  }

  /** The lines, each ended by a newline. */
  function Ended(lines: seq<string>): string {
    if lines == [] then "" else lines[0] + "\n" + Ended(lines[1..])
  }

  ghost predicate NoNewlines(lines: seq<string>) {
    forall i | 0 <= i < |lines| :: '\n' !in lines[i]
  }

  lemma {:induction false} JoinOfSplit(text: string)
    ensures Join(Split(text)) == text && NoNewlines(Split(text))
  {
    if text != "" {
      JoinOfSplit(text[1..]);
      var rest := Split(text[1..]);
      if text[0] != '\n' {
        assert Split(text)[1..] == rest[1..];
      } else {
        assert Split(text)[1..] == rest;
      }
    }
  }

  lemma {:induction false} SplitOfLine(line: string, text: string)
    requires '\n' !in line
    ensures Split(line + "\n" + text) == [line] + Split(text)
    ensures Split(line) == [line]
  {
    if line == "" {
      assert (line + "\n" + text)[1..] == text;
    } else {
      SplitOfLine(line[1..], text);
      assert (line + "\n" + text)[1..] == line[1..] + "\n" + text;
      assert [line[0]] + line[1..] == line;
    }
  }

  lemma {:induction false} SplitOfJoin(lines: seq<string>)
    requires lines != [] && NoNewlines(lines)
    ensures Split(Join(lines)) == lines
  {
    if |lines| == 1 {
      SplitOfLine(lines[0], "");
    } else {
      SplitOfJoin(lines[1..]);
      SplitOfLine(lines[0], Join(lines[1..]));
    }
  }

  lemma {:induction false} SplitOfLast(text: string, line: string)
    requires '\n' !in line
    ensures Split(text + "\n" + line) == Split(text) + [line]
  {
    if text == "" {
      assert text + "\n" + line == "\n" + line;
      SplitOfLine(line, "");
      SplitOfLine("", line);
      assert "" + "\n" + line == "\n" + line;
    } else {
      SplitOfLast(text[1..], line);
      var whole := text + "\n" + line;
      assert whole[0] == text[0] && whole[1..] == text[1..] + "\n" + line;
    }
  }

  lemma JoinFirst(line: string, rest: seq<string>)
    requires rest != []
    ensures Join([line] + rest) == line + "\n" + Join(rest)
  {
    assert ([line] + rest)[1..] == rest;
  }

  /** Joining a concatenation ends the lines of its first part. */
  lemma {:induction false} JoinAppend(a: seq<string>, b: seq<string>)
    requires b != []
    ensures Join(a + b) == Ended(a) + Join(b)
  {
    hide Join;
    if a == [] {
      assert a + b == b;
    } else {
      JoinAppend(a[1..], b);
      JoinFirst(a[0], a[1..] + b);
      assert a + b == [a[0]] + (a[1..] + b);
      assert a[0] + "\n" + (Ended(a[1..]) + Join(b)) == a[0] + "\n" + Ended(a[1..]) + Join(b);
    }
  }

  lemma {:induction false} EndedAppend(a: seq<string>, b: seq<string>)
    ensures Ended(a + b) == Ended(a) + Ended(b)
  {
    if a == [] {
      assert a + b == b;
    } else {
      EndedAppend(a[1..], b);
      assert (a + b)[0] == a[0] && (a + b)[1..] == a[1..] + b;
      assert a[0] + "\n" + (Ended(a[1..]) + Ended(b)) == a[0] + "\n" + Ended(a[1..]) + Ended(b);
    }
  }

  lemma {:induction false} JoinThenEnd(lines: seq<string>)
    requires lines != []
    ensures Join(lines) + "\n" == Ended(lines)
  {
    if |lines| > 1 {
      JoinThenEnd(lines[1..]);
    }
  }

  /** Python's str.isspace on one character. */
  predicate IsSpace(c: char) {
    || '\t' <= c <= '\r' || '\U{1c}' <= c <= ' ' || c == '\U{85}' || c == '\U{a0}' || c == '\U{1680}'
    || '\U{2000}' <= c <= '\U{200a}' || c == '\U{2028}' || c == '\U{2029}' || c == '\U{202f}'
    || c == '\U{205f}' || c == '\U{3000}'
  }

  function LStrip(s: string): string {
    if s != "" && IsSpace(s[0]) then LStrip(s[1..]) else s
  }

  function RStrip(s: string): string {
    if s != "" && IsSpace(s[|s| - 1]) then RStrip(s[..|s| - 1]) else s
  }

  function Strip(s: string): string {
    RStrip(LStrip(s))
  }

  lemma NothingToStrip(s: string)
    requires s != "" && !IsSpace(s[0]) && !IsSpace(s[|s| - 1])
    ensures Strip(s) == s
  {
    hide IsSpace;
  }

  predicate AllSpace(s: string) {
    forall i | 0 <= i < |s| :: IsSpace(s[i])
  }

  lemma {:induction false} LStripIs(s: string) returns (left: string)
    ensures s == left + LStrip(s) && AllSpace(left) && (LStrip(s) != "" ==> !IsSpace(LStrip(s)[0]))
  {
    hide IsSpace;
    left := "";
    if s != "" && IsSpace(s[0]) {
      var rest := LStripIs(s[1..]);
      left := [s[0]] + rest;
    }
  }

  lemma {:induction false} RStripIs(s: string) returns (right: string)
    ensures s == RStrip(s) + right && AllSpace(right)
    ensures RStrip(s) != "" ==> RStrip(s)[0] == s[0] && !IsSpace(RStrip(s)[|RStrip(s)| - 1])
  {
    hide IsSpace;
    right := "";
    if s != "" && IsSpace(s[|s| - 1]) {
      var rest := RStripIs(s[..|s| - 1]);
      right := rest + [s[|s| - 1]];
    }
  }

  /** Stripping takes away white space at both ends, and all of it. */
  lemma StripIs(s: string) returns (left: string, right: string)
    ensures s == left + Strip(s) + right && AllSpace(left) && AllSpace(right)
    ensures var r := Strip(s); r != "" ==> !IsSpace(r[0]) && !IsSpace(r[|r| - 1])
  {
    hide IsSpace, LStrip, RStrip, AllSpace;
    left := LStripIs(s);
    right := RStripIs(LStrip(s));
    assert s == left + (Strip(s) + right);
  }
}
