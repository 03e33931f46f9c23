/** Keeping emoji from marking the rejected side of a preference corpus. */
module EmojiNeutral {
  import opened Lines

  /** Which characters have the Unicode category "other symbol"; a space does not. */
  type SymbolClass = f: char -> bool | !f(' ') witness c => false

  predicate IsEmoji(symbols: SymbolClass, c: char) {
    symbols(c) || '\U{1F000}' <= c <= '\U{1FAFF}'
  }

  /** Zero-width joiner, the two variation selectors and the keycap mark. */
  predicate IsGlue(c: char) {
    c == '\U{200D}' || c == '\U{FE0F}' || c == '\U{FE0E}' || c == '\U{20E3}'
  }

  predicate HasEmoji(symbols: SymbolClass, text: string) {
    exists i | 0 <= i < |text| :: IsEmoji(symbols, text[i])
  }

  // ----- stripping -----

  ghost function WithoutEmoji(symbols: SymbolClass, text: string): string {
    if text == "" then "" else
    var before, last := WithoutEmoji(symbols, text[..|text| - 1]), text[|text| - 1];
    if IsEmoji(symbols, last) || IsGlue(last) then before else before + [last]
  }

  /** How long the word at the start is. */
  function WordLength(s: string): (n: nat)
    ensures n <= |s|
    ensures forall i | 0 <= i < n :: !IsSpace(s[i])
    ensures n < |s| ==> IsSpace(s[n])
  {
    if s == "" || IsSpace(s[0]) then 0 else 1 + WordLength(s[1..])
  }

  /** Python's split on white space. */
  function Words(s: string): (words: seq<string>) {
    if s == "" then []
    else if IsSpace(s[0]) then Words(s[1..])
    else
      var n := WordLength(s);
      [s[..n]] + Words(s[n..])
  }

  function Spaced(words: seq<string>): string {
    if words == [] then "" else if |words| == 1 then words[0] else words[0] + " " + Spaced(words[1..])
  }

  ghost function Stripped(symbols: SymbolClass, text: string): string {
    Spaced(Words(WithoutEmoji(symbols, text)))
  }

  method StripEmoji(symbols: SymbolClass, text: string) returns (r: string)
    ensures r == Stripped(symbols, text)
  {
    var kept := "";
    for i := 0 to |text|
      invariant kept == WithoutEmoji(symbols, text[..i])
    {
      hide IsEmoji;
      assert text[..i + 1][..i] == text[..i];
      if IsEmoji(symbols, text[i]) || IsGlue(text[i]) {
        continue;
      }
      kept := kept + [text[i]];
    }
    assert text[..|text|] == text;
    r := Spaced(Words(kept));
  }

  /** A word: not empty, and no white space in it. */
  predicate IsWord(w: string) {
    w != "" && forall i | 0 <= i < |w| :: !IsSpace(w[i])
  }

  predicate AllowedIn(symbols: SymbolClass, s: string) {
    forall i | 0 <= i < |s| :: !IsEmoji(symbols, s[i]) && !IsGlue(s[i])
  }

  lemma {:induction false} WordsAreWords(symbols: SymbolClass, s: string)
    ensures forall w | w in Words(s) :: IsWord(w)
    ensures AllowedIn(symbols, s) ==> forall w | w in Words(s) :: AllowedIn(symbols, w)
  {
    hide IsEmoji, IsGlue, IsSpace;
    if s != "" {
      if IsSpace(s[0]) {
        WordsAreWords(symbols, s[1..]);
      } else {
        WordsAreWords(symbols, s[WordLength(s)..]);
      }
    }
  }

  lemma {:induction false} SpacedIsAllowed(symbols: SymbolClass, words: seq<string>)
    requires forall w | w in words :: AllowedIn(symbols, w)
    ensures AllowedIn(symbols, Spaced(words))
  {
    assert !IsEmoji(symbols, ' ') && !IsGlue(' ');
    hide IsEmoji, IsGlue;
    assert words != [] ==> words[0] in words;
    if |words| > 1 {
      SpacedIsAllowed(symbols, words[1..]);
    }
  }

  lemma {:induction false} WithoutEmojiIsAllowed(symbols: SymbolClass, text: string)
    ensures AllowedIn(symbols, WithoutEmoji(symbols, text))
  {
    hide IsEmoji, IsGlue;
    if text != "" {
      WithoutEmojiIsAllowed(symbols, text[..|text| - 1]);
    }
  }

  /** No emoji and no glue survive stripping. */
  lemma StrippedHasNone(symbols: SymbolClass, text: string)
    ensures AllowedIn(symbols, Stripped(symbols, text)) && !HasEmoji(symbols, Stripped(symbols, text))
  {
    var kept := WithoutEmoji(symbols, text);
    WithoutEmojiIsAllowed(symbols, text);
    WordsAreWords(symbols, kept);
    SpacedIsAllowed(symbols, Words(kept));
  }

  lemma {:induction false} AllowedStays(symbols: SymbolClass, s: string)
    requires AllowedIn(symbols, s)
    ensures WithoutEmoji(symbols, s) == s
  {
    hide IsEmoji, IsGlue;
    if s != "" {
      AllowedStays(symbols, s[..|s| - 1]);
    }
  }

  lemma {:induction false} WordsOfWord(w: string, rest: string)
    requires IsWord(w) && (rest == "" || IsSpace(rest[0]))
    ensures Words(w + rest) == [w] + Words(rest)
  {
    LengthOfWord(w, rest);
    assert (w + rest)[..|w|] == w && (w + rest)[|w|..] == rest;
  }

  lemma {:induction false} LengthOfWord(w: string, rest: string)
    requires (rest == "" || IsSpace(rest[0])) && forall i | 0 <= i < |w| :: !IsSpace(w[i])
    ensures WordLength(w + rest) == |w|
  {
    hide IsSpace;
    if w == "" {
      assert w + rest == rest;
    } else {
      assert (w + rest)[1..] == w[1..] + rest;
      LengthOfWord(w[1..], rest);
    }
  }

  lemma {:induction false} WordsOfSpaced(words: seq<string>)
    requires forall w | w in words :: IsWord(w)
    ensures Words(Spaced(words)) == words
  {
    if |words| == 1 {
      WordsOfWord(words[0], "");
      assert words[0] + "" == words[0];
    } else if words != [] {
      var rest := Spaced(words[1..]);
      WordsOfSpaced(words[1..]);
      WordsOfWord(words[0], " " + rest);
      assert words[0] + (" " + rest) == words[0] + " " + rest;
      assert (" " + rest)[1..] == rest;
    }
  }

  lemma StripIsIdempotent(symbols: SymbolClass, text: string)
    ensures var once := Stripped(symbols, text); Stripped(symbols, once) == once
  {
    var words := Words(WithoutEmoji(symbols, text));
    StrippedHasNone(symbols, text);
    AllowedStays(symbols, Stripped(symbols, text));
    WordsAreWords(symbols, WithoutEmoji(symbols, text));
    WordsOfSpaced(words);
  }

  /** The characters worth keeping, in order. */
  ghost function Filter(keep: char -> bool, s: string): string {
    if s == "" then "" else Filter(keep, s[..|s| - 1]) + if keep(s[|s| - 1]) then [s[|s| - 1]] else ""
  }

  lemma {:induction false} FilterAppend(keep: char -> bool, a: string, b: string)
    ensures Filter(keep, a + b) == Filter(keep, a) + Filter(keep, b)
  {
    if b == "" {
      assert a + b == a;
    } else {
      FilterAppend(keep, a, b[..|b| - 1]);
      assert (a + b)[..|a + b| - 1] == a + b[..|b| - 1];
    }
  }

  lemma {:induction false} FilterAll(keep: char -> bool, s: string)
    requires forall i | 0 <= i < |s| :: keep(s[i])
    ensures Filter(keep, s) == s
  {
    if s != "" {
      FilterAll(keep, s[..|s| - 1]);
    }
  }

  const INK := (c: char) => !IsSpace(c)

  ghost function PlainInk(symbols: SymbolClass): char -> bool {
    c => !IsSpace(c) && !IsEmoji(symbols, c) && !IsGlue(c)
  }

  lemma {:induction false} InkOfWords(s: string)
    ensures Filter(INK, Spaced(Words(s))) == Filter(INK, s)
    decreases |s|
  {
    hide Filter, Spaced;
    if s == "" {
      NothingFiltered();
    } else if IsSpace(s[0]) {
      InkOfWords(s[1..]);
      assert s == [s[0]] + s[1..];
      FilterAppend(INK, [s[0]], s[1..]);
      NoInkInSpace(s[0]);
    } else {
      var n := WordLength(s);
      hide IsSpace;
      InkOfWords(s[n..]);
      assert s == s[..n] + s[n..];
      FilterAppend(INK, s[..n], s[n..]);
      SpacedFirst(s[..n], Words(s[n..]));
    }
  }

  lemma SpacedFirst(word: string, words: seq<string>)
    ensures Filter(INK, Spaced([word] + words)) == Filter(INK, word) + Filter(INK, Spaced(words))
  {
    hide Filter, IsSpace;
    if words != [] {
      assert ([word] + words)[1..] == words;
      assert Spaced([word] + words) == word + (" " + Spaced(words));
      FilterAppend(INK, word, " " + Spaced(words));
      FilterAppend(INK, " ", Spaced(words));
      NoInkInSpace(' ');
    } else {
      NothingFiltered();
      assert [word] + words == [word];
    }
  }

  lemma NoInkInSpace(c: char)
    requires IsSpace(c)
    ensures Filter(INK, [c]) == ""
  {
    assert [c][..0] == "";
  }

  lemma NothingFiltered()
    ensures Filter(INK, "") == "" && Spaced([]) == ""
  {
  }

  lemma {:induction false} InkWithoutEmoji(symbols: SymbolClass, text: string)
    ensures Filter(INK, WithoutEmoji(symbols, text)) == Filter(PlainInk(symbols), text)
  {
    if text != "" {
      var front, last := text[..|text| - 1], text[|text| - 1];
      InkWithoutEmoji(symbols, front);
      var before := WithoutEmoji(symbols, front);
      assert (before + [last])[..|before|] == before;
    }
  }

  /** Nothing else is taken away: apart from white space, what is left is the text without its emoji and glue. */
  lemma StrippedKeepsTheRest(symbols: SymbolClass, text: string)
    ensures Filter(INK, Stripped(symbols, text)) == Filter(PlainInk(symbols), text)
  {
    hide Filter, WithoutEmoji;
    InkOfWords(WithoutEmoji(symbols, text));
    InkWithoutEmoji(symbols, text);
  }

  // ----- neutralising a corpus -----

  datatype Row = Row(prompt: string, chosen: string, rejected: string)

  /** Emoji on the rejected side and none on the chosen one. */
  predicate RejectedOnly(symbols: SymbolClass, row: Row) {
    HasEmoji(symbols, row.rejected) && !HasEmoji(symbols, row.chosen)
  }

  predicate Degenerate(row: Row) {
    row.chosen == "" || row.rejected == "" || row.chosen == row.rejected
  }

  /** The row with its rejected side stripped. */
  ghost function Plain(symbols: SymbolClass, row: Row): Row {
    row.(rejected := Stripped(symbols, row.rejected))
  }

  /** A row is dropped when stripping would leave nothing to tell its sides apart. */
  ghost predicate Dropped(symbols: SymbolClass, row: Row) {
    RejectedOnly(symbols, row) && (Plain(symbols, row).rejected == "" || Plain(symbols, row).rejected == row.chosen)
  }

  ghost function Neutral(symbols: SymbolClass, rows: seq<Row>): seq<Row> {
    if rows == [] then [] else
    var before, last := Neutral(symbols, rows[..|rows| - 1]), rows[|rows| - 1];
    if Dropped(symbols, last) then before
    else if RejectedOnly(symbols, last) then before + [Plain(symbols, last)]
    else before + [last]
  }

  function CountRejectedOnly(symbols: SymbolClass, rows: seq<Row>): nat {
    if rows == [] then 0 else
    CountRejectedOnly(symbols, rows[..|rows| - 1]) + if RejectedOnly(symbols, rows[|rows| - 1]) then 1 else 0
  }

  datatype Verdict = DegenerateRows | EmojiMarksRejected | TooFew | Fine

  const MAX_MARGIN := 0.02

  class Corpus {
    var rows: seq<Row>

    constructor (given: seq<Row>)
      ensures rows == given
    {
      rows := given;
    }

    /** How many rows were stripped or dropped. */
    method NeutralizeEmojiPairs(symbols: SymbolClass) returns (touched: nat)
      modifies this
      ensures rows == Neutral(symbols, old(rows))
      ensures touched == CountRejectedOnly(symbols, old(rows))
    {
      touched := 0;
      var kept: seq<Row> := [];
      for i := 0 to |rows|
        invariant rows == old(rows)
        invariant kept == Neutral(symbols, rows[..i]) && touched == CountRejectedOnly(symbols, rows[..i])
      {
        hide HasEmoji, Stripped;
        var row := rows[i];
        assert rows[..i + 1][..i] == rows[..i];
        if HasEmoji(symbols, row.rejected) && !HasEmoji(symbols, row.chosen) {
          touched := touched + 1;
          var stripped := StripEmoji(symbols, row.rejected);
          if stripped == "" || stripped == row.chosen {
            continue;
          }
          row := row.(rejected := stripped);
        }
        kept := kept + [row];
      }
      assert rows[..|rows|] == rows;
      rows := kept;
    }

    /** The checks a corpus must pass before it is written. */
    method Validate(symbols: SymbolClass, floor: nat) returns (verdict: Verdict)
      ensures verdict == Judged(symbols, rows, floor)
    {
      hide HasEmoji, Degenerate;
      if exists i | 0 <= i < |rows| :: Degenerate(rows[i]) {
        return DegenerateRows;
      }
      var chosen, rejected := 0, 0;
      for i := 0 to |rows|
        invariant chosen == CountChosen(symbols, rows[..i]) && rejected == CountRejected(symbols, rows[..i])
      {
        hide CountChosen, CountRejected;
        CountNext(symbols, rows, i);
        if HasEmoji(symbols, rows[i].chosen) {
          chosen := chosen + 1;
        }
        if HasEmoji(symbols, rows[i].rejected) {
          rejected := rejected + 1;
        }
      }
      assert rows[..|rows|] == rows;
      var margin := if |rows| > 0 then (rejected - chosen) as real / |rows| as real else 0.0;
      return if margin > MAX_MARGIN then EmojiMarksRejected else if |rows| < floor then TooFew else Fine;
    }
  }

  function CountChosen(symbols: SymbolClass, rows: seq<Row>): nat {
    if rows == [] then 0 else
    CountChosen(symbols, rows[..|rows| - 1]) + if HasEmoji(symbols, rows[|rows| - 1].chosen) then 1 else 0
  }

  function CountRejected(symbols: SymbolClass, rows: seq<Row>): nat {
    if rows == [] then 0 else
    CountRejected(symbols, rows[..|rows| - 1]) + if HasEmoji(symbols, rows[|rows| - 1].rejected) then 1 else 0
  }

  lemma CountNext(symbols: SymbolClass, rows: seq<Row>, i: nat)
    requires i < |rows|
    ensures CountChosen(symbols, rows[..i + 1]) ==
      CountChosen(symbols, rows[..i]) + if HasEmoji(symbols, rows[i].chosen) then 1 else 0
    ensures CountRejected(symbols, rows[..i + 1]) ==
      CountRejected(symbols, rows[..i]) + if HasEmoji(symbols, rows[i].rejected) then 1 else 0
  {
    hide HasEmoji;
    assert rows[..i + 1][..i] == rows[..i];
  }

  ghost function Margin(symbols: SymbolClass, rows: seq<Row>): real {
    if rows == [] then 0.0 else (CountRejected(symbols, rows) - CountChosen(symbols, rows)) as real / |rows| as real
  }

  ghost function Judged(symbols: SymbolClass, rows: seq<Row>, floor: nat): Verdict {
    if exists i | 0 <= i < |rows| :: Degenerate(rows[i]) then DegenerateRows
    else if Margin(symbols, rows) > MAX_MARGIN then EmojiMarksRejected
    else if |rows| < floor then TooFew
    else Fine
  }

  // ----- what neutralising guarantees -----

  ghost predicate NoneRejectedOnly(symbols: SymbolClass, rows: seq<Row>) {
    forall row | row in rows :: !RejectedOnly(symbols, row)
  }

  lemma {:induction false} NeutralHasNoneRejectedOnly(symbols: SymbolClass, rows: seq<Row>)
    ensures NoneRejectedOnly(symbols, Neutral(symbols, rows))
  {
    hide HasEmoji, Stripped;
    if rows != [] {
      NeutralHasNoneRejectedOnly(symbols, rows[..|rows| - 1]);
      StrippedHasNone(symbols, rows[|rows| - 1].rejected);
    }
  }

  lemma {:induction false} NothingToTouch(symbols: SymbolClass, rows: seq<Row>)
    requires NoneRejectedOnly(symbols, rows)
    ensures Neutral(symbols, rows) == rows && CountRejectedOnly(symbols, rows) == 0
  {
    hide RejectedOnly;
    if rows != [] {
      NothingToTouch(symbols, rows[..|rows| - 1]);
      assert rows[|rows| - 1] in rows;
    }
  }

  /** A second pass touches no row. */
  lemma SecondPassTouchesNothing(symbols: SymbolClass, rows: seq<Row>)
    ensures var once := Neutral(symbols, rows); Neutral(symbols, once) == once && CountRejectedOnly(symbols, once) == 0
  {
    NeutralHasNoneRejectedOnly(symbols, rows);
    NothingToTouch(symbols, Neutral(symbols, rows));
  }

  lemma {:induction false} FewerRejected(symbols: SymbolClass, rows: seq<Row>)
    requires NoneRejectedOnly(symbols, rows)
    ensures CountRejected(symbols, rows) <= CountChosen(symbols, rows)
  {
    hide HasEmoji;
    if rows != [] {
      FewerRejected(symbols, rows[..|rows| - 1]);
      assert rows[|rows| - 1] in rows;
    }
  }

  lemma AtMostZero(a: int, n: nat)
    requires a <= 0 && n > 0
    ensures a as real / n as real <= 0.0
  {
  }

  /** The rows that stay, as they were given. */
  ghost function Survivors(symbols: SymbolClass, rows: seq<Row>): seq<Row> {
    if rows == [] then [] else
    var before := Survivors(symbols, rows[..|rows| - 1]);
    if Dropped(symbols, rows[|rows| - 1]) then before else before + [rows[|rows| - 1]]
  }

  /** What becomes of a row that stays: only a rejected side with lone emoji changes, and it is left usable. */
  ghost predicate Follows(symbols: SymbolClass, given: Row, now: Row) {
    && now.prompt == given.prompt && now.chosen == given.chosen
    && now.rejected == (if RejectedOnly(symbols, given) then Stripped(symbols, given.rejected) else given.rejected)
    && (Degenerate(now) ==> Degenerate(given))
  }

  lemma {:induction false} SurvivorsKeepOrder(symbols: SymbolClass, rows: seq<Row>)
    ensures var now, given := Neutral(symbols, rows), Survivors(symbols, rows);
      |now| == |given| <= |rows| && forall k | 0 <= k < |now| :: given[k] in rows && Follows(symbols, given[k], now[k])
  {
    hide HasEmoji, Stripped;
    if rows != [] {
      SurvivorsKeepOrder(symbols, rows[..|rows| - 1]);
      assert rows[..|rows| - 1] + [rows[|rows| - 1]] == rows;
    }
  }

  /** After neutralising, validation never finds emoji to mark the rejected side, and finds a degenerate row only
      if one was given. */
  lemma NeutralPassesMargin(symbols: SymbolClass, rows: seq<Row>, floor: nat)
    ensures Margin(symbols, Neutral(symbols, rows)) <= 0.0
    ensures Judged(symbols, Neutral(symbols, rows), floor) != EmojiMarksRejected
    ensures Judged(symbols, Neutral(symbols, rows), floor) == DegenerateRows ==>
      exists row | row in rows :: Degenerate(row)
  {
    var now := Neutral(symbols, rows);
    NeutralHasNoneRejectedOnly(symbols, rows);
    FewerRejected(symbols, now);
    if now != [] {
      AtMostZero(CountRejected(symbols, now) - CountChosen(symbols, now), |now|);
    }
    hide Degenerate, Neutral;
    SurvivorsKeepOrder(symbols, rows);
  }

  lemma {:induction false} NeutralAppend(symbols: SymbolClass, a: seq<Row>, b: seq<Row>)
    ensures Neutral(symbols, a + b) == Neutral(symbols, a) + Neutral(symbols, b)
  {
    hide Dropped, RejectedOnly, Plain;
    if b == [] {
      assert a + b == a;
    } else {
      NeutralAppend(symbols, a, b[..|b| - 1]);
      assert (a + b)[..|a + b| - 1] == a + b[..|b| - 1];
    }
  }

  /** Rows are treated one by one: a row with emoji on its rejected side alone is stripped there, or removed when
      nothing or just the chosen text would be left; every other row stays as it is. */
  lemma RowByRow(symbols: SymbolClass, before: seq<Row>, row: Row, after: seq<Row>)
    ensures var left := Stripped(symbols, row.rejected);
      Neutral(symbols, before + [row] + after) ==
        Neutral(symbols, before)
        + (if !HasEmoji(symbols, row.rejected) || HasEmoji(symbols, row.chosen) then [row]
           else if left == "" || left == row.chosen then []
           else [Row(row.prompt, row.chosen, left)])
        + Neutral(symbols, after)
  {
    hide HasEmoji, Stripped;
    NeutralAppend(symbols, before + [row], after);
    NeutralAppend(symbols, before, [row]);
    assert [row][..0] == [];
  }

  predicate Usable(row: Row) {
    row.chosen != "" && row.rejected != "" && row.chosen != row.rejected
  }

  /** The checks in order: a row without two different sides; rejected sides with emoji that outnumber the chosen ones
      by more than one in fifty rows; too few rows. */
  lemma JudgedIff(symbols: SymbolClass, rows: seq<Row>, floor: nat)
    ensures var verdict, usable := Judged(symbols, rows, floor), forall row | row in rows :: Usable(row);
      var marked := 50 * (CountRejected(symbols, rows) - CountChosen(symbols, rows)) > |rows|;
      && (verdict == DegenerateRows <==> !usable)
      && (verdict == EmojiMarksRejected <==> usable && marked)
      && (verdict == TooFew <==> usable && !marked && |rows| < floor)
      && (verdict == Fine <==> usable && !marked && |rows| >= floor)
  {
    MarginIff(symbols, rows);
    hide CountRejected, CountChosen, Margin;
    if row :| row in rows && Degenerate(row) {
      var i :| 0 <= i < |rows| && rows[i] == row;
      assert Degenerate(rows[i]);
    }
    assert forall row :: Degenerate(row) <==> !Usable(row);
  }

  lemma MarginIff(symbols: SymbolClass, rows: seq<Row>)
    ensures Margin(symbols, rows) > MAX_MARGIN <==>
      50 * (CountRejected(symbols, rows) - CountChosen(symbols, rows)) > |rows|
  {
    if rows != [] {
      ShareOver(Margin(symbols, rows), CountRejected(symbols, rows) - CountChosen(symbols, rows), |rows|);
    }
  }

  lemma ShareOver(share: real, more: int, n: nat)
    requires n > 0 && share == more as real / n as real
    ensures share > 0.02 <==> 50 * more > n
  {
    Product(share - 0.02, n as real);
    Product(0.02 - share, n as real);
  }

  lemma Product(a: real, b: real)
    requires b > 0.0
    ensures a > 0.0 ==> a * b > 0.0
    ensures a >= 0.0 ==> a * b >= 0.0
  {
  }
}
