/** Compacting notes into a memory page: near-duplicates, caps and the byte budget. */
module Wiki {
  import opened Lines

  const MAX_INSIGHTS := 10
  const MAX_PER_KIND := 4

  datatype Word = Word(spelling: string)

  /** A stored note with the words its text is compared by. */
  datatype Note = Note(id: nat, kind: string, words: set<Word>)

  // ----- near-duplicates -----

  /** The shared words are at least six tenths of all the words of the two. */
  predicate Overlap(s: set<Word>, t: set<Word>) {
    10 * |s * t| >= 6 * |s + t|
  }

  /** Whether deduplication keeps note i: it has words, and no earlier note that is kept overlaps it. */
  ghost predicate Keeps(notes: seq<Note>, i: nat)
    requires i < |notes|
  {
    notes[i].words != {} && forall j | 0 <= j < i && Keeps(notes, j) :: !Overlap(notes[i].words, notes[j].words)
  }

  /** The notes kept among the first n. */
  ghost function Kept(notes: seq<Note>, n: nat): (r: seq<Note>)
    requires n <= |notes|
  {
    if n == 0 then []
    else Kept(notes, n - 1) + if Keeps(notes, n - 1) then [notes[n - 1]] else []
  }

  method Dedupe(notes: seq<Note>) returns (kept: seq<Note>)
    ensures kept == Kept(notes, |notes|)
  {
    kept := [];
    var seen: seq<set<Word>> := [];
    for i := 0 to |notes|
      invariant kept == Kept(notes, i)
      invariant |seen| == |kept| && forall k | 0 <= k < |kept| :: seen[k] == kept[k].words
    {
      hide Overlap;
      var words := notes[i].words;
      KeepsAgainstKept(notes, i);
      if words == {} {
        continue;
      }
      var duplicate := exists k | 0 <= k < |seen| :: Overlap(words, seen[k]);
      if duplicate {
        continue;
      }
      seen := seen + [words];
      kept := kept + [notes[i]];
    }
  }

  ghost predicate IsKept(notes: seq<Note>, n: nat, note: Note)
    requires n <= |notes|
  {
    exists j :: 0 <= j < n && Keeps(notes, j) && notes[j] == note
  }

  lemma {:induction false} KeptAre(notes: seq<Note>, n: nat)
    requires n <= |notes|
    ensures forall note :: note in Kept(notes, n) <==> IsKept(notes, n, note)
  {
    hide Keeps;
    if n > 0 {
      KeptAre(notes, n - 1);
      forall note
        ensures IsKept(notes, n, note) <==> IsKept(notes, n - 1, note) || (Keeps(notes, n - 1) && notes[n - 1] == note)
      {
        if IsKept(notes, n - 1, note) {
          var j :| 0 <= j < n - 1 && Keeps(notes, j) && notes[j] == note;
          assert Keeps(notes, j);
        }
      }
    }
  }

  lemma KeepsAgainstKept(notes: seq<Note>, i: nat)
    requires i < |notes|
    ensures Keeps(notes, i) <==>
      notes[i].words != {} && forall kept | kept in Kept(notes, i) :: !Overlap(notes[i].words, kept.words)
  {
    hide Overlap, Kept;
    KeptAre(notes, i);
    forall j | 0 <= j < i && Keeps(notes, j) ensures IsKept(notes, i, notes[j]) {
    }
  }

  /** What was kept is pairwise apart. */
  ghost predicate Apart(notes: seq<Note>) {
    && (forall k | 0 <= k < |notes| :: notes[k].words != {})
    && (forall k, l | 0 <= k < l < |notes| ::
          5 * |notes[l].words * notes[k].words| < 3 * |notes[l].words + notes[k].words|)
  }

  lemma {:induction false} KeptAreApart(notes: seq<Note>, n: nat)
    requires n <= |notes|
    ensures Apart(Kept(notes, n))
  {
    hide Keeps;
    if n > 0 {
      KeptAreApart(notes, n - 1);
      KeepsAgainstKept(notes, n - 1);
    }
  }

  /** A note with words that was dropped overlaps an earlier one that was kept. */
  lemma DroppedOverlaps(notes: seq<Note>, i: nat)
    requires i < |notes| && notes[i].words != {} && !Keeps(notes, i)
    ensures exists j ::
              && 0 <= j < i && Keeps(notes, j) && notes[j] in Kept(notes, |notes|)
              && Overlap(notes[i].words, notes[j].words)
  {
    hide Overlap, Kept;
    KeptAre(notes, |notes|);
    var j :| 0 <= j < i && Keeps(notes, j) && Overlap(notes[i].words, notes[j].words);
    assert IsKept(notes, |notes|, notes[j]);
  }

  /** Deduplication keeps every note exactly when the notes are pairwise apart. */
  lemma {:induction false} ApartKeepsAll(notes: seq<Note>, n: nat)
    requires n <= |notes| && Apart(notes)
    ensures Kept(notes, n) == notes[..n]
  {
    if n > 0 {
      ApartKeepsAll(notes, n - 1);
    }
  }

  lemma DedupeIsIdempotent(notes: seq<Note>)
    ensures var kept := Kept(notes, |notes|); Kept(kept, |kept|) == kept
  {
    var kept := Kept(notes, |notes|);
    KeptAreApart(notes, |notes|);
    hide *;
    ApartKeepsAll(kept, |kept|);
    assert kept[..|kept|] == kept;
  }

  // ----- caps -----

  function OfKind(notes: seq<Note>, kind: string): nat {
    if notes == [] then 0 else OfKind(notes[..|notes| - 1], kind) + if notes[|notes| - 1].kind == kind then 1 else 0
  }

  /** The first MAX_PER_KIND notes of each kind, in order. */
  ghost function FirstOfEachKind(notes: seq<Note>): seq<Note> {
    if notes == [] then [] else
    var before, last := notes[..|notes| - 1], notes[|notes| - 1];
    if OfKind(before, last.kind) < MAX_PER_KIND then FirstOfEachKind(before) + [last] else FirstOfEachKind(before)
  }

  function Least(a: nat, b: nat): nat {
    if a < b then a else b
  }

  lemma OneMore(notes: seq<Note>, i: nat)
    requires i < |notes|
    ensures var before := notes[..i];
      && (forall kind :: OfKind(notes[..i + 1], kind) == OfKind(before, kind) + if notes[i].kind == kind then 1 else 0)
      && FirstOfEachKind(notes[..i + 1]) ==
           if OfKind(before, notes[i].kind) < MAX_PER_KIND then FirstOfEachKind(before) + [notes[i]]
           else FirstOfEachKind(before)
  {
    assert notes[..i + 1][..i] == notes[..i];
  }

  /** Counting what was taken and stopping at the cap is the same as cutting the per-kind selection short. */
  method Insights(notes: seq<Note>) returns (out: seq<Note>)
    ensures var first := FirstOfEachKind(notes); out == first[..Least(10, |first|)]
  {
    var perKind: map<string, nat> := map[];
    out := [];
    for i := 0 to |notes|
      invariant out == FirstOfEachKind(notes[..i]) && |out| < MAX_INSIGHTS
      invariant CountsKinds(perKind, notes[..i])
    {
      hide FirstOfEachKind, OfKind, CountsKinds, Counted;
      var n := notes[i];
      OneMore(notes, i);
      CountsNext(perKind, notes, i);
      if Counted(perKind, n.kind) >= MAX_PER_KIND {
        continue;
      }
      perKind := perKind[n.kind := Counted(perKind, n.kind) + 1];
      out := out + [n];
      if |out| >= MAX_INSIGHTS {
        FirstOfEachKindGrows(notes, i + 1);
        return;
      }
    }
    assert notes[..|notes|] == notes;
  }

  /** The counters hold how many notes of each kind were taken. */
  ghost predicate CountsKinds(perKind: map<string, nat>, notes: seq<Note>) {
    forall kind :: Counted(perKind, kind) == Least(MAX_PER_KIND, OfKind(notes, kind))
  }

  lemma CountsNext(perKind: map<string, nat>, notes: seq<Note>, i: nat)
    requires i < |notes| && CountsKinds(perKind, notes[..i])
    ensures var kind := notes[i].kind;
      && (Counted(perKind, kind) >= MAX_PER_KIND <==> OfKind(notes[..i], kind) >= MAX_PER_KIND)
      && CountsKinds(if Counted(perKind, kind) >= MAX_PER_KIND then perKind
                     else perKind[kind := Counted(perKind, kind) + 1], notes[..i + 1])
  {
    hide FirstOfEachKind, OfKind;
    OneMore(notes, i);
    var mine := notes[i].kind;
    var next := if Counted(perKind, mine) >= MAX_PER_KIND then perKind else perKind[mine := Counted(perKind, mine) + 1];
    forall kind ensures Counted(next, kind) == Least(MAX_PER_KIND, OfKind(notes[..i + 1], kind)) {
      assert Counted(perKind, kind) == Least(MAX_PER_KIND, OfKind(notes[..i], kind));
    }
  }

  function Counted(perKind: map<string, nat>, kind: string): nat {
    if kind in perKind then perKind[kind] else 0
  }

  lemma {:induction false} FirstOfEachKindGrows(notes: seq<Note>, i: nat)
    requires i <= |notes|
    ensures FirstOfEachKind(notes[..i]) <= FirstOfEachKind(notes)
  {
    if i < |notes| {
      var before := notes[..|notes| - 1];
      assert before[..i] == notes[..i];
      FirstOfEachKindGrows(before, i);
    } else {
      assert notes[..i] == notes;
    }
  }

  lemma {:induction false} KindCapHolds(notes: seq<Note>, kind: string)
    ensures OfKind(FirstOfEachKind(notes), kind) == Least(4, OfKind(notes, kind))
  {
    if notes != [] {
      var before, last := notes[..|notes| - 1], notes[|notes| - 1];
      KindCapHolds(before, kind);
      var first := FirstOfEachKind(before);
      assert (first + [last])[..|first|] == first;
    }
  }

  // ----- the page -----

  /** Bytes of a character in UTF-8. */
  function Bytes(c: char): nat {
    if c < '\U{80}' then 1 else if c < '\U{800}' then 2 else if c < '\U{10000}' then 3 else 4
  }

  function Size(text: string): nat {
    if text == "" then 0 else Bytes(text[0]) + Size(text[1..])
  }

  datatype Page = Page(head: string, now: seq<string>, threads: seq<string>, register: seq<string>)

  function Section(title: string, lines: seq<string>): seq<string> {
    if lines == [] then [] else ["## " + title] + lines
  }

  function Above(page: Page): seq<string> {
    [page.head] + Section("now", page.now) + Section("open threads", page.threads)
  }

  function Render(page: Page, memories: seq<string>): string {
    Join(Above(page) + Section("what I remember", memories) + Section("register", page.register)) + "\n"
  }

  predicate Fits(page: Page, memories: seq<string>, budget: nat) {
    Size(Render(page, memories)) <= budget
  }

  /** Drops the oldest memories, which come last, until the page fits. */
  method Assemble(page: Page, remember: seq<string>, budget: nat) returns (text: string, ghost kept: nat)
    ensures kept <= |remember| && text == Render(page, remember[..kept])
    ensures Fits(page, [], budget) ==> Size(text) <= budget
    ensures forall k | 0 < k <= |remember| :: k <= kept <==> Fits(page, remember[..k], budget)
  {
    hide Render, Size;
    var rem := remember;
    text := Render(page, rem);
    while Size(text) > budget && rem != []
      invariant |rem| <= |remember| && rem == remember[..|rem|] && text == Render(page, rem)
      invariant forall k | |rem| < k <= |remember| :: !Fits(page, remember[..k], budget)
      decreases |rem|
    {
      rem := rem[..|rem| - 1];
      text := Render(page, rem);
    }
    kept := |rem|;
    forall k | 0 < k <= kept ensures Fits(page, remember[..k], budget) {
      LongerIsLarger(page, remember, k, kept);
    }
  }

  lemma {:induction false} SizeAppend(a: string, b: string)
    ensures Size(a + b) == Size(a) + Size(b)
  {
    if a == "" {
      assert a + b == b;
    } else {
      SizeAppend(a[1..], b);
      assert (a + b)[1..] == a[1..] + b;
    }
  }

  /** The size of a page is that of its lines, each ended by a newline. */
  lemma RenderSize(page: Page, memories: seq<string>)
    ensures Size(Render(page, memories)) ==
      Size(Ended(Above(page))) + Size(Ended(Section("what I remember", memories)))
      + Size(Ended(Section("register", page.register)))
  {
    var a, b, c := Above(page), Section("what I remember", memories), Section("register", page.register);
    assert a != [];
    hide Above, Section, Ended, Join, Size;
    JoinThenEnd(a + b + c);
    EndedAppend(a + b, c);
    EndedAppend(a, b);
    SizeAppend(Ended(a) + Ended(b), Ended(c));
    SizeAppend(Ended(a), Ended(b));
  }

  /** The given lines stand together, in order, right below their title. */
  ghost predicate StandBelow(page: seq<string>, title: string, lines: seq<string>) {
    exists i :: Stands(page, i, title, lines)
  }

  ghost predicate Stands(page: seq<string>, i: int, title: string, lines: seq<string>) {
    && 0 <= i && i + 1 + |lines| <= |page|
    && page[i] == "## " + title && page[i + 1..i + 1 + |lines|] == lines
  }

  lemma SectionStands(before: seq<string>, title: string, lines: seq<string>, after: seq<string>)
    requires lines != []
    ensures StandBelow(before + Section(title, lines) + after, title, lines)
  {
    assert Stands(before + Section(title, lines) + after, |before|, title, lines);
  }

  /** A page of single lines starts with its head, and shows each part that is not empty below its own title. */
  lemma PageShows(page: Page, memories: seq<string>)
    requires NoNewlines([page.head] + page.now + page.threads + memories + page.register)
    ensures var shown := Split(Render(page, memories));
      && shown[0] == page.head
      && (page.now != [] ==> StandBelow(shown, "now", page.now))
      && (page.threads != [] ==> StandBelow(shown, "open threads", page.threads))
      && (memories != [] ==> StandBelow(shown, "what I remember", memories))
      && (page.register != [] ==> StandBelow(shown, "register", page.register))
  {
    hide Split, Join, Section, StandBelow, NoNewlines;
    var now, threads := Section("now", page.now), Section("open threads", page.threads);
    var rem, reg := Section("what I remember", memories), Section("register", page.register);
    var lines := Above(page) + rem + reg;
    PageIsSingleLines(page, memories);
    SplitOfJoin(lines);
    SplitOfLast(Join(lines), "");
    assert Join(lines) + "\n" + "" == Render(page, memories);
    var shown := lines + [""];
    assert shown == [page.head] + now + (threads + rem + reg + [""]);
    assert shown == [page.head] + now + threads + (rem + reg + [""]);
    assert shown == Above(page) + rem + (reg + [""]);
    assert shown == Above(page) + rem + reg + [""];
    if page.now != [] {
      SectionStands([page.head], "now", page.now, threads + rem + reg + [""]);
    }
    if page.threads != [] {
      SectionStands([page.head] + now, "open threads", page.threads, rem + reg + [""]);
    }
    if memories != [] {
      SectionStands(Above(page), "what I remember", memories, reg + [""]);
    }
    if page.register != [] {
      SectionStands(Above(page) + rem, "register", page.register, [""]);
    }
  }

  lemma SectionLines(title: string, lines: seq<string>)
    requires NoNewlines(lines) && '\n' !in title
    ensures NoNewlines(Section(title, lines))
  {
    assert '\n' !in "## ";
  }

  lemma BothSingle(a: seq<string>, b: seq<string>)
    ensures NoNewlines(a + b) <==> NoNewlines(a) && NoNewlines(b)
  {
    assert forall i | 0 <= i < |a| :: (a + b)[i] == a[i];
    assert forall i | 0 <= i < |b| :: (a + b)[|a| + i] == b[i];
  }

  lemma PageIsSingleLines(page: Page, memories: seq<string>)
    requires NoNewlines([page.head] + page.now + page.threads + memories + page.register)
    ensures NoNewlines(Above(page) + Section("what I remember", memories) + Section("register", page.register))
  {
    hide NoNewlines, Section;
    var now, threads := Section("now", page.now), Section("open threads", page.threads);
    var rem, reg := Section("what I remember", memories), Section("register", page.register);
    BothSingle([page.head] + page.now + page.threads + memories, page.register);
    BothSingle([page.head] + page.now + page.threads, memories);
    BothSingle([page.head] + page.now, page.threads);
    BothSingle([page.head], page.now);
    SectionLines("now", page.now);
    SectionLines("open threads", page.threads);
    SectionLines("what I remember", memories);
    SectionLines("register", page.register);
    BothSingle([page.head], now);
    BothSingle([page.head] + now, threads);
    BothSingle(Above(page), rem);
    BothSingle(Above(page) + rem, reg);
  }

  /** A page with more memories is larger. */
  lemma LongerIsLarger(page: Page, remember: seq<string>, j: nat, k: nat)
    requires j <= k <= |remember|
    ensures Size(Render(page, remember[..j])) + (k - j) <= Size(Render(page, remember[..k]))
  {
    RenderSize(page, remember[..j]);
    RenderSize(page, remember[..k]);
    assert Size(Ended([])) == 0;
    hide Render, Above, Size, Ended;
    var title := ["## " + "what I remember"];
    var added := remember[j..k];
    assert remember[..k] == remember[..j] + added;
    EndedAppend(title, remember[..j]);
    EndedAppend(title, remember[..k]);
    EndedAppend(remember[..j], added);
    SizeAppend(Ended(remember[..j]), Ended(added));
    SizeAppend(Ended(title), Ended(remember[..j]));
    SizeAppend(Ended(title), Ended(remember[..k]));
    EndedIsLong(added);
  }

  lemma {:induction false} EndedIsLong(lines: seq<string>)
    ensures |lines| <= Size(Ended(lines))
  {
    if lines != [] {
      EndedIsLong(lines[1..]);
      SizeAppend(lines[0] + "\n", Ended(lines[1..]));
      SizeAppend(lines[0], "\n");
    }
  }
}
