/** Drawing held-out prompts from a message history, with caps per sender and per day. */
module PromptSampler {

  const SENDER_CAP := 3
  const DAY_CAP := 5
  const APPLE_EPOCH := 978307200
  const SECOND := 1_000_000_000
  const REPLY_WINDOW := 86_400_000_000_000

  datatype Prompt = Prompt(text: string)

  /** An incoming message. `clean` is its redacted text; `usable` says that text is long enough and not only emoji. */
  datatype Inbound = Inbound(sender: int, chat: int, date: int, clean: Prompt, usable: bool)

  /** Outgoing dates per chat, in nanoseconds since 2001. */
  type Replies = map<int, seq<int>>

  function Day(date: int): int {
    (date / SECOND + APPLE_EPOCH) / 86_400
  }

  /** The date of midnight at the start of a day, counted from 1970 in UTC. */
  function Midnight(day: int): int {
    (day * 86_400 - APPLE_EPOCH) * SECOND
  }

  lemma DayStarts(date: int, day: int)
    ensures Day(date) >= day <==> date >= Midnight(day)
  {
    var seconds := date / SECOND;
    assert SECOND * seconds <= date < SECOND * seconds + SECOND;
  }

  /** Two dates share a day exactly when no midnight lies between them. */
  lemma SameDay(a: int, b: int)
    requires a <= b
    ensures Day(a) == Day(b) <==> forall day :: !(a < Midnight(day) <= b)
  {
    hide Day, Midnight;
    forall day ensures Day(a) >= day <==> a >= Midnight(day) {
      DayStarts(a, day);
    }
    DayStarts(b, Day(b));
    DayStarts(b, Day(a));
    DayStarts(a, Day(a));
    forall day ensures Day(b) >= day <==> b >= Midnight(day) {
      DayStarts(b, day);
    }
  }

  // ----- was it answered -----

  function OutsOf(replies: Replies, chat: int): seq<int> {
    if chat in replies then replies[chat] else []
  }

  ghost predicate Answered(outs: seq<int>, date: int) {
    exists k :: 0 <= k < |outs| && date < outs[k] <= date + REPLY_WINDOW
  }

  ghost predicate Ascending(s: seq<int>) {
    forall i, j | 0 <= i < j < |s| :: s[i] <= s[j]
  }

  ghost predicate AllAscending(replies: Replies) {
    forall chat | chat in replies :: Ascending(replies[chat])
  }

  /** Stops at the first date past the window. */
  method RepliedWithin24h(replies: Replies, chat: int, date: int) returns (replied: bool)
    requires AllAscending(replies)
    ensures replied == Answered(OutsOf(replies, chat), date)
  {
    var outs := OutsOf(replies, chat);
    var cutoff := date + REPLY_WINDOW;
    for i := 0 to |outs|
      invariant forall k | 0 <= k < i :: !(date < outs[k] <= cutoff)
    {
      if date < outs[i] <= cutoff {
        return true;
      }
      if outs[i] > cutoff {
        return false;
      }
    }
    return false;
  }

  // ----- the greedy choice -----

  function BySender(rows: seq<Inbound>, sender: int): nat {
    if rows == [] then 0 else BySender(rows[..|rows| - 1], sender) + if rows[|rows| - 1].sender == sender then 1 else 0
  }

  function ByDay(rows: seq<Inbound>, day: int): nat {
    if rows == [] then 0 else ByDay(rows[..|rows| - 1], day) + if Day(rows[|rows| - 1].date) == day then 1 else 0
  }

  function Prompts(rows: seq<Inbound>): set<Prompt> {
    set row | row in rows :: row.clean
  }

  /** A row no choice can rule out: answered, usable and not yet in the corpus. */
  ghost predicate Eligible(row: Inbound, replies: Replies, existing: set<Prompt>) {
    Answered(OutsOf(replies, row.chat), row.date) && row.usable && row.clean !in existing
  }

  /** The choices already made leave room for the row. */
  ghost predicate Room(chosen: seq<Inbound>, row: Inbound) {
    BySender(chosen, row.sender) < SENDER_CAP && row.clean !in Prompts(chosen) && ByDay(chosen, Day(row.date)) < DAY_CAP
  }

  /** What is chosen from the first i rows when at most n are asked for. */
  ghost function Chosen(rows: seq<Inbound>, replies: Replies, existing: set<Prompt>, n: nat, i: nat): seq<Inbound>
    requires i <= |rows|
  {
    if i == 0 then [] else
    var before, row := Chosen(rows, replies, existing, n, i - 1), rows[i - 1];
    if |before| < n && Eligible(row, replies, existing) && Room(before, row) then before + [row] else before
  }

  function Count(counts: map<int, nat>, key: int): nat {
    if key in counts then counts[key] else 0
  }

  method SamplePrompts(rows: seq<Inbound>, replies: Replies, existing: set<Prompt>, n: nat)
    returns (emitted: seq<Inbound>)
    requires AllAscending(replies)
    ensures emitted == Chosen(rows, replies, existing, n, |rows|)
  {
    var perSender: map<int, nat> := map[];
    var perDay: map<int, nat> := map[];
    var seen: set<Prompt> := {};
    emitted := [];
    hide Answered, Day, Chosen, Counted, Room, Count, BySender, ByDay, Prompts, AllAscending, OutsOf;
    NothingCounted();
    NothingChosen(rows, replies, existing, n);
    for i := 0 to |rows|
      invariant emitted == Chosen(rows, replies, existing, n, i)
      invariant Counted(perSender, perDay, seen, emitted)
    {
      var row := rows[i];
      ChosenNext(rows, replies, existing, n, i);
      CountedRoom(perSender, perDay, seen, emitted, row);
      if |emitted| >= n {
        NothingMore(rows, replies, existing, n, i, |rows|);
        break;
      }
      if Count(perSender, row.sender) >= SENDER_CAP {
        continue;
      }
      var replied := RepliedWithin24h(replies, row.chat, row.date);
      if !replied || !row.usable || row.clean in existing || row.clean in seen {
        continue;
      }
      var day := Day(row.date);
      if Count(perDay, day) >= DAY_CAP {
        continue;
      }
      CountedNext(perSender, perDay, seen, emitted, row);
      perSender := perSender[row.sender := Count(perSender, row.sender) + 1];
      perDay := perDay[day := Count(perDay, day) + 1];
      seen := seen + {row.clean};
      emitted := emitted + [row];
    }
  }

  lemma NothingChosen(rows: seq<Inbound>, replies: Replies, existing: set<Prompt>, n: nat)
    ensures Chosen(rows, replies, existing, n, 0) == []
  {
  }

  lemma ChosenNext(rows: seq<Inbound>, replies: Replies, existing: set<Prompt>, n: nat, i: nat)
    requires i < |rows|
    ensures var before, row := Chosen(rows, replies, existing, n, i), rows[i];
      Chosen(rows, replies, existing, n, i + 1) ==
        if |before| < n && Eligible(row, replies, existing) && Room(before, row) then before + [row] else before
  {
  }

  /** The counters and the seen set are those of the chosen rows. */
  ghost predicate Counted(perSender: map<int, nat>, perDay: map<int, nat>, seen: set<Prompt>, chosen: seq<Inbound>) {
    && (forall sender :: Count(perSender, sender) == BySender(chosen, sender))
    && (forall day :: Count(perDay, day) == ByDay(chosen, day))
    && seen == Prompts(chosen)
  }

  lemma NothingCounted()
    ensures Counted(map[], map[], {}, [])
  {
  }

  lemma CountedRoom(perSender: map<int, nat>, perDay: map<int, nat>, seen: set<Prompt>, chosen: seq<Inbound>,
                    row: Inbound)
    requires Counted(perSender, perDay, seen, chosen)
    ensures Room(chosen, row) <==>
      Count(perSender, row.sender) < SENDER_CAP && row.clean !in seen && Count(perDay, Day(row.date)) < DAY_CAP
  {
    hide BySender, ByDay, Prompts, Day, Count;
  }

  lemma CountedNext(perSender: map<int, nat>, perDay: map<int, nat>, seen: set<Prompt>, chosen: seq<Inbound>,
                    row: Inbound)
    requires Counted(perSender, perDay, seen, chosen)
    ensures var day := Day(row.date);
      Counted(perSender[row.sender := Count(perSender, row.sender) + 1], perDay[day := Count(perDay, day) + 1],
              seen + {row.clean}, chosen + [row])
  {
    hide Day;
    var after := chosen + [row];
    assert after[..|chosen|] == chosen && after[|chosen|] == row;
    PromptsNext(chosen, row);
    forall sender ensures BySender(after, sender) == BySender(chosen, sender) + if row.sender == sender then 1 else 0 {
    }
    forall day ensures ByDay(after, day) == ByDay(chosen, day) + if Day(row.date) == day then 1 else 0 {
    }
  }

  lemma PromptsNext(chosen: seq<Inbound>, row: Inbound)
    ensures Prompts(chosen + [row]) == Prompts(chosen) + {row.clean}
  {
    var after := chosen + [row];
    assert forall other | other in after :: other in chosen || other == row;
    assert forall other | other in chosen :: other in after;
    assert after[|chosen|] == row;
  }

  lemma {:induction false} NothingMore(rows: seq<Inbound>, replies: Replies, existing: set<Prompt>, n: nat, i: nat,
                                       j: nat)
    requires i <= j <= |rows| && |Chosen(rows, replies, existing, n, i)| >= n
    ensures Chosen(rows, replies, existing, n, j) == Chosen(rows, replies, existing, n, i)
  {
    hide Eligible, Room;
    if i < j {
      NothingMore(rows, replies, existing, n, i, j - 1);
    }
  }

  // ----- what the choice guarantees -----

  ghost predicate Sound(chosen: seq<Inbound>, replies: Replies, existing: set<Prompt>, n: nat) {
    && |chosen| <= n
    && (forall row | row in chosen ::
          Answered(OutsOf(replies, row.chat), row.date) && row.usable && row.clean !in existing)
    && (forall j, k | 0 <= j < k < |chosen| :: chosen[j].clean != chosen[k].clean)
    && (forall sender :: BySender(chosen, sender) <= 3)
    && (forall day :: ByDay(chosen, day) <= 5)
  }

  lemma {:induction false} ChosenIsSound(rows: seq<Inbound>, replies: Replies, existing: set<Prompt>, n: nat, i: nat)
    requires i <= |rows|
    ensures Sound(Chosen(rows, replies, existing, n, i), replies, existing, n)
  {
    hide Eligible, Room, Sound;
    if i == 0 {
      NothingIsSound(replies, existing, n);
    } else {
      var before, row := Chosen(rows, replies, existing, n, i - 1), rows[i - 1];
      ChosenIsSound(rows, replies, existing, n, i - 1);
      if |before| < n && Eligible(row, replies, existing) && Room(before, row) {
        SoundStep(before, row, replies, existing, n);
      }
    }
  }

  lemma NothingIsSound(replies: Replies, existing: set<Prompt>, n: nat)
    ensures Sound([], replies, existing, n)
  {
  }

  lemma SoundStep(before: seq<Inbound>, row: Inbound, replies: Replies, existing: set<Prompt>, n: nat)
    requires Sound(before, replies, existing, n)
    requires |before| < n && Eligible(row, replies, existing) && Room(before, row)
    ensures Sound(before + [row], replies, existing, n)
  {
    hide Answered, Day;
    var after := before + [row];
    assert after[..|before|] == before;
    forall j | 0 <= j < |before| ensures before[j].clean != row.clean {
      assert before[j] in before;
    }
    forall sender ensures BySender(after, sender) <= SENDER_CAP {
      assert BySender(after, sender) == BySender(before, sender) + if row.sender == sender then 1 else 0;
    }
    forall day ensures ByDay(after, day) <= DAY_CAP {
      assert ByDay(after, day) == ByDay(before, day) + if Day(row.date) == day then 1 else 0;
    }
  }

  /** Rows are only ever added at the end, in the order of the history. */
  lemma {:induction false} ChoiceGrows(rows: seq<Inbound>, replies: Replies, existing: set<Prompt>, n: nat, i: nat,
                                       j: nat)
    requires i <= j <= |rows|
    ensures Chosen(rows, replies, existing, n, i) <= Chosen(rows, replies, existing, n, j)
  {
    hide Eligible, Room;
    if i < j {
      ChoiceGrows(rows, replies, existing, n, i, j - 1);
    }
  }

  lemma {:induction false} CountsGrow(a: seq<Inbound>, b: seq<Inbound>, sender: int, day: int)
    requires a <= b
    ensures BySender(a, sender) <= BySender(b, sender) && ByDay(a, day) <= ByDay(b, day) && Prompts(a) <= Prompts(b)
  {
    hide Day;
    if a == b {
    } else {
      CountsGrow(a, b[..|b| - 1], sender, day);
    }
  }

  /** Why a row adds nothing to the choice. */
  ghost predicate Settled(chosen: seq<Inbound>, row: Inbound, n: nat) {
    || |chosen| >= n
    || BySender(chosen, row.sender) >= 3
    || ByDay(chosen, Day(row.date)) >= 5
    || row.clean in Prompts(chosen)
  }

  lemma SettledAtItsTurn(rows: seq<Inbound>, replies: Replies, existing: set<Prompt>, n: nat, k: nat)
    requires k < |rows| && Eligible(rows[k], replies, existing)
    ensures Settled(Chosen(rows, replies, existing, n, k + 1), rows[k], n)
  {
  }

  lemma StaysSettled(a: seq<Inbound>, b: seq<Inbound>, row: Inbound, n: nat)
    requires a <= b && Settled(a, row, n)
    ensures Settled(b, row, n)
  {
    hide BySender, ByDay, Day, Prompts;
    CountsGrow(a, b, row.sender, Day(row.date));
  }

  /** No row is left out without a reason that still holds at the end. */
  lemma ChoiceIsMaximal(rows: seq<Inbound>, replies: Replies, existing: set<Prompt>, n: nat, k: nat)
    requires k < |rows| && Answered(OutsOf(replies, rows[k].chat), rows[k].date)
    requires rows[k].usable && rows[k].clean !in existing
    ensures Settled(Chosen(rows, replies, existing, n, |rows|), rows[k], n)
  {
    assert Eligible(rows[k], replies, existing);
    hide Eligible, Settled, Chosen;
    SettledAtItsTurn(rows, replies, existing, n, k);
    ChoiceGrows(rows, replies, existing, n, k + 1, |rows|);
    StaysSettled(Chosen(rows, replies, existing, n, k + 1), Chosen(rows, replies, existing, n, |rows|), rows[k], n);
  }

  function Cut<T>(s: seq<T>, n: nat): seq<T> {
    s[..if n < |s| then n else |s|]
  }

  lemma CutNext<T>(s: seq<T>, x: T, n: nat)
    ensures Cut(s + [x], n) == if |s| < n then Cut(s, n) + [x] else Cut(s, n)
  {
  }

  lemma CutLength<T>(s: seq<T>, n: nat)
    ensures if |s| < n then Cut(s, n) == s else |Cut(s, n)| == n
  {
  }

  /** Asking for fewer prompts gives the first of those a larger request gives. */
  lemma {:induction false} FewerIsPrefix(rows: seq<Inbound>, replies: Replies, existing: set<Prompt>, n: nat, m: nat,
                                         i: nat)
    requires i <= |rows| && n <= m
    ensures Chosen(rows, replies, existing, n, i) == Cut(Chosen(rows, replies, existing, m, i), n)
  {
    hide Eligible, Room, Cut;
    if i == 0 {
      CutLength(Chosen(rows, replies, existing, m, i), n);
    } else {
      var more, row := Chosen(rows, replies, existing, m, i - 1), rows[i - 1];
      CutNext(more, row, n);
      CutLength(more, n);
      FewerIsPrefix(rows, replies, existing, n, m, i - 1);
    }
  }
}
