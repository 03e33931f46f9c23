/** Draft-and-verify generation, and the plain greedy decoding it must not be distinguishable from. */
module SpeculativeDecoding {
  import opened Sequences
  import opened Wrappers

  type Token = int

  /** A causal model: the most likely token after a context. */
  type Model = seq<Token> -> Token

  /** Plain greedy decoding: n tokens, one model call each. */
  ghost function Greedy(model: Model, context: seq<Token>, n: nat): (r: seq<Token>)
    ensures |r| == n
  {
    if n == 0 then [] else
    var earlier := Greedy(model, context, n - 1);
    earlier + [model(context + earlier)]
  }

  /** The tokens before the first stop token. */
  ghost function BeforeStop(isStop: Token -> bool, tokens: seq<Token>): (r: seq<Token>)
    ensures |r| <= |tokens|
  {
    if tokens == [] || isStop(tokens[0]) then [] else [tokens[0]] + BeforeStop(isStop, tokens[1..])
  }

  lemma {:induction false} BeforeStopMeaning(isStop: Token -> bool, tokens: seq<Token>)
    ensures var r := BeforeStop(isStop, tokens);
      && r <= tokens
      && (forall t | t in r :: !isStop(t))
      && (r == tokens || isStop(tokens[|r|]))
  {
    if tokens != [] && !isStop(tokens[0]) {
      BeforeStopMeaning(isStop, tokens[1..]);
    }
  }

  lemma {:induction false} BeforeStopSnoc(isStop: Token -> bool, a: seq<Token>, t: Token)
    requires BeforeStop(isStop, a) == a
    ensures BeforeStop(isStop, a + [t]) == if isStop(t) then a else a + [t]
  {
    if a != [] {
      var whole := a + [t];
      assert whole[0] == a[0] && whole[1..] == a[1..] + [t];
      assert BeforeStop(isStop, a)[1..] == BeforeStop(isStop, a[1..]);
      BeforeStopSnoc(isStop, a[1..], t);
    }
  }

  lemma {:induction false} GreedyPrefix(model: Model, context: seq<Token>, m: nat, n: nat)
    requires m <= n
    ensures Greedy(model, context, m) == Greedy(model, context, n)[..m]
  {
    if m < n {
      GreedyPrefix(model, context, m, n - 1);
    }
  }

  lemma {:induction false} GreedyAppend(model: Model, context: seq<Token>, m: nat, n: nat)
    ensures Greedy(model, context, m + n)
         == Greedy(model, context, m) + Greedy(model, context + Greedy(model, context, m), n)
  {
    if n > 0 {
      GreedyAppend(model, context, m, n - 1);
      var a := Greedy(model, context, m);
      var b := Greedy(model, context + a, n - 1);
      assert context + (a + b) == context + a + b;
    }
  }

  /** What one forward pass over `full` predicts at a position; a negative one counts from the end. */
  function PredictionAt(model: Model, full: seq<Token>, pos: int): Token
    requires -|full| <= pos < |full|
  {
    var p := if pos < 0 then |full| + pos else pos;
    model(full[..p + 1])
  }

  class TargetEngine {
    const model: Model

    constructor (model: Model)
      ensures this.model == model
    {
      this.model := model;
    }

    /** Checks a whole draft in one pass; after a divergence the last token is the target's own. */
    method VerifyDraftTokens(input: seq<Token>, draft: seq<Token>) returns (accepted: seq<Token>, diverged: bool)
      ensures input != [] ==> accepted == Greedy(model, input, |accepted|)
      ensures input == [] && draft != [] ==>
        (accepted == Greedy(model, input, |accepted|) <==> model(draft) == model([]))
      ensures !diverged ==> accepted == draft
      ensures diverged ==>
        && 0 < |accepted| <= |draft|
        && accepted[..|accepted| - 1] == draft[..|accepted| - 1]
        && accepted[|accepted| - 1] != draft[|accepted| - 1]
    {
      hide Greedy, PredictionAt;
      var full := input + draft;
      accepted := [];
      var start := |input| - 1;
      NoGreedy(model, input);
      for i := 0 to |draft|
        invariant accepted == draft[..i]
        invariant input != [] ==> accepted == Greedy(model, input, i)
        invariant input == [] && i > 0 ==> accepted[0] == model(draft)
        invariant input == [] && model(draft) == model([]) ==> accepted == Greedy(model, input, i)
      {
        var pos := start + i;
        if pos >= |full| {
          break;
        }
        var target := PredictionAt(model, full, pos);
        PredictionIs(model, input, draft, i);
        GreedyNext(model, input, i);
        if target == draft[i] {
          accepted := accepted + [draft[i]];
        } else {
          accepted := accepted + [target];
          FirstToken(model, input, |accepted|);
          return accepted, true;
        }
      }
      if |draft| > 0 {
        FirstToken(model, input, |draft|);
      }
      return accepted, false;
    }

    method GenerateSingle(input: seq<Token>) returns (token: Token)
      requires input != []
      ensures token == model(input)
    {
      assert input[..|input|] == input;
      return PredictionAt(model, input, -1);
    }
  }

  /** Position |input| - 1 + i predicts what follows the first i tokens of the draft; on an empty input the first
      position is the last one. */
  lemma PredictionIs(model: Model, input: seq<Token>, draft: seq<Token>, i: nat)
    requires i < |draft|
    ensures PredictionAt(model, input + draft, |input| - 1 + i) ==
      if input == [] && i == 0 then model(draft) else model(input + draft[..i])
  {
    var full := input + draft;
    if input == [] && i == 0 {
      assert full[..|full|] == draft;
    } else {
      assert full[..|input| + i] == input + draft[..i];
    }
  }

  lemma NoGreedy(model: Model, context: seq<Token>)
    ensures Greedy(model, context, 0) == []
  {
  }

  lemma GreedyNext(model: Model, context: seq<Token>, i: nat)
    ensures Greedy(model, context, i + 1) ==
      Greedy(model, context, i) + [model(context + Greedy(model, context, i))]
    ensures i == 0 ==> context + Greedy(model, context, i) == context
  {
  }

  /** On an empty input a draft can pass that greedy decoding would not give: the last position decides the first. */
  lemma EmptyInputMisleads(model: Model, draft: seq<Token>)
    requires draft == [1] && forall s: seq<Token> :: model(s) == |s|
    ensures PredictionAt(model, [] + draft, -1) == draft[0] && model(draft) != model([])
    ensures draft != Greedy(model, [], |draft|)
  {
    assert draft[..1] == draft && [] + draft == draft;
    FirstToken(model, [], 1);
  }

  lemma FirstToken(model: Model, context: seq<Token>, n: nat)
    requires n > 0
    ensures Greedy(model, context, n)[0] == model(context)
  {
    GreedyPrefix(model, context, 1, n);
    assert context + Greedy(model, context, 0) == context;
    assert Greedy(model, context, 1) == Greedy(model, context, 0) + [model(context)];
  }

  /** The text a run may stream after generating n tokens: greedy decoding up to the first stop token. */
  ghost function GreedyText(model: Model, isStop: Token -> bool, input: seq<Token>, n: nat): (r: seq<Token>)
    ensures |r| <= n
  {
    BeforeStop(isStop, Greedy(model, input, n))
  }

  /** A streamed text: greedy decoding cut before its first stop token, and full length unless it stopped. */
  ghost predicate IsStream(model: Model, isStop: Token -> bool, input: seq<Token>, maxTokens: int,
                           text: seq<Token>, stopped: bool) {
    && text == GreedyText(model, isStop, input, |text| + if stopped then 1 else 0)
    && (stopped ==> isStop(model(input + text)))
    && (!stopped ==> maxTokens <= |text|)
  }

  /** The first stop token of a + b is the first one of a, if there is one, or else the first one of b. */
  lemma {:induction false} BeforeStopExtend(isStop: Token -> bool, a: seq<Token>, b: seq<Token>)
    ensures BeforeStop(isStop, a + b) ==
      if BeforeStop(isStop, a) == a then a + BeforeStop(isStop, b) else BeforeStop(isStop, a)
  {
    hide BeforeStop;
    if a == [] {
      NothingBefore(isStop);
      assert a + b == b && a + BeforeStop(isStop, b) == BeforeStop(isStop, b);
    } else {
      var t, rest := a[0], a[1..];
      BeforeStopExtend(isStop, rest, b);
      assert a == [t] + rest;
      Associative([t], rest, b);
      BeforeStopFirst(isStop, t, rest);
      BeforeStopFirst(isStop, t, rest + b);
      Associative([t], rest, BeforeStop(isStop, b));
    }
  }

  lemma NothingBefore(isStop: Token -> bool)
    ensures BeforeStop(isStop, []) == []
  {
  }

  lemma BeforeStopFirst(isStop: Token -> bool, t: Token, rest: seq<Token>)
    ensures BeforeStop(isStop, [t] + rest) == if isStop(t) then [] else [t] + BeforeStop(isStop, rest)
    ensures BeforeStop(isStop, [t] + rest) == [t] + rest <==> !isStop(t) && BeforeStop(isStop, rest) == rest
  {
    assert ([t] + rest)[1..] == rest;
  }

  lemma LongerText(model: Model, isStop: Token -> bool, input: seq<Token>, m: nat, n: nat)
    requires m <= n
    ensures GreedyText(model, isStop, input, m) <= GreedyText(model, isStop, input, n)
    ensures |GreedyText(model, isStop, input, m)| < m ==>
      GreedyText(model, isStop, input, n) == GreedyText(model, isStop, input, m)
  {
    var a, b := Greedy(model, input, m), Greedy(model, input, n);
    GreedyPrefix(model, input, m, n);
    assert b == a + b[m..];
    BeforeStopExtend(isStop, a, b[m..]);
    BeforeStopMeaning(isStop, a);
  }

  /** Against plain decoding of maxTokens tokens nothing is lost, and after its stop token nothing is added. */
  lemma StreamRefinesGreedy(model: Model, isStop: Token -> bool, input: seq<Token>, maxTokens: nat,
                            text: seq<Token>, stopped: bool)
    requires IsStream(model, isStop, input, maxTokens, text, stopped)
    ensures var plain := GreedyText(model, isStop, input, maxTokens);
      plain <= text && (|plain| < maxTokens ==> text == plain && stopped)
  {
    var n := |text| + if stopped then 1 else 0;
    if maxTokens <= n {
      LongerText(model, isStop, input, maxTokens, n);
    } else {
      LongerText(model, isStop, input, n, maxTokens);
    }
    var plain := GreedyText(model, isStop, input, maxTokens);
    if |plain| < maxTokens && !stopped {
      LongerText(model, isStop, input, maxTokens, n);
    }
  }

  /** Whatever the two draft engines, their streams agree as far as both go. */
  lemma DraftsDoNotMatter(model: Model, isStop: Token -> bool, input: seq<Token>,
                          max: int, text: seq<Token>, stopped: bool,
                          max': int, text': seq<Token>, stopped': bool)
    requires IsStream(model, isStop, input, max, text, stopped)
    requires IsStream(model, isStop, input, max', text', stopped')
    ensures text <= text' || text' <= text
    ensures stopped ==> text' <= text
    ensures stopped && stopped' ==> text' == text
  {
    var n, n' := |text| + (if stopped then 1 else 0), |text'| + (if stopped' then 1 else 0);
    if n <= n' {
      LongerText(model, isStop, input, n, n');
    }
    if n' <= n {
      LongerText(model, isStop, input, n', n);
    }
  }

  /** How many tokens at the start of a draft are what the target says at their place, from the n-th on. */
  ghost function Agreed(model: Model, context: seq<Token>, draft: seq<Token>, n: nat): (r: nat)
    requires n <= |draft|
    ensures n <= r <= |draft|
    decreases |draft| - n
  {
    if n < |draft| && draft[n] == model(context + draft[..n]) then Agreed(model, context, draft, n + 1) else n
  }

  lemma {:induction false} AgreedIs(model: Model, context: seq<Token>, draft: seq<Token>, taken: seq<Token>, n: nat,
                                    k: nat)
    requires k <= n <= |taken| && n <= |draft| && taken == Greedy(model, context, |taken|)
    requires draft[..n] == taken[..n] && (n < |draft| ==> n < |taken| && taken[n] != draft[n])
    ensures Agreed(model, context, draft, k) == n
    decreases n - k
  {
    if k < |draft| {
      GreedyPrefix(model, context, k, |taken|);
      GreedyPrefix(model, context, k + 1, |taken|);
      assert taken[..k] == draft[..n][..k] == draft[..k];
      assert taken[..k + 1][k] == model(context + draft[..k]);
      hide Greedy;
      if k < n {
        assert draft[k] == draft[..n][k] == taken[..n][k];
        AgreedIs(model, context, draft, taken, n, k + 1);
      }
    }
  }

  /** They are the longest start of the draft that is the target's own greedy decoding. */
  lemma AgreedIsLongest(model: Model, context: seq<Token>, draft: seq<Token>)
    ensures var r := Agreed(model, context, draft, 0);
      draft[..r] == Greedy(model, context, r) && (r < |draft| ==> draft[r] != model(context + draft[..r]))
  {
    AgreedFrom(model, context, draft, 0);
  }

  lemma {:induction false} AgreedFrom(model: Model, context: seq<Token>, draft: seq<Token>, n: nat)
    requires n <= |draft| && draft[..n] == Greedy(model, context, n)
    ensures var r := Agreed(model, context, draft, n);
      draft[..r] == Greedy(model, context, r) && (r < |draft| ==> draft[r] != model(context + draft[..r]))
    decreases |draft| - n
  {
    if n < |draft| && draft[n] == model(context + draft[..n]) {
      assert draft[..n + 1] == draft[..n] + [draft[n]];
      AgreedFrom(model, context, draft, n + 1);
    }
  }

  lemma AgreedNone(model: Model, context: seq<Token>, draft: seq<Token>)
    requires draft != [] && draft[0] != model(context)
    ensures Agreed(model, context, draft, 0) == 0
  {
    assert context + draft[..0] == context;
  }

  lemma AgreedAll(model: Model, context: seq<Token>, draft: seq<Token>)
    requires draft == Greedy(model, context, |draft|)
    ensures Agreed(model, context, draft, 0) == |draft|
  {
    assert draft[..|draft|] == draft;
    hide Greedy;
    AgreedIs(model, context, draft, draft, |draft|, 0);
  }

  datatype Counts = Counts(accepted: int, drafted: int) {
    function Plus(other: Counts): Counts { Counts(accepted + other.accepted, drafted + other.drafted) }
  }

  class DualComputeBridge {
    const gpu: TargetEngine
    const isStop: Token -> bool
    /** The Neural Engine's proposal in a given round, whatever it is; None while it falls back. */
    const ane: Option<(nat, seq<Token>) -> seq<Token>>
    const mlxDraft: Option<Model>
    const numDraftTokens: nat

    var accepted: int
    var totalDraft: int
    var totalTokens: int

    ghost predicate Valid()
      reads this
    {
      0 <= accepted <= totalDraft
    }

    constructor (gpu: TargetEngine, isStop: Token -> bool, ane: Option<(nat, seq<Token>) -> seq<Token>>,
                 mlxDraft: Option<Model>, numDraftTokens: nat)
      ensures Valid() && accepted == totalDraft == totalTokens == 0
      ensures this.gpu == gpu && this.isStop == isStop && this.ane == ane
      ensures this.mlxDraft == mlxDraft && this.numDraftTokens == numDraftTokens
    {
      this.gpu, this.isStop, this.ane := gpu, isStop, ane;
      this.mlxDraft, this.numDraftTokens := mlxDraft, numDraftTokens;
      accepted, totalDraft, totalTokens := 0, 0, 0;
    }

    /** No proposal is longer than `longest`. */
    ghost predicate DraftsWithin(longest: nat) {
      && numDraftTokens <= longest
      && (ane.Some? ==> forall round, context :: |ane.value(round, context)| <= longest)
    }

    /** The tokens so far are greedy decoding, and none of them is a stop token. */
    ghost predicate Unstopped(input: seq<Token>, generated: seq<Token>) {
      && generated == Greedy(gpu.model, input, |generated|)
      && generated == GreedyText(gpu.model, isStop, input, |generated|)
    }

    /** What a verified draft adds: its tokens that agree with greedy decoding, and the token it missed. */
    ghost function Verified(context: seq<Token>, draft: seq<Token>): seq<Token> {
      var agreed := Agreed(gpu.model, context, draft, 0);
      Greedy(gpu.model, context, if agreed < |draft| then agreed + 1 else agreed)
    }

    ghost predicate HasStop(tokens: seq<Token>) {
      exists k | 0 <= k < |tokens| :: isStop(tokens[k])
    }

    /** What the rounds from `round` on add to the counters, given the text generated before them. */
    ghost function Tally(input: seq<Token>, text: seq<Token>, round: nat, total: nat): Counts
      decreases total - round
    {
      if round >= total then Counts(0, 0) else
      var draft := Proposal(round, input + text);
      var none := draft.None? || draft.value == [];
      var here := if none then Counts(0, 0) else Counts(Agreed(gpu.model, input + text, draft.value, 0), |draft.value|);
      var added := if none then Greedy(gpu.model, input + text, 1) else Verified(input + text, draft.value);
      if HasStop(added) then here else here.Plus(Tally(input, text + added, round + 1, total))
    }

    /** What round `round` adds to the text and to the counters. */
    ghost predicate RoundAdds(context: seq<Token>, round: nat, added: seq<Token>, here: Counts) {
      var draft := Proposal(round, context);
      if draft.None? || draft.value == [] then
        added == Greedy(gpu.model, context, 1) && here == Counts(0, 0)
      else
        added == Verified(context, draft.value)
        && here == Counts(Agreed(gpu.model, context, draft.value, 0), |draft.value|)
    }

    /** Every draft is wrong from its first token on. */
    ghost predicate AlwaysWrong() {
      forall round, context | Proposal(round, context).Some? && Proposal(round, context).value != [] ::
        Proposal(round, context).value[0] != gpu.model(context)
    }

    /** Every draft is the target's own greedy decoding. */
    ghost predicate AlwaysRight() {
      forall round, context | Proposal(round, context).Some? ::
        Proposal(round, context).value == Greedy(gpu.model, context, |Proposal(round, context).value|)
    }

    /** Of drafts that are always wrong nothing counts as accepted, however many tokens the target corrects. */
    lemma {:induction false} WrongDraftsCountNothing(input: seq<Token>, text: seq<Token>, round: nat, total: nat)
      requires AlwaysWrong()
      ensures Tally(input, text, round, total).accepted == 0
      decreases total - round
    {
      hide Proposal, Verified, HasStop, Greedy;
      if round < total {
        var draft := Proposal(round, input + text);
        var none := draft.None? || draft.value == [];
        var added := if none then Greedy(gpu.model, input + text, 1) else Verified(input + text, draft.value);
        if !none {
          AgreedNone(gpu.model, input + text, draft.value);
        }
        WrongDraftsCountNothing(input, text + added, round + 1, total);
      }
    }

    /** Drafts that are always right are accepted entirely. */
    lemma {:induction false} RightDraftsCountFully(input: seq<Token>, text: seq<Token>, round: nat, total: nat)
      requires AlwaysRight()
      ensures Tally(input, text, round, total).accepted == Tally(input, text, round, total).drafted
      decreases total - round
    {
      hide Proposal, Verified, HasStop, Greedy;
      if round < total {
        var draft := Proposal(round, input + text);
        var none := draft.None? || draft.value == [];
        var added := if none then Greedy(gpu.model, input + text, 1) else Verified(input + text, draft.value);
        if !none {
          AgreedAll(gpu.model, input + text, draft.value);
        }
        RightDraftsCountFully(input, text + added, round + 1, total);
      }
    }

    lemma TallyRound(input: seq<Token>, text: seq<Token>, added: seq<Token>, here: Counts, round: nat, total: nat)
      requires round < total && RoundAdds(input + text, round, added, here)
      ensures HasStop(added) ==> Tally(input, text, round, total) == here
      ensures !HasStop(added) ==>
        Tally(input, text, round, total) == here.Plus(Tally(input, text + added, round + 1, total))
    {
      hide Proposal, Verified, HasStop;
    }

    lemma VerifiedRound(context: seq<Token>, round: nat, draft: seq<Token>, taken: seq<Token>, diverged: bool)
      requires Proposal(round, context) == Some(draft) && draft != []
      requires taken == Greedy(gpu.model, context, |taken|)
      requires !diverged ==> taken == draft
      requires diverged ==>
        && 0 < |taken| <= |draft|
        && taken[..|taken| - 1] == draft[..|taken| - 1]
        && taken[|taken| - 1] != draft[|taken| - 1]
      ensures RoundAdds(context, round, taken, Counts(|taken| - if diverged then 1 else 0, |draft|))
    {
      hide Proposal, Greedy;
      AgreedIs(gpu.model, context, draft, taken, |taken| - if diverged then 1 else 0, 0);
    }

    /** n tokens are no more than so many rounds can add: the longest draft, or one token, in each. */
    ghost predicate WithinRounds(n: int, rounds: nat) {
      forall longest: nat | DraftsWithin(longest) :: n <= rounds * AtLeast(longest, 1)
    }

    /** One round may add k tokens. */
    ghost predicate FitsRound(k: nat) {
      forall longest: nat | DraftsWithin(longest) :: k <= AtLeast(longest, 1)
    }

    lemma OneMoreRound(n: int, k: nat, m: nat, rounds: nat, total: nat)
      requires WithinRounds(n, rounds) && rounds < total && FitsRound(m) && k <= m
      ensures WithinRounds(n + k, rounds + 1) && WithinRounds(n + k, total)
    {
    }

    method MlxDraftTokens(context: seq<Token>) returns (draft: seq<Token>)
      requires mlxDraft.Some?
      ensures draft == Greedy(mlxDraft.value, context, numDraftTokens)
    {
      draft := [];
      var ids := context;
      for i := 0 to numDraftTokens
        invariant draft == Greedy(mlxDraft.value, context, i)
        invariant ids == context + draft
      {
        var token := mlxDraft.value(ids);
        draft := draft + [token];
        ids := ids + [token];
      }
    }

    /** What is proposed in a round: the Neural Engine's draft unless it falls back, then the draft model's. */
    ghost function Proposal(round: nat, context: seq<Token>): Option<seq<Token>> {
      if ane.Some? then Some(ane.value(round, context))
      else if mlxDraft.Some? then Some(Greedy(mlxDraft.value, context, numDraftTokens))
      else None
    }

    method Draft(round: nat, context: seq<Token>) returns (draft: Option<seq<Token>>)
      ensures draft == Proposal(round, context)
      ensures ane.Some? ==> draft == Some(ane.value(round, context))
      ensures ane.None? && mlxDraft.Some? ==> draft == Some(Greedy(mlxDraft.value, context, numDraftTokens))
      ensures ane.None? && mlxDraft.None? ==> draft.None?
      ensures draft.Some? ==> FitsRound(|draft.value|)
    {
      draft := None;
      if ane.Some? {
        draft := Some(ane.value(round, context));
      }
      if draft.None? && mlxDraft.Some? {
        var tokens := MlxDraftTokens(context);
        draft := Some(tokens);
      }
    }

    /** Where a run stands before a round, the counters having grown by `so`. */
    ghost predicate Progress(input: seq<Token>, text: seq<Token>, round: nat, total: nat, so: Counts) {
      && Unstopped(input, text) && round <= total && round <= |text| <= so.accepted + round
      && WithinRounds(|text|, round)
      && so.Plus(Tally(input, text, round, total)) == Tally(input, [], 0, total)
    }

    /** How a run ends. */
    ghost predicate Ended(input: seq<Token>, text: seq<Token>, stopped: bool, total: nat, so: Counts) {
      var n := |text| + if stopped then 1 else 0;
      && IsStream(gpu.model, isStop, input, total, text, stopped)
      && WithinRounds(n, total) && n <= so.accepted + total
      && so == Tally(input, [], 0, total)
    }

    lemma StartStream(input: seq<Token>, total: nat)
      ensures Progress(input, [], 0, total, Counts(0, 0)) && FitsRound(1)
    {
    }

    lemma EndStream(input: seq<Token>, text: seq<Token>, total: nat, so: Counts)
      requires Progress(input, text, total, total, so)
      ensures Ended(input, text, false, total, so)
    {
    }

    /** The first tokens of a round, none of which stops. */
    lemma {:induction false} StaysUnstopped(input: seq<Token>, text: seq<Token>, added: seq<Token>, j: nat)
      requires Unstopped(input, text) && j <= |added| && added == Greedy(gpu.model, input + text, |added|)
      requires forall k | 0 <= k < j :: !isStop(added[k])
      ensures Unstopped(input, text + added[..j])
    {
      if j > 0 {
        StaysUnstopped(input, text, added, j - 1);
        GreedyAt(gpu.model, input, text, added, j - 1);
        assert text + added[..j] == text + added[..j - 1] + [added[j - 1]];
        hide Unstopped, Greedy;
        NextToken(input, text + added[..j - 1], added[j - 1], 0);
      } else {
        assert text + added[..0] == text;
      }
    }

    /** What one more greedy token makes of a text. */
    lemma NextToken(input: seq<Token>, text: seq<Token>, token: Token, maxTokens: int)
      requires Unstopped(input, text) && token == gpu.model(input + text)
      ensures if isStop(token) then IsStream(gpu.model, isStop, input, maxTokens, text, true)
              else Unstopped(input, text + [token])
    {
      assert Greedy(gpu.model, input, |text| + 1) == text + [token];
      BeforeStopSnoc(isStop, text, token);
    }

    lemma StopsAt(input: seq<Token>, text: seq<Token>, added: seq<Token>, j: nat, maxTokens: int)
      requires Unstopped(input, text) && j < |added| && added == Greedy(gpu.model, input + text, |added|)
      requires isStop(added[j]) && forall k | 0 <= k < j :: !isStop(added[k])
      ensures IsStream(gpu.model, isStop, input, maxTokens, text + added[..j], true)
    {
      hide Unstopped, Greedy, IsStream;
      StaysUnstopped(input, text, added, j);
      GreedyAt(gpu.model, input, text, added, j);
      NextToken(input, text + added[..j], added[j], maxTokens);
    }

    lemma RoundGoesOn(input: seq<Token>, text: seq<Token>, added: seq<Token>, here: Counts, round: nat, total: nat,
                      so: Counts, m: nat)
      requires Progress(input, text, round, total, so) && round < total && FitsRound(m) && |added| <= m
      requires RoundAdds(input + text, round, added, here)
      requires forall k | 0 <= k < |added| :: !isStop(added[k])
      ensures Progress(input, text + added, round + 1, total, so.Plus(here))
    {
      hide Unstopped, WithinRounds, FitsRound, RoundAdds, Tally, Greedy, Proposal, IsStream;
      AddsSome(input + text, round, added, here);
      TallyRound(input, text, added, here, round, total);
      StaysUnstopped(input, text, added, |added|);
      assert added[..|added|] == added;
      OneMoreRound(|text|, |added|, m, round, total);
    }

    lemma RoundStops(input: seq<Token>, text: seq<Token>, added: seq<Token>, here: Counts, round: nat, total: nat,
                     so: Counts, j: nat, m: nat)
      requires Progress(input, text, round, total, so) && round < total && FitsRound(m) && |added| <= m
      requires RoundAdds(input + text, round, added, here) && j < |added| && isStop(added[j])
      requires forall k | 0 <= k < j :: !isStop(added[k])
      ensures Ended(input, text + added[..j], true, total, so.Plus(here))
    {
      hide Unstopped, WithinRounds, FitsRound, RoundAdds, Tally, Greedy, Proposal, IsStream;
      AddsSome(input + text, round, added, here);
      TallyRound(input, text, added, here, round, total);
      StopsAt(input, text, added, j, total);
      OneMoreRound(|text|, j + 1, m, round, total);
      assert |text + added[..j]| + 1 == |text| + j + 1;
    }

    /** Every round adds a token; all of what it adds is greedy, and all but one of it was drafted. */
    lemma AddsSome(context: seq<Token>, round: nat, added: seq<Token>, here: Counts)
      requires RoundAdds(context, round, added, here)
      ensures 0 < |added| <= here.accepted + 1 && added == Greedy(gpu.model, context, |added|)
    {
      hide Proposal, Greedy;
    }

    /** Yields and counts the tokens of a verified batch; a stop token is counted and not yielded. */
    method Emit(yielded: seq<Token>, taken: seq<Token>) returns (text: seq<Token>, stopped: bool, ghost n: nat)
      modifies this`totalTokens
      ensures n <= |taken| && text == yielded + taken[..n] && forall k | 0 <= k < n :: !isStop(taken[k])
      ensures stopped <==> n < |taken|
      ensures stopped ==> isStop(taken[n])
      ensures totalTokens == old(totalTokens) + n + if stopped then 1 else 0
    {
      text, n := yielded, 0;
      for j := 0 to |taken|
        invariant n == j && text == yielded + taken[..j] && forall k | 0 <= k < j :: !isStop(taken[k])
        invariant totalTokens == old(totalTokens) + j
      {
        totalTokens := totalTokens + 1;
        if isStop(taken[j]) {
          return text, true, j;
        }
        text := text + [taken[j]];
        n := j + 1;
      }
      stopped := false;
    }

    method GenerateStream(input: seq<Token>, maxTokens: int) returns (text: seq<Token>, stopped: bool)
      requires Valid() && input != []
      modifies this
      ensures Valid()
      ensures totalTokens == old(totalTokens) + |text| + (if stopped then 1 else 0)
      ensures Ended(input, text, stopped, AtLeast(maxTokens, 0),
                    Counts(accepted - old(accepted), totalDraft - old(totalDraft)))
    {
      hide Progress, Ended, FitsRound, RoundAdds, Greedy, Proposal, Tally, Verified, Agreed, Unstopped, WithinRounds,
           IsStream;
      ghost var total: nat := AtLeast(maxTokens, 0);
      ghost var so := Counts(0, 0);
      StartStream(input, total);
      var generated := [];
      text := [];
      var i := 0;
      while i < maxTokens
        invariant 0 <= i <= total && Valid()
        invariant totalTokens == old(totalTokens) + |generated|
        invariant so == Counts(accepted - old(accepted), totalDraft - old(totalDraft))
        invariant text == generated && Progress(input, generated, i, total, so)
      {
        ghost var before := generated;
        var draft := Draft(i, input + generated);
        if draft.Some? && |draft.value| > 0 {
          var taken, diverged := gpu.VerifyDraftTokens(input + generated, draft.value);
          totalDraft := totalDraft + |draft.value|;
          accepted := accepted + |taken| - (if diverged then 1 else 0);
          VerifiedRound(input + before, i, draft.value, taken, diverged);
          ghost var here := Counts(|taken| - if diverged then 1 else 0, |draft.value|);
          ghost var n;
          text, stopped, n := Emit(text, taken);
          if stopped {
            RoundStops(input, before, taken, here, i, total, so, n, |draft.value|);
            return text, true;
          }
          generated := generated + taken;
          assert taken[..|taken|] == taken;
          RoundGoesOn(input, before, taken, here, i, total, so, |draft.value|);
          so := so.Plus(here);
        } else {
          var token := gpu.GenerateSingle(input + generated);
          SingleRound(input + before, i, token);
          assert so.Plus(Counts(0, 0)) == so && before + [token][..0] == before;
          generated := generated + [token];
          totalTokens := totalTokens + 1;
          if isStop(token) {
            RoundStops(input, before, [token], Counts(0, 0), i, total, so, 0, 1);
            return text, true;
          }
          RoundGoesOn(input, before, [token], Counts(0, 0), i, total, so, 1);
          text := text + [token];
          assert generated == before + [token];
        }
        assert Progress(input, generated, i + 1, total, so);
        i := i + 1;
      }
      EndStream(input, text, total, so);
      stopped := false;
    }

    lemma SingleRound(context: seq<Token>, round: nat, token: Token)
      requires Proposal(round, context).None? || Proposal(round, context) == Some([])
      requires token == gpu.model(context)
      ensures RoundAdds(context, round, [token], Counts(0, 0))
    {
      hide Proposal;
      assert Greedy(gpu.model, context, 1) == [] + [gpu.model(context + [])];
      assert context + [] == context;
    }

    method GetAcceptanceRate() returns (rate: real)
      requires Valid()
      ensures 0.0 <= rate <= 1.0
      ensures totalDraft > 0 ==> rate * totalDraft as real == accepted as real
      ensures totalDraft == 0 ==> rate == 0.0
    {
      if totalDraft == 0 {
        return 0.0;
      }
      return accepted as real / totalDraft as real;
    }
  }

  function AtLeast(n: int, low: int): int {
    if n < low then low else n
  }

  /** Token j of a verified batch is the target's next token after everything before it. */
  lemma GreedyAt(model: Model, input: seq<Token>, before: seq<Token>, taken: seq<Token>, j: nat)
    requires j < |taken|
    requires taken == Greedy(model, input + before, |taken|)
    ensures taken[j] == model(input + (before + taken[..j]))
  {
    GreedyPrefix(model, input + before, j, |taken|);
    GreedyPrefix(model, input + before, j + 1, |taken|);
    assert input + before + taken[..j] == input + (before + taken[..j]);
  }
}
