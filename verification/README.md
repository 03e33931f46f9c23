# h-uman: verified models of its self-contained algorithms

h-uman is a personal assistant runtime with a large set of training, evaluation and build
scripts around it. Most of those scripts move data; a few hold algorithms that other parts
rely on without checking them again. This project models those algorithms in Dafny and
proves what they promise. Each module stands for one source file, or for one part of it:

- `TokenRefs`: the design-token resolver, which sweeps a map of values in place and replaces
  each whole-value reference by the current value of what it names. Proved: it stops on every
  map, cyclic or not, after a number of sweeps that is logarithmic in the number of keys (and,
  without cycles, in the longest chain), and its three outcomes are described by the input's
  reference chains alone.
- `TokenTree`: flattening the nested token files that feed the resolver. Proved, for
  every tree: the two flat maps are the lookup by address, with the nearest type, exactly when
  addresses that share a path hold the same; trees of dot-free, non-empty, distinct keys are
  such trees.
- `SpeculativeDecoding`: a draft engine proposes tokens, a target model checks them in one
  pass. Proved: whatever the draft, the stream is the target's own greedy decoding up to its
  first stop token, with the promised bounds on lengths and counters.
- `Wilson`, `ProxyGate`, `GateFile`: the blind A/B gate. The Wilson interval over the reals,
  the decision taken from it, and the record that three writers share. Proved: what is decided,
  from the counts alone (the interval below a threshold is a score test that rejects it), and,
  over whole runs, what every write leaves on record and what the record adds up to.
- `CarveBlock` (with `Lines`): cutting an anchored block of lines out of a file and keeping
  some of its lines behind. Proved: nothing is lost, invented or reordered.
- `FollowUps`, `WholeReplies`, `MergeBack`: folding follow-up rows of a training corpus into
  whole replies. Proved: rows are conserved, replies are built only from rows that continue
  them, and a corpus split from replies merges back into those replies in every order of its
  rows exactly when, of the replies that start alike, only one has several bubbles and the
  others, if there is such a one, answer the same context.
- `AdapterRegistry`, `Promotion`: the append-only adapter registry over all call sequences,
  and the promote-or-keep decision iterated as a loop.
- `BlindExport`, `RatingIngest`, `RaterAgreement`: exporting reply pairs for blind rating and
  computing win rates from the ratings. Proved: the shuffle and the opaque ids leave no trace in
  the result, and which rated ids make the overall rate the sum of the dimensions.
- `PromptSampler`: drawing held-out prompts under per-sender and per-day caps.
- `Wiki`: near-duplicate removal, per-kind caps and the byte budget of memory pages.
- `FencedCode`, `InlineCode`: blanking CommonMark code (sections 4.5 and 6.1 of the
  CommonMark specification) before links are read.
- `EmojiNeutral`: keeping emoji from marking the rejected side of a preference corpus.
- `QueryParam`: the pointer scan for a query parameter.
- `Sequences`, `Wrappers`: sorting, options and results, used throughout.

State that the source keeps in an object or a file is the state of a class here
(`DualComputeBridge`, `Gate`, `RegistryFile`, `Corpus`, and the rows `MergeFollowups` edits);
its methods are proved against functions on values, and the theorems are about those
functions. Outside code is a parameter: the language model is a function from a context to
its next token, a draft is any sequence, a shuffle is any permutation, a clock reading is an
argument. Floating-point numbers are reals, and the square root is any number with the right
square and sign.

Where the code does not do what its documentation or a first reading suggests, the model
follows the code and the exact condition is proved:

- A token key that holds a dot can take the path of a nested token; the path then has the
  value of one and the type of the other (`DottedKeysMix`). Whatever the keys, flattening loses
  nothing exactly when no two addresses with one path hold different values or types
  (`LookupIffUnambiguous`); in every tree the last value and the last type under a path win
  (`LastAddressWins`).
- Two replies of several bubbles that start with the same bubble below the same incoming line
  never both survive splitting and merging: a later bubble of one is dropped. And where such a
  reply shares its start with a one-bubble reply to another context, its later bubbles can end
  up in that context (`MergesBackIff`, `NoneDroppedIff`, `LostBubble`, `WrongContext`).
- A human PASS counts unless the last human write empties the `tool` stamp; `TwoPassesPromote`
  says exactly when it promotes beside a proxy PASS.
- `verify_draft_tokens` on an empty input reads its first prediction from the end of the
  draft, by a negative index; its result is then greedy exactly when that prediction agrees
  (`VerifyDraftTokens`), and it need not (`EmptyInputMisleads`).
- Every rate is known to a half-width of five points exactly from 381 trials on; a comment in
  the source says 384. Below that the middle rate is left undecided (`NarrowIff`,
  `UndecidedUpTo380`).
- The block file is the moved lines exactly when the lines to drop leave one of the block's
  lines out; otherwise it still holds one empty line (`BlockFileIsMoved`, `WholeBlockDropped`).
- Two reports whose intervals contain their own means up to a slack each can displace each
  other exactly when the slacks can add up to more than the tolerance: given a report and the
  slack of its opponents, `MutualDisplacement`; for one slack on both sides the limit is half
  the tolerance, `SlackLimit`. Reports without a mean or an interval never do.
- Nothing ever displaces an incumbent exactly when it passes without a mean or its verdict is
  none of PASS, FAIL and SKIP (`StuckIncumbent`).
- The two code-blanking passes are each idempotent, their composition is not; a second run
  changes nothing exactly when no line of the first result opens a fence (`StripTwice`).
- With several ratings of one reply, the rate of a dimension goes by their median and the
  overall rate by the last one only. For given ids and any scores under them, the overall rate
  is the wins of the dimensions added up exactly when no pair has both sides rated and one of
  them more than once (`AddsUpIffRatedApart`).
- The header of `scripts/build_heldout_corpus.py` announces one prompt per sender and three
  per day; the code allows three and five, and so does the model.

## Model

| member | source | states |
|---|---|---|
| TokenTree.CollectTokens | design-tokens/token-lib.ts:26-42 | the loops yield the flat map of all entries in order, a later path replacing an earlier equal one |
| TokenTree.CollectTypes | design-tokens/token-lib.ts:51-70 | the same for types, each token's own or else inherited |
| TokenTree.TypesHaveTokens | design-tokens/token-lib.ts:44-50 | in any tree every path with a type is a path with a value |
| TokenTree.PathsDiffer | design-tokens/token-lib.ts:33-33 | different addresses of dot-free, non-empty keys have different paths |
| TokenTree.PathReads | design-tokens/token-lib.ts:33-33 | a path is the keys from the root on with dots between them, leading empty keys apart |
| TokenTree.LookupIffUnambiguous | design-tokens/token-lib.ts:26-70 | for every tree, dotted and empty keys included: the two flat maps hold, under the path of every address, what stands there with its nearest type, exactly when addresses that share a path hold the same |
| TokenTree.NothingElse | design-tokens/token-lib.ts:26-70 | and then every flat path comes from an address of the tree, with that value and type |
| TokenTree.CleanIsUnambiguous | design-tokens/token-lib.ts:26-70 | trees of distinct, dot-free, non-empty keys meet that condition |
| TokenTree.FlatteningIsLookup | design-tokens/token-lib.ts:26-70 | so there a value and type stand at an address exactly when the two flat maps hold them under its path |
| TokenTree.ValueOrigin | design-tokens/token-lib.ts:26-70 | in every tree each flattened value stands at an address with its path |
| TokenTree.TypeOrigin | design-tokens/token-lib.ts:26-70 | in every tree each flattened type is the nearest type of an address with its path |
| TokenTree.AddressedIsFlattened | design-tokens/token-lib.ts:26-70 | in every tree the path of each address has a value, and a type if one is near |
| TokenTree.AtIsWalk | design-tokens/token-lib.ts:51-70 | what stands at an address is reached over keys without a leading dollar sign, and its type is the innermost one given on the way down |
| TokenTree.ListedIffAt | design-tokens/token-lib.ts:26-70 | the listing of a tree, in the order of its files, holds exactly what stands at its addresses |
| TokenTree.LastAddressWins | design-tokens/token-lib.ts:26-70 | for every tree, ambiguous or not, the flat maps hold under each path the last value and the last type listed with it |
| TokenTree.WinnerAt | design-tokens/token-lib.ts:26-70 | so an address has its value under its path when no later address has the path, and its type when no later typed one has |
| TokenTree.DottedKeysMix | design-tokens/token-lib.ts:26-70 | with a dotted key a path can hold one token's value and another's type, whatever the two values |
| TokenTree.DottedKeysAreAmbiguous | design-tokens/token-lib.ts:26-70 | that tree is ambiguous |
| TokenRefs.Read | design-tokens/token-lib.ts:72-90 | a string is a reference exactly when it is a non-empty path without a closing brace in one pair of braces; reading loses nothing |
| TokenRefs.StepFollow | design-tokens/token-lib.ts:86-98 | after one key's turn, every chain of the new map runs over the values of the old chain, at least as fast |
| TokenRefs.SweepAdvances | design-tokens/token-lib.ts:86-100 | after a sweep each key holds a value of its own original chain, at least one hop on |
| TokenRefs.SweepsDouble | design-tokens/token-lib.ts:84-101 | after r sweeps every key is at least 2^r - 1 hops along its original chain |
| TokenRefs.SweepHalves | design-tokens/token-lib.ts:84-101 | chains that settle within d hops settle within d/2 hops after one sweep |
| TokenRefs.StepCycles | design-tokens/token-lib.ts:86-98 | no turn puts a key on a cycle that was not on one |
| TokenRefs.StepShortcuts | design-tokens/token-lib.ts:95-97 | the turn of a key on a cycle of two or more keys takes the key it named off the cycles |
| TokenRefs.SweepShrinks | design-tokens/token-lib.ts:84-101 | a sweep over a map with such a cycle strictly shrinks the set of keys on cycles |
| TokenRefs.SweepHalvesCycles | design-tokens/token-lib.ts:84-101 | in any map a sweep leaves at most half of the keys on cycles of two or more keys there |
| TokenRefs.ChainsSettle | design-tokens/token-lib.ts:84-101 | without a cycle of two or more keys every chain settles within as many hops as there are keys |
| TokenRefs.SettlesInBits | design-tokens/token-lib.ts:84-101 | a map whose chains settle within d hops is stable after log2(d+1) sweeps, rounded up |
| TokenRefs.BitsIsLog | design-tokens/token-lib.ts:84-101 | that bound is the logarithm to base 2 of d + 1, rounded up |
| TokenRefs.EventuallyStable | design-tokens/token-lib.ts:84-101 | every map, cyclic or not, is stable after a number of sweeps logarithmic in its keys: one logarithm for those on long cycles and one for all |
| TokenRefs.StableTells | design-tokens/token-lib.ts:102-108 | in a stable result a plain value is the end of the input chain, and a reference left over means the chain enters a cycle |
| TokenRefs.EndsOrCycles | design-tokens/token-lib.ts:74-80 | a chain that ends never enters a cycle and has one end only |
| TokenRefs.EndsXorCycles | design-tokens/token-lib.ts:74-80 | without dangling references every chain either ends or enters a cycle |
| TokenRefs.InCircularKeys | design-tokens/token-lib.ts:102-107 | the keys named circular are exactly those whose chain enters a cycle |
| TokenRefs.TurnsSweep | design-tokens/token-lib.ts:86-100 | taking the entries of a sweep from a snapshot makes no difference, since no key changes before its own turn |
| TokenRefs.MetDangling | design-tokens/token-lib.ts:90-94 | a dangling reference is met in the first sweep or never, and it is the first one of the input |
| TokenRefs.ResolveRefs | design-tokens/token-lib.ts:81-109 | the loop ends with the first dangling key, or else the keys that enter a cycle, or else every key at the end of its chain; sweeps are logarithmic in the number of keys for every map, and without long cycles in the longest chain |
| TokenRefs.OutcomeKind | design-tokens/token-lib.ts:90-107 | unresolved exactly when some key's own value dangles, circular exactly when none does and some chain enters a cycle |
| TokenRefs.OrderIrrelevant | design-tokens/token-lib.ts:81-109 | the iteration order changes neither the resolved map nor the set of circular keys nor which error it is |
| TokenRefs.ResolvedIsFixed | design-tokens/token-lib.ts:81-109 | resolving a resolved map gives it back |
| SpeculativeDecoding.BeforeStopMeaning | scripts/ane-gpu-bridge.py:327-333 | the cut text is the longest prefix without a stop token |
| SpeculativeDecoding.GreedyPrefix | scripts/ane-gpu-bridge.py:259-265 | fewer greedy tokens are a prefix of more |
| SpeculativeDecoding.GreedyAppend | scripts/ane-gpu-bridge.py:259-265 | greedy decoding may be interrupted and continued from what it produced |
| SpeculativeDecoding.TargetEngine.VerifyDraftTokens | scripts/ane-gpu-bridge.py:227-257 | accepted tokens are the target's greedy ones; all of the draft, or its agreeing prefix and one token that differs; on an empty input greedy exactly under a stated condition |
| SpeculativeDecoding.EmptyInputMisleads | scripts/ane-gpu-bridge.py:240-257 | a model and a draft for which the condition fails: on an empty input the draft passes though greedy decoding gives another token |
| SpeculativeDecoding.TargetEngine.GenerateSingle | scripts/ane-gpu-bridge.py:259-265 | the fallback yields the target's next token |
| SpeculativeDecoding.DualComputeBridge.MlxDraftTokens | scripts/ane-gpu-bridge.py:344-360 | the MLX draft is the draft model's own greedy decoding of the configured length |
| SpeculativeDecoding.DualComputeBridge.Draft | scripts/ane-gpu-bridge.py:309-317 | the Neural Engine's draft, even an empty one; the MLX draft only while that engine falls back; nothing when there is neither |
| SpeculativeDecoding.DualComputeBridge.GenerateStream | scripts/ane-gpu-bridge.py:299-342 | the text is greedy decoding cut before its first stop token; an unstopped run yields at least max_tokens and at most max_tokens times the longest draft (or one) tokens; accepted counts exactly the drafted tokens the target agrees with, round by round, and never exceeds drafted; every generated token is counted |
| SpeculativeDecoding.DualComputeBridge.AddsSome | scripts/ane-gpu-bridge.py:319-342 | every round adds at least one token, all of it greedy, all but at most one of it accepted from the draft |
| SpeculativeDecoding.AgreedIsLongest | scripts/ane-gpu-bridge.py:243-257 | the agreeing part of a draft is its longest start that is greedy decoding |
| SpeculativeDecoding.DualComputeBridge.WrongDraftsCountNothing | scripts/ane-gpu-bridge.py:323-326 | drafts that are always wrong count no accepted token over a whole run |
| SpeculativeDecoding.DualComputeBridge.RightDraftsCountFully | scripts/ane-gpu-bridge.py:323-326 | drafts that are always right count all of their tokens as accepted |
| SpeculativeDecoding.StreamRefinesGreedy | scripts/ane-gpu-bridge.py:299-342 | the stream extends plain greedy decoding of max_tokens tokens cut at its stop token, and equals it once that has stopped |
| SpeculativeDecoding.DraftsDoNotMatter | scripts/ane-gpu-bridge.py:299-342 | two bridges with any two draft engines stream the same text as far as both go, and the same text if both stop |
| SpeculativeDecoding.LongerText | scripts/ane-gpu-bridge.py:299-342 | a larger budget only extends the text, and not past its stop token |
| SpeculativeDecoding.DualComputeBridge.GetAcceptanceRate | scripts/ane-gpu-bridge.py:362-365 | the rate lies between 0 and 1 and is accepted over drafted |
| Wilson.BoundsAroundProportion | scripts/blind_ab_gate.py:38-53 | 0 <= lo <= k/n <= hi <= 1, and the clamps never act |
| Wilson.BoundsMonotone | scripts/blind_ab_gate.py:38-53 | more successes move both bounds up |
| Wilson.NarrowFrom381 | scripts/blind_ab_gate.py:22-35 | from 381 trials on the half-width is at most five points, whatever the rate |
| Wilson.WideUpTo380 | scripts/blind_ab_gate.py:22-35 | up to 380 trials the middle rate has a half-width above five points |
| Wilson.NarrowIff | scripts/blind_ab_gate.py:22-35 | so the half-width is at most five points for every rate exactly from 381 trials on |
| Wilson.HighBelow | scripts/blind_ab_gate.py:38-53 | the upper bound lies below q exactly when p is below q and n(q - p)^2 exceeds z^2 q(1 - q) |
| Wilson.WiderThan | scripts/blind_ab_gate.py:38-53 | the half-width exceeds w exactly under a polynomial condition on p, w and n without a root |
| ProxyGate.SuccessesInRange | scripts/blind_ab_gate.py:65-67 | a percentage of n trials rounds to a number of trials between none and all |
| ProxyGate.CiAroundMeasured | scripts/blind_ab_gate.py:56-68 | the interval in percent surrounds the measured rate, inside 0 and 100, and from 381 trials on its half-width is at most 5 |
| ProxyGate.RoundIsNearest | scripts/blind_ab_gate.py:67-67 | the number of successes is the nearest integer, the even one of two |
| ProxyGate.DecisionIs | scripts/blind_ab_gate.py:132-154 | the whole decision from the counts, without the interval: advisory with too few real pairs; a failure exactly when the trials rule out the floor or the allowed regression; else left open exactly when they resolve too little; else a pass |
| ProxyGate.DecisionWithoutTrials | scripts/blind_ab_gate.py:56-64 | the same without any trial, where the interval is vacuous |
| ProxyGate.UnderTheFloorCanPass | scripts/blind_ab_gate.py:139-154 | 44.5 percent of 400 trials passes although it is under the floor |
| ProxyGate.FailClosedDownward | scripts/blind_ab_gate.py:132-154 | at a fixed sample and baseline, a rate below a failing one fails |
| ProxyGate.FailNeedsLowRate | scripts/blind_ab_gate.py:139-145 | a failing run measured a rate under the floor or under the allowed regression |
| ProxyGate.PassNeedsHighRate | scripts/blind_ab_gate.py:147-154 | a passing run had enough real pairs and measured no worse than twice the half-width limit under the floor and the baseline |
| ProxyGate.DefaultsDecide | scripts/blind_ab_gate.py:71-154 | with the default thresholds, 30 real pairs and 381 trials always give PASS or FAIL |
| ProxyGate.UndecidedUpTo380 | scripts/blind_ab_gate.py:147-151 | for every number of trials up to 380 the middle rate without a baseline is left ADVISORY, however many real pairs there are |
| GateFile.Gate.WriteProxyHalf | scripts/blind_ab_gate.py:287-305 | the whole new record; a refused write changes nothing |
| GateFile.Gate.WriteHumanHalf | scripts/blind_ab_gate.py:308-315 | the whole new record |
| GateFile.Gate.WriteSyntheticHalf | scripts/blind_ab_gate.py:318-334 | the whole new record |
| GateFile.RunIsConsistent | scripts/blind_ab_gate.py:278-334 | over every run the stored verdict is the merge of the stored halves, and a proxy half claiming the adapter carries a bound adapter |
| GateFile.RunRecords | scripts/blind_ab_gate.py:287-334 | over every run each half holds all the fields of its last (accepted) write, the writer's tool and time where these were not given, and nothing else; the commit is the last one an accepted write named |
| GateFile.EffectiveIs | scripts/blind_ab_gate.py:181-210 | over every run the effective verdict, as a function of the verdict, mode and tool that the last human write and the last accepted proxy write sent |
| GateFile.PassRestsOnProxy | scripts/blind_ab_gate.py:199-210 | over every run PASS needs a proxy PASS and no human FAIL, and a bound adapter where one is claimed |
| GateFile.HumanFailStands | scripts/blind_ab_gate.py:204-205 | a human FAIL keeps the verdict FAIL until the next human write |
| GateFile.SyntheticIsInvisible | scripts/blind_ab_gate.py:318-334 | deleting the synthetic writes of a run changes nothing but the synthetic key |
| GateFile.RefusedIsInvisible | scripts/blind_ab_gate.py:213-216 | deleting the refused writes of a run changes nothing |
| GateFile.AttributableIff | scripts/blind_ab_gate.py:157-178 | over every run the human half is attributable exactly when there is a last human write and it sends no tool or a non-empty one |
| GateFile.HumanWritesAreAttributable | scripts/blind_ab_gate.py:157-178 | so while no human write empties its tool, every human PASS on record is attributable |
| GateFile.TwoPassesPromote | scripts/blind_ab_gate.py:199-207 | over every run a human PASS and a proxy PASS promote exactly when the proxy enforces or the last human write names its tool |
| CarveBlock.UniqueMeaning | scripts/carve-block.py:53-60 | an anchor is accepted exactly when one line matches it, and the error counts the matches |
| CarveBlock.DroppedIndices | scripts/carve-block.py:79-84 | refused exactly when two spans intersect; otherwise exactly the indices of the spans |
| CarveBlock.IntersectingIsCountedTwice | scripts/carve-block.py:82-83 | two spans intersect exactly when some index lies in two of them |
| CarveBlock.WeaveOfSelect | scripts/carve-block.py:85-86 | kept and moved lines, merged back by the dropped indices, are the block |
| CarveBlock.FindSpans | scripts/carve-block.py:70-77 | the spans of all drops and ranges in order, or the first failure |
| CarveBlock.AllSpansIff | scripts/carve-block.py:70-77 | a list of spans is found exactly when each span's anchors match one line of the block, the last one of a range from its first one on |
| CarveBlock.Carve | scripts/carve-block.py:62-105 | the procedure yields what Plan says, which the next rows describe, or the first failure in the source's order |
| CarveBlock.CarvesIff | scripts/carve-block.py:62-98 | a request is carved exactly when its anchors match one line each in order, its drops do and do not intersect, and the replacement has one marker for them, or none without them |
| CarveBlock.AcceptableIsCarved | scripts/carve-block.py:62-98 | then it is carved between those anchors and keeps back the lines of those spans |
| CarveBlock.OwnLines | scripts/carve-block.py:88-90 | the replacement is its lines, each ended, or joined when the last one is not ended |
| Lines.StripIs | scripts/carve-block.py:91-91 | stripping takes all white space from both ends of a line and nothing else |
| CarveBlock.KeptInPlace | scripts/carve-block.py:91-105 | the lines of the new file: those above, the replacement's own with the kept lines exactly where its only marker was, those below |
| CarveBlock.CarveReplacesBlock | scripts/carve-block.py:104-105 | character for character, the text is cut at line boundaries and changes only in the block's place |
| CarveBlock.CarveVerbatim | scripts/carve-block.py:62-105 | without drops the block file is the text between the two line starts and the rest surrounds the replacement unchanged |
| CarveBlock.BlockFileIsMoved | scripts/carve-block.py:104-104 | the block file is the moved lines, each ended, exactly unless the spans of the request cover every line of the block, when it is one empty line |
| CarveBlock.WholeBlockDropped | scripts/carve-block.py:104-104 | a request that is carved that way |
| CarveBlock.CarveRebuilds | scripts/carve-block.py:85-86 | with drops, moved and kept lines weave back into the block in its order |
| CarveBlock.CarveConserves | scripts/carve-block.py:85-105 | new file plus moved lines equal old file plus replacement without its marker, as multisets of lines |
| CarveBlock.FileLines | scripts/carve-block.py:105-105 | the written text splits back into the lines above, the replacement and the lines below |
| FollowUps.SplitFollowup | scripts/build_sft_turn_corpus.py:66-73 | the own bubbles a prompt ends with, oldest first, and the incoming text above them |
| FollowUps.LabelIsIgnored | scripts/build_sft_turn_corpus.py:59-73 | the incoming text is the same from a bare prompt and from a labelled last line under any history |
| FollowUps.MergeFollowups | scripts/build_sft_turn_corpus.py:76-96 | the edited rows hold the heads in order with the merged texts, and the count is of the dropped follow-ups |
| FollowUps.RowsConserved | scripts/build_sft_turn_corpus.py:76-96 | input rows are output rows plus folded plus dropped ones, as multisets for the follow-ups |
| FollowUps.TextsAreReplies | scripts/build_sft_turn_corpus.py:90-95 | each text is its head's completion followed by the follow-ups folded into it, each of which continued the text before it |
| FollowUps.MergedRepliesContinue | scripts/build_sft_turn_corpus.py:76-96 | and each shares the head's incoming line and starts with the head's completion |
| WholeReplies.PromptReads | scripts/build_sft_turn_corpus.py:66-73 | the prompt of a later bubble, however much history it shows, reads back as the incoming line and the bubbles before it |
| WholeReplies.ReadsPermuted | scripts/build_sft_turn_corpus.py:81-88 | which heads and follow-ups are read does not depend on the order of the rows |
| WholeReplies.OrderedFollows | scripts/build_sft_turn_corpus.py:90-90 | sorting by the number of bubbles puts the follow-ups of a reply in the order of its bubbles, if only one reply with its start has several |
| WholeReplies.NothingDropped | scripts/build_sft_turn_corpus.py:90-95 | folding the sorted follow-ups of such replies drops none |
| MergeBack.MergesBackIff | scripts/build_sft_turn_corpus.py:76-96 | every order of the rows of a list of replies merges back into exactly the whole replies, each under its context and as often as given, exactly when of the replies that start alike only one has several bubbles and the others answer its context |
| MergeBack.MergeUndoesSplitting | scripts/build_sft_turn_corpus.py:76-96 | the half a corpus needs: under that condition any order merges back |
| MergeBack.NoneDroppedIff | scripts/build_sft_turn_corpus.py:90-95 | in each order, nothing is dropped exactly when no two replies of several bubbles start alike |
| MergeBack.SecondIsDropped | scripts/build_sft_turn_corpus.py:90-95 | two such replies always lose a bubble |
| MergeBack.LostBubble | scripts/build_sft_turn_corpus.py:90-95 | so "a, b" and "a, c" answering the same text do |
| MergeBack.WrongContext | scripts/build_sft_turn_corpus.py:84-93 | with another context for the same start there is an order of the rows that does not merge back |
| Promotion.OnlyPassIsPromoted | scripts/adapter_promote_or_rollback.py:133-235 | whatever the reports and the tolerance, only a passing candidate is promoted, and over a passing incumbent only when both have a mean |
| Promotion.RollbackIffFails | scripts/adapter_promote_or_rollback.py:148-163 | a candidate is rolled back exactly when it fails, and adopted exactly when it is promoted |
| Promotion.PromotionRaisesMean | scripts/adapter_promote_or_rollback.py:195-228 | over a passing incumbent only with a strictly higher mean, given intervals that contain their means |
| Promotion.NoMutualDisplacement | scripts/adapter_promote_or_rollback.py:184-228 | no two adapters displace each other whose intervals contain their means up to slacks that add up to at most the tolerance |
| Promotion.OnlyCompleteReportsDisplace | scripts/adapter_promote_or_rollback.py:184-228 | only passing reports with a mean and an interval can displace each other |
| Promotion.MutualDisplacement | scripts/adapter_promote_or_rollback.py:198-215 | a complete report and some report within a given slack displace each other exactly when its own interval misses its mean by more than the tolerance leaves |
| Promotion.SlackLimit | scripts/adapter_promote_or_rollback.py:198-215 | the reports within a slack never displace each other exactly when the slack is at most half the tolerance |
| Promotion.PassStays | scripts/adapter_promote_or_rollback.py:133-235 | over any run of any reports a passing incumbent stays passing |
| Promotion.PassRises | scripts/adapter_promote_or_rollback.py:133-235 | given intervals that contain their means it is kept or followed by a higher mean |
| Promotion.DisplacedNeverReturns | scripts/adapter_promote_or_rollback.py:133-235 | promotions never cycle: no incumbent that was displaced, passing or not, comes back |
| Promotion.FinalIsNearBest | scripts/adapter_promote_or_rollback.py:207-215 | in a run whose passing reports have means, no passing candidate beats the final incumbent's mean by more than the tolerance |
| Promotion.StuckIncumbent | scripts/adapter_promote_or_rollback.py:133-193 | no candidate displaces an incumbent exactly when it passes without a mean or has an unknown verdict |
| Promotion.StuckStays | scripts/adapter_promote_or_rollback.py:133-193 | and then no run does |
| AdapterRegistry.RegistryFile.RecordTraining | scripts/adapter_registry.py:156-190 | the whole new registry |
| AdapterRegistry.RegistryFile.RecordEval | scripts/adapter_registry.py:221-292 | the whole new registry; which refusal comes first; a refused row changes nothing |
| AdapterRegistry.RegistryFile.RecordPromotion | scripts/adapter_registry.py:295-329 | the whole new registry |
| AdapterRegistry.RegistryFile.RecordDemotion | scripts/adapter_registry.py:332-366 | the whole new registry |
| AdapterRegistry.RegistryFile.RecordRetirement | scripts/adapter_registry.py:369-403 | the whole new registry; a refused retirement changes nothing |
| AdapterRegistry.RunExtends | scripts/adapter_registry.py:156-403 | over any calls entries stay, creation dates stay, histories only grow at the end, and no retired or rejected adapter is active again |
| AdapterRegistry.RunRecords | scripts/adapter_registry.py:156-403 | over any calls from an empty registry: an id is known exactly when an accepted call other than a retirement named it, and its entry holds the rows of all its accepted calls in order, its last promotion and demotion, and its last accepted retirement, and nothing else |
| AdapterRegistry.CompleteIsAccepted | scripts/adapter_registry.py:253-264 | an evaluation is accepted exactly when every required part is there |
| AdapterRegistry.OthersUntouched | scripts/adapter_registry.py:156-403 | an adapter no call names is untouched |
| AdapterRegistry.RunScoresAreMeasured | scripts/adapter_registry.py:193-263 | from an empty registry every row with a score is measured |
| AdapterRegistry.InactiveMeansRetired | scripts/adapter_registry.py:87-94 | from an empty registry an adapter is out of service exactly when a retirement of it was accepted |
| AdapterRegistry.LatestMeasuredEval | scripts/adapter_registry.py:210-218 | the newest measured row with the name, none exactly when there is none |
| AdapterRegistry.IterAdapters | scripts/adapter_registry.py:97-104 | exactly the visible ids, each with its entry, in strictly ascending code-point order |
| AdapterRegistry.BelowIff | scripts/adapter_registry.py:97-104 | that order is decided by the first difference, a prefix first |
| BlindExport.ExportBlindPairs | scripts/blind_eval_export.py:130-173 | for any shuffle, row k has the k-th id and the item the shuffle put there, two items for each pair |
| BlindExport.RowsShowReplies | scripts/blind_eval_export.py:136-170 | every row shows the reply it is labelled with, below the prompt of that reply's pair |
| BlindExport.EveryReplyHasARow | scripts/blind_eval_export.py:136-170 | and every reply of every pair has a row |
| BlindExport.IdsAreUnique | scripts/blind_eval_export.py:158-160 | zero-padded ids of different positions differ |
| BlindExport.IdReads | scripts/blind_eval_export.py:158-160 | an id is the letter r and the number of its row, from one on, with zeros in front up to five digits |
| BlindExport.LoadExported | scripts/blind_eval_ingest.py:58-82 | the mapping of all rows, a later row replacing an earlier one with its id |
| BlindExport.LastRowWins | scripts/blind_eval_ingest.py:58-82 | of rows with one id the last one counts |
| BlindExport.ExportIsOpaque | scripts/blind_eval_export.py:130-173 | in an exported file no two ids stand for the same reply |
| BlindExport.IngestExport | scripts/blind_eval_ingest.py:325-341 | export under any shuffle, at most one rating per id in any order by a rater who sees prompts and replies, load, ingest: the report is the one of the rater's opinions of the real and the model's reply of each unshuffled pair, as far as they were rated |
| RatingIngest.Gather | scripts/blind_eval_ingest.py:161-189 | the stored pairs are those rated under a known id, each once, with the latest scores of each side |
| RatingIngest.LatestIsLast | scripts/blind_eval_ingest.py:161-189 | of several ratings of a reply the last one counts as its latest |
| RatingIngest.DimensionMean | scripts/blind_eval_ingest.py:217-232 | the mean of the latest scores of one side over all pairs scored there |
| RatingIngest.DimensionWins | scripts/blind_eval_ingest.py:234-268 | pairs whose real median is higher, over pairs with both medians |
| RatingIngest.MedianIsMiddle | scripts/blind_eval_ingest.py:254-266 | the median of any scores is the one in the middle, or the mean of the two there |
| RatingIngest.OverallWins | scripts/blind_eval_ingest.py:277-290 | wins of the latest scores over comparable pairs, added up over the dimensions |
| RatingIngest.IngestRatings | scripts/blind_eval_ingest.py:145-298 | the report of those means and rates, independent of the order in which pairs were first rated |
| RatingIngest.SidesAreNamed | scripts/blind_eval_ingest.py:217-275 | when all real replies score x and all of the model y, the report gives x as the real mean, y as the model's, and a real win rate of one exactly if x is higher |
| RatingIngest.NothingScored | scripts/blind_eval_ingest.py:230-268 | where nothing was scored, means and rate are zero |
| RatingIngest.ReportIsJudgement | scripts/blind_eval_ingest.py:145-298 | with one rating per id all parts of the report come from one scoring, so the overall rate is the sum of the per-dimension wins over the sum of the comparable pairs |
| RaterAgreement.AddsUpIffRatedApart | scripts/blind_eval_ingest.py:234-290 | for every mapping and list of rated ids: the overall rate is all per-dimension wins over all comparable pairs for any scores, exactly when no pair has both sides rated and one of them more than once |
| RaterAgreement.ApartAddsUp | scripts/blind_eval_ingest.py:234-290 | under such ids any ratings add up, with any number of ratings of a reply whose counterpart has none |
| RaterAgreement.SpoilDoesNotAddUp | scripts/blind_eval_ingest.py:234-290 | under any other ids there are ratings that do not |
| PromptSampler.RepliedWithin24h | scripts/build_heldout_corpus.py:237-248 | on ascending dates the early exit finds a reply exactly when one lies in the window |
| PromptSampler.SamplePrompts | scripts/build_heldout_corpus.py:250-284 | the loop with its counters emits the greedy choice |
| PromptSampler.SameDay | scripts/build_heldout_corpus.py:272-272 | two messages share a day exactly when no UTC midnight lies between them |
| PromptSampler.ChosenIsSound | scripts/build_heldout_corpus.py:250-284 | emitted prompts are distinct, new, usable, answered, at most n, three per sender and five per day |
| PromptSampler.ChoiceGrows | scripts/build_heldout_corpus.py:261-284 | rows are only added at the end, in the order of the history |
| PromptSampler.ChoiceIsMaximal | scripts/build_heldout_corpus.py:261-284 | every eligible row repeats an emitted prompt, or its sender or its day is at its cap, or n was reached, all as of the end |
| PromptSampler.FewerIsPrefix | scripts/build_heldout_corpus.py:261-263 | asking for fewer prompts gives a prefix of what asking for more gives |
| Wiki.Dedupe | scripts/consolidate_wiki.py:84-95 | the loop keeps, in order, exactly the notes with words that no earlier kept note overlaps |
| Wiki.KeptAreApart | scripts/consolidate_wiki.py:84-95 | kept notes have words and overlap pairwise by less than six tenths |
| Wiki.DroppedOverlaps | scripts/consolidate_wiki.py:91-92 | a dropped note with words overlaps an earlier kept one by six tenths or more |
| Wiki.DedupeIsIdempotent | scripts/consolidate_wiki.py:84-95 | deduplicating again changes nothing |
| Wiki.Insights | scripts/consolidate_wiki.py:116-124 | counting and stopping early is the same as the first four of each kind, cut after ten |
| Wiki.KindCapHolds | scripts/consolidate_wiki.py:118-120 | of each kind exactly as many are selected as there are, up to four |
| Wiki.Assemble | scripts/consolidate_wiki.py:196-211 | the page keeps the first k memories exactly when the page with those k fits, and fits itself if the page without memories does |
| Wiki.LongerIsLarger | scripts/consolidate_wiki.py:197-205 | each memory makes the page larger, in UTF-8 bytes |
| Wiki.PageShows | scripts/consolidate_wiki.py:197-205 | the page starts with its head and shows every non-empty part, in order, right below that part's title |
| FencedCode.StripFencedBlocks | scripts/check_markdown_relative_links.py:170-187 | exactly the lines of fenced blocks are blanked, an unclosed one to the end; length and newlines stay |
| FencedCode.OpensIff | scripts/check_markdown_relative_links.py:155-179 | a line opens a block exactly when it is up to three spaces, three or more of one mark, and a rest without a further mark, after backticks without any backtick |
| FencedCode.ClosesIff | scripts/check_markdown_relative_links.py:181-184 | it closes one exactly when it is up to three spaces, at least as many of the same mark, and white space |
| FencedCode.BlocksAreBlocks | scripts/check_markdown_relative_links.py:170-187 | each block runs from a line that opens it through the first later line that closes it or to the end; blocks are apart, and every line that could open one lies in one |
| FencedCode.OutsideOpensNothing | scripts/check_markdown_relative_links.py:174-179 | a line outside every block opens none |
| FencedCode.StripFencedIsIdempotent | scripts/check_markdown_relative_links.py:170-187 | a second pass changes nothing |
| InlineCode.StripInlineCode | scripts/check_markdown_relative_links.py:159-161 | exactly the characters of the spans a left-to-right scan finds are blanked |
| InlineCode.SpansAreLeftmostPairs | scripts/check_markdown_relative_links.py:159-161 | those spans pair whole backtick runs with the nearest later run of the same length, in order and apart, and leave no run outside that has a later run of its length |
| InlineCode.LeftmostPairsAreSpans | scripts/check_markdown_relative_links.py:159-161 | no other spans fit that description |
| InlineCode.SpansBlankedCopies | scripts/check_markdown_relative_links.py:165-167 | blanking spans keeps the length and every newline |
| InlineCode.StripInlineIsIdempotent | scripts/check_markdown_relative_links.py:201-201 | a second inline pass changes nothing |
| InlineCode.StripCode | scripts/check_markdown_relative_links.py:190-201 | the two passes in order; length and newlines stay |
| InlineCode.StripTwice | scripts/check_markdown_relative_links.py:190-201 | running both passes again changes nothing exactly when no line of the first result opens a fence |
| InlineCode.StripTwiceDiffers | scripts/check_markdown_relative_links.py:190-201 | a text for which it does change something |
| EmojiNeutral.StripEmoji | scripts/build_v6_preference_corpus.py:187-195 | the loop drops emoji and their glue and joins the remaining words by single spaces |
| EmojiNeutral.StrippedKeepsTheRest | scripts/build_v6_preference_corpus.py:187-195 | apart from white space, what is left is the text without its emoji and glue, in order |
| EmojiNeutral.StrippedHasNone | scripts/build_v6_preference_corpus.py:187-199 | no emoji and no glue survive |
| EmojiNeutral.StripIsIdempotent | scripts/build_v6_preference_corpus.py:187-195 | stripping again changes nothing |
| EmojiNeutral.Corpus.NeutralizeEmojiPairs | scripts/build_v6_preference_corpus.py:202-217 | the whole new list of rows, and the count of the rows with emoji on the rejected side only |
| EmojiNeutral.RowByRow | scripts/build_v6_preference_corpus.py:202-217 | each row on its own: stripped when emoji are on its rejected side alone, removed when nothing or the chosen text would be left, untouched otherwise |
| EmojiNeutral.SurvivorsKeepOrder | scripts/build_v6_preference_corpus.py:202-217 | surviving rows keep order, prompt and chosen text, change only by stripping, and become degenerate only if they were |
| EmojiNeutral.NeutralHasNoneRejectedOnly | scripts/build_v6_preference_corpus.py:202-217 | afterwards no row has emoji on the rejected side only |
| EmojiNeutral.SecondPassTouchesNothing | scripts/build_v6_preference_corpus.py:202-217 | a second pass touches no row |
| EmojiNeutral.FewerRejected | scripts/build_v6_preference_corpus.py:220-231 | then at most as many rejected as chosen sides have emoji |
| EmojiNeutral.Corpus.Validate | scripts/build_v6_preference_corpus.py:311-331 | degenerate rows, then the emoji margin, then the floor decide |
| EmojiNeutral.JudgedIff | scripts/build_v6_preference_corpus.py:311-331 | each verdict exactly under its condition, the margin as a count: more than one in fifty rows |
| EmojiNeutral.NeutralPassesMargin | scripts/build_v6_preference_corpus.py:311-331 | after neutralising the margin check cannot fire, and a degenerate row is found only if one was given |
| QueryParam.QueryParamValue | fuzz/fuzz_query_param.c:13-36 | the pointer scan finds the slice the recursive lookup describes, and never reads past the terminator |
| QueryParam.LowerMeaning | fuzz/fuzz_query_param.c:20-20 | characters match exactly when they are equal or the two cases of one ASCII letter |
| QueryParam.FoundIffKeyStarts | fuzz/fuzz_query_param.c:19-34 | for any key something is found exactly when key and equals sign stand at a segment start |
| QueryParam.SliceIsInside | fuzz/fuzz_query_param.c:21-28 | the slice lies inside the path, holds no ampersand, and ends at one or at the end |
| QueryParam.SegmentsAreExact | fuzz/fuzz_query_param.c:19-34 | the segments of the simple parse hold no ampersand and join back into the query |
| QueryParam.LookupIsParse | fuzz/fuzz_query_param.c:13-36 | for a key without an ampersand the value is that of the first segment after the first question mark that assigns the key case-insensitively, and nothing exactly when there is none |
| QueryParam.NoQueryNoValue | fuzz/fuzz_query_param.c:14-16 | without a question mark nothing is found |

## Left out

- CarveBlock.CarveReplacesBlock: is about the text as read and as handed to the writer; that the source's text mode turns CRLF into a newline on reading is not modelled, so nothing is said about the bytes of such a file.
- CarveBlock.CarveVerbatim: likewise about the text as read.
- String values are read once into references, plain text and numbers (`Read`); matching the same string again in a later sweep gives the same reading.
- Real language models, tokenizers, sampling temperature and the thread pool of the bridge: the target is a function of its context, stop tokens are those whose text holds a stop mark.
- Floating-point rounding: all rates, intervals, means and scores are reals; reports are compared before they are rounded to two digits.
- The gate's and the registry's files: a corrupt or missing file, atomic renames, the schema version and the registry-level timestamp.
- Command lines, dry runs, printing, notifications and reading of files: their contents are arguments.
- `union_rows`, `format_prompt`, `turn_rows`, `keep_chat`: how a corpus is collected and combined before and after the merge.
- MergeBack.MergesBackIff: is about replies of which all bubbles but the last are single lines, under contexts that do not end with the speaker's own bubbles and agree in the incoming line; other prompts do not read back as the bubbles of their reply.
- FollowUps.MergeFollowups: does not model further keys of a row, which the source copies along; rows carry a prompt and a completion.
- RatingIngest.IngestRatings: does not model the per-pair debug list, the prompts in the mapping and the printed warnings; scores are numbers, where a hand-written JSONL file could hold text.
- BlindExport.ExportBlindPairs: the random generator; the order it leaves is an argument.
- PromptSampler.SamplePrompts: redaction, the emoji-only test and the context label; a row carries its redacted text and whether it is usable. A caller that stops the generator early sees a prefix.
- Wiki: `threads_for`, `lint_page`, persona parsing and the token extraction; a note carries its set of words.
- InlineCode.Spans: the regular expression is modelled by what it matches, not by backtracking.
- EmojiNeutral.IsEmoji: the Unicode category is a parameter, of which only is used that a space is not a symbol.
- EmojiNeutral.Corpus.NeutralizeEmojiPairs: rows are values, so two list entries that are the same dictionary object are not modelled; the loaders never make such entries.
- QueryParam.Lower: letters are folded as in the C locale.
- Threshold scripts that one comparison decides, the other fuzz harnesses, the code emitters and colour arithmetic of the design tokens, prompts and scoring heuristics.
