/** The append-only registry of adapter training, evaluation and promotion records. */
module AdapterRegistry {
  import opened Wrappers
  import opened Lines

  /** A value as a caller may pass it, before its type is checked. */
  datatype Value =
    | Null | Bool(b: bool) | Int(n: int) | Num(r: real) | Str(s: string) | Dict(entries: map<string, string>)

  datatype Training = Training(at: string, metrics: Value)

  datatype Eval = Eval(at: string, name: Option<string>, score: Value, verdict: Value, n: Value, reason: Value,
                       path: Value, base: Value, provenance: Value)

  datatype Note = Note(at: string, text: Value)

  datatype Entry = Entry(created: string, training: seq<Training>, evals: seq<Eval>,
                         promotion: Option<Note>, demotion: Option<Note>,
                         status: Option<string>, retiredReason: string, retiredAt: string)

  type Registry = map<string, Entry>

  const ACTIVE := "active"
  const RETIRED := "retired"
  const REJECTED := "rejected"

  function AdapterStatus(entry: Entry): string {
    if entry.status.Some? && entry.status.value != "" then entry.status.value else ACTIVE
  }

  predicate IsActive(entry: Entry) {
    AdapterStatus(entry) == ACTIVE
  }

  /** True only when a row carries evidence: at least one pair, and a reason. */
  predicate EvalIsMeasured(e: Eval) {
    e.n.Int? && e.n.n >= 1 && e.reason.Str? && Strip(e.reason.s) != ""
  }

  // ----- the writers -----

  datatype Refusal =
    | BadCount | NoReason | ScoreWithoutPairs | NoPath | NoBase | NoProvenance | BadStatus | UnknownAdapter

  datatype Call =
    | RecordTraining(id: string, at: string, metrics: Value)
    | RecordEval(id: string, eval: Eval)
    | RecordPromotion(id: string, at: string, evidence: Value)
    | RecordDemotion(id: string, at: string, reason: Value)
    | RecordRetirement(id: string, at: string, status: string, grounds: Option<string>)

  /** Why an evaluation row is refused; the first failed check decides. */
  function EvalRefusal(e: Eval): Option<Refusal> {
    if !e.n.Int? || e.n.n < 0 then Some(BadCount)
    else if !e.reason.Str? || Strip(e.reason.s) == "" then Some(NoReason)
    else if e.score != Null && e.n.n < 1 then Some(ScoreWithoutPairs)
    else if !e.path.Str? || e.path.s == "" then Some(NoPath)
    else if !e.base.Str? || e.base.s == "" then Some(NoBase)
    else if !e.provenance.Dict? then Some(NoProvenance)
    else None
  }

  function RefusalOf(r: Registry, c: Call): Option<Refusal> {
    match c
    case RecordEval(id, e) => EvalRefusal(e)
    case RecordRetirement(id, at, status, reason) =>
      if status != RETIRED && status != REJECTED then Some(BadStatus)
      else if reason.None? || Strip(reason.value) == "" then Some(NoReason)
      else if id !in r then Some(UnknownAdapter)
      else None
    case _ => None
  }

  /** Metrics that are missing or empty in any form are stored as an empty dictionary. */
  function OrEmpty(metrics: Value): Value {
    match metrics
    case Null => Dict(map[])
    case Bool(b) => if b then metrics else Dict(map[])
    case Int(n) => if n != 0 then metrics else Dict(map[])
    case Num(r) => if r != 0.0 then metrics else Dict(map[])
    case Str(s) => if s != "" then metrics else Dict(map[])
    case Dict(_) => metrics
  }

  function Blank(at: string): Entry {
    Entry(at, [], [], None, None, None, "", "")
  }

  /** The entry of an id, created blank when there is none. */
  function EntryOf(r: Registry, id: string, at: string): Entry {
    if id in r then r[id] else Blank(at)
  }

  /** The registry after a call. */
  function After(r: Registry, c: Call): Registry {
    if RefusalOf(r, c).Some? then r else
    match c
    case RecordTraining(id, at, metrics) =>
      var entry := EntryOf(r, id, at);
      r[id := entry.(training := entry.training + [Training(at, OrEmpty(metrics))])]
    case RecordEval(id, e) =>
      var entry := EntryOf(r, id, e.at);
      r[id := entry.(evals := entry.evals + [e])]
    case RecordPromotion(id, at, evidence) =>
      r[id := EntryOf(r, id, at).(promotion := Some(Note(at, evidence)))]
    case RecordDemotion(id, at, reason) =>
      r[id := EntryOf(r, id, at).(demotion := Some(Note(at, reason)))]
    case RecordRetirement(id, at, status, reason) =>
      r[id := r[id].(status := Some(status), retiredReason := Strip(reason.value), retiredAt := at)]
  }

  function Run(r: Registry, calls: seq<Call>): Registry {
    if calls == [] then r else After(Run(r, calls[..|calls| - 1]), calls[|calls| - 1])
  }

  class RegistryFile {
    var adapters: Registry

    constructor ()
      ensures adapters == map[]
    {
      adapters := map[];
    }

    method RecordTraining(id: string, at: string, metrics: Value)
      modifies this
      ensures adapters == After(old(adapters), Call.RecordTraining(id, at, metrics))
    {
      if id !in adapters {
        adapters := adapters[id := Blank(at)];
      }
      var entry := adapters[id];
      adapters := adapters[id := entry.(training := entry.training + [Training(at, OrEmpty(metrics))])];
    }

    method RecordEval(id: string, e: Eval) returns (refusal: Option<Refusal>)
      modifies this
      ensures refusal == EvalRefusal(e)
      ensures adapters == After(old(adapters), Call.RecordEval(id, e))
      ensures refusal.Some? ==> unchanged(this)
    {
      refusal := EvalRefusal(e);
      if refusal.Some? {
        return;
      }
      if id !in adapters {
        adapters := adapters[id := Blank(e.at)];
      }
      var entry := adapters[id];
      adapters := adapters[id := entry.(evals := entry.evals + [e])];
    }

    method RecordPromotion(id: string, at: string, evidence: Value)
      modifies this
      ensures adapters == After(old(adapters), Call.RecordPromotion(id, at, evidence))
    {
      if id !in adapters {
        adapters := adapters[id := Blank(at)];
      }
      adapters := adapters[id := adapters[id].(promotion := Some(Note(at, evidence)))];
    }

    method RecordDemotion(id: string, at: string, reason: Value)
      modifies this
      ensures adapters == After(old(adapters), Call.RecordDemotion(id, at, reason))
    {
      if id !in adapters {
        adapters := adapters[id := Blank(at)];
      }
      adapters := adapters[id := adapters[id].(demotion := Some(Note(at, reason)))];
    }

    method RecordRetirement(id: string, at: string, status: string, reason: Option<string>)
      returns (refusal: Option<Refusal>)
      modifies this
      ensures refusal == RefusalOf(old(adapters), Call.RecordRetirement(id, at, status, reason))
      ensures adapters == After(old(adapters), Call.RecordRetirement(id, at, status, reason))
      ensures refusal.Some? ==> unchanged(this)
    {
      if status != RETIRED && status != REJECTED {
        return Some(BadStatus);
      }
      if reason.None? || Strip(reason.value) == "" {
        return Some(NoReason);
      }
      if id !in adapters {
        return Some(UnknownAdapter);
      }
      adapters := adapters[id :=
        adapters[id].(status := Some(status), retiredReason := Strip(reason.value), retiredAt := at)];
      refusal := None;
    }
  }

  // ----- the readers -----

  predicate NameMatches(e: Eval, name: Option<string>) {
    name.None? || name.value == "" || e.name == name
  }

  /** The newest row that is measured and bears the name, if one was asked for. */
  method LatestMeasuredEval(entry: Entry, name: Option<string>) returns (r: Option<Eval>)
    ensures r.None? <==>
      forall i | 0 <= i < |entry.evals| :: !(NameMatches(entry.evals[i], name) && EvalIsMeasured(entry.evals[i]))
    ensures r.Some? ==> exists i :: IsNewestMeasured(entry.evals, name, i) && r.value == entry.evals[i]
  {
    var i := |entry.evals|;
    while i > 0
      invariant 0 <= i <= |entry.evals|
      invariant forall j | i <= j < |entry.evals| ::
        !(NameMatches(entry.evals[j], name) && EvalIsMeasured(entry.evals[j]))
    {
      i := i - 1;
      var rec := entry.evals[i];
      if !NameMatches(rec, name) {
        continue;
      }
      if EvalIsMeasured(rec) {
        assert IsNewestMeasured(entry.evals, name, i);
        return Some(rec);
      }
    }
    return None;
  }

  ghost predicate IsNewestMeasured(evals: seq<Eval>, name: Option<string>, i: int) {
    && 0 <= i < |evals| && NameMatches(evals[i], name) && EvalIsMeasured(evals[i])
    && forall j | i < j < |evals| :: !(NameMatches(evals[j], name) && EvalIsMeasured(evals[j]))
  }

  /** Code-point order, in which Python sorts strings. */
  predicate Below(a: string, b: string) {
    if b == "" then false
    else if a == "" then true
    else a[0] < b[0] || (a[0] == b[0] && Below(a[1..], b[1..]))
  }

  /** a ends at place i or is smaller there, and is the same as b before. */
  ghost predicate SmallerAt(a: string, b: string, i: nat) {
    i < |b| && i <= |a| && a[..i] == b[..i] && (i == |a| || a[i] < b[i])
  }

  lemma SmallerAtStart(a: string, b: string)
    ensures SmallerAt(a, b, 0) <==> b != "" && (a == "" || a[0] < b[0])
    ensures forall i: nat | i > 0 && SmallerAt(a, b, i) ::
      a != "" && b != "" && a[0] == b[0] && SmallerAt(a[1..], b[1..], i - 1)
    ensures a != "" && b != "" && a[0] == b[0] ==>
      forall i: nat | SmallerAt(a[1..], b[1..], i) :: SmallerAt(a, b, i + 1)
  {
    forall i: nat | i > 0 && SmallerAt(a, b, i)
      ensures a != "" && b != "" && a[0] == b[0] && SmallerAt(a[1..], b[1..], i - 1)
    {
      assert a[..i][0] == b[..i][0];
      assert a[1..][..i - 1] == a[..i][1..] && b[1..][..i - 1] == b[..i][1..];
    }
    if a != "" && b != "" && a[0] == b[0] {
      forall i: nat | SmallerAt(a[1..], b[1..], i) ensures SmallerAt(a, b, i + 1) {
        assert a[..i + 1] == [a[0]] + a[1..][..i] && b[..i + 1] == [b[0]] + b[1..][..i];
      }
    }
  }

  /** It is decided by the first place where two ids differ; an id comes before those it starts. */
  lemma {:induction false} BelowIff(a: string, b: string)
    ensures Below(a, b) <==> exists i: nat :: SmallerAt(a, b, i)
  {
    SmallerAtStart(a, b);
    hide SmallerAt;
    if a != "" && b != "" && a[0] == b[0] {
      BelowIff(a[1..], b[1..]);
    }
  }

  lemma {:induction false} BelowIsTotal(a: string, b: string)
    ensures a == b || Below(a, b) || Below(b, a)
    ensures !(Below(a, b) && Below(b, a)) && !Below(a, a)
  {
    if a != "" {
      BelowIsTotal(a[1..], if b == "" then "" else b[1..]);
      assert b != "" && a[0] == b[0] && a[1..] == b[1..] ==> a == [a[0]] + a[1..] == b;
    }
  }

  lemma {:induction false} BelowIsTransitive(a: string, b: string, c: string)
    requires Below(a, b) && Below(b, c)
    ensures Below(a, c)
  {
    if a != "" && a[0] == b[0] == c[0] {
      BelowIsTransitive(a[1..], b[1..], c[1..]);
    }
  }

  ghost predicate Ascending(ids: seq<string>) {
    forall i, j | 0 <= i < j < |ids| :: Below(ids[i], ids[j])
  }

  method SortIds(ids: set<string>) returns (sorted: seq<string>)
    ensures Ascending(sorted)
    ensures forall id :: id in sorted <==> id in ids
  {
    sorted := [];
    var left := ids;
    while left != {}
      invariant left <= ids
      invariant Ascending(sorted)
      invariant forall id :: id in sorted <==> id in ids && id !in left
      decreases left
    {
      var id :| id in left;
      left := left - {id};
      var k := 0;
      while k < |sorted| && Below(sorted[k], id)
        invariant 0 <= k <= |sorted|
        invariant forall j | 0 <= j < k :: Below(sorted[j], id)
      {
        k := k + 1;
      }
      ghost var before := sorted;
      sorted := sorted[..k] + [id] + sorted[k..];
      InsertAscending(before, id, k);
    }
  }

  lemma InsertAscending(ids: seq<string>, id: string, k: nat)
    requires Ascending(ids) && k <= |ids| && id !in ids
    requires forall j | 0 <= j < k :: Below(ids[j], id)
    requires k < |ids| ==> !Below(ids[k], id)
    ensures Ascending(ids[..k] + [id] + ids[k..])
  {
    forall j | k <= j < |ids| ensures Below(id, ids[j]) {
      BelowIsTotal(id, ids[k]);
      assert ids[k] in ids;
      if j > k {
        BelowIsTransitive(id, ids[k], ids[j]);
      }
    }
  }

  predicate Visible(r: Registry, id: string, includeRetired: bool)
    requires id in r
  {
    includeRetired || IsActive(r[id])
  }

  function VisibleRows(r: Registry, ids: seq<string>, includeRetired: bool): seq<(string, Entry)>
    requires forall id | id in ids :: id in r
  {
    if ids == [] then [] else
    var last := ids[|ids| - 1];
    VisibleRows(r, ids[..|ids| - 1], includeRetired)
    + if Visible(r, last, includeRetired) then [(last, r[last])] else []
  }

  ghost predicate Lists(rows: seq<(string, Entry)>, id: string) {
    exists i :: 0 <= i < |rows| && rows[i].0 == id
  }

  /** Rows of visible ids, each with its entry, in ascending order. */
  ghost predicate Shows(r: Registry, ids: seq<string>, includeRetired: bool, rows: seq<(string, Entry)>)
    requires forall id | id in ids :: id in r
  {
    && (forall i | 0 <= i < |rows| ::
          rows[i].0 in ids && r[rows[i].0] == rows[i].1 && Visible(r, rows[i].0, includeRetired))
    && (forall i, j | 0 <= i < j < |rows| :: Below(rows[i].0, rows[j].0))
  }

  lemma {:induction false} VisibleRowsShow(r: Registry, ids: seq<string>, includeRetired: bool)
    requires Ascending(ids) && forall id | id in ids :: id in r
    ensures Shows(r, ids, includeRetired, VisibleRows(r, ids, includeRetired))
  {
    hide Below, Visible;
    if ids != [] {
      var earlier, last := ids[..|ids| - 1], ids[|ids| - 1];
      assert ids == earlier + [last];
      VisibleRowsShow(r, earlier, includeRetired);
      var before := VisibleRows(r, earlier, includeRetired);
      hide VisibleRows;
      forall i | 0 <= i < |before| ensures Below(before[i].0, last) {
        var j :| 0 <= j < |earlier| && earlier[j] == before[i].0;
        assert ids[j] == before[i].0 && ids[|ids| - 1] == last;
      }
    }
  }

  lemma {:induction false} VisibleRowsList(r: Registry, ids: seq<string>, includeRetired: bool, id: string)
    requires forall x | x in ids :: x in r
    requires id in ids && Visible(r, id, includeRetired)
    ensures Lists(VisibleRows(r, ids, includeRetired), id)
  {
    hide Visible;
    var earlier, last := ids[..|ids| - 1], ids[|ids| - 1];
    assert ids == earlier + [last];
    var before, rows := VisibleRows(r, earlier, includeRetired), VisibleRows(r, ids, includeRetired);
    if id == last {
      assert rows[|before|].0 == id;
    } else {
      VisibleRowsList(r, earlier, includeRetired, id);
      var i :| 0 <= i < |before| && before[i].0 == id;
      assert rows[i].0 == id;
    }
  }

  /** The rows an enumerating reader sees: in id order, retired and rejected ones only on request. */
  method IterAdapters(r: Registry, includeRetired: bool) returns (rows: seq<(string, Entry)>)
    ensures forall i, j | 0 <= i < j < |rows| :: Below(rows[i].0, rows[j].0)
    ensures forall i | 0 <= i < |rows| :: rows[i].0 in r && r[rows[i].0] == rows[i].1
    ensures forall id :: Lists(rows, id) <==> id in r && Visible(r, id, includeRetired)
  {
    var ids := SortIds(r.Keys);
    rows := [];
    for k := 0 to |ids|
      invariant rows == VisibleRows(r, ids[..k], includeRetired)
    {
      var entry := r[ids[k]];
      assert ids[..k + 1][..k] == ids[..k];
      if includeRetired || IsActive(entry) {
        rows := rows + [(ids[k], entry)];
      }
    }
    assert ids[..|ids|] == ids;
    hide VisibleRows, Visible, Below, Ascending;
    VisibleRowsShow(r, ids, includeRetired);
    forall id | id in r && Visible(r, id, includeRetired) ensures Lists(rows, id) {
      VisibleRowsList(r, ids, includeRetired, id);
    }
  }

  // ----- every run -----

  /** Histories only grow: entries stay, their creation dates too, and rows are only appended. */
  ghost predicate Extends(before: Registry, after: Registry) {
    before.Keys <= after.Keys && forall id | id in before :: Grows(before[id], after[id])
  }

  ghost predicate Grows(before: Entry, after: Entry) {
    && after.created == before.created
    && before.training <= after.training
    && before.evals <= after.evals
    && (!IsActive(before) ==> !IsActive(after))
  }

  lemma StatusesDiffer()
    ensures RETIRED != ACTIVE && REJECTED != ACTIVE && RETIRED != "" && REJECTED != ""
  {
  }

  lemma OthersStay(r: Registry, c: Call)
    ensures r.Keys <= After(r, c).Keys
    ensures forall id | id != c.id :: (id in After(r, c) <==> id in r) && (id in r ==> After(r, c)[id] == r[id])
  {
    hide RefusalOf;
  }

  lemma OwnGrows(r: Registry, c: Call)
    requires c.id in r
    ensures c.id in After(r, c) && Grows(r[c.id], After(r, c)[c.id])
  {
    StatusesDiffer();
    hide EvalRefusal, Strip;
  }

  lemma AfterExtends(r: Registry, c: Call)
    ensures Extends(r, After(r, c))
  {
    hide After, IsActive;
    OthersStay(r, c);
    if c.id in r {
      OwnGrows(r, c);
    }
  }

  /** From any registry, over any calls, nothing on record is lost and no retired adapter is active again. */
  lemma {:induction false} RunExtends(r: Registry, calls: seq<Call>)
    ensures Extends(r, Run(r, calls))
  {
    if calls != [] {
      RunExtends(r, calls[..|calls| - 1]);
      AfterExtends(Run(r, calls[..|calls| - 1]), calls[|calls| - 1]);
    }
  }

  /** An adapter that no call names is untouched. */
  lemma {:induction false} OthersUntouched(r: Registry, calls: seq<Call>, id: string)
    requires forall i | 0 <= i < |calls| :: calls[i].id != id
    ensures (id in Run(r, calls) <==> id in r) && (id in r ==> Run(r, calls)[id] == r[id])
  {
    if calls != [] {
      OthersUntouched(r, calls[..|calls| - 1], id);
      OthersStay(Run(r, calls[..|calls| - 1]), calls[|calls| - 1]);
    }
  }

  /** Every row with a score can be read back as a measurement. */
  ghost predicate ScoresAreMeasured(r: Registry) {
    forall id, i | id in r && 0 <= i < |r[id].evals| ::
      EvalRefusal(r[id].evals[i]).None? && (r[id].evals[i].score != Null ==> EvalIsMeasured(r[id].evals[i]))
  }

  lemma {:induction false} RunScoresAreMeasured(calls: seq<Call>)
    ensures ScoresAreMeasured(Run(map[], calls))
  {
    if calls != [] {
      RunScoresAreMeasured(calls[..|calls| - 1]);
    }
  }

  /** Retirement never invents an adapter: it is refused for one the registry does not hold. */
  lemma RetirementAddsNothing(r: Registry, c: Call)
    requires c.RecordRetirement?
    ensures After(r, c).Keys == r.Keys
    ensures RefusalOf(r, c).None? <==>
      c.id in r && c.status in {RETIRED, REJECTED} && c.grounds.Some? && Strip(c.grounds.value) != ""
    ensures RefusalOf(r, c).None? ==>
      && !IsActive(After(r, c)[c.id])
      && After(r, c)[c.id].training == r[c.id].training && After(r, c)[c.id].evals == r[c.id].evals
      && After(r, c)[c.id].promotion == r[c.id].promotion && After(r, c)[c.id].demotion == r[c.id].demotion
  {
  }

  /** From an empty registry an adapter is out of service exactly when a retirement of it was accepted. */
  lemma {:induction false} InactiveMeansRetired(calls: seq<Call>, id: string)
    ensures var r := Run(map[], calls);
      id in r && !IsActive(r[id]) <==>
        exists i :: 0 <= i < |calls| && RetiresAt(calls, i, id)
  {
    if calls != [] {
      var n := |calls| - 1;
      var earlier := calls[..n];
      InactiveMeansRetired(earlier, id);
      var before := Run(map[], earlier);
      AfterExtends(before, calls[n]);
      StatusesDiffer();
      forall i | 0 <= i < n ensures RetiresAt(calls, i, id) <==> RetiresAt(earlier, i, id) {
        assert calls[..i] == earlier[..i];
      }
      assert RetiresAt(calls, n, id) <==>
        calls[n].RecordRetirement? && calls[n].id == id && RefusalOf(before, calls[n]).None?;
      if calls[n].RecordRetirement? {
        RetirementAddsNothing(before, calls[n]);
      }
    }
  }

  ghost predicate RetiresAt(calls: seq<Call>, i: int, id: string)
    requires 0 <= i < |calls|
  {
    calls[i].RecordRetirement? && calls[i].id == id && RefusalOf(Run(map[], calls[..i]), calls[i]).None?
  }

  // ----- what the calls leave on record -----

  /** A row that can be read back as a measurement: what an evaluation has to come with. */
  predicate Complete(e: Eval) {
    && e.n.Int? && e.n.n >= 0
    && e.reason.Str? && Strip(e.reason.s) != ""
    && (e.score != Null ==> e.n.n >= 1)
    && e.path.Str? && e.path.s != ""
    && e.base.Str? && e.base.s != ""
    && e.provenance.Dict?
  }

  lemma CompleteIsAccepted(e: Eval)
    ensures EvalRefusal(e).None? <==> Complete(e)
  {
  }

  /** A call that writes to the entry of an id, creating it if need be. */
  predicate WritesTo(c: Call, id: string) {
    c.id == id && !c.RecordRetirement? && (c.RecordEval? ==> Complete(c.eval))
  }

  /** When the first call that wrote to an id was made; none when there was none. */
  function FirstWritten(calls: seq<Call>, id: string): Option<string> {
    if calls == [] then None else
    var earlier, c := FirstWritten(calls[..|calls| - 1], id), calls[|calls| - 1];
    if earlier.Some? then earlier else if WritesTo(c, id) then Some(if c.RecordEval? then c.eval.at else c.at) else None
  }

  function EvalsOf(calls: seq<Call>, id: string): seq<Eval> {
    if calls == [] then [] else
    var earlier, c := EvalsOf(calls[..|calls| - 1], id), calls[|calls| - 1];
    if c.RecordEval? && c.id == id && Complete(c.eval) then earlier + [c.eval] else earlier
  }

  function TrainingsOf(calls: seq<Call>, id: string): seq<Training> {
    if calls == [] then [] else
    var earlier, c := TrainingsOf(calls[..|calls| - 1], id), calls[|calls| - 1];
    if c.RecordTraining? && c.id == id then earlier + [Training(c.at, OrEmpty(c.metrics))] else earlier
  }

  function LastPromotion(calls: seq<Call>, id: string): Option<Note> {
    if calls == [] then None else
    var c := calls[|calls| - 1];
    if c.RecordPromotion? && c.id == id then Some(Note(c.at, c.evidence)) else LastPromotion(calls[..|calls| - 1], id)
  }

  function LastDemotion(calls: seq<Call>, id: string): Option<Note> {
    if calls == [] then None else
    var c := calls[|calls| - 1];
    if c.RecordDemotion? && c.id == id then Some(Note(c.at, c.reason)) else LastDemotion(calls[..|calls| - 1], id)
  }

  /** A retirement of an id that is known by then, to one of the two statuses and with a reason. */
  predicate Retires(c: Call, id: string, earlier: seq<Call>) {
    && c.RecordRetirement? && c.id == id && c.status in {RETIRED, REJECTED}
    && c.grounds.Some? && Strip(c.grounds.value) != "" && FirstWritten(earlier, id).Some?
  }

  function LastRetirement(calls: seq<Call>, id: string): (r: Option<Call>)
    ensures r.Some? ==> r.value.RecordRetirement? && r.value.grounds.Some?
  {
    if calls == [] then None else
    var earlier, c := calls[..|calls| - 1], calls[|calls| - 1];
    if Retires(c, id, earlier) then Some(c) else LastRetirement(earlier, id)
  }

  /** The entry an id has after calls that wrote to it. */
  function EntryAfter(calls: seq<Call>, id: string): Entry
    requires FirstWritten(calls, id).Some?
  {
    var retirement := LastRetirement(calls, id);
    Entry(FirstWritten(calls, id).value, TrainingsOf(calls, id), EvalsOf(calls, id),
          LastPromotion(calls, id), LastDemotion(calls, id),
          if retirement.Some? then Some(retirement.value.status) else None,
          if retirement.Some? then Strip(retirement.value.grounds.value) else "",
          if retirement.Some? then retirement.value.at else "")
  }

  /** The registry holds exactly what the calls recorded of an id. */
  ghost predicate Recorded(r: Registry, calls: seq<Call>, id: string) {
    if FirstWritten(calls, id).Some? then id in r && r[id] == EntryAfter(calls, id) else id !in r
  }

  lemma OtherCall(r: Registry, earlier: seq<Call>, c: Call, id: string)
    requires Recorded(r, earlier, id) && c.id != id
    ensures Recorded(After(r, c), earlier + [c], id)
  {
    var calls := earlier + [c];
    assert calls[..|earlier|] == earlier && calls[|earlier|] == c;
    OthersStay(r, c);
    hide After;
  }

  lemma WrittenNext(r: Registry, earlier: seq<Call>, c: Call, id: string)
    requires Recorded(r, earlier, id) && c.id == id && !c.RecordRetirement?
    ensures Recorded(After(r, c), earlier + [c], id)
  {
    var calls := earlier + [c];
    assert calls[..|earlier|] == earlier && calls[|earlier|] == c;
    if c.RecordEval? {
      CompleteIsAccepted(c.eval);
    }
    hide Complete, EvalRefusal, OrEmpty, Strip;
    if FirstWritten(earlier, id).None? {
      NothingYet(earlier, id);
    }
  }

  lemma RetirementNext(r: Registry, earlier: seq<Call>, c: Call, id: string)
    requires Recorded(r, earlier, id) && c.id == id && c.RecordRetirement?
    ensures Recorded(After(r, c), earlier + [c], id)
  {
    var calls := earlier + [c];
    assert calls[..|earlier|] == earlier && calls[|earlier|] == c;
    hide Strip, Complete;
  }

  /** Where no call wrote, there is no row and no note. */
  lemma {:induction false} NothingYet(calls: seq<Call>, id: string)
    requires FirstWritten(calls, id).None?
    ensures TrainingsOf(calls, id) == [] && EvalsOf(calls, id) == [] && LastRetirement(calls, id).None?
    ensures LastPromotion(calls, id).None? && LastDemotion(calls, id).None?
  {
    hide Complete, Strip;
    if calls != [] {
      NothingYet(calls[..|calls| - 1], id);
    }
  }

  /** From an empty registry, over any calls: an id is known exactly when an accepted call wrote to it, and its entry
      holds all of its accepted rows in order, its last promotion, demotion and retirement, and nothing else. */
  lemma {:induction false} RunRecords(calls: seq<Call>, id: string)
    ensures Recorded(Run(map[], calls), calls, id)
  {
    if calls != [] {
      var earlier, c := calls[..|calls| - 1], calls[|calls| - 1];
      RunRecords(earlier, id);
      assert calls == earlier + [c];
      if c.id != id {
        OtherCall(Run(map[], earlier), earlier, c, id);
      } else if c.RecordRetirement? {
        RetirementNext(Run(map[], earlier), earlier, c, id);
      } else {
        WrittenNext(Run(map[], earlier), earlier, c, id);
      }
    }
  }
}
