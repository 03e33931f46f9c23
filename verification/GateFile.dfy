/** The gate file shared by the proxy, human and synthetic writers, and its merged verdict. */
module GateFile {
  import opened Wrappers

  /** The dictionary keys the gate reads; every other key a caller may send is Other. */
  datatype Key =
    | Verdict | Mode | Tool | Timestamp | ClaimsAdapter | Serving
    | AdapterPath | TensorsLoaded | AdapterBound | ProvenanceAvailable
    | Other(name: string)

  datatype Json = Null | Bool(b: bool) | Int(n: int) | Str(s: string) | Obj(fields: map<Key, Json>)

  type Half = map<Key, Json>

  function Get(h: Half, k: Key, default: Json): Json {
    if k in h then h[k] else default
  }

  /** Python truth of a value. */
  predicate Truthy(j: Json) {
    match j
    case Null => false
    case Bool(b) => b
    case Int(n) => n != 0
    case Str(s) => s != ""
    case Obj(fields) => fields != map[]
  }

  datatype Record = Record(commit: Json, proxy: Half, human: Half, synthetic: Option<Half>, effective: string)

  const BLANK_RECORD := Record(Null, map[Verdict := Str("ABSENT"), Mode := Str("ADVISORY")],
                              map[Verdict := Str("ABSENT")], None, "ADVISORY")

  // ----- the merged verdict -----

  predicate HumanIsAttributable(human: Half) {
    Truthy(Get(human, Tool, Null))
  }

  function ComputeEffectiveVerdict(proxy: Half, human: Half): string {
    var said := Get(human, Verdict, Str("ABSENT"));
    var hv := if said == Str("PASS") && !HumanIsAttributable(human) then Str("ABSENT") else said;
    var pv := Get(proxy, Verdict, Str("ABSENT"));
    var pmode := Get(proxy, Mode, Str("ADVISORY"));
    if hv == Str("FAIL") then "FAIL"
    else if hv == Str("PASS") && pv == Str("PASS") then "PASS"
    else if pmode == Str("ENFORCING") && pv == Str("PASS") then "PASS"
    else if pmode == Str("ENFORCING") && pv == Str("FAIL") then "FAIL"
    else "ADVISORY"
  }

  lemma VerdictsDiffer()
    ensures "PASS" != "FAIL" && "PASS" != "ADVISORY" && "FAIL" != "ADVISORY"
    ensures "PASS" != "ABSENT" && "FAIL" != "ABSENT"
  {
  }

  predicate Says(h: Half, verdict: string) {
    Get(h, Verdict, Str("ABSENT")) == Str(verdict)
  }

  predicate Enforcing(proxy: Half) {
    Get(proxy, Mode, Str("ADVISORY")) == Str("ENFORCING")
  }

  /** When the merged verdict promotes and when it blocks. */
  lemma EffectiveMeaning(proxy: Half, human: Half)
    ensures var v := ComputeEffectiveVerdict(proxy, human);
      && (v == "PASS" <==> !Says(human, "FAIL") && Says(proxy, "PASS")
                           && (Enforcing(proxy) || (Says(human, "PASS") && HumanIsAttributable(human))))
      && (v == "FAIL" <==> Says(human, "FAIL") || (Enforcing(proxy) && Says(proxy, "FAIL")))
      && v in {"PASS", "FAIL", "ADVISORY"}
  {
  }

  // ----- provenance -----

  /** Python's isinstance(x, int) and x == 0; False is an int there. */
  predicate IsIntZero(j: Json) {
    j == Int(0) || j == Bool(false)
  }

  datatype Refusal = NoProvenance | NothingBound | Unreachable | NoAdapter | Unverifiable

  function ProxyProvenanceRefusal(serving: Option<Half>, claimsAdapter: bool): Option<Refusal> {
    if serving.None? then
      if claimsAdapter then Some(NoProvenance) else None
    else
      var s := serving.value;
      var adapter := Get(s, AdapterPath, Null);
      if Truthy(adapter) && IsIntZero(Get(s, TensorsLoaded, Null)) then Some(NothingBound)
      else if !claimsAdapter then None
      else if !Truthy(Get(s, ProvenanceAvailable, Null)) then Some(Unreachable)
      else if !Truthy(adapter) then Some(NoAdapter)
      else if Get(s, AdapterBound, Null) != Bool(true) then Some(Unverifiable)
      else None
  }

  /** The server names an adapter, reports it bound, and does not contradict that with an empty one. */
  predicate BoundAdapter(s: Half) {
    && Truthy(Get(s, AdapterPath, Null))
    && Get(s, AdapterBound, Null) == Bool(true)
    && Truthy(Get(s, ProvenanceAvailable, Null))
    && !IsIntZero(Get(s, TensorsLoaded, Null))
  }

  /** An adapter-arm verdict is writable exactly with a bound adapter on record; a base-arm one
      exactly when the server does not name an adapter it bound nothing of. */
  lemma RefusalMeaning(serving: Option<Half>, claimsAdapter: bool)
    ensures claimsAdapter ==>
      (ProxyProvenanceRefusal(serving, true).None? <==> serving.Some? && BoundAdapter(serving.value))
    ensures !claimsAdapter ==>
      (ProxyProvenanceRefusal(serving, false).Some? <==>
        && serving.Some? && Truthy(Get(serving.value, AdapterPath, Null))
        && IsIntZero(Get(serving.value, TensorsLoaded, Null)))
  {
  }

  // ----- the writers -----

  function Saved(r: Record): Record {
    r.(effective := ComputeEffectiveVerdict(r.proxy, r.human))
  }

  datatype Write =
    | ProxyWrite(fields: Half, commit: Option<string>, serving: Option<Half>, claimsAdapter: bool, now: string)
    | HumanWrite(fields: Half, now: string)
    | SyntheticWrite(fields: Half, now: string)

  predicate Refused(w: Write) {
    w.ProxyWrite? && ProxyProvenanceRefusal(w.serving, w.claimsAdapter).Some?
  }

  function Stamped(tool: string, now: string, fields: Half): Half {
    map[Tool := Str(tool), Timestamp := Str(now)] + fields
  }

  /** What one write leaves on record. */
  function After(r: Record, w: Write): Record {
    if Refused(w) then r else
    match w
    case ProxyWrite(fields, commit, serving, claimsAdapter, now) =>
      var proxy := Stamped("eval_blinded_ab.py", now, fields)
        [ClaimsAdapter := Bool(claimsAdapter)]
        [Serving := if serving.Some? then Obj(serving.value) else Null];
      Saved(r.(proxy := proxy, commit := if commit.Some? && commit.value != "" then Str(commit.value) else r.commit))
    case HumanWrite(fields, now) =>
      Saved(r.(human := Stamped("blind_ab/score.py", now, fields)))
    case SyntheticWrite(fields, now) =>
      Saved(r.(synthetic := Some(Stamped("blind_ab/score.py (synthetic rater)", now, fields))))
  }

  function Run(r: Record, writes: seq<Write>): Record {
    if writes == [] then r else After(Run(r, writes[..|writes| - 1]), writes[|writes| - 1])
  }

  class Gate {
    var commit: Json
    var proxy: Half
    var human: Half
    var synthetic: Option<Half>
    var effective: string

    function State(): Record
      reads this
    {
      Record(commit, proxy, human, synthetic, effective)
    }

    constructor ()
      ensures State() == BLANK_RECORD
    {
      commit, proxy, human := BLANK_RECORD.commit, BLANK_RECORD.proxy, BLANK_RECORD.human;
      synthetic, effective := None, BLANK_RECORD.effective;
    }

    method Save()
      modifies this`effective
      ensures State() == Saved(old(State()))
    {
      effective := ComputeEffectiveVerdict(proxy, human);
    }

    method WriteProxyHalf(fields: Half, commit: Option<string>, serving: Option<Half>, claimsAdapter: bool, now: string)
      returns (refusal: Option<Refusal>)
      modifies this
      ensures State() == After(old(State()), ProxyWrite(fields, commit, serving, claimsAdapter, now))
      ensures refusal == ProxyProvenanceRefusal(serving, claimsAdapter)
      ensures refusal.Some? ==> unchanged(this)
    {
      refusal := ProxyProvenanceRefusal(serving, claimsAdapter);
      if refusal.Some? {
        return;
      }
      var half: Half := map[Tool := Str("eval_blinded_ab.py"), Timestamp := Str(now)];
      half := half + fields;
      half := half[ClaimsAdapter := Bool(claimsAdapter)];
      half := half[Serving := if serving.Some? then Obj(serving.value) else Null];
      proxy := half;
      if commit.Some? && commit.value != "" {
        this.commit := Str(commit.value);
      }
      Save();
    }

    method WriteHumanHalf(fields: Half, now: string)
      modifies this
      ensures State() == After(old(State()), HumanWrite(fields, now))
    {
      var half: Half := map[Tool := Str("blind_ab/score.py"), Timestamp := Str(now)];
      half := half + fields;
      human := half;
      Save();
    }

    method WriteSyntheticHalf(fields: Half, now: string)
      modifies this
      ensures State() == After(old(State()), SyntheticWrite(fields, now))
    {
      var half: Half := map[Tool := Str("blind_ab/score.py (synthetic rater)"), Timestamp := Str(now)];
      half := half + fields;
      synthetic := Some(half);
      Save();
    }
  }

  // ----- every run -----

  ghost predicate Consistent(r: Record) {
    r.effective == ComputeEffectiveVerdict(r.proxy, r.human)
  }

  /** A proxy half that claims the adapter arm carries the provenance of a bound adapter. */
  ghost predicate ClaimsAreBacked(r: Record) {
    Get(r.proxy, ClaimsAdapter, Null) == Bool(true) ==>
      var serving := Get(r.proxy, Serving, Null);
      serving.Obj? && BoundAdapter(serving.fields)
  }

  lemma {:induction false} RunIsConsistent(writes: seq<Write>)
    ensures Consistent(Run(BLANK_RECORD, writes)) && ClaimsAreBacked(Run(BLANK_RECORD, writes))
  {
    if writes == [] {
      VerdictsDiffer();
    } else {
      RunIsConsistent(writes[..|writes| - 1]);
      var w := writes[|writes| - 1];
      if w.ProxyWrite? {
        RefusalMeaning(w.serving, w.claimsAdapter);
      }
    }
  }

  /** A promotion always rests on a proxy PASS, and one that claims an adapter on a bound adapter. */
  lemma PassRestsOnProxy(writes: seq<Write>)
    ensures var r := Run(BLANK_RECORD, writes);
      r.effective == "PASS" ==>
        && Says(r.proxy, "PASS") && !Says(r.human, "FAIL")
        && (Get(r.proxy, ClaimsAdapter, Null) == Bool(true) ==>
              Get(r.proxy, Serving, Null).Obj? && BoundAdapter(Get(r.proxy, Serving, Null).fields))
  {
    RunIsConsistent(writes);
    var r := Run(BLANK_RECORD, writes);
    EffectiveMeaning(r.proxy, r.human);
  }

  /** A human FAIL vetoes: no run without another human write lifts it. */
  lemma {:induction false} HumanFailStands(r: Record, writes: seq<Write>)
    requires Consistent(r) && Says(r.human, "FAIL")
    requires forall w | w in writes :: !w.HumanWrite?
    ensures Run(r, writes).effective == "FAIL" && Run(r, writes).human == r.human
  {
    if writes == [] {
      EffectiveMeaning(r.proxy, r.human);
    } else {
      HumanFailStands(r, writes[..|writes| - 1]);
      var before, after := Run(r, writes[..|writes| - 1]), Run(r, writes);
      assert !writes[|writes| - 1].HumanWrite?;
      EffectiveMeaning(after.proxy, after.human);
    }
  }

  function WithoutSynthetic(writes: seq<Write>): seq<Write> {
    if writes == [] then [] else
    var earlier := WithoutSynthetic(writes[..|writes| - 1]);
    if writes[|writes| - 1].SyntheticWrite? then earlier else earlier + [writes[|writes| - 1]]
  }

  /** Deleting the synthetic writes of a run changes nothing but the synthetic key. */
  lemma {:induction false} SyntheticIsInvisible(writes: seq<Write>)
    ensures Run(BLANK_RECORD, WithoutSynthetic(writes)) == Run(BLANK_RECORD, writes).(synthetic := None)
  {
    if writes != [] {
      var earlier := writes[..|writes| - 1];
      SyntheticIsInvisible(earlier);
      RunIsConsistent(earlier);
      var kept, w := WithoutSynthetic(earlier), writes[|writes| - 1];
      if !w.SyntheticWrite? {
        assert (kept + [w])[..|kept|] == kept;
      }
    }
  }

  /** Deleting the refused writes of a run changes nothing at all. */
  lemma {:induction false} RefusedIsInvisible(r: Record, writes: seq<Write>)
    ensures Run(r, WithoutRefused(writes)) == Run(r, writes)
  {
    if writes != [] {
      var earlier, w := writes[..|writes| - 1], writes[|writes| - 1];
      RefusedIsInvisible(r, earlier);
      var kept := WithoutRefused(earlier);
      if !Refused(w) {
        assert (kept + [w])[..|kept|] == kept;
      }
    }
  }

  function WithoutRefused(writes: seq<Write>): seq<Write> {
    if writes == [] then [] else
    var earlier := WithoutRefused(writes[..|writes| - 1]);
    if Refused(writes[|writes| - 1]) then earlier else earlier + [writes[|writes| - 1]]
  }

  // ----- what a run leaves on record -----

  /** The last write that is wanted. */
  function Last(writes: seq<Write>, wanted: Write -> bool): (r: Option<Write>)
    ensures r.Some? ==> r.value in writes && wanted(r.value)
    ensures r.None? ==> forall w | w in writes :: !wanted(w)
  {
    if writes == [] then None
    else if wanted(writes[|writes| - 1]) then Some(writes[|writes| - 1])
    else Last(writes[..|writes| - 1], wanted)
  }

  /** A proxy write that is not refused: its provenance vouches for the arm it claims. */
  predicate Accepted(w: Write) {
    && w.ProxyWrite?
    && if w.claimsAdapter then w.serving.Some? && BoundAdapter(w.serving.value)
       else w.serving.Some? && Truthy(Get(w.serving.value, AdapterPath, Null)) ==>
         !IsIntZero(Get(w.serving.value, TensorsLoaded, Null))
  }

  const HUMAN := (w: Write) => w.HumanWrite?
  const SYNTHETIC := (w: Write) => w.SyntheticWrite?
  const PROXY := (w: Write) => Accepted(w)
  const WITH_COMMIT := (w: Write) => Accepted(w) && w.commit.Some? && w.commit.value != ""

  /** A half holds what its writer was given, a tool and a time where those were not given, and nothing else. */
  ghost predicate Keeps(half: Half, fields: Half, tool: string, now: string) {
    && half.Keys == fields.Keys + {Tool, Timestamp}
    && (forall k | k in fields :: half[k] == fields[k])
    && (Tool !in fields ==> half[Tool] == Str(tool))
    && (Timestamp !in fields ==> half[Timestamp] == Str(now))
  }

  /** A proxy half does, apart from the two keys that record its provenance. */
  ghost predicate KeepsProxy(half: Half, w: Write)
    requires w.ProxyWrite?
  {
    && half.Keys == w.fields.Keys + {Tool, Timestamp, ClaimsAdapter, Serving}
    && (forall k | k in w.fields && k != ClaimsAdapter && k != Serving :: half[k] == w.fields[k])
    && (Tool !in w.fields ==> half[Tool] == Str("eval_blinded_ab.py"))
    && (Timestamp !in w.fields ==> half[Timestamp] == Str(w.now))
    && half[ClaimsAdapter] == Bool(w.claimsAdapter)
    && half[Serving] == (if w.serving.Some? then Obj(w.serving.value) else Null)
  }

  ghost predicate HumanRecorded(human: Half, last: Option<Write>) {
    match last
    case Some(w) => Keeps(human, w.fields, "blind_ab/score.py", w.now)
    case None => human == map[Verdict := Str("ABSENT")]
  }

  ghost predicate ProxyRecorded(proxy: Half, last: Option<Write>)
    requires last.Some? ==> last.value.ProxyWrite?
  {
    match last
    case Some(w) => KeepsProxy(proxy, w)
    case None => proxy == map[Verdict := Str("ABSENT"), Mode := Str("ADVISORY")]
  }

  ghost predicate SyntheticRecorded(synthetic: Option<Half>, last: Option<Write>) {
    match last
    case Some(w) => synthetic.Some? && Keeps(synthetic.value, w.fields, "blind_ab/score.py (synthetic rater)", w.now)
    case None => synthetic.None?
  }

  ghost predicate CommitRecorded(commit: Json, last: Option<Write>)
    requires last.Some? ==> last.value.ProxyWrite?
  {
    match last
    case Some(w) => w.commit.Some? && commit == Str(w.commit.value)
    case None => commit == Null
  }

  lemma AfterAccepted(r: Record, w: Write)
    requires w.ProxyWrite? && !Refused(w)
    ensures var after := After(r, w);
      && after.human == r.human && after.synthetic == r.synthetic && KeepsProxy(after.proxy, w)
      && after.commit == if w.commit.Some? && w.commit.value != "" then Str(w.commit.value) else r.commit
  {
    hide Refused, ComputeEffectiveVerdict;
  }

  lemma AfterProxy(r: Record, w: Write)
    requires w.ProxyWrite?
    ensures var after := After(r, w);
      && after.human == r.human && after.synthetic == r.synthetic
      && (if Accepted(w) then KeepsProxy(after.proxy, w) else after.proxy == r.proxy)
      && after.commit == if Accepted(w) && w.commit.Some? && w.commit.value != "" then Str(w.commit.value) else r.commit
  {
    AcceptedIsNotRefused(w);
    if Accepted(w) {
      hide Accepted, Refused, After, KeepsProxy;
      AfterAccepted(r, w);
    } else {
      RefusedChangesNothing(r, w);
    }
  }

  lemma RefusedChangesNothing(r: Record, w: Write)
    requires Refused(w)
    ensures After(r, w) == r
  {
  }

  lemma AfterHuman(r: Record, w: Write)
    requires w.HumanWrite?
    ensures var after := After(r, w);
      && after.proxy == r.proxy && after.synthetic == r.synthetic && after.commit == r.commit
      && Keeps(after.human, w.fields, "blind_ab/score.py", w.now)
  {
  }

  lemma AfterSynthetic(r: Record, w: Write)
    requires w.SyntheticWrite?
    ensures var after := After(r, w);
      && after.proxy == r.proxy && after.human == r.human && after.commit == r.commit && after.synthetic.Some?
      && Keeps(after.synthetic.value, w.fields, "blind_ab/score.py (synthetic rater)", w.now)
  {
  }

  /** Every run leaves each writer's last words on record: what was written is what is read. */
  lemma {:induction false} RunRecords(writes: seq<Write>)
    ensures var r := Run(BLANK_RECORD, writes);
      && HumanRecorded(r.human, Last(writes, HUMAN))
      && ProxyRecorded(r.proxy, Last(writes, PROXY))
      && SyntheticRecorded(r.synthetic, Last(writes, SYNTHETIC))
      && CommitRecorded(r.commit, Last(writes, WITH_COMMIT))
  {
    if writes != [] {
      var earlier, w := writes[..|writes| - 1], writes[|writes| - 1];
      RunRecords(earlier);
      hide Accepted, After, Keeps, KeepsProxy;
      match w
      case ProxyWrite(_, _, _, _, _) => AfterProxy(Run(BLANK_RECORD, earlier), w);
      case HumanWrite(_, _) => AfterHuman(Run(BLANK_RECORD, earlier), w);
      case SyntheticWrite(_, _) => AfterSynthetic(Run(BLANK_RECORD, earlier), w);
    }
  }

  lemma AcceptedIsNotRefused(w: Write)
    ensures Accepted(w) <==> w.ProxyWrite? && !Refused(w)
  {
    if w.ProxyWrite? {
      RefusalMeaning(w.serving, w.claimsAdapter);
    }
  }

  /** The fields leave the writer's own tool stamp, or name another tool. */
  predicate NamesTool(fields: Half) {
    Tool !in fields || Truthy(fields[Tool])
  }

  predicate LastHumanNamesTool(writes: seq<Write>) {
    var last := Last(writes, HUMAN);
    last.Some? && NamesTool(last.value.fields)
  }

  /** Over every run, the human half on record is attributable exactly when the last human write names its tool. */
  lemma AttributableIff(writes: seq<Write>)
    ensures HumanIsAttributable(Run(BLANK_RECORD, writes).human) <==> LastHumanNamesTool(writes)
  {
    hide Run, Last;
    RunRecords(writes);
  }

  predicate Said(last: Option<Write>, verdict: string) {
    last.Some? && Verdict in last.value.fields && last.value.fields[Verdict] == Str(verdict)
  }

  predicate SaidEnforcing(last: Option<Write>) {
    last.Some? && Mode in last.value.fields && last.value.fields[Mode] == Str("ENFORCING")
  }

  /** What a run adds up to, from the last human write and the last accepted proxy write alone. */
  lemma EffectiveIs(writes: seq<Write>)
    ensures var effective := Run(BLANK_RECORD, writes).effective;
      var human, proxy := Last(writes, HUMAN), Last(writes, PROXY);
      && (effective == "PASS" <==>
            && !Said(human, "FAIL") && Said(proxy, "PASS")
            && (SaidEnforcing(proxy) || (Said(human, "PASS") && LastHumanNamesTool(writes))))
      && (effective == "FAIL" <==> Said(human, "FAIL") || (SaidEnforcing(proxy) && Said(proxy, "FAIL")))
      && effective in {"PASS", "FAIL", "ADVISORY"}
  {
    var r := Run(BLANK_RECORD, writes);
    RunRecords(writes);
    RunIsConsistent(writes);
    AttributableIff(writes);
    EffectiveMeaning(r.proxy, r.human);
    hide Run, Last;
    HumanSays(r.human, Last(writes, HUMAN), "PASS");
    HumanSays(r.human, Last(writes, HUMAN), "FAIL");
    ProxySays(r.proxy, Last(writes, PROXY), "PASS");
    ProxySays(r.proxy, Last(writes, PROXY), "FAIL");
  }

  lemma HumanSays(human: Half, last: Option<Write>, verdict: string)
    requires HumanRecorded(human, last) && verdict != "ABSENT"
    ensures Says(human, verdict) <==> Said(last, verdict)
  {
  }

  lemma ProxySays(proxy: Half, last: Option<Write>, verdict: string)
    requires (last.Some? ==> last.value.ProxyWrite?) && ProxyRecorded(proxy, last) && verdict != "ABSENT"
    ensures Says(proxy, verdict) <==> Said(last, verdict)
    ensures Enforcing(proxy) <==> SaidEnforcing(last)
  {
  }

  /** As long as no human write empties its tool stamp, every human PASS on record is attributable. */
  lemma HumanWritesAreAttributable(writes: seq<Write>)
    requires forall w | w in writes && w.HumanWrite? :: NamesTool(w.fields)
    ensures var r := Run(BLANK_RECORD, writes);
      Says(r.human, "PASS") ==> HumanIsAttributable(r.human)
  {
    AttributableIff(writes);
    RunRecords(writes);
    HumanSays(Run(BLANK_RECORD, writes).human, Last(writes, HUMAN), "PASS");
  }

  /** Beside a proxy PASS a human PASS promotes exactly when the proxy enforces or the last human write names its
      tool. */
  lemma TwoPassesPromote(writes: seq<Write>)
    ensures var r := Run(BLANK_RECORD, writes);
      Says(r.human, "PASS") && Says(r.proxy, "PASS") ==>
        (r.effective == "PASS" <==> Enforcing(r.proxy) || LastHumanNamesTool(writes))
  {
    AttributableIff(writes);
    RunIsConsistent(writes);
    var r := Run(BLANK_RECORD, writes);
    EffectiveMeaning(r.proxy, r.human);
    VerdictsDiffer();
  }
}
