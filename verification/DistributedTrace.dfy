/** Distributed tracing of one transaction, newrelic/api/transaction.py: accepting inbound
    headers, the sampling decision, and the headers and the node that go out. */
module DistributedTraceModel {
  import opened Prelude
  import Text
  import TraceParent
  import TraceState
  import NrTraceState

  /** Any other word in the configuration is taken as `adaptive`. */
  datatype Sampler = AlwaysOn | AlwaysOff | TraceIdRatioBased | Adaptive

  /** An empty string is a setting that is not set; `spanEvents` is span_events.enabled and
      collect_span_events. */
  datatype Settings = Settings(
    accountId: string,
    trustedAccountKey: string,
    primaryApplicationId: string,
    serverless: bool,
    distributedTracing: bool,
    spanEvents: bool,
    root: Sampler,
    remoteParentSampled: Sampler,
    remoteParentNotSampled: Sampler)

  function TrustedKey(c: Settings): string {
    if |c.trustedAccountKey| > 0 then c.trustedAccountKey else if c.serverless then c.accountId else ""
  }

  /** What a step gets from outside: a random fraction of at most six decimals, in millionths,
      the answer of compute_sampled, the clock in milliseconds, the current span if there is
      one, and a random span id. */
  datatype Env = Env(random: nat, sampler: bool, now: int, span: Option<string>, randomId: string)

  /** The two bits of _distributed_trace_state. */
  datatype DtState = DtState(accepted: bool, created: bool)

  const NEITHER := DtState(false, false)

  type Priority = NrTraceState.Priority

  /** The parent_* fields. */
  datatype Parent = Parent(
    kind: Option<string>,
    span: Option<string>,
    tx: Option<string>,
    app: Option<string>,
    account: Option<string>,
    transportDuration: Option<int>)

  const NO_PARENT := Parent(None, None, None, None, None, None)

  datatype State = State(
    guid: string,
    enabled: bool,
    traceId: string,
    parent: Parent,
    trustedParentSpan: Option<string>,
    tracingVendors: Option<string>,
    tracestate: string,
    priority: Option<Priority>,
    sampled: Option<bool>,
    remoteParentSampled: Option<bool>,
    dt: DtState,
    decided: bool)

  /** A new transaction; its guid is cut from its trace id. */
  function New(traceId: string, enabled: bool): State {
    State(TraceState.Take(traceId, 16), enabled, traceId, NO_PARENT, None, None, "", None, None, None, NEITHER, false)
  }

  // ----- the sampling decision ---------------------------------------------------------

  /** m - int(m), where int() truncates. */
  function Fraction(m: int): (r: int)
    ensures (m - r) % 1_000_000 == 0 && -1_000_000 < r < 1_000_000
    ensures (m >= 0 ==> r >= 0) && (m <= 0 ==> r <= 0)
  {
    if m >= 0 then m % 1_000_000 else -((-m) % 1_000_000)
  }

  function ComputeSampled(priority: Option<Priority>, sampled: Option<bool>, env: Env): (Priority, bool) {
    var adjust := priority.None? || sampled.None?;
    var p := if priority.None? then NrTraceState.Float(env.random) else priority.value;
    var sa := if sampled.None? then env.sampler else sampled.value;
    if adjust && sa then (NrTraceState.Float(Fraction(NrTraceState.Millionths(p)) + 2_000_000), sa) else (p, sa)
  }

  function SamplerFor(c: Settings, remoteParentSampled: Option<bool>): Sampler {
    if remoteParentSampled.None? then c.root
    else if remoteParentSampled.value then c.remoteParentSampled
    else c.remoteParentNotSampled
  }

  function SampledAndPriority(s: State, c: Settings, env: Env): (Priority, bool) {
    match SamplerFor(c, s.remoteParentSampled)
    case AlwaysOn => (NrTraceState.Float(3_000_000), true)
    case AlwaysOff => (NrTraceState.IntZero, false)
    case TraceIdRatioBased => ComputeSampled(s.priority, None, env)
    case Adaptive => ComputeSampled(s.priority, s.sampled, env)
  }

  function Decide(s: State, c: Settings, env: Env): State {
    if s.decided then s
    else
      var d := SampledAndPriority(s, c, env);
      s.(priority := Some(d.0), sampled := Some(d.1), decided := true)
  }

  // ----- headers out -------------------------------------------------------------------

  /** The data of the headers: what traceparent and the agent's tracestate entry are made of. */
  datatype TraceData = TraceData(tr: string, id: string, nr: NrTraceState.Data)

  datatype Headers = Headers(traceparent: string, tracestate: string)

  predicate MayCreate(s: State, c: Settings) {
    s.enabled && |c.accountId| > 0 && |c.primaryApplicationId| > 0 && |TrustedKey(c)| > 0 && c.distributedTracing
  }

  function PriorityField(p: Option<Priority>): NrTraceState.Field<Priority> {
    if p.Some? then NrTraceState.Val(p.value) else NrTraceState.Null
  }

  function DataOf(s: State, c: Settings, env: Env): TraceData {
    TraceData(
      s.traceId,
      if c.spanEvents && env.span.Some? then env.span.value else env.randomId,
      NrTraceState.Data(None, c.accountId, c.primaryApplicationId, Some(s.guid), s.sampled,
                        PriorityField(s.priority), env.now,
                        if c.accountId != TrustedKey(c) then Some(TrustedKey(c)) else None))
  }

  function Create(s: State, c: Settings, env: Env): (State, Option<TraceData>) {
    if !MayCreate(s, c) then (s, None)
    else
      var d := Decide(s, c, env);
      (d.(dt := d.dt.(created := true)), Some(DataOf(d, c, env)))
  }

  /** The headers on the wire; `kept` is the tracestate kept from the inbound request. */
  function Wire(data: TraceData, kept: string): Headers {
    Headers(
      TraceParent.TextOf(TraceParent.Parent(data.tr, data.id, data.nr.sa == Some(true), "00")),
      TraceState.Emitted(NrTraceState.TextOf(data.nr), kept))
  }

  // ----- headers in --------------------------------------------------------------------

  function StripLeft(s: string): string {
    if |s| > 0 && TraceState.IsSpace(s[0]) then StripLeft(s[1..]) else s
  }

  function Strip(s: string): string {
    StripLeft(TraceState.StripRight(s))
  }

  predicate MayAccept(s: State, c: Settings) {
    s.enabled && c.distributedTracing && |TrustedKey(c)| > 0 && s.dt == NEITHER
  }

  function Keys(d: TraceState.Vendors): seq<string> {
    seq(|d|, i requires 0 <= i < |d| => d[i].0)
  }

  /** The agent's own member of the tracestate, if there is one that decodes. */
  function OwnEntry(vendors: TraceState.Vendors, c: Settings, r: NrTraceState.Readers): Option<NrTraceState.Decoded> {
    var payload := TraceState.Get(vendors, TrustedKey(c) + "@nr");
    if |payload| > 0 then NrTraceState.Decode(payload, TrustedKey(c), r) else None
  }

  /** The foreign members of the tracestate are kept to be sent on; the span of the agent's own
      entry is remembered. */
  function ReadTracestate(s: State, c: Settings, r: NrTraceState.Readers, tracestate: string)
    : (State, Option<NrTraceState.Decoded>)
  {
    var vendors := TraceState.Decode(tracestate);
    var foreign := TraceState.Without(vendors, TrustedKey(c) + "@nr");
    var entry := OwnEntry(vendors, c, r);
    (s.(tracingVendors := Some(Text.Join(Keys(foreign), ',')), tracestate := TraceState.TextOf(foreign, 31),
        trustedParentSpan := if entry.Some? then entry.value.id else s.trustedParentSpan),
     entry)
  }

  function ReadPriority(f: NrTraceState.Field<int>): Option<Priority> {
    if f.Val? then Some(NrTraceState.Float(f.value)) else None
  }

  function ReadSampled(f: NrTraceState.Field<bool>): Option<bool> {
    if f.Val? then Some(f.value) else None
  }

  /** _accept_distributed_trace_data on a traceparent updated with the agent's entry. */
  function AcceptData(s: State, p: TraceParent.Parent, entry: Option<NrTraceState.Decoded>, now: int): State {
    var t := s.(traceId := p.tr, dt := DtState(true, false));
    match entry
    case None =>
      t.(parent := Parent(None, Some(p.id), None, None, None, s.parent.transportDuration),
         priority := None, sampled := None)
    case Some(e) =>
      t.(parent := Parent(Some(e.ty), Some(p.id), e.tx, Some(e.ap), Some(e.ac), Some(Max(0, now - e.ti))),
         priority := ReadPriority(e.pr), sampled := ReadSampled(e.sa))
  }

  function Accept(s: State, c: Settings, r: NrTraceState.Readers, h: Headers, now: int): (State, bool) {
    if !MayAccept(s, c) then (s, false)
    else
      var d := TraceParent.Decode(Strip(h.traceparent));
      if !d.Accepted? then (s, false)
      else
        var t := s.(remoteParentSampled := Some(d.parent.sa));
        if |h.tracestate| == 0 then (AcceptData(t, d.parent, None, now), true)
        else
          var (u, entry) := ReadTracestate(t, c, r, h.tracestate);
          (AcceptData(u, d.parent, entry, now), true)
  }

  /** Whose key is trusted: the one that is set, else in a serverless process the account's.
      Without one nothing is accepted and nothing is sent. */
  lemma KeyDecides(s: State, c: Settings, r: NrTraceState.Readers, h: Headers, now: int, env: Env)
    ensures c.trustedAccountKey != "" ==> TrustedKey(c) == c.trustedAccountKey
    ensures c.trustedAccountKey == "" && c.serverless ==> TrustedKey(c) == c.accountId
    ensures c.trustedAccountKey == "" && !c.serverless ==>
              Accept(s, c, r, h, now) == (s, false) && Create(s, c, env) == (s, None)
  {
  }

  /** Headers are sent exactly if the transaction is on, distributed tracing is, and account,
      application and a trusted key are there; they carry the transaction's own ids, the current
      span or else a random one, and the key only if it is not the account's. */
  lemma SentIff(s: State, c: Settings, env: Env)
    ensures var (t, data) := Create(s, c, env);
      && (data.Some? <==>
            && s.enabled && c.distributedTracing && c.accountId != "" && c.primaryApplicationId != ""
            && (c.trustedAccountKey != "" || c.serverless))
      && (data.None? ==> t == s)
      && (data.Some? ==>
            var d := data.value;
            && t == Decide(s, c, env).(dt := DtState(s.dt.accepted, true))
            && d.tr == s.traceId && d.nr.tx == Some(s.guid) && d.nr.ac == c.accountId && d.nr.ap == c.primaryApplicationId
            && d.nr.sa == t.sampled && d.nr.pr == PriorityField(t.priority) && d.nr.ti == env.now && d.nr.v == None
            && (c.spanEvents && env.span.Some? ==> d.id == env.span.value)
            && (!c.spanEvents || env.span.None? ==> d.id == env.randomId)
            && (d.nr.tk == None <==> c.trustedAccountKey == "" || c.trustedAccountKey == c.accountId)
            && (d.nr.tk.Some? ==> d.nr.tk.value == c.trustedAccountKey))
  {
  }

  /** Stripped of whitespace at both ends. */
  lemma StripIsMiddle(s: string) returns (lo: nat, hi: nat)
    ensures lo <= hi <= |s| && Strip(s) == s[lo..hi]
    ensures forall k | 0 <= k < lo || hi <= k < |s| :: TraceState.IsSpace(s[k])
    ensures lo < hi ==> !TraceState.IsSpace(s[lo]) && !TraceState.IsSpace(s[hi - 1])
  {
    hi := RightEnd(s);
    lo := LeftEnd(s[..hi]);
    MiddleOf(s, lo, hi);
  }

  lemma MiddleOf(s: string, lo: nat, hi: nat)
    requires lo <= hi <= |s|
    ensures s[..hi][lo..] == s[lo..hi] && forall k | 0 <= k < hi :: s[..hi][k] == s[k]
  {
  }

  lemma {:induction false} RightEnd(s: string) returns (hi: nat)
    ensures hi <= |s| && TraceState.StripRight(s) == s[..hi]
    ensures forall k | hi <= k < |s| :: TraceState.IsSpace(s[k])
    ensures hi > 0 ==> !TraceState.IsSpace(s[hi - 1])
    decreases |s|
  {
    if |s| > 0 && TraceState.IsSpace(s[|s| - 1]) {
      hi := RightEnd(s[..|s| - 1]);
    } else {
      hi := |s|;
    }
  }

  lemma {:induction false} LeftEnd(s: string) returns (lo: nat)
    ensures lo <= |s| && StripLeft(s) == s[lo..]
    ensures forall k | 0 <= k < lo :: TraceState.IsSpace(s[k])
    ensures lo < |s| ==> !TraceState.IsSpace(s[lo])
    decreases |s|
  {
    if |s| > 0 && TraceState.IsSpace(s[0]) {
      var rest := LeftEnd(s[1..]);
      lo := rest + 1;
      assert forall k | 0 < k < lo :: s[k] == s[1..][k - 1];
    } else {
      lo := 0;
    }
  }

  // ----- priorities --------------------------------------------------------------------

  predicate InRange(p: Priority) {
    0 <= NrTraceState.Millionths(p) <= 3_000_000
  }

  /** When a decision keeps the inbound priority as it is. */
  predicate KeepsInbound(s: State, c: Settings, env: Env) {
    && s.priority.Some?
    && match SamplerFor(c, s.remoteParentSampled)
       case AlwaysOn => false
       case AlwaysOff => false
       case TraceIdRatioBased => !env.sampler
       case Adaptive => if s.sampled.Some? then true else !env.sampler
  }

  /** Priorities stay in [0, 3] for every sampler setting, exactly unless a priority that was
      received out of range is kept. */
  lemma PriorityStaysInRange(s: State, c: Settings, env: Env)
    requires !s.decided && env.random <= 1_000_000
    ensures InRange(Decide(s, c, env).priority.value)
            <==> (KeepsInbound(s, c, env) ==> InRange(s.priority.value))
  {
    if s.priority.Some? {
      assert -1_000_000 < Fraction(NrTraceState.Millionths(s.priority.value)) < 1_000_000;
    }
  }

  // ----- what a decision is ------------------------------------------------------------

  /** k is the setting for transactions whose remote parent, if there is one, had this flag. */
  predicate Applies(k: Sampler, c: Settings, remote: Option<bool>) {
    || (remote == None && k == c.root)
    || (remote == Some(true) && k == c.remoteParentSampled)
    || (remote == Some(false) && k == c.remoteParentNotSampled)
  }

  /** How the decision u of a transaction that was like s obeys the setting k: always at 3.0,
      never at 0, or by the sampler, which is asked in any case or only for want of an inbound
      flag.  A priority that comes with a flag that is kept stays as it is; otherwise a sampled
      one is two more than the fraction of the inbound or random one. */
  predicate Obeys(k: Sampler, s: State, u: State, env: Env)
    requires u.priority.Some?
  {
    var from := if s.priority.Some? then NrTraceState.Millionths(s.priority.value) else env.random as int;
    var m := NrTraceState.Millionths(u.priority.value);
    match k
    case AlwaysOn => u.sampled == Some(true) && m == 3_000_000
    case AlwaysOff => u.sampled == Some(false) && m == 0
    case TraceIdRatioBased =>
      u.sampled == Some(env.sampler) && m == if env.sampler then 2_000_000 + Fraction(from) else from
    case Adaptive =>
      if s.sampled.Some? && s.priority.Some? then u.sampled == s.sampled && u.priority == s.priority
      else
        && u.sampled == Some(if s.sampled.Some? then s.sampled.value else env.sampler)
        && m == if u.sampled == Some(true) then 2_000_000 + Fraction(from) else from
  }

  /** Main result about one decision: it obeys the setting for roots, or the one for the remote
      parent's flag, is made once and changes nothing else. */
  lemma DecisionObeysSetting(s: State, c: Settings, env: Env, k: Sampler)
    requires Applies(k, c, s.remoteParentSampled)
    ensures var u := Decide(s, c, env);
      if s.decided then u == s
      else
        && u.priority.Some? && u == s.(priority := u.priority, sampled := u.sampled, decided := true)
        && Obeys(k, s, u, env)
  {
  }

  // ----- whole runs --------------------------------------------------------------------

  datatype Event = Inbound(headers: Headers, now: int) | Outbound(env: Env) | Exit(env: Env)

  /** `Sent` and `Node` are what leaves the transaction. */
  datatype Output =
    | Answer(accepted: bool)
    | Sent(data: TraceData, kept: string)
    | NotSent
    | Node(traceId: string, sampled: Option<bool>, priority: Option<Priority>)
    | NoNode

  /** The end of the transaction: without distributed tracing the node is not sampled. */
  function Finish(s: State, c: Settings, env: Env): State {
    var t := if c.distributedTracing then Decide(s, c, env)
             else s.(priority := Some(NrTraceState.Float(env.random)), sampled := Some(false));
    t.(enabled := false)
  }

  /** Without distributed tracing no node is sampled; its priority is the random one. */
  lemma UntracedIsNotSampled(s: State, c: Settings, env: Env)
    requires s.enabled && !c.distributedTracing
    ensures var (t, node) := ExitStep(s, c, env);
      && node == Node(s.traceId, Some(false), Some(NrTraceState.Float(env.random)))
      && !t.enabled && t.decided == s.decided
  {
  }

  function ExitStep(s: State, c: Settings, env: Env): (State, Output) {
    if !s.enabled then (s, NoNode)
    else
      var t := Finish(s, c, env);
      (t, Node(t.traceId, t.sampled, t.priority))
  }

  function Step(s: State, c: Settings, r: NrTraceState.Readers, e: Event): (State, Output) {
    match e
    case Inbound(h, now) =>
      var a := Accept(s, c, r, h, now);
      (a.0, Answer(a.1))
    case Outbound(env) =>
      var o := Create(s, c, env);
      (o.0, if o.1.Some? then Sent(o.1.value, s.tracestate) else NotSent)
    case Exit(env) => ExitStep(s, c, env)
  }

  function Run(s: State, c: Settings, r: NrTraceState.Readers, es: seq<Event>): (result: (State, seq<Output>))
    ensures |result.1| == |es|
  {
    if |es| == 0 then (s, [])
    else
      var before := Run(s, c, r, es[..|es| - 1]);
      var step := Step(before.0, c, r, es[|es| - 1]);
      (step.0, before.1 + [step.1])
  }

  /** Trace id, sampled flag and priority of what leaves the transaction. */
  datatype Story = Story(traceId: string, sampled: Option<bool>, priority: NrTraceState.Field<Priority>)

  predicate Tells(o: Output) {
    o.Sent? || o.Node?
  }

  function StoryOf(o: Output): Story
    requires Tells(o)
  {
    if o.Sent? then Story(o.data.tr, o.data.nr.sa, o.data.nr.pr)
    else Story(o.traceId, o.sampled, PriorityField(o.priority))
  }

  function StateStory(s: State): Story {
    Story(s.traceId, s.sampled, PriorityField(s.priority))
  }

  predicate Settled(s: State) {
    s.decided || !s.enabled
  }

  predicate Fresh(s: State) {
    s.dt == NEITHER && !s.decided
  }

  predicate Consistent(s: State, c: Settings) {
    s.decided ==> c.distributedTracing && (s.dt.created || !s.enabled)
  }

  predicate OutputFits(s: State, o: Output) {
    && (o == Answer(true) ==> s.dt.accepted)
    && (o.Sent? ==> s.dt.created)
    && (Tells(o) ==> Settled(s) && StoryOf(o) == StateStory(s))
  }

  predicate AllFit(s: State, outputs: seq<Output>) {
    forall i | 0 <= i < |outputs| :: OutputFits(s, outputs[i])
  }

  lemma StepIsConsistent(s: State, c: Settings, r: NrTraceState.Readers, e: Event)
    requires Consistent(s, c)
    ensures Consistent(Step(s, c, r, e).0, c)
  {
  }

  lemma StepFits(s: State, c: Settings, r: NrTraceState.Readers, e: Event)
    requires Consistent(s, c)
    ensures var (t, o) := Step(s, c, r, e); OutputFits(t, o)
  {
  }

  lemma StepKeepsFit(s: State, c: Settings, r: NrTraceState.Readers, e: Event, o: Output)
    requires Consistent(s, c) && OutputFits(s, o)
    ensures OutputFits(Step(s, c, r, e).0, o)
  {
  }

  lemma {:induction false} RunFits(s: State, c: Settings, r: NrTraceState.Readers, es: seq<Event>)
    requires Fresh(s)
    ensures var (t, outputs) := Run(s, c, r, es); Consistent(t, c) && AllFit(t, outputs)
    decreases |es|
  {
    if |es| > 0 {
      var prefix, e := es[..|es| - 1], es[|es| - 1];
      RunFits(s, c, r, prefix);
      var (t, outputs) := Run(s, c, r, prefix);
      StepIsConsistent(t, c, r, e);
      StepFits(t, c, r, e);
      forall i | 0 <= i < |outputs|
        ensures OutputFits(Step(t, c, r, e).0, outputs[i])
      {
        StepKeepsFit(t, c, r, e, outputs[i]);
      }
    }
  }

  /** Main result: whatever headers of whatever run leave a transaction, and its node, tell the
      same trace id, sampled flag and priority. */
  lemma OneStory(s: State, c: Settings, r: NrTraceState.Readers, es: seq<Event>, i: nat, j: nat)
    requires Fresh(s) && i < |es| && j < |es|
    requires Tells(Run(s, c, r, es).1[i]) && Tells(Run(s, c, r, es).1[j])
    ensures StoryOf(Run(s, c, r, es).1[i]) == StoryOf(Run(s, c, r, es).1[j])
  {
    RunFits(s, c, r, es);
    var (t, outputs) := Run(s, c, r, es);
    assert OutputFits(t, outputs[i]) && OutputFits(t, outputs[j]);
  }

  /** Nothing accepted yet and nothing sent or recorded. */
  predicate Quiet(outputs: seq<Output>) {
    forall i | 0 <= i < |outputs| :: outputs[i] != Answer(true) && !Tells(outputs[i])
  }

  lemma AcceptDataMarks(s: State, p: TraceParent.Parent, entry: Option<NrTraceState.Decoded>, now: int)
    ensures AcceptData(s, p, entry, now).dt == DtState(true, false)
  {
  }

  lemma AcceptQuiets(s: State, c: Settings, r: NrTraceState.Readers, h: Headers, now: int)
    ensures var (t, ok) := Accept(s, c, r, h, now); if ok then MayAccept(s, c) && t.dt != NEITHER else t == s
    ensures MayAccept(Accept(s, c, r, h, now).0, c) <==> MayAccept(s, c) && !Accept(s, c, r, h, now).1
  {
    var d := TraceParent.Decode(Strip(h.traceparent));
    if MayAccept(s, c) && d.Accepted? {
      var t := s.(remoteParentSampled := Some(d.parent.sa));
      AcceptDataMarks(t, d.parent, None, now);
      var (u, entry) := ReadTracestate(t, c, r, h.tracestate);
      AcceptDataMarks(u, d.parent, entry, now);
    }
  }

  lemma StepQuiets(s: State, c: Settings, r: NrTraceState.Readers, e: Event)
    ensures var (t, o) := Step(s, c, r, e); MayAccept(t, c) <==> MayAccept(s, c) && o != Answer(true) && !Tells(o)
  {
    match e {
      case Inbound(h, now) => AcceptQuiets(s, c, r, h, now);
      case Outbound(env) => assert !MayCreate(s, c) || !MayAccept(Create(s, c, env).0, c);
      case Exit(env) =>
    }
  }

  lemma {:induction false} QuietRun(s: State, c: Settings, r: NrTraceState.Readers, es: seq<Event>)
    ensures var (t, outputs) := Run(s, c, r, es); MayAccept(t, c) <==> MayAccept(s, c) && Quiet(outputs)
    decreases |es|
  {
    if |es| > 0 {
      var prefix := es[..|es| - 1];
      QuietRun(s, c, r, prefix);
      var (t, outputs) := Run(s, c, r, prefix);
      StepQuiets(t, c, r, es[|es| - 1]);
      var all := Run(s, c, r, es).1;
      assert all[..|outputs|] == outputs;
      assert Quiet(all) <==> Quiet(outputs) && all[|outputs|] != Answer(true) && !Tells(all[|outputs|]);
    }
  }

  /** Headers with a traceparent that decodes are accepted exactly if none have been before and
      none have been sent: at most one accept of a run succeeds, and none after a send. */
  lemma AcceptedIffFirst(s: State, c: Settings, r: NrTraceState.Readers, es: seq<Event>, h: Headers, now: int)
    ensures Run(s, c, r, es + [Inbound(h, now)]).1[|es|] == Answer(true)
            <==> MayAccept(s, c) && Quiet(Run(s, c, r, es).1)
                 && TraceParent.Decode(Strip(h.traceparent)).Accepted?
  {
    var all := es + [Inbound(h, now)];
    assert all[..|all| - 1] == es;
    QuietRun(s, c, r, es);
  }

  // ----- the settings over whole runs --------------------------------------------------

  /** Always means always, and never never. */
  predicate OnOrOff(k: Sampler, sampled: Option<bool>, priority: NrTraceState.Field<Priority>) {
    && (k == AlwaysOn ==> sampled == Some(true) && priority == NrTraceState.Val(NrTraceState.Float(3_000_000)))
    && (k == AlwaysOff ==> sampled == Some(false) && priority == NrTraceState.Val(NrTraceState.IntZero))
  }

  /** An enabled transaction that is not decided yet, or one that was decided by the setting. */
  predicate DecidedBySetting(s: State, c: Settings) {
    && (s.decided || s.enabled)
    && (s.decided ==> forall k | Applies(k, c, s.remoteParentSampled) ::
          OnOrOff(k, s.sampled, PriorityField(s.priority)))
  }

  lemma DecideObeys(s: State, c: Settings, env: Env)
    requires DecidedBySetting(s, c)
    ensures DecidedBySetting(Decide(s, c, env), c) && Decide(s, c, env).decided
    ensures Decide(s, c, env).remoteParentSampled == s.remoteParentSampled
  {
  }

  lemma StepObeys(s: State, c: Settings, r: NrTraceState.Readers, e: Event)
    requires c.distributedTracing && Consistent(s, c) && DecidedBySetting(s, c)
    ensures DecidedBySetting(Step(s, c, r, e).0, c)
  {
    match e
    case Inbound(h, now) => AcceptLeavesUndecided(s, c, r, h, now);
    case Outbound(env) => DecideObeys(s, c, env);
    case Exit(env) => DecideObeys(s, c, env);
  }

  lemma AcceptLeavesUndecided(s: State, c: Settings, r: NrTraceState.Readers, h: Headers, now: int)
    ensures var t := Accept(s, c, r, h, now).0;
      t == s || (MayAccept(s, c) && t.decided == s.decided && t.enabled == s.enabled)
  {
  }

  lemma {:induction false} RunObeys(s: State, c: Settings, r: NrTraceState.Readers, es: seq<Event>)
    requires Fresh(s) && s.enabled && c.distributedTracing
    ensures DecidedBySetting(Run(s, c, r, es).0, c)
    decreases |es|
  {
    if |es| > 0 {
      RunObeys(s, c, r, es[..|es| - 1]);
      RunFits(s, c, r, es[..|es| - 1]);
      StepObeys(Run(s, c, r, es[..|es| - 1]).0, c, r, es[|es| - 1]);
    }
  }

  /** The flag in the traceparent of inbound headers. */
  function FlagOf(e: Event): Option<bool> {
    if !e.Inbound? then None
    else
      var d := TraceParent.Decode(Strip(e.headers.traceparent));
      if d.Accepted? then Some(d.parent.sa) else None
  }

  /** The flag of the remote parent, if headers were accepted in the run. */
  ghost predicate RemoteFlag(es: seq<Event>, outputs: seq<Output>, flag: Option<bool>)
    requires |es| == |outputs|
  {
    if flag.Some? then exists i | 0 <= i < |es| :: outputs[i] == Answer(true) && FlagOf(es[i]) == flag
    else forall i | 0 <= i < |es| :: outputs[i] != Answer(true)
  }

  lemma AcceptRemote(s: State, c: Settings, r: NrTraceState.Readers, h: Headers, now: int)
    ensures var (t, ok) := Accept(s, c, r, h, now);
      t.remoteParentSampled == if ok then FlagOf(Inbound(h, now)) else s.remoteParentSampled
  {
  }

  lemma StepRemote(s: State, c: Settings, r: NrTraceState.Readers, e: Event)
    ensures var (t, o) := Step(s, c, r, e);
      t.remoteParentSampled == if o == Answer(true) then FlagOf(e) else s.remoteParentSampled
  {
    if e.Inbound? {
      AcceptRemote(s, c, r, e.headers, e.now);
    }
  }

  lemma RunOfPrefix(s: State, c: Settings, r: NrTraceState.Readers, es: seq<Event>)
    requires |es| > 0
    ensures var (t, outputs) := Run(s, c, r, es[..|es| - 1]); var all := Run(s, c, r, es);
      && all.0 == Step(t, c, r, es[|es| - 1]).0
      && |all.1| == |outputs| + 1 && all.1[..|outputs|] == outputs && all.1[|outputs|] == Step(t, c, r, es[|es| - 1]).1
  {
  }

  lemma {:induction false} NoneBrought(s: State, c: Settings, r: NrTraceState.Readers, es: seq<Event>)
    requires forall i | 0 <= i < |es| :: Run(s, c, r, es).1[i] != Answer(true)
    ensures Run(s, c, r, es).0.remoteParentSampled == s.remoteParentSampled
    decreases |es|
  {
    if |es| > 0 {
      var n := |es| - 1;
      RunOfPrefix(s, c, r, es);
      var before, all := Run(s, c, r, es[..n]), Run(s, c, r, es);
      assert forall i | 0 <= i < n :: before.1[i] == all.1[i];
      NoneBrought(s, c, r, es[..n]);
      StepRemote(before.0, c, r, es[n]);
    }
  }

  lemma QuietAfterAnswer(s: State, c: Settings, r: NrTraceState.Readers, es: seq<Event>, i: nat)
    requires i < |es| && Run(s, c, r, es).1[i] == Answer(true)
    ensures !MayAccept(Run(s, c, r, es).0, c)
  {
    QuietRun(s, c, r, es);
  }

  lemma RemoteKept(s: State, c: Settings, r: NrTraceState.Readers, e: Event)
    requires !MayAccept(s, c)
    ensures Step(s, c, r, e).0.remoteParentSampled == s.remoteParentSampled
  {
    StepRemote(s, c, r, e);
  }

  lemma OutputOfPrefix(s: State, c: Settings, r: NrTraceState.Readers, es: seq<Event>, i: nat)
    requires i < |es| - 1
    ensures Run(s, c, r, es[..|es| - 1]).1[i] == Run(s, c, r, es).1[i]
  {
    RunOfPrefix(s, c, r, es);
    assert Run(s, c, r, es).1[..|es| - 1][i] == Run(s, c, r, es).1[i];
  }

  /** Accepting headers settles the remote parent's flag for the rest of the run. */
  lemma {:induction false} RemoteSettled(s: State, c: Settings, r: NrTraceState.Readers, es: seq<Event>, i: nat)
    requires i < |es| && Run(s, c, r, es).1[i] == Answer(true)
    ensures Run(s, c, r, es).0.remoteParentSampled == Run(s, c, r, es[..i + 1]).0.remoteParentSampled
    decreases |es|
  {
    var n := |es| - 1;
    if i < n {
      OutputOfPrefix(s, c, r, es, i);
      RemoteSettled(s, c, r, es[..n], i);
      QuietAfterAnswer(s, c, r, es[..n], i);
      RemoteKept(Run(s, c, r, es[..n]).0, c, r, es[n]);
      assert es[..n][..i + 1] == es[..i + 1];
    } else {
      assert es[..i + 1] == es;
    }
  }

  lemma AcceptedLast(s: State, c: Settings, r: NrTraceState.Readers, es: seq<Event>, e: Event)
    requires Run(s, c, r, es + [e]).1[|es|] == Answer(true)
    ensures Run(s, c, r, es + [e]).0.remoteParentSampled == FlagOf(e)
  {
    assert (es + [e])[..|es|] == es;
    StepRemote(Run(s, c, r, es).0, c, r, e);
  }

  lemma {:induction false} OutputStays(s: State, c: Settings, r: NrTraceState.Readers, es: seq<Event>, i: nat)
    requires i < |es|
    ensures Run(s, c, r, es[..i + 1]).1[i] == Run(s, c, r, es).1[i]
    decreases |es|
  {
    if i < |es| - 1 {
      OutputOfPrefix(s, c, r, es, i);
      OutputStays(s, c, r, es[..|es| - 1], i);
      assert es[..|es| - 1][..i + 1] == es[..i + 1];
    } else {
      assert es[..i + 1] == es;
    }
  }

  lemma UpTo(es: seq<Event>, i: nat)
    requires i < |es|
    ensures es[..i] + [es[i]] == es[..i + 1]
  {
  }

  lemma FlagStays(s: State, c: Settings, r: NrTraceState.Readers, es: seq<Event>, i: nat)
    requires i < |es| && Run(s, c, r, es).1[i] == Answer(true)
    ensures Run(s, c, r, es).0.remoteParentSampled == FlagOf(es[i])
  {
    RemoteSettled(s, c, r, es, i);
    OutputStays(s, c, r, es, i);
    UpTo(es, i);
    AcceptedLast(s, c, r, es[..i], es[i]);
  }

  /** Main result: whatever leaves a transaction in whatever run is sampled at 3.0 if the setting
      for its remote parent, or for roots, says always, and not sampled at 0 if it says never. */
  lemma RunObeysSetting(id: string, c: Settings, r: NrTraceState.Readers, es: seq<Event>, i: nat,
                        flag: Option<bool>, k: Sampler)
    requires c.distributedTracing && i < |es| && Tells(Run(New(id, true), c, r, es).1[i])
    requires RemoteFlag(es, Run(New(id, true), c, r, es).1, flag) && Applies(k, c, flag)
    ensures var story := StoryOf(Run(New(id, true), c, r, es).1[i]); OnOrOff(k, story.sampled, story.priority)
  {
    var s := New(id, true);
    var (t, outputs) := Run(s, c, r, es);
    if flag.Some? {
      var j :| 0 <= j < |es| && outputs[j] == Answer(true) && FlagOf(es[j]) == flag;
      FlagStays(s, c, r, es, j);
    } else {
      NoneBrought(s, c, r, es);
    }
    RunObeys(s, c, r, es);
    RunFits(s, c, r, es);
    assert OutputFits(t, outputs[i]);
  }
}

/** The transaction object. */
module DistributedTraceObjects {
  import opened Prelude
  import opened DistributedTraceModel
  import Text
  import TraceParent
  import TraceState
  import NrTraceState

  class Transaction {
    const settings: Settings
    const guid: string
    var enabled: bool
    var traceId: string
    var parent: Parent
    var trustedParentSpan: Option<string>
    var tracingVendors: Option<string>
    var tracestate: string
    var priority: Option<Priority>
    var sampled: Option<bool>
    var remoteParentSampled: Option<bool>
    var dt: DtState
    var decided: bool

    ghost function View(): State
      reads this
    {
      State(guid, enabled, traceId, parent, trustedParentSpan, tracingVendors, tracestate,
            priority, sampled, remoteParentSampled, dt, decided)
    }

    constructor (c: Settings, id: string, on: bool)
      ensures settings == c && View() == New(id, on)
    {
      settings, traceId, guid, enabled := c, id, TraceState.Take(id, 16), on;
      parent, trustedParentSpan, tracingVendors, tracestate := NO_PARENT, None, None, "";
      priority, sampled, remoteParentSampled := None, None, None;
      dt, decided := NEITHER, false;
    }

    /** sampling_algo_compute_sampled_and_priority */
    static method SamplingAlgorithm(inbound: Option<Priority>, flag: Option<bool>, env: Env)
      returns (p: Priority, sa: bool)
      ensures inbound.Some? && flag.Some? ==> p == inbound.value && sa == flag.value
      ensures sa == if flag.Some? then flag.value else env.sampler
      ensures inbound.None? || flag.None? ==>
                var m := if inbound.Some? then NrTraceState.Millionths(inbound.value) else env.random as int;
                if sa then 2_000_000 == NrTraceState.Millionths(p) - Fraction(m)
                else p == if inbound.Some? then inbound.value else NrTraceState.Float(env.random)
      ensures (p, sa) == ComputeSampled(inbound, flag, env)
    {
      var adjust := inbound.None? || flag.None?;
      p := if inbound.Some? then inbound.value else NrTraceState.Float(env.random);
      sa := if flag.Some? then flag.value else env.sampler;
      if adjust && sa {
        p := NrTraceState.Float(Fraction(NrTraceState.Millionths(p)));
        p := NrTraceState.Float(p.millionths + 1_000_000 + 1_000_000);
      }
    }

    method MakeSamplingDecision(env: Env)
      modifies this`priority, this`sampled, this`decided
      ensures View() == Decide(old(View()), settings, env)
    {
      if decided {
        return;
      }
      var config := settings.root;
      if remoteParentSampled.Some? {
        config := if remoteParentSampled.value then settings.remoteParentSampled else settings.remoteParentNotSampled;
      }
      var p: Priority, sa := NrTraceState.Float(3_000_000), true;
      if config.AlwaysOff? {
        p, sa := NrTraceState.IntZero, false;
      } else if config.TraceIdRatioBased? {
        p, sa := SamplingAlgorithm(priority, None, env);
      } else if config.Adaptive? {
        p, sa := SamplingAlgorithm(priority, sampled, env);
      }
      priority, sampled, decided := Some(p), Some(sa), true;
    }

    method CreateDistributedTraceData(env: Env) returns (data: Option<TraceData>)
      modifies this`priority, this`sampled, this`decided, this`dt
      ensures (View(), data) == Create(old(View()), settings, env)
    {
      if !enabled {
        return None;
      }
      var key := TrustedKey(settings);
      if |settings.accountId| == 0 || |settings.primaryApplicationId| == 0 || |key| == 0
         || !settings.distributedTracing {
        return None;
      }
      MakeSamplingDecision(env);
      var tk := if settings.accountId != key then Some(key) else None;
      var id := env.randomId;
      if settings.spanEvents && env.span.Some? {
        id := env.span.value;
      }
      dt := dt.(created := true);
      data := Some(TraceData(traceId, id,
                             NrTraceState.Data(None, settings.accountId, settings.primaryApplicationId, Some(guid),
                                               sampled, PriorityField(priority), env.now, tk)));
    }

    /** insert_distributed_trace_headers */
    method InsertDistributedTraceHeaders(env: Env) returns (headers: Option<Headers>)
      modifies this`priority, this`sampled, this`decided, this`dt
      ensures var (s, data) := Create(old(View()), settings, env);
        && View() == s
        && headers == if data.Some? then Some(Wire(data.value, s.tracestate)) else None
    {
      var data := CreateDistributedTraceData(env);
      if data.None? {
        return None;
      }
      var d := data.value;
      var traceparent := TraceParent.TextOf(TraceParent.Parent(d.tr, d.id, d.nr.sa == Some(true), "00"));
      var text := NrTraceState.TextOf(d.nr);
      if |tracestate| > 0 {
        text := text + "," + tracestate;
      }
      headers := Some(Headers(traceparent, text));
    }

    method AcceptDistributedTraceData(p: TraceParent.Parent, entry: Option<NrTraceState.Decoded>, now: int)
      modifies this
      ensures View() == AcceptData(old(View()), p, entry, now)
    {
      match entry {
        case None =>
          parent := Parent(None, Some(p.id), None, None, None, parent.transportDuration);
          priority, sampled := None, None;
        case Some(e) =>
          var duration := if e.ti > now then 0 else now - e.ti;
          parent := Parent(Some(e.ty), Some(p.id), e.tx, Some(e.ap), Some(e.ac), Some(duration));
          priority, sampled := ReadPriority(e.pr), ReadSampled(e.sa);
      }
      traceId := p.tr;
      dt := DtState(true, false);
    }

    /** The part of accept_distributed_trace_headers about the tracestate. */
    method AcceptTracestate(text: string, r: NrTraceState.Readers) returns (entry: Option<NrTraceState.Decoded>)
      modifies this`tracingVendors, this`tracestate, this`trustedParentSpan
      ensures (View(), entry) == ReadTracestate(old(View()), settings, r, text)
    {
      var key := TrustedKey(settings);
      var vendors := TraceState.DecodeLoop(text);
      var payload := TraceState.Get(vendors, key + "@nr");
      var foreign := TraceState.Without(vendors, key + "@nr");
      tracingVendors := Some(Text.Join(Keys(foreign), ','));
      tracestate := TraceState.TextOf(foreign, 31);
      entry := None;
      if |payload| > 0 {
        entry := NrTraceState.DecodeLoop(payload, key, r);
        if entry.Some? {
          trustedParentSpan := entry.value.id;
        }
      }
    }

    method AcceptDistributedTraceHeaders(h: Headers, r: NrTraceState.Readers, now: int) returns (ok: bool)
      modifies this
      ensures (View(), ok) == Accept(old(View()), settings, r, h, now)
    {
      if !enabled || !settings.distributedTracing || |TrustedKey(settings)| == 0 || dt != NEITHER {
        return false;
      }
      var d := TraceParent.Decode(Strip(h.traceparent));
      if !d.Accepted? {
        return false;
      }
      remoteParentSampled := Some(d.parent.sa);
      var entry := None;
      if |h.tracestate| > 0 {
        entry := AcceptTracestate(h.tracestate, r);
      }
      assert Accept(old(View()), settings, r, h, now) == (AcceptData(View(), d.parent, entry, now), true);
      AcceptDistributedTraceData(d.parent, entry, now);
      ok := true;
    }

    /** The part of __exit__ that settles the sampling and hands over the node. */
    method Exit(env: Env) returns (node: Output)
      modifies this`priority, this`sampled, this`decided, this`enabled
      ensures (View(), node) == ExitStep(old(View()), settings, env)
    {
      if !enabled {
        return NoNode;
      }
      if settings.distributedTracing {
        MakeSamplingDecision(env);
      } else {
        priority, sampled := Some(NrTraceState.Float(env.random)), Some(false);
      }
      node := Node(traceId, sampled, priority);
      enabled := false;
    }
  }
}
