/** A request that passes through a chain of services of one trusted account: each accepts the
    headers of its predecessor and then sends headers of its own
    (newrelic/api/transaction.py with newrelic/common/encoding_utils.py). */
module ServiceChain {
  import opened Prelude
  import opened DistributedTraceModel
  import Iteration
  import Text
  import TraceParent
  import TraceState
  import NrTraceState

  /** A service with the random trace id of its transaction, the time when the request comes in
      and what it gets from outside when it sends its headers. */
  datatype Service = Service(settings: Settings, id: string, arrival: int, env: Env)

  datatype Hop = Hop(accepted: bool, state: State, sent: Option<Headers>)

  /** The transaction t of service v sends its headers. */
  function Send(v: Service, t: State, accepted: bool): Hop {
    var (u, data) := Create(t, v.settings, v.env);
    Hop(accepted, u, if data.Some? then Some(Wire(data.value, u.tracestate)) else None)
  }

  function Serve(v: Service, r: NrTraceState.Readers, inbound: Option<Headers>): Hop {
    var s := New(v.id, true);
    if inbound.None? then Send(v, s, false)
    else
      var (t, ok) := Accept(s, v.settings, r, inbound.value, v.arrival);
      Send(v, t, ok)
  }

  /** The hop at a service that the headers of another hop come to. */
  function After(r: NrTraceState.Readers): (Service, Hop) -> Hop {
    (v: Service, before: Hop) => Serve(v, r, before.sent)
  }

  /** The hops of a chain of services, the first of which has sent its headers already. */
  function Chain(start: Hop, vs: seq<Service>, r: NrTraceState.Readers): (hops: seq<Hop>)
    requires |vs| > 0
    ensures |hops| == |vs|
  {
    Iteration.Iterate(start, vs, After(r))
  }

  // ----- what is asked of the services -------------------------------------------------

  /** A non-empty text of letters and digits. */
  predicate IsId(s: string) {
    |s| > 0 && forall k | 0 <= k < |s| :: NrTraceState.IdChar(s[k])
  }

  predicate OkSettings(c: Settings, key: string) {
    && c.distributedTracing && c.spanEvents && TrustedKey(c) == key
    && IsId(c.accountId) && IsId(c.primaryApplicationId) && IsId(key)
  }

  predicate OkEnv(env: Env) {
    env.random <= 1_000_000 && env.span.Some? && TraceParent.ValidSpanId(env.span.value)
  }

  predicate OkService(v: Service, key: string) {
    OkSettings(v.settings, key) && OkEnv(v.env) && TraceParent.ValidTraceId(v.id)
  }

  function OwnKey(key: string): string {
    key + "@nr"
  }

  /** A tracestate kept for sending on: at most 31 solid foreign entries. */
  predicate Kept(text: string, key: string) {
    var d := TraceState.Decode(text);
    && TraceState.SolidVendors(d) && |d| <= 31 && TraceState.TextOf(d, 31) == text
    && forall i | 0 <= i < |d| :: d[i].0 != OwnKey(key)
  }

  predicate OkPriority(s: State) {
    s.priority.Some? ==> InRange(s.priority.value)
  }

  /** A transaction that is ready to send headers. */
  predicate Ready(s: State, key: string) {
    s.enabled && TraceParent.ValidTraceId(s.traceId) && IsId(s.guid) && Kept(s.tracestate, key)
  }

  /** A transaction whose sampling is settled. */
  predicate Sendable(s: State) {
    s.priority.Some? && 0 <= NrTraceState.Millionths(s.priority.value) && s.sampled.Some?
  }

  /** Headers from outside the chain: a valid traceparent, blanks as the only whitespace of the
      tracestate and none leading, and a priority from 0 to 3 if there is one. */
  predicate OkInbound(h: Headers, c: Settings, r: NrTraceState.Readers) {
    && '\n' !in h.traceparent && TraceParent.Decode(Strip(h.traceparent)).Accepted?
    && TraceState.Clean(h.tracestate)
    && var entry := OwnEntry(TraceState.Decode(h.tracestate), c, r);
       entry.Some? && entry.value.pr.Val? ==> 0 <= entry.value.pr.value <= 3_000_000
  }

  // ----- the agent's entry on its way --------------------------------------------------

  /** The exact condition for the agent's entry to arrive: key and payload are short enough for
      the decoder and the time is not negative. */
  predicate EntryFits(d: NrTraceState.Data) {
    TraceState.Short((NrTraceState.Key(d), NrTraceState.Payload(d))) && 0 <= d.ti
  }

  lemma IdIsPlain(s: string)
    requires IsId(s)
    ensures NrTraceState.PlainText(s) && '-' !in s
  {
  }

  lemma DataIsPlain(s: State, c: Settings, env: Env, key: string)
    requires OkSettings(c, key) && IsId(s.guid) && Sendable(s)
    ensures NrTraceState.PlainData(DataOf(s, c, env).nr)
    ensures NrTraceState.Key(DataOf(s, c, env).nr) == OwnKey(key)
  {
    IdIsPlain(c.accountId);
    IdIsPlain(c.primaryApplicationId);
    IdIsPlain(s.guid);
    IdIsPlain(key);
  }

  // ----- one link ----------------------------------------------------------------------

  lemma NoBlanksNoStrip(s: string)
    requires |s| > 0 && !TraceState.IsSpace(s[0]) && !TraceState.IsSpace(s[|s| - 1])
    ensures Strip(s) == s
  {
  }

  lemma ParentTextEnds(p: TraceParent.Parent)
    requires p.v == "00" && TraceParent.ValidTraceId(p.tr)
    ensures var t := TraceParent.TextOf(p); |t| > 0 && t[0] == '0' && t[|t| - 1] in "01"
  {
    var parts := [p.v, TraceParent.ZFill(LowerText(p.tr)), p.id, TraceParent.Flags(p.sa)];
    TraceState.JoinEndsSolid(parts, '-');
    assert Text.Join(parts, '-')[0] == parts[0][0];
  }

  /** What the predecessor's traceparent says on arrival. */
  lemma ParentArrives(p: TraceParent.Parent)
    requires p.v == "00" && TraceParent.ValidTraceId(p.tr) && TraceParent.ValidSpanId(p.id)
    ensures TraceParent.Decode(Strip(TraceParent.TextOf(p))) == TraceParent.Accepted(p)
  {
    ParentTextEnds(p);
    NoBlanksNoStrip(TraceParent.TextOf(p));
    TraceParent.LowerIdIsKept(p.tr);
    TraceParent.DecodeUndoesText(p);
  }

  lemma {:induction false} OwnIsFound(own: (string, string), foreign: TraceState.Vendors)
    requires forall i | 0 <= i < |foreign| :: foreign[i].0 != own.0
    ensures TraceState.Get([own] + foreign, own.0) == own.1
  {
    var d := [own] + foreign;
    assert d[0].0 == own.0;
    var i := TraceState.IndexOfKey(d, own.0);
    assert i.Some? && forall k | 0 < k < |d| :: d[k] == foreign[k - 1];
  }

  lemma {:induction false} OthersRemain(own: (string, string), foreign: TraceState.Vendors)
    requires forall i | 0 <= i < |foreign| :: foreign[i].0 != own.0
    ensures TraceState.Without([own] + foreign, own.0) == foreign
    decreases |foreign|
  {
    var d := [own] + foreign;
    if |foreign| > 0 {
      var rest := foreign[..|foreign| - 1];
      assert d[..|d| - 1] == [own] + rest;
      OthersRemain(own, rest);
      assert foreign == rest + [foreign[|foreign| - 1]];
    } else {
      assert d[..0] == [];
    }
  }

  lemma {:induction false} NoneToRemove(d: TraceState.Vendors, k: string)
    requires forall i | 0 <= i < |d| :: d[i].0 != k
    ensures TraceState.Without(d, k) == d
    decreases |d|
  {
    if |d| > 0 {
      TraceState.LastPair(d);
      NoneToRemove(d[..|d| - 1], k);
    }
  }

  lemma NoneToGet(d: TraceState.Vendors, k: string)
    requires forall i | 0 <= i < |d| :: d[i].0 != k
    ensures TraceState.Get(d, k) == ""
  {
    assert TraceState.IndexOfKey(d, k).None?;
  }

  lemma KeptWhole(kept: string, key: string)
    requires Kept(kept, key)
    ensures TraceState.Take(TraceState.Decode(kept), 31) == TraceState.Decode(kept)
  {
  }

  /** What the predecessor's tracestate decodes to on arrival. */
  lemma VendorsArrive(d: NrTraceState.Data, kept: string, key: string)
    requires NrTraceState.PlainData(d) && NrTraceState.Key(d) == OwnKey(key) && Kept(kept, key)
    ensures var own := (OwnKey(key), NrTraceState.Payload(d));
      TraceState.Decode(TraceState.Emitted(NrTraceState.TextOf(d), kept))
      == if TraceState.Short(own) then [own] + TraceState.Decode(kept) else TraceState.Decode(kept)
  {
    NrTraceState.MemberIsPlain(d);
    KeptWhole(kept, key);
    var own, foreign := (OwnKey(key), NrTraceState.Payload(d)), TraceState.Decode(kept);
    if TraceState.Short(own) {
      TraceState.EmittedDecodes(own, foreign, 31);
    } else {
      TraceState.OverlongIsDropped(own, foreign, 31);
    }
  }

  /** What the agent's entry says on arrival. */
  function Entry(d: NrTraceState.Data, key: string): NrTraceState.Decoded {
    NrTraceState.Decoded(key, d.ti, NrTraceState.GetOr(d.v, "0"), "App", d.ac, d.ap, None,
                         NrTraceState.NonEmpty(NrTraceState.GetOr(d.tx, "")),
                         NrTraceState.Val(d.sa == Some(true)), NrTraceState.DecodedPriority(d.pr))
  }

  lemma PayloadReads(d: NrTraceState.Data, key: string, r: NrTraceState.Readers)
    requires NrTraceState.PlainData(d) && NrTraceState.Plain(r)
    ensures NrTraceState.Decode(NrTraceState.Payload(d), key, r) == if 0 <= d.ti then Some(Entry(d, key)) else None
  {
    if 0 <= d.ti {
      NrTraceState.DecodeUndoesText(d, key, r);
    } else {
      NrTraceState.DecodesIffTimeNotNegative(d, key, r);
    }
  }

  /** The agent's entry arrives if and only if it fits; the foreign entries arrive in any case. */
  lemma EntryArrivesIff(d: NrTraceState.Data, kept: string, key: string, c: Settings, r: NrTraceState.Readers)
    requires NrTraceState.PlainData(d) && NrTraceState.Key(d) == OwnKey(key) && Kept(kept, key)
    requires TrustedKey(c) == key && NrTraceState.Plain(r)
    ensures var vendors := TraceState.Decode(TraceState.Emitted(NrTraceState.TextOf(d), kept));
      && OwnEntry(vendors, c, r) == (if EntryFits(d) then Some(Entry(d, key)) else None)
      && TraceState.Without(vendors, OwnKey(key)) == TraceState.Decode(kept)
  {
    VendorsArrive(d, kept, key);
    var own := (OwnKey(key), NrTraceState.Payload(d));
    if TraceState.Short(own) {
      OwnIsFound(own, TraceState.Decode(kept));
      OthersRemain(own, TraceState.Decode(kept));
      NrTraceState.PayloadIsPlain(d);
      PayloadReads(d, key, r);
    } else {
      NoneToRemove(TraceState.Decode(kept), OwnKey(key));
      NoneToGet(TraceState.Decode(kept), OwnKey(key));
    }
  }

  lemma TracestateArrives(t: State, d: NrTraceState.Data, kept: string, key: string, c: Settings, r: NrTraceState.Readers)
    requires NrTraceState.PlainData(d) && NrTraceState.Key(d) == OwnKey(key) && Kept(kept, key)
    requires TrustedKey(c) == key && NrTraceState.Plain(r)
    ensures ReadTracestate(t, c, r, TraceState.Emitted(NrTraceState.TextOf(d), kept))
            == (WithKept(t, kept, EntryFits(d)), if EntryFits(d) then Some(Entry(d, key)) else None)
  {
    EntryArrivesIff(d, kept, key, c, r);
  }

  /** The transaction t with the foreign entries it has been sent. */
  function WithKept(t: State, kept: string, entry: bool): State {
    t.(tracingVendors := Some(Text.Join(Keys(TraceState.Decode(kept)), ',')), tracestate := kept,
       trustedParentSpan := if entry then None else t.trustedParentSpan)
  }

  /** The transaction t after it has accepted what s sends: the traceparent and the foreign
      entries in any case, the rest if the agent's entry fits. */
  function Arrived(t: State, s: State, c: Settings, env: Env, arrival: int): State
    requires env.span.Some? && s.priority.Some?
  {
    Learned(t, s, c, env, arrival, EntryFits(DataOf(s, c, env).nr))
  }

  function Learned(t: State, s: State, c: Settings, env: Env, arrival: int, fits: bool): State
    requires env.span.Some? && s.priority.Some?
  {
    var u := WithKept(t, s.tracestate, fits)
      .(traceId := s.traceId, remoteParentSampled := s.sampled, dt := DtState(true, false));
    if fits then
      u.(parent := Parent(Some("App"), env.span, Some(s.guid), Some(c.primaryApplicationId), Some(c.accountId),
                          Some(Max(0, arrival - env.now))),
         sampled := s.sampled,
         priority := Some(NrTraceState.Float(NrTraceState.Millionths(s.priority.value))))
    else
      u.(parent := Parent(None, env.span, None, None, None, t.parent.transportDuration),
         sampled := None, priority := None)
  }

  lemma FlagIsKept(f: Option<bool>)
    requires f.Some?
    ensures Some(f == Some(true)) == f
  {
    if f.value {
      assert f == Some(true);
    } else {
      assert f == Some(false);
    }
  }

  /** What the agent's entry says of s. */
  predicate Tells(e: NrTraceState.Decoded, s: State, c: Settings, env: Env)
    requires s.priority.Some?
  {
    && e.ty == "App" && e.tx == Some(s.guid) && e.ap == c.primaryApplicationId && e.ac == c.accountId && e.ti == env.now
    && ReadSampled(e.sa) == s.sampled
    && ReadPriority(e.pr) == Some(NrTraceState.Float(NrTraceState.Millionths(s.priority.value)))
  }

  lemma EntryTells(s: State, c: Settings, env: Env, key: string)
    requires OkSettings(c, key) && OkEnv(env) && IsId(s.guid) && Sendable(s)
    ensures Tells(Entry(DataOf(s, c, env).nr, key), s, c, env)
  {
    var e := Entry(DataOf(s, c, env).nr, key);
    FlagIsKept(s.sampled);
    assert e.tx == Some(s.guid);
    assert ReadSampled(e.sa) == s.sampled;
    assert ReadPriority(e.pr) == Some(NrTraceState.Float(NrTraceState.Millionths(s.priority.value)));
  }

  lemma DataArrives(t: State, s: State, c: Settings, env: Env, arrival: int, p: TraceParent.Parent,
                    entry: Option<NrTraceState.Decoded>)
    requires s.priority.Some? && Some(p.id) == env.span && p.tr == s.traceId && Some(p.sa) == s.sampled
    requires entry.Some? ==> Tells(entry.value, s, c, env)
    ensures AcceptData(WithKept(t.(remoteParentSampled := Some(p.sa)), s.tracestate, entry.Some?), p, entry, arrival)
            == Learned(t, s, c, env, arrival, entry.Some?)
  {
  }

  lemma Accepts(t: State, e: Settings, r: NrTraceState.Readers, h: Headers, arrival: int, p: TraceParent.Parent)
    requires MayAccept(t, e) && |h.tracestate| > 0
    requires TraceParent.Decode(Strip(h.traceparent)) == TraceParent.Accepted(p)
    ensures var (w, entry) := ReadTracestate(t.(remoteParentSampled := Some(p.sa)), e, r, h.tracestate);
      Accept(t, e, r, h, arrival) == (AcceptData(w, p, entry, arrival), true)
  {
  }

  /** One link: the successor accepts the headers and learns just this. */
  lemma Link(s: State, c: Settings, env: Env, t: State, e: Settings, arrival: int, key: string, r: NrTraceState.Readers)
    requires Ready(s, key) && Sendable(s)
    requires OkSettings(c, key) && OkEnv(env) && OkSettings(e, key) && NrTraceState.Plain(r)
    requires t.enabled && t.dt == NEITHER
    ensures Accept(t, e, r, Wire(DataOf(s, c, env), s.tracestate), arrival) == (Arrived(t, s, c, env, arrival), true)
  {
    var data := DataOf(s, c, env);
    var p := TraceParent.Parent(data.tr, data.id, data.nr.sa == Some(true), "00");
    ParentArrives(p);
    Accepts(t, e, r, Wire(data, s.tracestate), arrival, p);
    TracestateArrives(t.(remoteParentSampled := Some(p.sa)), data.nr, s.tracestate, key, e, r) by {
      DataIsPlain(s, c, env, key);
    }
    FlagIsKept(s.sampled);
    EntryTells(s, c, env, key);
    DataArrives(t, s, c, env, arrival, p, if EntryFits(data.nr) then Some(Entry(data.nr, key)) else None);
  }

  // ----- the hops of a chain -----------------------------------------------------------

  /** A transaction of service v that is about to send its first headers. */
  predicate ReadyAt(t: State, v: Service, key: string) {
    Ready(t, key) && OkPriority(t) && !t.decided && t.guid == TraceState.Take(v.id, 16)
  }

  /** A hop at which such a transaction has sent its headers. */
  ghost predicate Served(hop: Hop, v: Service, key: string) {
    exists t, accepted :: ReadyAt(t, v, key) && hop == Send(v, t, accepted)
  }

  predicate SameSampling(s: State, t: State) {
    && s.sampled == t.sampled && s.priority.Some? && t.priority.Some?
    && NrTraceState.Millionths(s.priority.value) == NrTraceState.Millionths(t.priority.value)
  }

  /** The agent's entry of a hop at service w fits. */
  predicate HopFits(hop: Hop, w: Service) {
    EntryFits(DataOf(hop.state, w.settings, w.env).nr)
  }

  /** The hop at service v knows the one before, at service w: its trace id, span, sampled flag
      and foreign entries always, the rest exactly if the agent's entry fits. */
  predicate Follows(hop: Hop, v: Service, before: Hop, w: Service) {
    && hop.accepted
    && hop.state.traceId == before.state.traceId
    && hop.state.parent.span == w.env.span
    && hop.state.remoteParentSampled == before.state.sampled
    && hop.state.tracestate == before.state.tracestate
    && hop.state.parent.tx == (if HopFits(before, w) then Some(before.state.guid) else None)
    && hop.state.parent.app == (if HopFits(before, w) then Some(w.settings.primaryApplicationId) else None)
    && hop.state.parent.account == (if HopFits(before, w) then Some(w.settings.accountId) else None)
    && (HopFits(before, w) && SamplerFor(v.settings, before.state.sampled) == Adaptive ==>
          SameSampling(before.state, hop.state))
  }

  lemma EmptyIsKept(key: string)
    ensures Kept("", key)
  {
    TraceState.DecodeOfMembers([]);
    assert Text.Join(TraceState.Members([]), ',') == "";
  }

  lemma NewIsReady(v: Service, key: string)
    requires OkService(v, key)
    ensures ReadyAt(New(v.id, true), v, key)
  {
    EmptyIsKept(key);
  }

  lemma ForeignIsKept(tracestate: string, key: string)
    requires TraceState.Clean(tracestate)
    ensures Kept(TraceState.TextOf(TraceState.Without(TraceState.Decode(tracestate), OwnKey(key)), 31), key)
  {
    var foreign := TraceState.Without(TraceState.Decode(tracestate), OwnKey(key));
    TraceState.DecodedIsSolid(tracestate);
    TraceState.WithoutIsSolid(TraceState.Decode(tracestate), OwnKey(key));
    var some := TraceState.Take(foreign, 31);
    TraceState.TakeIsSolid(foreign, 31);
    TraceState.DecodeOfMembers(some);
    assert TraceState.Take(some, 31) == some;
  }

  lemma {:induction false} StripKeepsOut(s: string, c: char)
    requires c !in s
    ensures c !in Strip(s)
  {
    var t := TraceState.StripRight(s);
    assert forall x | x in t :: x in s;
    StripLeftIsSuffix(t);
  }

  lemma {:induction false} StripLeftIsSuffix(s: string)
    ensures forall x | x in StripLeft(s) :: x in s
    decreases |s|
  {
    if |s| > 0 && TraceState.IsSpace(s[0]) {
      StripLeftIsSuffix(s[1..]);
    }
  }

  lemma FieldKeepsOut(h: string, i: nat)
    requires '\n' !in h && i < |Text.Split(h, '-', 4)|
    ensures '\n' !in Text.Split(h, '-', 4)[i]
  {
    Text.JoinOfSplit(h, '-', 4);
    Text.PartsKeepOut(Text.Split(h, '-', 4), '-', '\n');
  }

  lemma DecodedIdIsValid(h: string)
    requires '\n' !in h && TraceParent.Decode(h).Accepted?
    ensures TraceParent.ValidTraceId(TraceParent.Decode(h).parent.tr)
  {
    var tr := Text.Split(h, '-', 4)[1];
    FieldKeepsOut(h, 1);
    assert tr[..|tr|] == tr;
  }

  lemma InboundIsReady(v: Service, h: Headers, key: string, r: NrTraceState.Readers)
    requires OkService(v, key) && OkInbound(h, v.settings, r)
    ensures var (t, ok) := Accept(New(v.id, true), v.settings, r, h, v.arrival);
      ok && ReadyAt(t, v, key)
  {
    var s, d := New(v.id, true), TraceParent.Decode(Strip(h.traceparent));
    NewIsReady(v, key);
    assert TraceParent.ValidTraceId(d.parent.tr) by {
      StripKeepsOut(h.traceparent, '\n');
      DecodedIdIsValid(Strip(h.traceparent));
    }
    var u := s.(remoteParentSampled := Some(d.parent.sa));
    if |h.tracestate| == 0 {
      DataIsReady(u, d.parent, None, v.arrival, key);
    } else {
      ForeignIsKept(h.tracestate, key);
      var (w, entry) := ReadTracestate(u, v.settings, r, h.tracestate);
      DataIsReady(w, d.parent, entry, v.arrival, key);
    }
    assert MayAccept(s, v.settings);
  }

  lemma DataIsReady(t: State, p: TraceParent.Parent, entry: Option<NrTraceState.Decoded>, now: int, key: string)
    requires t.enabled && IsId(t.guid) && Kept(t.tracestate, key) && TraceParent.ValidTraceId(p.tr)
    requires entry.Some? && entry.value.pr.Val? ==> 0 <= entry.value.pr.value <= 3_000_000
    ensures Ready(AcceptData(t, p, entry, now), key) && OkPriority(AcceptData(t, p, entry, now))
  {
  }

  /** Sending keeps a transaction ready, and settles its sampling. */
  lemma ReadySends(t: State, c: Settings, env: Env, key: string)
    requires Ready(t, key) && OkPriority(t) && !t.decided && OkSettings(c, key) && OkEnv(env)
    ensures var (u, data) := Create(t, c, env);
      && Ready(u, key) && Sendable(u) && OkPriority(u) && data == Some(DataOf(u, c, env))
      && u == Decide(t, c, env).(dt := t.dt.(created := true))
  {
    PriorityStaysInRange(t, c, env);
    var d := Decide(t, c, env);
    assert DataOf(d, c, env) == DataOf(d.(dt := t.dt.(created := true)), c, env);
  }

  /** What a hop that has sent headers is like; its priority is in [0, 3] for every setting of
      the samplers. */
  lemma ServedFacts(hop: Hop, v: Service, key: string)
    requires OkService(v, key) && Served(hop, v, key)
    ensures Ready(hop.state, key) && Sendable(hop.state) && InRange(hop.state.priority.value)
    ensures hop.state.guid == TraceState.Take(v.id, 16)
    ensures hop.sent == Some(Wire(DataOf(hop.state, v.settings, v.env), hop.state.tracestate))
  {
    var t, accepted :| ReadyAt(t, v, key) && hop == Send(v, t, accepted);
    ReadySends(t, v.settings, v.env, key);
  }

  lemma FirstServes(v: Service, r: NrTraceState.Readers, first: Option<Headers>, key: string)
    requires OkService(v, key) && (first.Some? ==> OkInbound(first.value, v.settings, r))
    ensures Served(Serve(v, r, first), v, key)
  {
    var s := New(v.id, true);
    if first.Some? {
      InboundIsReady(v, first.value, key, r);
      var t := Accept(s, v.settings, r, first.value, v.arrival).0;
      assert ReadyAt(t, v, key) && Serve(v, r, first) == Send(v, t, true);
    } else {
      NewIsReady(v, key);
      assert ReadyAt(s, v, key) && Serve(v, r, first) == Send(v, s, false);
    }
  }

  lemma ArrivedIsReady(t: State, s: State, c: Settings, env: Env, arrival: int, key: string)
    requires Ready(s, key) && Sendable(s) && OkPriority(s) && OkEnv(env) && t.enabled && IsId(t.guid)
    ensures Ready(Arrived(t, s, c, env, arrival), key) && OkPriority(Arrived(t, s, c, env, arrival))
  {
    LearnedIsReady(t, s, c, env, arrival, EntryFits(DataOf(s, c, env).nr), key);
  }

  lemma LearnedIsReady(t: State, s: State, c: Settings, env: Env, arrival: int, fits: bool, key: string)
    requires Ready(s, key) && Sendable(s) && OkPriority(s) && OkEnv(env) && t.enabled && IsId(t.guid)
    ensures Ready(Learned(t, s, c, env, arrival, fits), key) && OkPriority(Learned(t, s, c, env, arrival, fits))
  {
  }

  /** What service v knows of its predecessor w once it has accepted the headers. */
  function Next(s: State, w: Service, v: Service): State
    requires w.env.span.Some? && s.priority.Some?
  {
    Arrived(New(v.id, true), s, w.settings, w.env, v.arrival)
  }

  lemma NextAccepts(before: Hop, w: Service, v: Service, key: string, r: NrTraceState.Readers)
    requires OkService(w, key) && OkService(v, key) && NrTraceState.Plain(r) && Served(before, w, key)
    ensures before.state.priority.Some? && before.state.sampled.Some?
    ensures Serve(v, r, before.sent) == Send(v, Next(before.state, w, v), true)
  {
    ServedFacts(before, w, key);
    Link(before.state, w.settings, w.env, New(v.id, true), v.settings, v.arrival, key, r);
  }

  lemma NextIsReady(before: Hop, w: Service, v: Service, key: string)
    requires OkService(w, key) && OkService(v, key) && Served(before, w, key)
    ensures before.state.priority.Some? && ReadyAt(Next(before.state, w, v), v, key)
  {
    ServedFacts(before, w, key);
    ArrivedIsReady(New(v.id, true), before.state, w.settings, w.env, v.arrival, key);
  }

  lemma NextServes(before: Hop, w: Service, v: Service, key: string, r: NrTraceState.Readers)
    requires OkService(w, key) && OkService(v, key) && NrTraceState.Plain(r) && Served(before, w, key)
    ensures Served(Serve(v, r, before.sent), v, key)
  {
    NextAccepts(before, w, v, key, r);
    NextIsReady(before, w, v, key);
  }

  lemma SendTells(before: Hop, w: Service, v: Service)
    requires w.env.span.Some? && before.state.priority.Some? && before.state.sampled.Some?
    requires MayCreate(Next(before.state, w, v), v.settings)
    ensures Follows(Send(v, Next(before.state, w, v), true), v, before, w)
  {
  }

  lemma NextFollows(before: Hop, w: Service, v: Service, key: string, r: NrTraceState.Readers)
    requires OkService(w, key) && OkService(v, key) && NrTraceState.Plain(r) && Served(before, w, key)
    ensures Follows(Serve(v, r, before.sent), v, before, w)
  {
    NextAccepts(before, w, v, key, r);
    SendTells(before, w, v);
  }

  predicate AllOk(vs: seq<Service>, key: string) {
    forall k | 0 <= k < |vs| :: OkService(vs[k], key)
  }

  /** Every hop has sent headers. */
  ghost predicate AllServed(hops: seq<Hop>, vs: seq<Service>, key: string) {
    |hops| == |vs| && forall k | 0 <= k < |hops| :: Served(hops[k], vs[k], key)
  }

  /** Every hop knows the one before it. */
  ghost predicate Linked(hops: seq<Hop>, vs: seq<Service>) {
    |hops| == |vs| && forall k | 0 < k < |hops| :: Follows(hops[k], vs[k], hops[k - 1], vs[k - 1])
  }

  ghost function ServedAt(key: string): (Hop, Service) -> bool {
    (hop: Hop, v: Service) => Served(hop, v, key)
  }

  function FollowsAt(): (Hop, Service, Hop, Service) -> bool {
    (hop: Hop, v: Service, before: Hop, w: Service) => Follows(hop, v, before, w)
  }

  lemma NextKeeps(before: Hop, w: Service, v: Service, key: string, r: NrTraceState.Readers)
    requires NrTraceState.Plain(r) && OkService(w, key) && OkService(v, key) && ServedAt(key)(before, w)
    ensures ServedAt(key)(After(r)(v, before), v)
    ensures FollowsAt()(After(r)(v, before), v, before, w)
  {
    NextServes(before, w, v, key, r);
    NextFollows(before, w, v, key, r);
  }

  lemma EveryNextKeeps(vs: seq<Service>, key: string, r: NrTraceState.Readers)
    requires NrTraceState.Plain(r) && AllOk(vs, key)
    ensures forall h, k | 0 < k < |vs| && ServedAt(key)(h, vs[k - 1]) ::
              ServedAt(key)(After(r)(vs[k], h), vs[k]) && FollowsAt()(After(r)(vs[k], h), vs[k], h, vs[k - 1])
  {
    forall h, k | 0 < k < |vs| && ServedAt(key)(h, vs[k - 1])
      ensures ServedAt(key)(After(r)(vs[k], h), vs[k]) && FollowsAt()(After(r)(vs[k], h), vs[k], h, vs[k - 1])
    {
      NextKeeps(h, vs[k - 1], vs[k], key, r);
    }
  }

  lemma ChainKeeps(start: Hop, vs: seq<Service>, r: NrTraceState.Readers, key: string)
    requires |vs| > 0 && NrTraceState.Plain(r) && AllOk(vs, key) && ServedAt(key)(start, vs[0])
    ensures var hops := Chain(start, vs, r);
      && (forall k | 0 <= k < |vs| :: ServedAt(key)(hops[k], vs[k]))
      && (forall k | 0 < k < |vs| :: FollowsAt()(hops[k], vs[k], hops[k - 1], vs[k - 1]))
  {
    EveryNextKeeps(vs, key, r);
    Iteration.Invariant(start, vs, After(r), ServedAt(key), FollowsAt());
  }

  /** Main result: every service accepts the headers of the one before it and takes over its
      trace id; it knows the span, the transaction, the application, the account and the
      sampled flag of its predecessor, and sends the same foreign tracestate entries on; an
      adaptive sampler takes over the sampling. */
  lemma ChainIsLinked(start: Hop, vs: seq<Service>, r: NrTraceState.Readers, key: string)
    requires |vs| > 0 && NrTraceState.Plain(r) && AllOk(vs, key) && Served(start, vs[0], key)
    ensures AllServed(Chain(start, vs, r), vs, key)
    ensures Linked(Chain(start, vs, r), vs)
  {
    ChainKeeps(start, vs, r, key);
    var hops := Chain(start, vs, r);
    forall k | 0 <= k < |vs|
      ensures Served(hops[k], vs[k], key)
    {
      assert ServedAt(key)(hops[k], vs[k]);
    }
    forall k | 0 < k < |vs|
      ensures Follows(hops[k], vs[k], hops[k - 1], vs[k - 1])
    {
      assert FollowsAt()(hops[k], vs[k], hops[k - 1], vs[k - 1]);
    }
  }

  function ExampleService(): Service {
    Service(Settings("1", "1", "2", false, true, true, Adaptive, AlwaysOn, AlwaysOff),
            TraceParent.Repeat('a', 32), 0, Env(0, true, 0, Some(TraceParent.Repeat('b', 16)), ""))
  }

  lemma ExampleIsOk()
    ensures OkService(ExampleService(), "1")
  {
    var a, zero := TraceParent.Repeat('a', 32), TraceParent.Repeat('0', 32);
    assert a[0] != zero[0];
    var b, none := TraceParent.Repeat('b', 16), TraceParent.Repeat('0', 16);
    assert b[0] != none[0];
  }

  lemma ExampleServes(r: NrTraceState.Readers)
    ensures Served(Serve(ExampleService(), r, None), ExampleService(), "1")
  {
    ExampleIsOk();
    FirstServes(ExampleService(), r, None, "1");
  }

  lemma CopiesAreOk(n: nat, v: Service, key: string)
    requires OkService(v, key)
    ensures AllOk(seq(n, _ => v), key)
  {
  }

  /** A state from which a priority of 7 is sent with the sampled flag, as a foreign sender may do. */
  function HighPriority(): State {
    New(ExampleService().id, true).(priority := Some(NrTraceState.Float(7_000_000)), sampled := Some(true))
  }

  lemma HighPriorityIsReady()
    ensures Ready(HighPriority(), "1") && Sendable(HighPriority())
  {
    ExampleIsOk();
    NewIsReady(ExampleService(), "1");
  }

  lemma HighPriorityFits()
    ensures EntryFits(DataOf(HighPriority(), ExampleService().settings, ExampleService().env).nr)
  {
    ExampleIsOk();
    HighPriorityIsReady();
    ShortIdsFit(HighPriority(), ExampleService().settings, ExampleService().env, "1");
  }

  lemma AdaptiveKeeps(t: State, c: Settings, env: Env)
    requires !t.decided && t.sampled.Some? && t.priority.Some? && SamplerFor(c, t.remoteParentSampled) == Adaptive
    ensures Decide(t, c, env).priority == t.priority
  {
  }

  /** Such headers are accepted, and the adaptive sampler keeps the priority. */
  lemma HighPriorityIsKept(r: NrTraceState.Readers)
    requires NrTraceState.Plain(r)
    ensures var v := ExampleService();
            var h := Wire(DataOf(HighPriority(), v.settings, v.env), "");
            var (t, ok) := Accept(New(v.id, true), v.settings, r, h, 0);
      ok && Decide(t, v.settings.(remoteParentSampled := Adaptive), v.env).priority
            == Some(NrTraceState.Float(7_000_000))
  {
    var v, s := ExampleService(), HighPriority();
    ExampleIsOk();
    HighPriorityIsReady();
    HighPriorityFits();
    Link(s, v.settings, v.env, New(v.id, true), v.settings, 0, "1", r);
    AdaptiveKeeps(Arrived(New(v.id, true), s, v.settings, v.env, 0), v.settings.(remoteParentSampled := Adaptive), v.env);
  }

  /** There are such chains, of every length. */
  lemma ChainsExist(n: nat) returns (start: Hop, vs: seq<Service>, r: NrTraceState.Readers)
    requires n > 0
    ensures |vs| == n && AllOk(vs, "1") && NrTraceState.Plain(r) && ServedAt("1")(start, vs[0])
  {
    ExampleIsOk();
    vs, r := seq(n, _ => ExampleService()), NrTraceState.DecimalReaders();
    start := Serve(ExampleService(), r, None);
    CopiesAreOk(n, ExampleService(), "1");
    ExampleServes(r);
    NrTraceState.DecimalReadersArePlain();
  }

  /** One trace id and one set of foreign entries from end to end. */
  lemma {:induction false} OneTrace(hops: seq<Hop>, vs: seq<Service>, i: nat)
    requires Linked(hops, vs) && i < |hops|
    ensures hops[i].state.traceId == hops[0].state.traceId
    ensures hops[i].state.tracestate == hops[0].state.tracestate
    decreases i
  {
    if i > 0 {
      OneTrace(hops, vs, i - 1);
      assert Follows(hops[i], vs[i], hops[i - 1], vs[i - 1]);
    }
  }

  predicate AdaptiveChildren(vs: seq<Service>) {
    forall k | 0 < k < |vs| ::
      vs[k].settings.remoteParentSampled == Adaptive && vs[k].settings.remoteParentNotSampled == Adaptive
  }

  // ----- when entries fit --------------------------------------------------------------

  const SHORT := 27

  lemma {:induction false} ShowNatLength(n: nat, k: nat)
    requires k > 0 && n < Text.Pow10(k)
    ensures |Text.ShowNat(n)| <= k
    decreases k
  {
    if n >= 10 {
      assert Text.Pow10(k) == 10 * Text.Pow10(k - 1);
      assert Text.Pow10(0) == 1;
      ShowNatLength(n / 10, k - 1);
    }
  }

  lemma {:induction false} JoinLength(parts: seq<string>, sep: char, most: nat)
    requires forall k | 0 <= k < |parts| :: |parts[k]| <= most
    ensures |Text.Join(parts, sep)| <= |parts| * (most + 1)
    decreases |parts|
  {
    if |parts| > 1 {
      JoinLength(parts[1..], sep, most);
      assert |parts| * (most + 1) == (|parts| - 1) * (most + 1) + most + 1;
    } else if |parts| == 1 {
      assert |parts| * (most + 1) == most + 1;
    }
  }

  lemma PriorityLength(p: Priority)
    requires 0 <= NrTraceState.Millionths(p) < 10_000_000
    ensures |NrTraceState.PriorityText(NrTraceState.Val(p))| <= 8
  {
    var m := NrTraceState.Millionths(p);
    if m > 0 {
      assert Text.Pow10(6) == 1_000_000;
      assert Text.Pow10(1) == 10;
      ShowNatLength(m / 1_000_000, 1);
    }
  }

  lemma TimeLength(now: nat)
    requires now < 1_000_000_000_000_000
    ensures |Text.ShowNat(now)| <= 15
  {
    assert Text.Pow10(5) == 100_000;
    assert Text.Pow10(10) == 100_000 * Text.Pow10(5);
    assert Text.Pow10(15) == 100_000 * Text.Pow10(10);
    ShowNatLength(now, 15);
  }

  /** Ids of at most 27 characters, priorities below 10 and times of at most 15 digits fit. */
  lemma ShortIdsFit(s: State, c: Settings, env: Env, key: string)
    requires OkSettings(c, key) && IsId(s.guid) && Sendable(s) && NrTraceState.Millionths(s.priority.value) < 10_000_000
    requires |c.accountId| <= SHORT && |c.primaryApplicationId| <= SHORT && |key| <= SHORT && |s.guid| <= SHORT
    requires 0 <= env.now < 1_000_000_000_000_000
    ensures EntryFits(DataOf(s, c, env).nr)
  {
    var d := DataOf(s, c, env).nr;
    var parts := NrTraceState.BeforeTime(d) + [NrTraceState.ShowInt(d.ti)];
    PriorityLength(s.priority.value);
    TimeLength(env.now);
    JoinLength(parts, '-', SHORT);
  }

  /** With the default samplers behind the first service, and entries that fit, a trace is sampled
      as a whole or not at all, and with one priority. */
  lemma {:induction false} SampledAsAWhole(hops: seq<Hop>, vs: seq<Service>, i: nat)
    requires Linked(hops, vs) && AdaptiveChildren(vs) && i < |hops|
    requires forall k | 0 <= k < i :: HopFits(hops[k], vs[k])
    requires hops[0].state.sampled.Some? && hops[0].state.priority.Some?
    ensures SameSampling(hops[0].state, hops[i].state)
    decreases i
  {
    if i > 0 {
      SampledAsAWhole(hops, vs, i - 1);
      assert Follows(hops[i], vs[i], hops[i - 1], vs[i - 1]);
    }
  }
}
