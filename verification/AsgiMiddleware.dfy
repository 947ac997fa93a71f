/** ASGIBrowserMiddleware of newrelic/api/asgi_application.py: the same insertion for a
    response that arrives as messages. */
module AsgiMiddleware {
  import opened Prelude
  import opened HtmlInsertion
  import opened HttpHeaders

  datatype Message =
    | Start(status: int, headers: Headers)
    | BodyPart(body: Option<Bytes>, more: Option<bool>)
    | Unexpected(kind: nat)

  datatype Config = Config(text: Bytes, searches: Searches, policy: Policy, searchMaximum: nat, disabled: bool)

  /** The fields of the middleware. */
  datatype State = State(
    passThrough: bool,
    messages: seq<Message>,
    initial: Option<Message>,
    body: Bytes,
    moreBody: bool)

  function Fresh(enabled: bool): State {
    State(!enabled, [], None, [], true)
  }

  function BytesOf(m: Message): Bytes {
    if m.BodyPart? && m.body.Some? then m.body.value else []
  }

  function MoreOf(m: Message): bool {
    m.BodyPart? && m.more == Some(true)
  }

  /** The first header of that name, where the source's search stops. */
  function FirstNamed(hs: Headers, name: string, from: nat := 0): (r: Option<nat>)
    ensures r.Some? ==> from <= r.value < |hs| && Named(hs[r.value], name)
    ensures forall i | from <= i < |hs| && (r.None? || i < r.value) :: !Named(hs[i], name)
    decreases |hs| - from
  {
    if from >= |hs| then None
    else if Named(hs[from], name) then Some(from)
    else FirstNamed(hs, name, from + 1)
  }

  /** The headers for a body that grew by `delta`, if their length can be corrected. */
  function CorrectedLength(hs: Headers, delta: int, p: Policy): Option<Headers> {
    var i := FirstNamed(hs, "content-length");
    if i.None? then None
    else
      var n := p.parseInt(hs[i.value].value);
      if n.None? then None
      else Some(hs[i.value := Header("content-length", p.showInt(n.value + delta))])
  }

  function Buffered(initial: Message, body: Bytes, more: bool): seq<Message> {
    [initial, BodyPart(Some(body), Some(more))]
  }

  /** Everything is sent as it came. */
  function Abort(s: State): (State, seq<Message>) {
    (s.(passThrough := true, messages := []), s.messages)
  }

  function SendBuffered(s: State): (State, seq<Message>)
    requires s.initial.Some?
  {
    (s.(passThrough := true, messages := []), Buffered(s.initial.value, s.body, s.moreBody))
  }

  /** The body with the snippet, if a body tag has come. */
  function Inserted(c: Config, body: Bytes): Bytes {
    if VerifyBodyExists(body) then
      InsertionRewrites(body, c.text, c.searchMaximum, c.searches);
      InsertHtmlSnippet(body, c.text, c.searchMaximum, c.searches).value
    else body
  }

  /** The state with the snippet in and the length corrected, where that is possible. */
  function Patched(c: Config, s: State, inserted: Bytes): (r: State)
    requires s.initial.Some? && s.initial.value.Start?
    ensures r.initial.Some? && r.initial.value.Start?
  {
    var headers := CorrectedLength(s.initial.value.headers, |inserted| - |s.body|, c.policy);
    if |inserted| == |s.body| || headers.None? then s
    else s.(initial := Some(s.initial.value.(headers := headers.value)), body := inserted)
  }

  /** A body part, once it has been added to the body. */
  function OnBody(c: Config, s: State): (State, seq<Message>)
    requires s.initial.Some? && s.initial.value.Start?
  {
    if |Inserted(c, s.body)| != |s.body| then SendBuffered(Patched(c, s, Inserted(c, s.body)))
    else if !s.moreBody then SendBuffered(s)
    else if |s.body| >= c.searchMaximum then SendBuffered(s)
    else (s, [])
  }

  /** send_inject_browser_agent: the new state and what is sent downstream. */
  function React(c: Config, s: State, m: Message): (State, seq<Message>)
    requires s.initial.Some? ==> s.initial.value.Start?
    ensures React(c, s, m).0.initial.Some? ==> React(c, s, m).0.initial.value.Start?
  {
    if s.passThrough then (s, [m])
    else
      var s' := s.(messages := s.messages + [m]);
      if m.Start? && s.initial.None? then
        if c.disabled || !Eligible(m.headers, c.policy) then Abort(s')
        else (s'.(initial := Some(m)), [])
      else if m.BodyPart? && s.initial.Some? then
        OnBody(c, s'.(body := s.body + BytesOf(m), moreBody := MoreOf(m)))
      else Abort(s')
  }

  // ----- a whole response --------------------------------------------------------------

  function Run(c: Config, enabled: bool, up: seq<Message>): (r: (State, seq<Message>))
    ensures r.0.initial.Some? ==> r.0.initial.value.Start?
  {
    if |up| == 0 then (Fresh(enabled), [])
    else
      var (s, down) := Run(c, enabled, up[..|up| - 1]);
      var (s', more) := React(c, s, up[|up| - 1]);
      (s', down + more)
  }

  /** The body of a response: the bytes of its body parts. */
  function BodyOf(ms: seq<Message>): Bytes {
    if |ms| == 0 then [] else BodyOf(ms[..|ms| - 1]) + BytesOf(ms[|ms| - 1])
  }

  /** The first n messages went out as one start and one body part, the rest as they came. */
  ghost predicate SentAs(c: Config, up: seq<Message>, down: seq<Message>, n: nat) {
    && 2 <= n <= |up| && up[0].Start?
    && (forall k | 1 <= k < n :: up[k].BodyPart?)
    && |down| >= 2 && down[2..] == up[n..]
    && down[0].Start? && down[1] == BodyPart(Some(BytesOf(down[1])), Some(MoreOf(up[n - 1])))
    && Corrects(c, up[0], BodyOf(up[..n]), down[0], BytesOf(down[1]))
  }

  /** Either nothing was inserted and the start message is the same, or the text was inserted
      once and the first content length was raised by exactly its length. */
  ghost predicate Corrects(c: Config, start: Message, body: Bytes, start': Message, body': Bytes)
    requires start.Start?
  {
    if body' == body then start' == start
    else
      && (exists at: nat :: InsertedBeforeBody(body, body', c.text, at))
      && var headers := CorrectedLength(start.headers, |c.text|, c.policy);
         headers.Some? && start' == start.(headers := headers.value)
  }

  ghost predicate Delivered(c: Config, up: seq<Message>, down: seq<Message>) {
    down == up || exists n: nat :: SentAs(c, up, down, n)
  }

  ghost predicate Inv(c: Config, s: State, up: seq<Message>, down: seq<Message>) {
    if s.passThrough then Delivered(c, up, down) && s.messages == []
    else
      && down == [] && s.messages == up
      && (if s.initial.None? then up == [] && s.body == []
          else |up| > 0 && up[0] == s.initial.value && s.initial.value.Start?)
      && s.body == BodyOf(up)
      && (forall k | 1 <= k < |up| :: up[k].BodyPart? && MoreOf(up[k]))
      && (|up| > 1 ==> |s.body| < c.searchMaximum)
  }

  lemma AbortKeeps(c: Config, s: State, up: seq<Message>, m: Message)
    requires Inv(c, s, up, []) && !s.passThrough
    ensures var r := Abort(s.(messages := s.messages + [m])); Inv(c, r.0, up + [m], [] + r.1)
  {
    assert [] + (up + [m]) == up + [m];
  }

  lemma BodyKeeps(c: Config, s: State, up: seq<Message>, m: Message)
    requires Inv(c, s, up, []) && !s.passThrough && m.BodyPart? && s.initial.Some?
    ensures var r := OnBody(c, s.(messages := s.messages + [m], body := s.body + BytesOf(m), moreBody := MoreOf(m)));
      Inv(c, r.0, up + [m], [] + r.1)
  {
    var s1 := s.(messages := s.messages + [m], body := s.body + BytesOf(m), moreBody := MoreOf(m));
    var up1 := up + [m];
    assert up1[..|up|] == up && up1[..|up1|] == up1;
    var (r, out) := OnBody(c, s1);
    assert [] + out == out;
    if r.passThrough {
      SentWhenBuffered(c, s1, up1);
    }
  }

  lemma InsertedIsInsertion(c: Config, body: Bytes)
    requires |Inserted(c, body)| != |body|
    ensures exists at: nat :: InsertedBeforeBody(body, Inserted(c, body), c.text, at)
    ensures |Inserted(c, body)| == |body| + |c.text|
  {
    InsertionRewrites(body, c.text, c.searchMaximum, c.searches);
    var at: nat :| InsertedBeforeBody(body, Inserted(c, body), c.text, at);
  }

  lemma PatchedCorrects(c: Config, s: State)
    requires s.initial.Some? && s.initial.value.Start?
    ensures var r := Patched(c, s, Inserted(c, s.body)); Corrects(c, s.initial.value, s.body, r.initial.value, r.body)
  {
    if |Inserted(c, s.body)| != |s.body| {
      InsertedIsInsertion(c, s.body);
    }
  }

  lemma SentWhenBuffered(c: Config, s: State, up: seq<Message>)
    requires s.initial.Some? && s.initial.value.Start? && |up| > 1 && up[0] == s.initial.value
    requires s.body == BodyOf(up) && s.moreBody == MoreOf(up[|up| - 1])
    requires forall k | 1 <= k < |up| :: up[k].BodyPart?
    requires |OnBody(c, s).1| > 0
    ensures SentAs(c, up, OnBody(c, s).1, |up|)
  {
    assert up[..|up|] == up;
    PatchedCorrects(c, s);
    var p := if |Inserted(c, s.body)| != |s.body| then Patched(c, s, Inserted(c, s.body)) else s;
    assert OnBody(c, s).1 == Buffered(p.initial.value, p.body, s.moreBody);
  }

  lemma PassesOn(c: Config, up: seq<Message>, down: seq<Message>, m: Message)
    requires Delivered(c, up, down)
    ensures Delivered(c, up + [m], down + [m])
  {
    if down != up {
      var n: nat :| SentAs(c, up, down, n);
      assert (down + [m])[2..] == down[2..] + [m] && (up + [m])[n..] == up[n..] + [m];
      assert (up + [m])[..n] == up[..n];
      assert SentAs(c, up + [m], down + [m], n);
    }
  }

  lemma ReactKeeps(c: Config, s: State, up: seq<Message>, down: seq<Message>, m: Message)
    requires Inv(c, s, up, down) && (s.initial.Some? ==> s.initial.value.Start?)
    ensures var (s', more) := React(c, s, m); Inv(c, s', up + [m], down + more)
  {
    if s.passThrough {
      PassesOn(c, up, down, m);
    } else if m.Start? && s.initial.None? {
      if c.disabled || !Eligible(m.headers, c.policy) {
        AbortKeeps(c, s, up, m);
      } else {
        assert up + [m] == [m];
        assert [m][..0] == [];
      }
    } else if m.BodyPart? && s.initial.Some? {
      BodyKeeps(c, s, up, m);
    } else {
      AbortKeeps(c, s, up, m);
    }
  }

  lemma {:induction false} RunKeeps(c: Config, enabled: bool, up: seq<Message>)
    ensures var (s, down) := Run(c, enabled, up); Inv(c, s, up, down)
    decreases |up|
  {
    if |up| > 0 {
      var n := |up| - 1;
      RunKeeps(c, enabled, up[..n]);
      var (s, down) := Run(c, enabled, up[..n]);
      ReactKeeps(c, s, up[..n], down, up[n]);
      WithLast(up);
    }
  }

  lemma WithLast(ms: seq<Message>)
    requires |ms| > 0
    ensures ms[..|ms| - 1] + [ms[|ms| - 1]] == ms
  {
  }

  // ----- results -----------------------------------------------------------------------

  lemma {:induction false} BodyOfConcat(a: seq<Message>, b: seq<Message>)
    ensures BodyOf(a + b) == BodyOf(a) + BodyOf(b)
    decreases |b|
  {
    if |b| == 0 {
      assert a + b == a;
    } else {
      var n := |b| - 1;
      assert (a + b)[..|a| + n] == a + b[..n];
      BodyOfConcat(a, b[..n]);
      assert BodyOf(a) + (BodyOf(b[..n]) + BytesOf(b[n])) == (BodyOf(a) + BodyOf(b[..n])) + BytesOf(b[n]);
    }
  }

  lemma BodySplits(ms: seq<Message>, n: nat)
    requires n <= |ms|
    ensures BodyOf(ms) == BodyOf(ms[..n]) + BodyOf(ms[n..])
  {
    assert ms == ms[..n] + ms[n..];
    BodyOfConcat(ms[..n], ms[n..]);
  }

  lemma CorrectionRewrites(c: Config, start: Message, body: Bytes, start': Message, body': Bytes)
    requires start.Start? && Corrects(c, start, body, start', body')
    ensures Rewrites(body, body', c.text)
  {
  }

  lemma SentBodyRewrites(c: Config, up: seq<Message>, down: seq<Message>, n: nat)
    requires SentAs(c, up, down, n)
    ensures Rewrites(BodyOf(up), BodyOf(down), c.text)
  {
    var b, b' := BodyOf(up[..n]), BytesOf(down[1]);
    CorrectionRewrites(c, up[0], b, down[0], b');
    BodySplits(up, n);
    BodySplits(down, 2);
    BodyOfPair(down[..2]);
    RewritesExtends(b, b', c.text, BodyOf(up[n..]));
  }

  lemma BodyOfPair(ms: seq<Message>)
    requires |ms| == 2 && ms[0].Start?
    ensures BodyOf(ms) == BytesOf(ms[1])
  {
    assert ms[..1][..0] == [];
    assert BodyOf(ms[..1]) == BodyOf(ms[..1][..0]) + BytesOf(ms[0]);
  }

  /** Whether the response has ended: its last message is a body part with no more to come. */
  predicate Ended(ms: seq<Message>) {
    |ms| > 1 && ms[|ms| - 1].BodyPart? && !MoreOf(ms[|ms| - 1])
  }

  /** A response that ended, or in which any other message came after the start or first, is
      no longer held back. */
  lemma NotHeldBack(c: Config, enabled: bool, up: seq<Message>)
    requires Ended(up) || exists k :: 0 <= k < |up| && (if k == 0 then !up[k].Start? else !up[k].BodyPart?)
    ensures Run(c, enabled, up).0.passThrough
  {
    RunKeeps(c, enabled, up);
  }

  // ----- when the text is inserted -----------------------------------------------------

  /** After the first k + 1 messages there is still a reason to wait for more. */
  predicate Waits(c: Config, up: seq<Message>, k: nat)
    requires k < |up|
  {
    var body := BodyOf(up[..k + 1]);
    up[k].BodyPart? && MoreOf(up[k]) && |body| < c.searchMaximum && |Inserted(c, body)| == |body|
  }

  predicate MayInsert(c: Config, enabled: bool, up: seq<Message>) {
    enabled && (|up| > 0 ==> up[0].Start? && !c.disabled && Eligible(up[0].headers, c.policy))
  }

  predicate WaitsThroughout(c: Config, up: seq<Message>) {
    forall k | 1 <= k < |up| :: Waits(c, up, k)
  }

  lemma WaitsBefore(c: Config, up: seq<Message>)
    requires |up| > 1
    ensures WaitsThroughout(c, up) <==> WaitsThroughout(c, up[..|up| - 1]) && Waits(c, up, |up| - 1)
  {
    var prefix := up[..|up| - 1];
    forall k | 1 <= k < |prefix|
      ensures Waits(c, prefix, k) <==> Waits(c, up, k)
    {
      WaitsSame(c, up, k);
    }
    assert WaitsThroughout(c, up) ==> forall k | 1 <= k < |prefix| :: Waits(c, up, k);
  }

  lemma WaitsSame(c: Config, up: seq<Message>, k: nat)
    requires k < |up| - 1
    ensures Waits(c, up[..|up| - 1], k) <==> Waits(c, up, k)
  {
    assert up[..|up| - 1][..k + 1] == up[..k + 1];
  }

  lemma BodyAfter(up: seq<Message>)
    requires |up| > 0
    ensures BodyOf(up[..|up| - 1]) + BytesOf(up[|up| - 1]) == BodyOf(up) && up[..|up| - 1 + 1] == up
  {
    assert up[..|up| - 1 + 1] == up;
  }

  lemma LaterWaits(c: Config, s: State, up: seq<Message>)
    requires |up| > 1 && !s.passThrough && s.initial.Some? && s.initial.value.Start?
    requires s.body == BodyOf(up[..|up| - 1])
    ensures !React(c, s, up[|up| - 1]).0.passThrough <==> Waits(c, up, |up| - 1)
  {
    BodyAfter(up);
  }

  /** A response is held back exactly while it may get the text, every body part says that more
      comes, and neither the text has been inserted nor the limit reached. */
  lemma {:induction false} HeldBackIff(c: Config, enabled: bool, up: seq<Message>)
    ensures !Run(c, enabled, up).0.passThrough <==> MayInsert(c, enabled, up) && WaitsThroughout(c, up)
    decreases |up|
  {
    if |up| > 0 {
      var prefix := up[..|up| - 1];
      HeldBackIff(c, enabled, prefix);
      RunKeeps(c, enabled, prefix);
      if |up| > 1 {
        WaitsBefore(c, up);
        if !Run(c, enabled, prefix).0.passThrough {
          LaterWaits(c, Run(c, enabled, prefix).0, up);
        }
      }
    }
  }

  /** What goes out when the text can be inserted: the body with it, under a start message whose
      first content length is raised by its length; without a length that can be corrected,
      neither changes. */
  function SentWith(c: Config, start: Message, body: Bytes, more: bool): seq<Message>
    requires start.Start?
  {
    var inserted := Inserted(c, body);
    var headers := CorrectedLength(start.headers, |inserted| - |body|, c.policy);
    if headers.Some? then Buffered(start.(headers := headers.value), inserted, more) else Buffered(start, body, more)
  }

  /** And when the text can be inserted it is, into all that was held back. */
  lemma InsertsWhenItCan(c: Config, enabled: bool, up: seq<Message>, m: Message)
    requires |up| > 0 && m.BodyPart? && !Run(c, enabled, up).0.passThrough && up[0].Start?
    requires |Inserted(c, BodyOf(up) + BytesOf(m))| != |BodyOf(up) + BytesOf(m)|
    ensures var (s, down) := Run(c, enabled, up + [m]);
      s.passThrough && down == SentWith(c, up[0], BodyOf(up) + BytesOf(m), MoreOf(m))
  {
    HeldState(c, enabled, up);
    RunExtends(c, enabled, up, m);
    BodyReacts(c, Run(c, enabled, up).0, m);
  }

  lemma HeldState(c: Config, enabled: bool, up: seq<Message>)
    requires |up| > 0 && !Run(c, enabled, up).0.passThrough
    ensures var (s, down) := Run(c, enabled, up);
      s.initial == Some(up[0]) && s.body == BodyOf(up) && down == [] && up[0].Start?
  {
    RunKeeps(c, enabled, up);
  }

  lemma {:induction false} RunExtends(c: Config, enabled: bool, up: seq<Message>, m: Message)
    requires Run(c, enabled, up).1 == []
    ensures Run(c, enabled, up + [m]) == React(c, Run(c, enabled, up).0, m)
  {
    assert (up + [m])[..|up|] == up;
    var more := React(c, Run(c, enabled, up).0, m).1;
    assert [] + more == more;
  }

  lemma OnBodySends(c: Config, s: State)
    requires s.initial.Some? && s.initial.value.Start? && |Inserted(c, s.body)| != |s.body|
    ensures var (r, out) := OnBody(c, s);
      r.passThrough && out == SentWith(c, s.initial.value, s.body, s.moreBody)
  {
  }

  lemma BodyReacts(c: Config, s: State, m: Message)
    requires m.BodyPart? && !s.passThrough && s.initial.Some? && s.initial.value.Start?
    requires |Inserted(c, s.body + BytesOf(m))| != |s.body + BytesOf(m)|
    ensures var (r, out) := React(c, s, m);
      r.passThrough && out == SentWith(c, s.initial.value, s.body + BytesOf(m), MoreOf(m))
  {
    var t := s.(messages := s.messages + [m], body := s.body + BytesOf(m), moreBody := MoreOf(m));
    assert React(c, s, m) == OnBody(c, t);
    OnBodySends(c, t);
  }

  /** A body tag within the limit makes room for the text, unless there is none or the page is
      marked as an attachment. */
  lemma TagMakesRoom(c: Config, body: Bytes)
    requires FindBody(TakeUpTo(body, c.searchMaximum)).Some?
    ensures var start := FindBody(TakeUpTo(body, c.searchMaximum)).value;
      |Inserted(c, body)| == |body| + if c.searches.attachmentMeta(body[..start]) then 0 else |c.text|
  {
    FindBodyExtends(TakeUpTo(body, c.searchMaximum), body[|TakeUpTo(body, c.searchMaximum)|..]);
    assert TakeUpTo(body, c.searchMaximum) + body[|TakeUpTo(body, c.searchMaximum)|..] == body;
    if |c.text| > 0 {
      var at := InsertionPlace(body, c.text, c.searchMaximum, c.searches);
    }
  }

  // ----- what a content length is ------------------------------------------------------

  /** Header i is the first content length, and says n. */
  predicate FirstLength(hs: Headers, p: Policy, i: nat, n: int) {
    && i < |hs| && Named(hs[i], "content-length") && p.parseInt(hs[i].value) == Some(n)
    && forall j | 0 <= j < i :: !Named(hs[j], "content-length")
  }

  lemma FirstNamedIs(hs: Headers, name: string, i: nat)
    requires i < |hs| && Named(hs[i], name) && forall j | 0 <= j < i :: !Named(hs[j], name)
    ensures FirstNamed(hs, name) == Some(i)
  {
  }

  /** The corrected headers, told by reading them: the first content length says delta more, and
      all others are as they were; there are none if the first content length says nothing. */
  lemma CorrectionIsRead(hs: Headers, delta: int, p: Policy, i: nat, n: int)
    requires RoundTrips(p) && FirstLength(hs, p, i, n)
    ensures var r := CorrectedLength(hs, delta, p);
      && r.Some? && |r.value| == |hs| && FirstLength(r.value, p, i, n + delta)
      && forall j | 0 <= j < |hs| && j != i :: r.value[j] == hs[j]
  {
    FirstNamedIs(hs, "content-length", i);
    ShownLength("content-length", n + delta, p);
  }

  lemma NothingToCorrect(hs: Headers, delta: int, p: Policy)
    ensures CorrectedLength(hs, delta, p).None? <==> forall i: nat, n: int :: !FirstLength(hs, p, i, n)
  {
    var i := FirstNamed(hs, "content-length");
    if i.Some? && p.parseInt(hs[i.value].value).Some? {
      assert FirstLength(hs, p, i.value, p.parseInt(hs[i.value].value).value);
    }
    forall k: nat, n: int | FirstLength(hs, p, k, n)
      ensures CorrectedLength(hs, delta, p).Some?
    {
      FirstNamedIs(hs, "content-length", k);
    }
  }

  /** The start messages differ in the first content length, number i, alone: it says delta more. */
  predicate OnlyLengthRaised(start: Message, sent: Message, p: Policy, i: nat, n: int, delta: int)
    requires start.Start? && sent.Start?
  {
    && sent.status == start.status && |sent.headers| == |start.headers|
    && FirstLength(start.headers, p, i, n) && FirstLength(sent.headers, p, i, n + delta)
    && forall j | 0 <= j < |start.headers| && j != i :: sent.headers[j] == start.headers[j]
  }

  /** Main result about lengths: the corrected start message differs in its first content length
      alone, which says by how much more. */
  lemma CorrectionRaises(start: Message, delta: int, p: Policy, i: nat, n: int) returns (first: Message)
    requires start.Start? && RoundTrips(p) && FirstLength(start.headers, p, i, n)
    ensures CorrectedLength(start.headers, delta, p).Some?
    ensures first == start.(headers := CorrectedLength(start.headers, delta, p).value)
    ensures OnlyLengthRaised(start, first, p, i, n, delta)
  {
    CorrectionIsRead(start.headers, delta, p, i, n);
    first := start.(headers := CorrectedLength(start.headers, delta, p).value);
  }

  /** It goes out with the whole insertion whenever there is one, ... */
  lemma SentCorrected(c: Config, start: Message, body: Bytes, delta: int, more: bool, first: Message)
    requires start.Start? && delta == |Inserted(c, body)| - |body|
    requires CorrectedLength(start.headers, delta, c.policy).Some?
    requires first == start.(headers := CorrectedLength(start.headers, delta, c.policy).value)
    ensures SentWith(c, start, body, more) == Buffered(first, Inserted(c, body), more)
  {
  }

  /** ... and without one everything goes out as it came. */
  lemma SentAsItCame(c: Config, start: Message, body: Bytes, more: bool)
    requires start.Start? && forall i: nat, n: int :: !FirstLength(start.headers, c.policy, i, n)
    ensures SentWith(c, start, body, more) == [start, BodyPart(Some(body), Some(more))]
  {
    NothingToCorrect(start.headers, |Inserted(c, body)| - |body|, c.policy);
  }

  // ----- what a body part is -----------------------------------------------------------

  lemma StartIsKept(c: Config, start: Message)
    requires start.Start? && !c.disabled && Eligible(start.headers, c.policy)
    ensures Run(c, true, [start]) == (State(false, [start], Some(start), [], true), [])
  {
    var none: seq<Message> := [];
    assert [start][..0] == none;
    assert Run(c, true, none) == (Fresh(true), none);
    assert none + none == none && none + [start] == [start];
  }

  /** A response of one body part that does not say whether more comes is complete with it; its
      body is the bytes of the part, and a part without bytes adds none. */
  lemma OnePartIsAll(c: Config, start: Message, body: Option<Bytes>)
    requires start.Start? && !c.disabled && Eligible(start.headers, c.policy)
    ensures var b := if body.Some? then body.value else [];
            var (s, down) := Run(c, true, [start, BodyPart(body, None)]);
      && s.passThrough
      && down == if |Inserted(c, b)| != |b| then SentWith(c, start, b, false) else [start, BodyPart(Some(b), Some(false))]
  {
    var first, second := [start], BodyPart(body, None);
    StartIsKept(c, start);
    var b := if body.Some? then body.value else [];
    assert [] + b == b;
    RunExtends(c, true, first, second);
    assert first + [second] == [start, second];
    var t := State(false, [start] + [second], Some(start), b, false);
    assert React(c, Run(c, true, first).0, second) == OnBody(c, t);
    if |Inserted(c, b)| != |b| {
      OnBodySends(c, t);
    }
  }

  lemma LastOfDrop(ms: seq<Message>, k: nat)
    requires k < |ms|
    ensures ms[k..][|ms| - k - 1] == ms[|ms| - 1]
  {
  }

  lemma SameEnd(c: Config, up: seq<Message>, down: seq<Message>, n: nat)
    requires |up| > 0 && 2 <= n <= |up| && |down| >= 2 && down[2..] == up[n..]
    requires down[1] == BodyPart(Some(BytesOf(down[1])), Some(MoreOf(up[n - 1])))
    ensures MoreOf(down[|down| - 1]) == MoreOf(up[|up| - 1])
  {
    assert |down| - 2 == |up| - n by {
      assert |down[2..]| == |up[n..]|;
    }
    if n < |up| {
      LastOfDrop(down, 2);
      LastOfDrop(up, n);
    }
  }

  /** Main result: what is no longer held back has reached the client: the same bytes in order
      with the text inserted at most once before the body tag, the same end, and a start
      message changed only in a parsable content length, which grew by exactly the inserted
      length. */
  lemma ResponseIsDelivered(c: Config, enabled: bool, up: seq<Message>)
    requires |up| > 0 && Run(c, enabled, up).0.passThrough
    ensures var down := Run(c, enabled, up).1;
      && Delivered(c, up, down)
      && Rewrites(BodyOf(up), BodyOf(down), c.text)
      && |down| > 0 && MoreOf(down[|down| - 1]) == MoreOf(up[|up| - 1])
  {
    RunKeeps(c, enabled, up);
    var down := Run(c, enabled, up).1;
    if down != up {
      var n: nat :| SentAs(c, up, down, n);
      SentBodyRewrites(c, up, down, n);
      SameEnd(c, up, down, n);
    }
  }

  /** The class itself; `sent` stands for the calls of the downstream `send`. */
  class BrowserMiddleware {
    const config: Config
    var messages: seq<Message>
    var initialMessage: Option<Message>
    var body: Bytes
    var moreBody: bool
    var passThrough: bool
    var sent: seq<Message>

    constructor (config: Config, enabled: bool)
      ensures this.config == config && View() == Fresh(enabled) && sent == []
    {
      this.config := config;
      messages, initialMessage, body, moreBody, passThrough := [], None, [], true, !enabled;
      sent := [];
    }

    function View(): State
      reads this
    {
      State(passThrough, messages, initialMessage, body, moreBody)
    }

    method FlushBuffered()
      requires initialMessage.Some?
      modifies this`passThrough, this`messages, this`sent
      ensures (View(), sent) == (SendBuffered(old(View())).0, old(sent) + SendBuffered(old(View())).1)
    {
      passThrough := true;
      sent := sent + [initialMessage.value];
      sent := sent + [BodyPart(Some(body), Some(moreBody))];
      messages := [];
      assert sent == old(sent) + Buffered(initialMessage.value, body, moreBody);
    }

    method AbortAll()
      modifies this`passThrough, this`messages, this`sent
      ensures (View(), sent) == (Abort(old(View())).0, old(sent) + Abort(old(View())).1)
    {
      passThrough := true;
      for i := 0 to |messages|
        invariant messages == old(messages) && passThrough
        invariant sent == old(sent) + messages[..i]
        invariant body == old(body) && moreBody == old(moreBody) && initialMessage == old(initialMessage)
      {
        sent := sent + [messages[i]];
      }
      assert messages[..|messages|] == messages;
      messages := [];
    }

    method SendInjectBrowserAgent(message: Message)
      requires initialMessage.Some? ==> initialMessage.value.Start?
      modifies this
      ensures initialMessage.Some? ==> initialMessage.value.Start?
      ensures (View(), sent) == (React(config, old(View()), message).0, old(sent) + React(config, old(View()), message).1)
    {
      if passThrough {
        sent := sent + [message];
        return;
      }
      messages := messages + [message];
      if message.Start? && initialMessage.None? {
        if config.disabled || !Eligible(message.headers, config.policy) {
          AbortAll();
          return;
        }
        initialMessage := Some(message);
        assert sent + [] == sent;
      } else if message.BodyPart? && initialMessage.Some? {
        moreBody := MoreOf(message);
        body := body + BytesOf(message);
        TakeBody();
      } else {
        AbortAll();
      }
    }

    method TakeBody()
      requires initialMessage.Some? && initialMessage.value.Start?
      modifies this
      ensures initialMessage.Some? && initialMessage.value.Start?
      ensures (View(), sent) == (OnBody(config, old(View())).0, old(sent) + OnBody(config, old(View())).1)
    {
      assert sent + [] == sent;
      if VerifyBodyExists(body) {
        InsertionRewrites(body, config.text, config.searchMaximum, config.searches);
        var inserted := InsertHtmlSnippet(body, config.text, config.searchMaximum, config.searches).value;
        if |inserted| != |body| {
          CorrectLength(inserted);
          FlushBuffered();
          return;
        }
      }
      if !moreBody {
        FlushBuffered();
      } else if |body| >= config.searchMaximum {
        FlushBuffered();
      }
    }

    /** The content length and the body, unless there is no length that could be corrected. */
    method CorrectLength(inserted: Bytes)
      requires initialMessage.Some? && initialMessage.value.Start?
      requires |inserted| != |body|
      modifies this`initialMessage, this`body
      ensures View() == Patched(config, old(View()), inserted)
    {
      ghost var s := View();
      var headers := Corrected(initialMessage.value.headers, |inserted| - |body|);
      if headers.Some? {
        var start := initialMessage.value.(headers := headers.value);
        assert Patched(config, s, inserted) == s.(initial := Some(start), body := inserted);
        initialMessage := Some(start);
        body := inserted;
      }
    }

    method Corrected(headers: Headers, delta: int) returns (r: Option<Headers>)
      ensures r == CorrectedLength(headers, delta, config.policy)
    {
      var index := FindLength(headers);
      if index.None? {
        return None;
      }
      var n := config.policy.parseInt(headers[index.value].value);
      if n.None? {
        return None;
      }
      return Some(headers[index.value := Header("content-length", config.policy.showInt(n.value + delta))]);
    }

    /** The loop that looks for the content-length header. */
    method FindLength(headers: Headers) returns (index: Option<nat>)
      ensures index == FirstNamed(headers, "content-length")
    {
      for i := 0 to |headers|
        invariant FirstNamed(headers, "content-length") == FirstNamed(headers, "content-length", i)
      {
        if LowerText(headers[i].name) == "content-length" {
          return Some(i);
        }
      }
      return None;
    }
  }
}
