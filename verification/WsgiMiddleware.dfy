/** _WSGIApplicationMiddleware of newrelic/api/wsgi_application.py: buffers the response up
    to the body tag, inserts the snippet once and corrects the declared length. */
module WsgiMiddleware {
  import opened Prelude
  import opened HtmlInsertion
  import opened HttpHeaders

  function Joined(chunks: seq<Bytes>): Bytes {
    if |chunks| == 0 then [] else Joined(chunks[..|chunks| - 1]) + chunks[|chunks| - 1]
  }

  lemma JoinedAppend(chunks: seq<Bytes>, data: Bytes)
    ensures Joined(chunks + [data]) == Joined(chunks) + data
  {
    assert (chunks + [data])[..|chunks|] == chunks;
  }

  lemma JoinedPrefix(chunks: seq<Bytes>, i: nat)
    requires i < |chunks|
    ensures Joined(chunks[..i + 1]) == Joined(chunks[..i]) + chunks[i]
  {
    assert chunks[..i + 1] == chunks[..i] + [chunks[i]];
    JoinedAppend(chunks[..i], chunks[i]);
  }

  lemma {:induction false} JoinedConcat(a: seq<Bytes>, b: seq<Bytes>)
    ensures Joined(a + b) == Joined(a) + Joined(b)
    decreases |b|
  {
    if |b| == 0 {
      assert a + b == a;
    } else {
      var n := |b| - 1;
      assert (a + b)[..|a| + n] == a + b[..n];
      JoinedConcat(a, b[..n]);
      assert Joined(a) + (Joined(b[..n]) + b[n]) == Joined(a) + Joined(b[..n]) + b[n];
    }
  }

  /** The headers sent when the body has grown by `delta` bytes. */
  function Emitted(kept: Headers, declared: Option<int>, delta: int, p: Policy): Headers {
    if declared.None? then kept
    else kept + [Header("Content-Length", p.showInt(declared.value + delta))]
  }

  /** What is sent once `data` has come in on top of the pieces held back; None while
      everything is still held back. */
  function Decide(held: seq<Bytes>, data: Bytes, text: Bytes, f: Searches): Option<seq<Bytes>> {
    var first := InsertHtmlSnippet(data, text, SEARCH_LIMIT, f);
    if |held| == 0 && first.Some? then Some([first.value])
    else if |held| == 0 || !VerifyBodyExists(data) then
      if |Joined(held) + data| >= SEARCH_LIMIT then Some(held + [data]) else None
    else
      var joined := Joined(held) + data;
      var later := InsertHtmlSnippet(joined, text, SEARCH_LIMIT, f);
      Some([if later.Some? then later.value else joined])
  }

  /** What one piece of the response makes the middleware yield, and what it then holds back
      if it has not passed into pass-through mode. */
  datatype Turn = Turn(out: seq<Bytes>, passThrough: bool, held: seq<Bytes>)

  function TakeTurn(passThrough: bool, held: seq<Bytes>, data: Bytes, text: Bytes, f: Searches): Turn {
    if passThrough then Turn([data], true, held)
    else if |data| == 0 then Turn([], false, held)
    else
      var decided := Decide(held, data, text, f);
      if decided.Some? then Turn(decided.value, true, []) else Turn([], false, held + [data])
  }

  /** The pieces that are sent for a response. */
  function Response(passThrough: bool, held: seq<Bytes>, chunks: seq<Bytes>, text: Bytes, f: Searches): seq<Bytes>
    decreases |chunks|
  {
    if |chunks| == 0 then held
    else
      var t := TakeTurn(passThrough, held, chunks[0], text, f);
      t.out + Response(t.passThrough, t.held, chunks[1..], text, f)
  }

  lemma ResponseStep(passThrough: bool, held: seq<Bytes>, chunks: seq<Bytes>, i: nat, out: seq<Bytes>,
                     text: Bytes, f: Searches)
    requires i < |chunks|
    ensures var t := TakeTurn(passThrough, held, chunks[i], text, f);
      out + Response(passThrough, held, chunks[i..], text, f)
      == (out + t.out) + Response(t.passThrough, t.held, chunks[i + 1..], text, f)
  {
    assert chunks[i..][1..] == chunks[i + 1..];
  }

  lemma {:induction false} PassesThrough(chunks: seq<Bytes>, text: Bytes, f: Searches)
    ensures Response(true, [], chunks, text, f) == chunks
    decreases |chunks|
  {
    if |chunks| > 0 {
      PassesThrough(chunks[1..], text, f);
    }
  }

  lemma JoinedOne(data: Bytes)
    ensures Joined([data]) == data
  {
    JoinedAppend([], data);
  }

  lemma NothingAdded(given: Bytes, sent: Bytes, data: Bytes)
    requires |data| == 0
    ensures given + data == given && sent + Joined([]) == sent
  {
  }

  /** A decision sends a rewriting of all there was; no decision holds back less than the
      limit. */
  lemma DecisionRewrites(held: seq<Bytes>, data: Bytes, text: Bytes, f: Searches)
    ensures var out := Decide(held, data, text, f);
      && (out.Some? ==> Rewrites(Joined(held) + data, Joined(out.value), text))
      && (out.None? ==> |Joined(held) + data| < 65536)
  {
    JoinedAppend(held, data);
    if |held| == 0 {
      assert Joined(held) + data == data;
    }
    var whole := Joined(held) + data;
    InsertionRewrites(whole, text, SEARCH_LIMIT, f);
    var r := InsertHtmlSnippet(whole, text, SEARCH_LIMIT, f);
    JoinedOne(if r.Some? then r.value else whole);
  }

  /** At 64 KiB without a tag in the newest piece everything is sent as it is. */
  lemma GivesUpAtLimit(held: seq<Bytes>, data: Bytes, text: Bytes, f: Searches)
    requires !VerifyBodyExists(data) && |held| > 0
    ensures Decide(held, data, text, f) == if |Joined(held) + data| < 65536 then None else Some(held + [data])
  {
  }

  /** A body tag seen while data is held back always decides the insertion: the fallback
      after it, which the source says is never reached, is not. */
  lemma FallbackUnreachable(held: seq<Bytes>, data: Bytes, text: Bytes, f: Searches)
    requires VerifyBodyExists(data)
    ensures InsertHtmlSnippet(Joined(held) + data, text, SEARCH_LIMIT, f).Some?
  {
    BodyInSuffix(Joined(held), data);
    InsertionRewrites(Joined(held) + data, text, SEARCH_LIMIT, f);
  }

  lemma NoTagNoDecision(held: seq<Bytes>, data: Bytes, text: Bytes, f: Searches)
    requires FindBody(data).None? && |Joined(held) + data| < SEARCH_LIMIT
    ensures Decide(held, data, text, f).None?
  {
    assert TakeUpTo(data, SEARCH_LIMIT) == data;
    InsertionRewrites(data, text, SEARCH_LIMIT, f);
  }

  lemma FirstMoves(held: seq<Bytes>, before: seq<Bytes>, rest: seq<Bytes>)
    requires |before| > 0
    ensures (before + rest)[0] == before[0] && (before + rest)[1..] == before[1..] + rest
    ensures held + before == (held + [before[0]]) + before[1..]
  {
  }

  lemma {:induction false} HoldsUntilTag(held: seq<Bytes>, before: seq<Bytes>, rest: seq<Bytes>, text: Bytes, f: Searches)
    requires forall k | 0 <= k < |before| :: |before[k]| > 0 && FindBody(before[k]).None?
    requires |Joined(held + before)| < SEARCH_LIMIT
    ensures Response(false, held, before + rest, text, f) == Response(false, held + before, rest, text, f)
    decreases |before|
  {
    if |before| == 0 {
      assert held + before == held && before + rest == rest;
    } else {
      var d, more := before[0], before[1..];
      FirstMoves(held, before, rest);
      JoinedConcat(held + [d], more);
      JoinedAppend(held, d);
      NoTagNoDecision(held, d, text, f);
      HoldsUntilTag(held + [d], more, rest, text, f);
    }
  }

  /** The first piece with a whole body tag sends the insertion into all that was held back
      before it and itself; the rest passes through. */
  lemma TagDecides(before: seq<Bytes>, data: Bytes, after: seq<Bytes>, text: Bytes, f: Searches)
    requires forall k | 0 <= k < |before| :: |before[k]| > 0 && FindBody(before[k]).None?
    requires |before| > 0 && |Joined(before)| < SEARCH_LIMIT && VerifyBodyExists(data) && |data| > 0
    ensures InsertHtmlSnippet(Joined(before) + data, text, SEARCH_LIMIT, f).Some?
    ensures Response(false, [], before + ([data] + after), text, f)
            == [InsertHtmlSnippet(Joined(before) + data, text, SEARCH_LIMIT, f).value] + after
  {
    assert [] + before == before;
    HoldsUntilTag([], before, [data] + after, text, f);
    FallbackUnreachable(before, data, text, f);
    assert ([data] + after)[1..] == after;
    PassesThrough(after, text, f);
  }

  // ----- where the pieces are cut ------------------------------------------------------

  /** Some piece holds a whole body tag. */
  predicate HasTag(chunks: seq<Bytes>) {
    exists k | 0 <= k < |chunks| :: VerifyBodyExists(chunks[k])
  }

  /** The insertion into a response that comes in one piece. */
  function InOnePiece(data: Bytes, text: Bytes, f: Searches): Bytes {
    var r := InsertHtmlSnippet(data, text, SEARCH_LIMIT, f);
    if r.Some? then r.value else data
  }

  lemma {:induction false} HasTagTail(chunks: seq<Bytes>)
    requires |chunks| > 0
    ensures HasTag(chunks) <==> VerifyBodyExists(chunks[0]) || HasTag(chunks[1..])
  {
    if HasTag(chunks[1..]) {
      var k :| 0 <= k < |chunks[1..]| && VerifyBodyExists(chunks[1..][k]);
      assert VerifyBodyExists(chunks[k + 1]);
    }
    if HasTag(chunks) && !VerifyBodyExists(chunks[0]) {
      var k :| 0 <= k < |chunks| && VerifyBodyExists(chunks[k]);
      assert VerifyBodyExists(chunks[1..][k - 1]);
    }
  }

  lemma {:induction false} JoinedHead(chunks: seq<Bytes>)
    requires |chunks| > 0
    ensures Joined(chunks) == chunks[0] + Joined(chunks[1..])
  {
    assert [chunks[0]] + chunks[1..] == chunks;
    JoinedConcat([chunks[0]], chunks[1..]);
    JoinedOne(chunks[0]);
  }

  /** Once the tag is there, what follows does not change the insertion. */
  lemma InsertionExtends(data: Bytes, more: Bytes, text: Bytes, f: Searches)
    requires VerifyBodyExists(data) && |data + more| <= SEARCH_LIMIT
    ensures InsertHtmlSnippet(data, text, SEARCH_LIMIT, f).Some?
    ensures InOnePiece(data + more, text, f) == InOnePiece(data, text, f) + more
  {
    WithinLimit(data);
    WithinLimit(data + more);
    FindBodyExtends(data, more);
    SameInsertion(data, more, text, f);
  }

  lemma WithinLimit(data: Bytes)
    requires |data| <= SEARCH_LIMIT
    ensures TakeUpTo(data, SEARCH_LIMIT) == data
  {
  }

  lemma SameInsertion(data: Bytes, more: Bytes, text: Bytes, f: Searches)
    requires FindBody(TakeUpTo(data, SEARCH_LIMIT)).Some?
    requires FindBody(TakeUpTo(data + more, SEARCH_LIMIT)) == FindBody(TakeUpTo(data, SEARCH_LIMIT))
    ensures InsertHtmlSnippet(data, text, SEARCH_LIMIT, f).Some?
    ensures InsertHtmlSnippet(data + more, text, SEARCH_LIMIT, f)
            == Some(InsertHtmlSnippet(data, text, SEARCH_LIMIT, f).value + more)
  {
    var start := FindBody(TakeUpTo(data, SEARCH_LIMIT)).value;
    CutAfter(data, more, start);
    var head := data[..start];
    AppendAfter(head, data[start..], more);
    AppendAfter(InsertedAt(head, InsertionIndex(head, f), text), data[start..], more);
  }

  lemma CutAfter(data: Bytes, more: Bytes, start: nat)
    requires start <= |data|
    ensures (data + more)[..start] == data[..start] && (data + more)[start..] == data[start..] + more
    ensures data[..start] + data[start..] == data
  {
  }

  lemma AppendAfter(head: Bytes, tail: Bytes, more: Bytes)
    ensures head + (tail + more) == (head + tail) + more
  {
  }

  /** A piece without a tag is held back, or ignored if it is empty. */
  lemma PieceIsHeld(held: seq<Bytes>, d: Bytes, more: seq<Bytes>, text: Bytes, f: Searches)
    requires !VerifyBodyExists(d) && |Joined(held) + d| < SEARCH_LIMIT
    ensures var now := if |d| == 0 then held else held + [d];
      && Response(false, held, [d] + more, text, f) == Response(false, now, more, text, f)
      && Joined(now) == Joined(held) + d
  {
    assert ([d] + more)[1..] == more;
    if |d| == 0 {
      assert Joined(held) + d == Joined(held);
    } else {
      NoTagNoDecision(held, d, text, f);
      JoinedAppend(held, d);
    }
  }

  /** What comes of the pieces that follow those held back. */
  lemma {:induction false} HeldResponse(held: seq<Bytes>, chunks: seq<Bytes>, text: Bytes, f: Searches)
    requires |Joined(held) + Joined(chunks)| < SEARCH_LIMIT
    ensures var all := Joined(held) + Joined(chunks);
      Joined(Response(false, held, chunks, text, f)) == if HasTag(chunks) then InOnePiece(all, text, f) else all
    decreases |chunks|
  {
    if |chunks| == 0 {
      assert Joined(held) + [] == Joined(held);
    } else {
      var d, more := chunks[0], chunks[1..];
      assert chunks == [d] + more;
      JoinedHead(chunks);
      HasTagTail(chunks);
      AppendAfter(Joined(held), d, Joined(more));
      if VerifyBodyExists(d) {
        TagEnds(held, d, more, text, f);
      } else {
        PieceIsHeld(held, d, more, text, f);
        HeldResponse(if |d| == 0 then held else held + [d], more, text, f);
      }
    }
  }

  lemma EmptyHasNoTag(data: Bytes)
    requires VerifyBodyExists(data)
    ensures |data| > 0
  {
  }

  lemma TagEnds(held: seq<Bytes>, d: Bytes, more: seq<Bytes>, text: Bytes, f: Searches)
    requires VerifyBodyExists(d) && |(Joined(held) + d) + Joined(more)| < SEARCH_LIMIT
    ensures Joined(Response(false, held, [d] + more, text, f))
            == InOnePiece((Joined(held) + d) + Joined(more), text, f)
  {
    EmptyHasNoTag(d);
    BodyInSuffix(Joined(held), d);
    InsertionExtends(Joined(held) + d, Joined(more), text, f);
    TagDecidesHeld(held, d, text, f);
    PassesThrough(more, text, f);
    assert ([d] + more)[1..] == more;
    var first := InOnePiece(Joined(held) + d, text, f);
    assert Response(false, held, [d] + more, text, f) == [first] + more;
    JoinedConcat([first], more);
    JoinedOne(first);
  }

  lemma TagDecidesHeld(held: seq<Bytes>, d: Bytes, text: Bytes, f: Searches)
    requires VerifyBodyExists(d) && |d| > 0 && InsertHtmlSnippet(Joined(held) + d, text, SEARCH_LIMIT, f).Some?
    requires |Joined(held) + d| < SEARCH_LIMIT
    ensures TakeTurn(false, held, d, text, f) == Turn([InOnePiece(Joined(held) + d, text, f)], true, [])
  {
    if |held| == 0 {
      assert Joined(held) + d == d;
    }
  }

  /** Main result about cuts: a response below the limit comes out as if it had come in one piece
      if and only if some piece holds a whole body tag, or there is nothing to insert anyway. */
  lemma CutsDoNotMatterIff(chunks: seq<Bytes>, text: Bytes, f: Searches)
    requires |Joined(chunks)| < SEARCH_LIMIT
    ensures Joined(Response(false, [], [Joined(chunks)], text, f)) == InOnePiece(Joined(chunks), text, f)
    ensures Joined(Response(false, [], chunks, text, f)) == InOnePiece(Joined(chunks), text, f)
            <==> HasTag(chunks) || InOnePiece(Joined(chunks), text, f) == Joined(chunks)
  {
    var all := Joined(chunks);
    assert [] + all == all && Joined([]) == [];
    HeldResponse([], chunks, text, f);
    JoinedOne(all);
    HeldResponse([], [all], text, f);
    InsertionRewrites(all, text, SEARCH_LIMIT, f);
    OneHasTag(all);
    WithinLimit(all);
  }

  lemma OneHasTag(data: Bytes)
    ensures HasTag([data]) <==> VerifyBodyExists(data)
  {
    HasTagTail([data]);
    assert !HasTag([data][1..]);
  }

  const OPENING: Bytes := [60, 98, 111]         // "<bo"
  const CLOSING: Bytes := [100, 121, 62]        // "dy>"

  /** A cut inside the tag: in one piece the text is inserted, in two it is not. */
  lemma CutTagIsMissed(text: Bytes, f: Searches)
    requires |text| > 0 && !f.attachmentMeta([]) && f.xuaMetaEnd([]).None? && f.charsetMetaEnd([]).None?
    requires f.headEnd([]).None?
    ensures Joined(Response(false, [], [OPENING + CLOSING], text, f)) == text + (OPENING + CLOSING)
    ensures Joined(Response(false, [], [OPENING, CLOSING], text, f)) == OPENING + CLOSING
  {
    var tag := OPENING + CLOSING;
    JoinedOne(tag);
    CutsDoNotMatterIff([tag], text, f);
    WholeTag(tag, text, f);
    TwoPieces(text, f);
  }

  lemma TwoPieces(text: Bytes, f: Searches)
    ensures Joined(Response(false, [], [OPENING, CLOSING], text, f)) == OPENING + CLOSING
  {
    JoinedHead([OPENING, CLOSING]);
    JoinedOne(CLOSING);
    assert [OPENING, CLOSING][1..] == [CLOSING];
    HeldResponse([], [OPENING, CLOSING], text, f);
    ShortHasNoTag(OPENING);
    ShortHasNoTag(CLOSING);
  }

  lemma ShortHasNoTag(data: Bytes)
    requires |data| <= 5
    ensures !VerifyBodyExists(data)
  {
    FindBodyIsLeftmost(data, 0);
  }

  lemma WholeTag(tag: Bytes, text: Bytes, f: Searches)
    requires tag == OPENING + CLOSING && |text| > 0
    requires !f.attachmentMeta([]) && f.xuaMetaEnd([]).None? && f.charsetMetaEnd([]).None? && f.headEnd([]).None?
    ensures InOnePiece(tag, text, f) == text + tag
  {
    assert BODY_TAG == [60, 98, 111, 100, 121] && tag == [60, 98, 111, 100, 121, 62];
    assert tag[0 + |BODY_TAG|..][0] == GREATER;
    assert BodyAt(tag, 0);
    FindBodyUnique(tag, 0);
    WithinLimit(tag);
    assert tag[..0] == [] && tag[0..] == tag;
    assert InsertedAt([], 0, text) + tag == text + tag;
  }

  lemma NothingHeld(held: Bytes, data: Bytes)
    requires |held| == 0
    ensures held + data == data
  {
  }

  function Raised(length: Option<int>, delta: int): Option<int> {
    if length.None? then None else Some(length.value + delta)
  }

  lemma EmittedRaised(kept: Headers, declared: Option<int>, delta: int, p: Policy)
    ensures Emitted(kept, Raised(declared, delta), 0, p) == Emitted(kept, declared, delta, p)
  {
  }

  /** What the headers that are sent declare, told by reading them back. */
  lemma EmittedDeclares(kept: Headers, declared: Option<int>, delta: int, p: Policy)
    requires RoundTrips(p) && WithoutLength(kept, p) == kept && DeclaredLength(kept, p) == None
    ensures WithoutLength(Emitted(kept, declared, delta, p), p) == kept
    ensures DeclaredLength(Emitted(kept, declared, delta, p), p)
            == if declared.Some? then Some(declared.value + delta) else None
  {
    if declared.Some? {
      ShownLength("Content-Length", declared.value + delta, p);
      LengthAppend(kept, Header("Content-Length", p.showInt(declared.value + delta)), p);
    }
  }

  lemma ShowsLength(hs: Headers, n: int, p: Policy)
    ensures RoundTrips(p) ==> DeclaredLength(hs + [Header("Content-Length", p.showInt(n))], p) == Some(n)
  {
    if RoundTrips(p) {
      ShownLength("Content-Length", n, p);
      LengthAppend(hs, Header("Content-Length", p.showInt(n)), p);
    }
  }

  /** The headers h for a body of b bytes have been turned into sent for one of b' bytes: the same
      but for the declared length, which has grown by as much as the body. */
  predicate LengthFollows(h: Headers, sent: Headers, b: nat, b': nat, p: Policy) {
    && WithoutLength(sent, p) == WithoutLength(h, p)
    && DeclaredLength(sent, p) == match DeclaredLength(h, p)
                                  case Some(n) => Some(n + (b' - b))
                                  case None => None
  }

  /** And if it was right it is right. */
  predicate LengthRight(h: Headers, sent: Headers, b: nat, b': nat, p: Policy) {
    && LengthFollows(h, sent, b, b', p)
    && (DeclaredLength(h, p) == Some(b) ==> DeclaredLength(sent, p) == Some(b'))
  }

  lemma Follows(h: Headers, kept: Headers, declared: Option<int>, sent: Headers, b: nat, b': nat, p: Policy)
    requires kept == WithoutLength(h, p) == WithoutLength(sent, p) && declared == DeclaredLength(h, p)
    requires DeclaredLength(sent, p) == if declared.Some? then Some(declared.value + (b' - b)) else None
    ensures LengthRight(h, sent, b, b', p)
  {
  }

  lemma EmittedIsRight(h: Headers, kept: Headers, declared: Option<int>, sent: Headers, b: nat, b': nat, p: Policy)
    requires kept == WithoutLength(h, p) && declared == DeclaredLength(h, p) && sent == Emitted(kept, declared, b' - b, p)
    ensures RoundTrips(p) ==> LengthRight(h, sent, b, b', p)
  {
    if RoundTrips(p) {
      WithoutLengthTwice(h, p);
      EmittedDeclares(kept, declared, b' - b, p);
      Follows(h, kept, declared, sent, b, b', p);
    }
  }

  class Middleware {
    const text: Bytes           // what browser_timing_header() gives
    const searches: Searches
    const policy: Policy
    var passThrough: bool
    var flushed: Option<Headers>     // what outer_start_response was called with
    var responseHeaders: Headers
    var contentLength: Option<int>
    var responseLength: nat
    var responseData: seq<Bytes>
    ghost var kept: Headers          // the headers that are sent as they came
    ghost var declared: Option<int>  // the length to be corrected
    ghost var given: Bytes           // the application's body so far
    ghost var sent: Bytes            // the body yielded so far

    constructor (text: Bytes, searches: Searches, policy: Policy)
      ensures this.text == text && this.searches == searches && this.policy == policy
      ensures Untouched()
    {
      this.text, this.searches, this.policy := text, searches, policy;
      passThrough, flushed, responseHeaders, contentLength := true, None, [], None;
      responseLength, responseData := 0, [];
      kept, declared, given, sent := [], None, [], [];
    }

    ghost predicate Untouched()
      reads this
    {
      flushed.None? && responseData == [] && responseLength == 0 && given == [] && sent == []
    }

    /** Nothing has been sent; all the application gave is held back, less than the limit. */
    ghost predicate Buffering()
      reads this
    {
      && !passThrough && flushed.None? && sent == []
      && Joined(responseData) == given && responseLength == |given| < SEARCH_LIMIT
      && contentLength == declared && responseHeaders == kept
    }

    /** The headers are out, nothing is held back, and what was sent is what was given with
        the text inserted at most once, by as much as the declared length was raised. */
    ghost predicate Settled()
      reads this
    {
      && passThrough && responseData == []
      && Rewrites(given, sent, text)
      && flushed == Some(Emitted(kept, declared, |sent| - |given|, policy))
    }

    ghost predicate Valid()
      reads this
    {
      Buffering() || Settled()
    }

    method FlushHeaders()
      modifies this`responseHeaders, this`flushed
      ensures responseHeaders == Emitted(old(responseHeaders), contentLength, 0, policy)
      ensures flushed == Some(responseHeaders)
      ensures RoundTrips(policy) && contentLength.Some? ==> DeclaredLength(responseHeaders, policy) == contentLength
    {
      if contentLength.Some? {
        ShowsLength(responseHeaders, contentLength.value, policy);
        responseHeaders := responseHeaders + [Header("Content-Length", policy.showInt(contentLength.value))];
      }
      flushed := Some(responseHeaders);
    }

    /** start_response, called once and before any data.  `disabled`: insertion is switched
        off or has already happened. */
    method StartResponse(headers: Headers, disabled: bool)
      requires Untouched()
      modifies this
      ensures Valid()
      ensures given == [] && sent == [] && responseData == []
      ensures passThrough <==> disabled || HasBadLength(headers, policy) || !Eligible(headers, policy)
      ensures if passThrough then kept == headers && declared == None
              else kept == WithoutLength(headers, policy) && declared == DeclaredLength(headers, policy)
    {
      passThrough := true;
      responseHeaders := headers;
      contentLength := None;
      kept, declared := headers, None;
      if disabled {
        LetThrough();
        return;
      }
      var rest, length, bad, encoding, disposition, contentType := ScanHeaders(headers);
      var insert := ShouldInsert(bad, encoding, disposition, contentType);
      if insert {
        passThrough := false;
        contentLength := length;
        responseHeaders := rest;
        kept, declared := rest, length;
      }
      if passThrough {
        LetThrough();
      }
    }

    /** Headers out as they came; the body will follow as it comes. */
    method LetThrough()
      requires Untouched() && passThrough && contentLength.None? && declared.None? && responseHeaders == kept
      modifies this`responseHeaders, this`flushed
      ensures Settled()
    {
      assert Rewrites([], [], text);
      FlushHeaders();
    }

    /** The loop over the application's headers. */
    method ScanHeaders(headers: Headers)
      returns (rest: Headers, length: Option<int>, bad: bool,
               encoding: Option<string>, disposition: Option<string>, contentType: Option<string>)
      ensures rest == WithoutLength(headers, policy) && length == DeclaredLength(headers, policy)
      ensures bad == HasBadLength(headers, policy)
      ensures encoding == LastValue(headers, "content-encoding")
      ensures disposition == LastValue(headers, "content-disposition")
      ensures contentType == LastValue(headers, "content-type")
    {
      rest, length, bad, encoding, disposition, contentType := [], None, false, None, None, None;
      for i := 0 to |headers|
        invariant rest == WithoutLength(headers[..i], policy) && length == DeclaredLength(headers[..i], policy)
        invariant bad == HasBadLength(headers[..i], policy)
        invariant encoding == LastValue(headers[..i], "content-encoding")
        invariant disposition == LastValue(headers[..i], "content-disposition")
        invariant contentType == LastValue(headers[..i], "content-type")
      {
        var h, name := headers[i], LowerText(headers[i].name);
        NextHeader(headers, i, policy);
        NextValue(headers, i, "content-encoding");
        NextValue(headers, i, "content-disposition");
        NextValue(headers, i, "content-type");
        if name == "content-length" {
          var n := policy.parseInt(h.value);
          if n.Some? {
            length := n;
            continue;
          }
          bad := true;
        } else if name == "content-type" {
          contentType := Some(h.value);
        } else if name == "content-encoding" {
          encoding := Some(h.value);
        } else if name == "content-disposition" {
          disposition := Some(h.value);
        }
        rest := rest + [h];
      }
      assert headers[..|headers|] == headers;
    }

    method ShouldInsert(bad: bool, encoding: Option<string>, disposition: Option<string>, contentType: Option<string>)
      returns (r: bool)
      ensures r == (!bad && encoding.None? && !(disposition.Some? && policy.isAttachment(disposition.value))
                    && contentType.Some? && policy.allowsType(contentType.value))
    {
      if bad {
        return false;
      }
      if encoding.Some? {
        return false;
      }
      if disposition.Some? && policy.isAttachment(disposition.value) {
        return false;
      }
      if contentType.None? {
        return false;
      }
      return policy.allowsType(contentType.value);
    }

    /** process_data: None while the data is only held back.  `delta` is what the declared
        length was raised by. */
    method ProcessData(data: Bytes) returns (out: Option<seq<Bytes>>, ghost delta: int)
      requires Buffering()
      modifies this`responseData, this`responseLength, this`contentLength
      ensures out == Decide(old(responseData), data, text, searches)
      ensures contentLength == Raised(declared, delta)
      ensures responseData == if out.Some? then [] else old(responseData) + [data]
      ensures out.None? ==> responseLength == |given + data| && delta == 0
      ensures out.Some? ==> delta == |Joined(out.value)| - |given + data|
    {
      if |responseData| == 0 {
        NothingHeld(given, data);
        var first;
        first, delta := TryInsert(data);
        if first.Some? {
          JoinedOne(first.value);
          return Some([first.value]), delta;
        }
      }
      if |responseData| == 0 || !VerifyBodyExists(data) {
        out := HoldBack(data);
        delta := 0;
        return;
      }
      var joined := InsertIntoJoined(data);
      delta := |joined| - |given + data|;
      JoinedOne(joined);
      return Some([joined]), delta;
    }

    /** The body tag has come: join what was held back and insert. */
    method InsertIntoJoined(data: Bytes) returns (out: Bytes)
      requires Buffering() && |responseData| > 0 && VerifyBodyExists(data)
      modifies this`responseData, this`contentLength
      ensures responseData == []
      ensures InsertHtmlSnippet(given + data, text, SEARCH_LIMIT, searches) == Some(out)
      ensures contentLength == Raised(declared, |out| - |given + data|)
    {
      FallbackUnreachable(responseData, data, text, searches);
      var joined := JoinHeld(data);
      var inserted, _ := TryInsert(joined);
      if inserted.None? {
        assert false;      // "should never get here"
      }
      out := inserted.value;
    }

    method JoinHeld(data: Bytes) returns (joined: Bytes)
      modifies this`responseData
      ensures responseData == [] && joined == Joined(old(responseData)) + data
    {
      JoinedAppend(responseData, data);
      responseData := responseData + [data];
      joined := Joined(responseData);
      responseData := [];
    }

    /** No body tag yet: keep the data, or give up once the limit is reached. */
    method HoldBack(data: Bytes) returns (out: Option<seq<Bytes>>)
      requires Buffering()
      modifies this`responseData, this`responseLength
      ensures out == if |given + data| >= SEARCH_LIMIT then Some(old(responseData) + [data]) else None
      ensures responseData == if out.Some? then [] else old(responseData) + [data]
      ensures out.Some? ==> Joined(out.value) == given + data
      ensures responseLength == |given + data|
    {
      JoinedAppend(responseData, data);
      responseLength := responseLength + |data|;
      responseData := responseData + [data];
      if responseLength >= SEARCH_LIMIT {
        out := Some(responseData);
        responseData := [];
        return;
      }
      return None;
    }

    /** One attempt at inserting; on success the declared length follows. */
    method TryInsert(data: Bytes) returns (modified: Option<Bytes>, ghost delta: int)
      requires contentLength == declared
      modifies this`contentLength
      ensures modified == InsertHtmlSnippet(data, text, SEARCH_LIMIT, searches)
      ensures delta == if modified.Some? then |modified.value| - |data| else 0
      ensures contentLength == Raised(declared, delta)
    {
      modified := InsertHtmlSnippet(data, text, SEARCH_LIMIT, searches);
      delta := 0;
      if modified.Some? {
        delta := |modified.value| - |data|;
        CountLength(|modified.value| - |data|);
      }
    }

    method CountLength(delta: int)
      modifies this`contentLength
      ensures contentLength == Raised(old(contentLength), delta)
    {
      if contentLength.Some? {
        contentLength := Some(contentLength.value + delta);
      }
    }

    /** One turn of the loop in __iter__: what is yielded for one piece of the response. */
    method Next(data: Bytes) returns (out: seq<Bytes>)
      requires Valid()
      modifies this
      ensures Valid()
      ensures given == old(given) + data && sent == old(sent) + Joined(out)
      ensures kept == old(kept) && declared == old(declared)
      ensures Turn(out, passThrough, responseData) == TakeTurn(old(passThrough), old(responseData), data, text, searches)
    {
      if passThrough {
        PassOn(data);
        return [data];
      }
      if |data| == 0 {
        NothingAdded(given, sent, data);
        return [];
      }
      out := NextHeld(data);
    }

    /** Pass-through mode: the piece goes on as it is. */
    ghost method PassOn(data: Bytes)
      requires Settled()
      modifies this`given, this`sent
      ensures Settled() && given == old(given) + data && sent == old(sent) + Joined([data])
    {
      RewritesExtends(given, sent, text, data);
      JoinedOne(data);
      given, sent := given + data, sent + data;
    }

    /** The turn while the headers are still held back. */
    method NextHeld(data: Bytes) returns (out: seq<Bytes>)
      requires Buffering() && |data| > 0
      modifies this
      ensures Valid() && given == old(given) + data && sent == Joined(out)
      ensures kept == old(kept) && declared == old(declared)
      ensures Turn(out, passThrough, responseData) == TakeTurn(false, old(responseData), data, text, searches)
    {
      var processed, delta := Take(data);
      if processed.None? {
        return [];
      }
      out := processed.value;
      Release(out, delta);
    }

    /** process_data on the next piece, which is then on the record. */
    method Take(data: Bytes) returns (out: Option<seq<Bytes>>, ghost delta: int)
      requires Buffering() && |data| > 0
      modifies this`responseData, this`responseLength, this`contentLength, this`given
      ensures given == old(given) + data
      ensures TakeTurn(false, old(responseData), data, text, searches)
              == if out.None? then Turn([], false, responseData) else Turn(out.value, true, [])
      ensures if out.None? then Buffering()
              else responseData == [] && contentLength == Raised(declared, delta)
                   && Rewrites(given, Joined(out.value), text) && delta == |Joined(out.value)| - |given|
    {
      out, delta := ProcessData(data);
      DecisionRewrites(old(responseData), data, text, searches);
      JoinedAppend(old(responseData), data);
      given := given + data;
    }

    /** Headers out, then the pieces; from now on everything passes through. */
    method Release(ghost pieces: seq<Bytes>, ghost delta: int)
      requires responseData == [] && responseHeaders == kept && contentLength == Raised(declared, delta)
      requires Rewrites(given, Joined(pieces), text) && delta == |Joined(pieces)| - |given|
      modifies this`responseHeaders, this`flushed, this`passThrough, this`sent
      ensures Valid() && passThrough && sent == Joined(pieces)
    {
      FlushHeaders();
      EmittedRaised(kept, declared, delta, policy);
      passThrough := true;
      sent := Joined(pieces);
    }

    /** What follows the last piece: the headers of a response too short to decide, then the
        data still held back. */
    method Finish() returns (out: seq<Bytes>)
      requires Valid()
      modifies this
      ensures Settled() && given == old(given) && sent == old(sent) + Joined(out)
      ensures kept == old(kept) && declared == old(declared)
      ensures out == old(responseData)
    {
      assert Buffering() ==> given == sent + Joined(responseData);
      if flushed.None? {
        FlushHeaders();
        passThrough := true;
      }
      out := responseData;
      responseData := [];
      sent := sent + Joined(out);
      assert old(passThrough) ==> sent == old(sent);
    }

    /** A whole response: the application calls start_response and gives its pieces.  Main result:
        for numbers that can be read back the headers are sent as they came, but that a declared
        length has grown by as much as the body; so a length that was right is right. */
    method Respond(headers: Headers, disabled: bool, chunks: seq<Bytes>) returns (out: seq<Bytes>)
      requires Untouched()
      modifies this
      ensures given == Joined(chunks) && sent == Joined(out) && flushed.Some?
      ensures if disabled || HasBadLength(headers, policy) || !Eligible(headers, policy)
              then flushed == Some(headers) && out == chunks
              else Rewrites(given, sent, text) && out == Response(false, [], chunks, text, searches)
      ensures RoundTrips(policy) ==> LengthRight(headers, flushed.value, |given|, |sent|, policy)
    {
      StartResponse(headers, disabled);
      if passThrough {
        out := IterateThrough(chunks);
      } else {
        out := Iterate(chunks);
        LengthIsRight(headers);
      }
    }

    lemma LengthIsRight(headers: Headers)
      requires Settled() && kept == WithoutLength(headers, policy) && declared == DeclaredLength(headers, policy)
      ensures RoundTrips(policy) ==> LengthRight(headers, flushed.value, |given|, |sent|, policy)
    {
      EmittedIsRight(headers, kept, declared, flushed.value, |given|, |sent|, policy);
    }

    method IterateThrough(chunks: seq<Bytes>) returns (out: seq<Bytes>)
      requires Settled() && given == [] && sent == [] && declared.None?
      modifies this
      ensures given == Joined(chunks) && sent == Joined(out) && out == chunks
      ensures flushed == Some(old(kept))
    {
      out := Iterate(chunks);
      PassesThrough(chunks, text, searches);
    }

    /** __iter__ over the pieces of the response.  Main result: the bytes yielded are the
        application's bytes with the text inserted at most once, no later than the body tag,
        and a declared length is sent raised by exactly the inserted length. */
    method Iterate(chunks: seq<Bytes>) returns (out: seq<Bytes>)
      requires Valid() && given == [] && sent == []
      modifies this
      ensures given == Joined(chunks) && sent == Joined(out) && Settled()
      ensures kept == old(kept) && declared == old(declared)
      ensures out == Response(old(passThrough), old(responseData), chunks, text, searches)
    {
      out := Pieces(chunks);
      var rest := Finish();
      JoinedConcat(out, rest);
      out := out + rest;
    }

    /** The loop of __iter__. */
    method Pieces(chunks: seq<Bytes>) returns (out: seq<Bytes>)
      requires Valid() && given == [] && sent == []
      modifies this
      ensures Valid() && given == Joined(chunks) && sent == Joined(out)
      ensures kept == old(kept) && declared == old(declared)
      ensures out + responseData == Response(old(passThrough), old(responseData), chunks, text, searches)
    {
      ghost var whole := Response(passThrough, responseData, chunks, text, searches);
      out := [];
      for i := 0 to |chunks|
        invariant Valid() && given == Joined(chunks[..i]) && sent == Joined(out)
        invariant kept == old(kept) && declared == old(declared)
        invariant whole == out + Response(passThrough, responseData, chunks[i..], text, searches)
      {
        ResponseStep(passThrough, responseData, chunks, i, out, text, searches);
        var more := Next(chunks[i]);
        JoinedConcat(out, more);
        out := out + more;
        JoinedPrefix(chunks, i);
      }
      assert chunks[..|chunks|] == chunks;
    }
  }
}
