/** newrelic/api/html_insertion.py: where the browser snippet goes into an HTML text. */
module HtmlInsertion {
  import opened Prelude

  type Bytes = seq<Byte>

  const GREATER: Byte := 62                               // '>'
  const BODY_TAG: Bytes := [60, 98, 111, 100, 121]        // "<body"
  const SEARCH_LIMIT: nat := 64 * 1024

  function Lower(b: Byte): Byte {
    if 65 <= b <= 90 then b + 32 else b
  }

  /** The tag name stands at i, in any case. */
  predicate TagAt(data: Bytes, i: nat) {
    i + |BODY_TAG| <= |data| && forall k | 0 <= k < |BODY_TAG| :: Lower(data[i + k]) == BODY_TAG[k]
  }

  /** `<body[^>]*>` matches at i: the tag name, then a `>` somewhere after it. */
  predicate BodyAt(data: Bytes, i: nat) {
    TagAt(data, i) && GREATER in data[i + |BODY_TAG|..]
  }

  /** The leftmost match, as `search` finds it. */
  function FindBody(data: Bytes, from: nat := 0): (r: Option<nat>)
    ensures r.Some? ==> from <= r.value <= |data|
    decreases |data| - from
  {
    if from >= |data| then None
    else if BodyAt(data, from) then Some(from)
    else FindBody(data, from + 1)
  }

  /** The other patterns: any searches whose match ends inside the text. */
  datatype Finders = Finders(
    attachmentMeta: Bytes -> bool,
    xuaMetaEnd: Bytes -> Option<nat>,
    charsetMetaEnd: Bytes -> Option<nat>,
    headEnd: Bytes -> Option<nat>)
  {
    ghost predicate InRange() {
      forall d: Bytes ::
        && (xuaMetaEnd(d).Some? ==> xuaMetaEnd(d).value <= |d|)
        && (charsetMetaEnd(d).Some? ==> charsetMetaEnd(d).value <= |d|)
        && (headEnd(d).Some? ==> headEnd(d).value <= |d|)
    }
  }

  type Searches = f: Finders | f.InRange()
    ghost witness Finders((d: Bytes) => false, (d: Bytes) => None, (d: Bytes) => None, (d: Bytes) => None)

  function Or0(m: Option<nat>): nat {
    if m.Some? then m.value else 0
  }

  function InsertedAt(data: Bytes, at: nat, text: Bytes): Bytes
    requires at <= |data|
  {
    data[..at] + text + data[at..]
  }

  function TakeUpTo(data: Bytes, limit: nat): Bytes {
    if limit <= |data| then data[..limit] else data
  }

  /** Where the text goes in what stands before the body. */
  function InsertionIndex(head: Bytes, f: Searches): (at: nat)
    ensures at <= |head|
  {
    var index := Max(Or0(f.xuaMetaEnd(head)), Or0(f.charsetMetaEnd(head)));
    if index != 0 then index
    else
      var h := f.headEnd(head);
      if h.Some? then h.value else |head|
  }

  /** insert_html_snippet; None means that nothing was decided. */
  function InsertHtmlSnippet(data: Bytes, text: Bytes, limit: nat, f: Searches): Option<Bytes> {
    var body := FindBody(TakeUpTo(data, limit));
    if body.None? then
      if |data| > limit then Some(data) else None
    else if |text| == 0 then Some(data)
    else
      var start := body.value;
      var head, tail := data[..start], data[start..];
      if f.attachmentMeta(head) then Some(head + tail)
      else Some(InsertedAt(head, InsertionIndex(head, f), text) + tail)
  }

  predicate VerifyBodyExists(data: Bytes) {
    FindBody(data).Some?
  }

  // ----- what the search and the insertion guarantee -----------------------------------

  /** The bytes of the tag name, either letter: `<`, B or b, O or o, D or d, Y or y. */
  lemma TagAtIff(data: Bytes, i: nat)
    ensures TagAt(data, i) <==>
            && i + 5 <= |data| && data[i] == 60
            && data[i + 1] in [66, 98] && data[i + 2] in [79, 111] && data[i + 3] in [68, 100] && data[i + 4] in [89, 121]
  {
    if i + 5 <= |data| {
      assert TagAt(data, i) <==> LowerAt(data, i, 0) && LowerAt(data, i, 1) && LowerAt(data, i, 2)
                                 && LowerAt(data, i, 3) && LowerAt(data, i, 4);
    }
  }

  predicate LowerAt(data: Bytes, i: nat, k: nat)
    requires k < 5 && i + 5 <= |data|
  {
    Lower(data[i + k]) == BODY_TAG[k]
  }

  /** A body tag is the name and, anywhere behind it, `>`. */
  lemma BodyAtIff(data: Bytes, i: nat)
    ensures BodyAt(data, i) <==> TagAt(data, i) && exists j | i + 5 <= j < |data| :: data[j] == 62
  {
    if TagAt(data, i) {
      assert forall j | i + 5 <= j < |data| :: data[i + 5..][j - i - 5] == data[j];
    }
  }

  lemma FindBodyUnique(data: Bytes, i: nat)
    requires BodyAt(data, i) && forall j: nat | j < i :: !BodyAt(data, j)
    ensures FindBody(data) == Some(i)
  {
    FindBodyIsLeftmost(data, 0);
    assert BodyAt(data, i);
  }

  /** The search finds a match, no earlier one exists, and none exists when it finds none. */
  lemma {:induction false} FindBodyIsLeftmost(data: Bytes, from: nat)
    ensures var r := FindBody(data, from);
      && (r.Some? ==> BodyAt(data, r.value))
      && (forall i: nat | from <= i && (r.None? || i < r.value) :: !BodyAt(data, i))
    decreases |data| - from
  {
    if from < |data| && !BodyAt(data, from) {
      FindBodyIsLeftmost(data, from + 1);
    }
  }

  /** No tag name at all stands before the first match: the `>` would serve it too. */
  lemma NoEarlierTag(data: Bytes, j: nat)
    requires FindBody(data).Some? && j < FindBody(data).value
    ensures !TagAt(data, j)
  {
    FindBodyIsLeftmost(data, 0);
    var from := FindBody(data).value + |BODY_TAG|;
    var k: nat :| k < |data[from..]| && data[from..][k] == GREATER;
    assert data[j + |BODY_TAG|..][from - j - |BODY_TAG| + k] == GREATER;
    assert !BodyAt(data, j);
  }

  /** More text after a match does not move it. */
  lemma FindBodyExtends(data: Bytes, more: Bytes)
    requires FindBody(data).Some?
    ensures FindBody(data + more) == FindBody(data)
  {
    var i := FindBody(data).value;
    FindBodyIsLeftmost(data, 0);
    assert (data + more)[i + |BODY_TAG|..] == data[i + |BODY_TAG|..] + more;
    forall j: nat | j < i
      ensures !BodyAt(data + more, j)
    {
      NoEarlierTag(data, j);
      assert TagAt(data + more, j) ==> TagAt(data, j);
    }
    FindBodyUnique(data + more, i);
  }

  /** A match in a later piece is a match in the whole. */
  lemma BodyInSuffix(before: Bytes, data: Bytes)
    requires VerifyBodyExists(data)
    ensures VerifyBodyExists(before + data)
  {
    FindBodyIsLeftmost(data, 0);
    var i := FindBody(data).value;
    var all := before + data;
    assert all[|before| + i + |BODY_TAG|..] == data[i + |BODY_TAG|..];
    forall k | 0 <= k < |BODY_TAG|
      ensures Lower(all[|before| + i + k]) == BODY_TAG[k]
    {
      assert all[|before| + i + k] == data[i + k];
    }
    assert BodyAt(all, |before| + i);
    FindBodyIsLeftmost(all, 0);
  }

  /** `after` is `before`, or `before` with the text put in once, no later than the body tag. */
  ghost predicate Rewrites(before: Bytes, after: Bytes, text: Bytes) {
    after == before || exists at: nat :: InsertedBeforeBody(before, after, text, at)
  }

  ghost predicate InsertedBeforeBody(before: Bytes, after: Bytes, text: Bytes, at: nat) {
    && FindBody(before).Some? && at <= FindBody(before).value <= |before|
    && |text| > 0 && after == InsertedAt(before, at, text)
  }

  lemma SplitInsert(data: Bytes, start: nat, at: nat, text: Bytes)
    requires at <= start <= |data|
    ensures InsertedAt(data[..start], at, text) + data[start..] == InsertedAt(data, at, text)
  {
    assert data == data[..start] + data[start..];
    assert data[..start][at..] + data[start..] == data[at..];
  }

  /** Whatever is decided is a rewriting; a match anywhere means that something is decided. */
  lemma InsertionRewrites(data: Bytes, text: Bytes, limit: nat, f: Searches)
    ensures var r := InsertHtmlSnippet(data, text, limit, f);
      && (r.Some? ==> Rewrites(data, r.value, text))
      && (r.None? <==> FindBody(TakeUpTo(data, limit)).None? && |data| <= limit)
      && (VerifyBodyExists(data) ==> r.Some?)
  {
    if |data| <= limit {
      assert TakeUpTo(data, limit) == data;
    }
    if FindBody(TakeUpTo(data, limit)).Some? {
      FindBodyExtends(TakeUpTo(data, limit), data[|TakeUpTo(data, limit)|..]);
      assert TakeUpTo(data, limit) + data[|TakeUpTo(data, limit)|..] == data;
      if |text| > 0 {
        InsertionBeforeBody(data, text, limit, f);
      }
    }
  }

  lemma InsertionBeforeBody(data: Bytes, text: Bytes, limit: nat, f: Searches)
    requires |text| > 0 && FindBody(TakeUpTo(data, limit)).Some?
    requires FindBody(data) == FindBody(TakeUpTo(data, limit))
    ensures Rewrites(data, InsertHtmlSnippet(data, text, limit, f).value, text)
  {
    var start := FindBody(data).value;
    var head := data[..start];
    var r := InsertHtmlSnippet(data, text, limit, f).value;
    if f.attachmentMeta(head) {
      assert head + data[start..] == data;
    } else {
      var at := InsertionIndex(head, f);
      SplitInsert(data, start, at, text);
      assert InsertedBeforeBody(data, r, text, at);
    }
  }

  /** Where the text stands: nowhere in an attachment; else right after the later of the X-UA and
      charset declarations in front of the body; and if there is none, right after the head tag
      or right before the body tag. */
  lemma InsertionPlace(data: Bytes, text: Bytes, limit: nat, f: Searches) returns (at: nat)
    requires FindBody(TakeUpTo(data, limit)).Some? && |text| > 0
    ensures var start := FindBody(TakeUpTo(data, limit)).value; var head := data[..start];
      if f.attachmentMeta(head) then InsertHtmlSnippet(data, text, limit, f) == Some(data)
      else
        && at <= start <= |data| && InsertHtmlSnippet(data, text, limit, f) == Some(InsertedAt(data, at, text))
        && var x, c := Or0(f.xuaMetaEnd(head)), Or0(f.charsetMetaEnd(head));
           if x > 0 || c > 0 then x <= at && c <= at && (at == x || at == c)
           else at == if f.headEnd(head).Some? then f.headEnd(head).value else start
  {
    var start := FindBody(TakeUpTo(data, limit)).value;
    var head := data[..start];
    at := InsertionIndex(head, f);
    if f.attachmentMeta(head) {
      assert head + data[start..] == data;
    } else {
      SplitInsert(data, start, at, text);
    }
  }

  /** Passing more text through unchanged keeps a rewriting one. */
  lemma RewritesExtends(before: Bytes, after: Bytes, text: Bytes, more: Bytes)
    requires Rewrites(before, after, text)
    ensures Rewrites(before + more, after + more, text)
  {
    if after != before {
      var at: nat :| InsertedBeforeBody(before, after, text, at);
      FindBodyExtends(before, more);
      assert (before + more)[..at] == before[..at] && (before + more)[at..] == before[at..] + more;
      assert InsertedBeforeBody(before + more, after + more, text, at);
    }
  }
}
