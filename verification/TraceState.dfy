/** W3CTraceState of newrelic/common/encoding_utils.py: the tracestate header of W3C Trace
    Context, section 3.3, as an ordered dictionary. */
module TraceState {
  import opened Prelude
  import opened Text

  /** An OrderedDict: its items in order, every key once. */
  type Vendors = seq<(string, string)>

  predicate IsBlank(c: char) {
    c == ' ' || c == '\t'
  }

  /** What str.rstrip() removes. */
  predicate IsSpace(c: char) {
    || IsBlank(c) || '\n' <= c <= '\r' || '\U{1c}' <= c <= '\U{1f}' || c == '\U{85}' || c == '\U{a0}'
    || c == '\U{1680}' || '\U{2000}' <= c <= '\U{200a}' || c == '\U{2028}' || c == '\U{2029}'
    || c == '\U{202f}' || c == '\U{205f}' || c == '\U{3000}'
  }

  function StripRight(s: string): (r: string)
    ensures r <= s && (|r| > 0 ==> !IsSpace(r[|r| - 1]))
  {
    if |s| > 0 && IsSpace(s[|s| - 1]) then StripRight(s[..|s| - 1]) else s
  }

  function BlanksOffRight(s: string): (r: string)
    ensures r <= s && (|r| > 0 ==> !IsBlank(r[|r| - 1]))
  {
    if |s| > 0 && IsBlank(s[|s| - 1]) then BlanksOffRight(s[..|s| - 1]) else s
  }

  function BlanksOffLeft(s: string): (r: string)
    ensures |r| <= |s| && r == s[|s| - |r|..] && (|r| > 0 ==> !IsBlank(r[0]))
  {
    if |s| > 0 && IsBlank(s[0]) then BlanksOffLeft(s[1..]) else s
  }

  /** re.split("[ \t]*,[ \t]*", s): a delimiter takes the blanks on both sides of its comma. */
  function Entries(s: string): (r: seq<string>)
    ensures |r| > 0
    decreases |s|
  {
    var i := IndexOf(s, ',');
    if i.None? then [s]
    else [BlanksOffRight(s[..i.value])] + Entries(BlanksOffLeft(s[i.value + 1..]))
  }

  /** A list-member with exactly one `=` and no overlong part. */
  function ParseEntry(e: string): Option<(string, string)> {
    var parts := Split(e, '=', 2);
    if |parts| != 2 || |parts[0]| > 256 || |parts[1]| > 256 then None
    else Some((parts[0], parts[1]))
  }

  function IndexOfKey(d: Vendors, k: string): (r: Option<nat>)
    ensures r.Some? ==> r.value < |d| && d[r.value].0 == k
    ensures r.None? ==> forall i | 0 <= i < |d| :: d[i].0 != k
  {
    if |d| == 0 then None
    else if d[|d| - 1].0 == k then Some(|d| - 1)
    else IndexOfKey(d[..|d| - 1], k)
  }

  /** d[k] = v: an existing key keeps its place. */
  function Put(d: Vendors, k: string, v: string): Vendors {
    var i := IndexOfKey(d, k);
    if i.Some? then d[i.value := (k, v)] else d + [(k, v)]
  }

  function PutAll(pairs: seq<(string, string)>): Vendors {
    if |pairs| == 0 then []
    else Put(PutAll(pairs[..|pairs| - 1]), pairs[|pairs| - 1].0, pairs[|pairs| - 1].1)
  }

  function ParsedEntries(es: seq<string>): seq<(string, string)> {
    if |es| == 0 then []
    else
      var p := ParseEntry(es[|es| - 1]);
      ParsedEntries(es[..|es| - 1]) + if p.Some? then [p.value] else []
  }

  /** The keys and values of the list-members, as they stand. */
  function Pairs(tracestate: string): seq<(string, string)> {
    ParsedEntries(Entries(StripRight(tracestate)))
  }

  function Decode(tracestate: string): Vendors {
    PutAll(Pairs(tracestate))
  }

  function Member(p: (string, string)): string {
    p.0 + "=" + p.1
  }

  function Members(d: Vendors): (r: seq<string>)
    ensures |r| == |d| && forall i | 0 <= i < |d| :: r[i] == Member(d[i])
  {
    seq(|d|, i requires 0 <= i < |d| => Member(d[i]))
  }

  function Take<T>(xs: seq<T>, n: nat): seq<T> {
    if n <= |xs| then xs[..n] else xs
  }

  function TextOf(d: Vendors, limit: nat): string {
    Join(Members(Take(d, limit)), ',')
  }

  /** The characters that str.rstrip() removes. */
  lemma SpaceCharacters(c: char)
    ensures IsSpace(c) <==>
            var x := c as int;
            || 9 <= x <= 13 || 28 <= x <= 32 || x == 133 || x == 160 || x == 5760 || 8192 <= x <= 8202
            || x == 8232 || x == 8233 || x == 8239 || x == 8287 || x == 12288
  {
  }

  predicate Blank(s: string) {
    forall k | 0 <= k < |s| :: s[k] == ' ' || s[k] == '\t'
  }

  lemma DropHead(b: string, s: string)
    requires |b| > 0
    ensures |b + s| > 0 && (b + s)[0] == b[0] && (b + s)[1..] == b[1..] + s
  {
  }

  lemma DropLast(s: string, b: string)
    requires |b| > 0
    ensures |s + b| > 0 && (s + b)[|s + b| - 1] == b[|b| - 1] && (s + b)[..|s + b| - 1] == s + b[..|b| - 1]
  {
  }

  lemma {:induction false} BlanksOff(b: string, s: string)
    requires Blank(b)
    ensures BlanksOffLeft(b + s) == BlanksOffLeft(s)
    decreases |b|
  {
    if |b| == 0 {
      assert b + s == s;
    } else {
      DropHead(b, s);
      BlanksOff(b[1..], s);
    }
  }

  lemma {:induction false} BlanksOffEnd(s: string, b: string)
    requires Blank(b)
    ensures BlanksOffRight(s + b) == BlanksOffRight(s)
    decreases |b|
  {
    if |b| == 0 {
      assert s + b == s;
    } else {
      DropLast(s, b);
      BlanksOffEnd(s, b[..|b| - 1]);
    }
  }

  lemma EntriesAtComma(a: string, rest: string)
    requires ',' !in a
    ensures Entries(a + [','] + rest) == [BlanksOffRight(a)] + Entries(BlanksOffLeft(rest))
  {
    IndexOfSep(a, ',', rest);
    AtComma(a, rest);
  }

  lemma AtComma(a: string, rest: string)
    ensures (a + [','] + rest)[..|a|] == a && (a + [','] + rest)[|a| + 1..] == rest
  {
  }

  /** Blanks and tabs around a comma make no difference. */
  lemma BlanksAroundComma(a: string, b: string, c: string, rest: string)
    requires ',' !in a && Blank(b) && Blank(c)
    ensures Entries((a + b) + [','] + (c + rest)) == [BlanksOffRight(a)] + Entries(BlanksOffLeft(rest))
  {
    NoCommaIn(a, b);
    EntriesAtComma(a + b, c + rest);
    BlanksOffEnd(a, b);
    BlanksOff(c, rest);
  }

  lemma NoCommaIn(a: string, b: string)
    requires ',' !in a && Blank(b)
    ensures ',' !in a + b
  {
  }

  lemma ParsedLast(es: seq<string>, i: nat)
    requires i < |es|
    ensures var before, p := ParsedEntries(es[..i]), ParseEntry(es[i]);
      ParsedEntries(es[..i + 1]) == if p.Some? then before + [p.value] else before
  {
    assert es[..i + 1][..i] == es[..i];
    assert ParsedEntries(es[..i]) + [] == ParsedEntries(es[..i]);
  }

  lemma PutLast(pairs: seq<(string, string)>, p: (string, string))
    ensures PutAll(pairs + [p]) == Put(PutAll(pairs), p.0, p.1)
  {
    assert (pairs + [p])[..|pairs|] == pairs;
  }

  /** The loop of decode. */
  method DecodeLoop(tracestate: string) returns (vendors: Vendors)
    ensures vendors == Decode(tracestate)
  {
    var entries := Entries(StripRight(tracestate));
    vendors := [];
    for i := 0 to |entries|
      invariant vendors == PutAll(ParsedEntries(entries[..i]))
    {
      ParsedLast(entries, i);
      var parts := Split(entries[i], '=', 2);
      if |parts| != 2 || |parts[0]| > 256 || |parts[1]| > 256 {
        continue;
      }
      PutLast(ParsedEntries(entries[..i]), (parts[0], parts[1]));
      vendors := Put(vendors, parts[0], parts[1]);
    }
    assert entries[..|entries|] == entries;
  }

  // ----- first appearance, last value --------------------------------------------------

  predicate DistinctKeys(d: Vendors) {
    forall i, j | 0 <= i < j < |d| :: d[i].0 != d[j].0
  }

  /** Where a key first appears. */
  function FirstIndex(pairs: seq<(string, string)>, k: string): (n: nat)
    ensures n <= |pairs|
    ensures n < |pairs| ==> pairs[n].0 == k
    ensures forall i | 0 <= i < n :: pairs[i].0 != k
  {
    if |pairs| == 0 then 0 else if pairs[0].0 == k then 0 else 1 + FirstIndex(pairs[1..], k)
  }

  predicate LastValueIs(pairs: seq<(string, string)>, k: string, v: string) {
    exists i :: 0 <= i < |pairs| && pairs[i] == (k, v) && forall j | i < j < |pairs| :: pairs[j].0 != k
  }

  /** An ordered dictionary of pairs: keys by first appearance and so once each, ... */
  ghost predicate InFirstOrder(d: Vendors, pairs: seq<(string, string)>) {
    forall i, j | 0 <= i < j < |d| :: FirstIndex(pairs, d[i].0) < FirstIndex(pairs, d[j].0)
  }

  /** ... with their last value, ... */
  ghost predicate WithLastValues(d: Vendors, pairs: seq<(string, string)>) {
    forall i | 0 <= i < |d| :: LastValueIs(pairs, d[i].0, d[i].1)
  }

  predicate HasKey(d: Vendors, k: string) {
    exists i :: 0 <= i < |d| && d[i].0 == k
  }

  /** ... and none left out. */
  ghost predicate Covers(d: Vendors, pairs: seq<(string, string)>) {
    forall i | 0 <= i < |pairs| :: HasKey(d, pairs[i].0)
  }

  ghost predicate OrderedDictOf(d: Vendors, pairs: seq<(string, string)>) {
    InFirstOrder(d, pairs) && WithLastValues(d, pairs) && Covers(d, pairs)
  }

  lemma OrderedIsDistinct(d: Vendors, pairs: seq<(string, string)>)
    requires InFirstOrder(d, pairs)
    ensures DistinctKeys(d)
  {
    forall i, j | 0 <= i < j < |d|
      ensures d[i].0 != d[j].0
    {
      assert FirstIndex(pairs, d[i].0) < FirstIndex(pairs, d[j].0);
    }
  }

  lemma {:induction false} FirstIndexExtends(pairs: seq<(string, string)>, p: (string, string), k: string)
    ensures FirstIndex(pairs + [p], k)
            == if FirstIndex(pairs, k) < |pairs| then FirstIndex(pairs, k)
               else if p.0 == k then |pairs| else |pairs| + 1
    decreases |pairs|
  {
    if |pairs| > 0 {
      assert (pairs + [p])[1..] == pairs[1..] + [p];
      if pairs[0].0 != k {
        FirstIndexExtends(pairs[1..], p, k);
      }
    }
  }

  lemma LastValueExtends(pairs: seq<(string, string)>, p: (string, string), k: string, v: string)
    requires k == p.0 ==> v == p.1
    requires k != p.0 ==> LastValueIs(pairs, k, v)
    ensures LastValueIs(pairs + [p], k, v)
  {
    var all := pairs + [p];
    if k == p.0 {
      assert all[|pairs|] == (k, v);
    } else {
      var i :| 0 <= i < |pairs| && pairs[i] == (k, v) && forall j | i < j < |pairs| :: pairs[j].0 != k;
      assert all[i] == (k, v) && forall j | i < j < |all| :: all[j].0 != k;
    }
  }

  lemma KeyIsFirstIndexed(d: Vendors, pairs: seq<(string, string)>, p: (string, string), i: nat)
    requires i < |d| && LastValueIs(pairs, d[i].0, d[i].1)
    ensures FirstIndex(pairs + [p], d[i].0) == FirstIndex(pairs, d[i].0) < |pairs|
  {
    FirstIndexExtends(pairs, p, d[i].0);
    var k :| 0 <= k < |pairs| && pairs[k] == (d[i].0, d[i].1);
  }

  lemma LastValuesPut(d: Vendors, pairs: seq<(string, string)>, p: (string, string))
    requires WithLastValues(d, pairs) && DistinctKeys(d)
    ensures WithLastValues(Put(d, p.0, p.1), pairs + [p])
  {
    var r := Put(d, p.0, p.1);
    forall i | 0 <= i < |r|
      ensures LastValueIs(pairs + [p], r[i].0, r[i].1)
    {
      LastValueExtends(pairs, p, r[i].0, r[i].1);
    }
  }

  lemma CoversPut(d: Vendors, pairs: seq<(string, string)>, p: (string, string))
    requires Covers(d, pairs)
    ensures Covers(Put(d, p.0, p.1), pairs + [p])
  {
    var r, all, at := Put(d, p.0, p.1), pairs + [p], IndexOfKey(d, p.0);
    assert r[if at.Some? then at.value else |d|].0 == p.0;
    forall i | 0 <= i < |pairs|
      ensures HasKey(r, all[i].0)
    {
      assert HasKey(d, pairs[i].0);
      var j: nat :| j < |d| && d[j].0 == pairs[i].0;
      assert r[j].0 == d[j].0;
    }
  }

  lemma FirstOrderPut(d: Vendors, pairs: seq<(string, string)>, p: (string, string))
    requires InFirstOrder(d, pairs) && WithLastValues(d, pairs) && Covers(d, pairs)
    ensures InFirstOrder(Put(d, p.0, p.1), pairs + [p])
  {
    var r := Put(d, p.0, p.1);
    forall i, j | 0 <= i < j < |r|
      ensures FirstIndex(pairs + [p], r[i].0) < FirstIndex(pairs + [p], r[j].0)
    {
      assert LastValueIs(pairs, d[i].0, d[i].1);
      if j < |d| {
        assert LastValueIs(pairs, d[j].0, d[j].1);
        EarlierStaysEarlier(d, pairs, p, i, j);
      } else {
        NotYetIndexed(d, pairs, p);
        KeyIsFirstIndexed(d, pairs, p, i);
      }
    }
  }

  lemma EarlierStaysEarlier(d: Vendors, pairs: seq<(string, string)>, p: (string, string), i: nat, j: nat)
    requires i < |d| && j < |d| && LastValueIs(pairs, d[i].0, d[i].1) && LastValueIs(pairs, d[j].0, d[j].1)
    requires FirstIndex(pairs, d[i].0) < FirstIndex(pairs, d[j].0)
    ensures var r := Put(d, p.0, p.1);
      && r[i].0 == d[i].0 && r[j].0 == d[j].0
      && FirstIndex(pairs + [p], r[i].0) < FirstIndex(pairs + [p], r[j].0)
  {
    KeyIsFirstIndexed(d, pairs, p, i);
    KeyIsFirstIndexed(d, pairs, p, j);
  }

  lemma NotYetIndexed(d: Vendors, pairs: seq<(string, string)>, p: (string, string))
    requires Covers(d, pairs) && forall i | 0 <= i < |d| :: d[i].0 != p.0
    ensures FirstIndex(pairs + [p], p.0) == |pairs|
  {
    FirstIndexExtends(pairs, p, p.0);
    assert forall i | 0 <= i < |pairs| :: HasKey(d, pairs[i].0);
  }

  lemma LastPair(pairs: seq<(string, string)>)
    requires |pairs| > 0
    ensures pairs[..|pairs| - 1] + [pairs[|pairs| - 1]] == pairs
  {
  }

  lemma OrderedDictGrows(pairs: seq<(string, string)>)
    requires |pairs| > 0 && OrderedDictOf(PutAll(pairs[..|pairs| - 1]), pairs[..|pairs| - 1])
    ensures OrderedDictOf(PutAll(pairs), pairs)
  {
    var prefix, p := pairs[..|pairs| - 1], pairs[|pairs| - 1];
    var d, e := PutAll(prefix), PutAll(pairs);
    LastPair(pairs);
    OrderedIsDistinct(d, prefix);
    FirstOrderPut(d, prefix, p);
    LastValuesPut(d, prefix, p);
    CoversPut(d, prefix, p);
  }

  /** Main result about repeated keys: the dictionary keeps first places and last values. */
  lemma {:induction false} DecodeIsOrderedDict(pairs: seq<(string, string)>)
    ensures OrderedDictOf(PutAll(pairs), pairs)
    decreases |pairs|
  {
    if |pairs| > 0 {
      DecodeIsOrderedDict(pairs[..|pairs| - 1]);
      OrderedDictGrows(pairs);
    }
  }

  // ----- round trips -------------------------------------------------------------------

  /** The only whitespace is spaces and tabs. */
  predicate OnlyBlanks(s: string) {
    forall k | 0 <= k < |s| :: IsSpace(s[k]) ==> IsBlank(s[k])
  }

  predicate NoBlankEnds(s: string) {
    |s| > 0 ==> !IsBlank(s[0]) && !IsBlank(s[|s| - 1])
  }

  /** A list-member that survives encoding and decoding. */
  predicate SolidEntry(e: string) {
    ',' !in e && NoBlankEnds(e) && OnlyBlanks(e)
  }

  predicate SolidPair(p: (string, string)) {
    && '=' !in p.0 && '=' !in p.1 && |p.0| <= 256 && |p.1| <= 256
    && SolidEntry(Member(p))
  }

  predicate SolidVendors(d: Vendors) {
    DistinctKeys(d) && forall i | 0 <= i < |d| :: SolidPair(d[i])
  }

  lemma BlanksOffNothing(s: string)
    requires NoBlankEnds(s)
    ensures BlanksOffRight(s) == s && BlanksOffLeft(s) == s
  {
  }

  lemma EntriesHead(e: string, rest: string)
    requires SolidEntry(e) && (|rest| > 0 ==> !IsBlank(rest[0]))
    ensures Entries(e + [','] + rest) == [e] + Entries(rest)
  {
    var s := e + [','] + rest;
    IndexOfSep(e, ',', rest);
    assert s[..|e|] == e && s[|e| + 1..] == rest;
    BlanksOffNothing(e);
    assert BlanksOffLeft(rest) == rest;
  }

  lemma JoinStartsSolid(es: seq<string>)
    requires |es| > 0 && forall k | 0 <= k < |es| :: SolidEntry(es[k])
    ensures |Join(es, ',')| > 0 ==> !IsBlank(Join(es, ',')[0])
  {
    if |es| > 1 && |es[0]| > 0 {
      assert Join(es, ',')[0] == es[0][0];
    }
  }

  lemma {:induction false} EntriesOfJoin(es: seq<string>)
    requires |es| > 0 && forall k | 0 <= k < |es| :: SolidEntry(es[k])
    ensures Entries(Join(es, ',')) == es
    decreases |es|
  {
    if |es| > 1 {
      JoinStartsSolid(es[1..]);
      var rest := Join(es[1..], ',');
      EntriesHead(es[0], rest);
      EntriesOfJoin(es[1..]);
      assert Entries(Join(es, ',')) == [es[0]] + es[1..];
    } else {
      EntriesWhole(es[0]);
    }
  }

  lemma EntriesWhole(e: string)
    requires ',' !in e
    ensures Entries(e) == [e]
  {
  }

  lemma {:induction false} JoinEndsSolid(es: seq<string>, sep: char)
    requires |es| > 0 && |es[|es| - 1]| > 0
    ensures var s := Join(es, sep); |s| > 0 && s[|s| - 1] == es[|es| - 1][|es[|es| - 1]| - 1]
    decreases |es|
  {
    if |es| > 1 {
      JoinEndsSolid(es[1..], sep);
    }
  }

  lemma MemberParses(p: (string, string))
    requires SolidPair(p)
    ensures ParseEntry(Member(p)) == Some(p)
  {
    assert Join([p.0, p.1], '=') == Member(p);
    SplitOfJoin([p.0, p.1], '=', 2);
  }

  lemma {:induction false} ParsedMembers(d: Vendors, n: nat)
    requires n <= |d| && forall i | 0 <= i < |d| :: SolidPair(d[i])
    ensures ParsedEntries(Members(d)[..n]) == d[..n]
    decreases n
  {
    if n > 0 {
      ParsedMembers(d, n - 1);
      MemberParses(d[n - 1]);
      ParsedLast(Members(d), n - 1);
      PrefixGrows(d, n - 1);
    }
  }

  lemma PrefixGrows(d: Vendors, n: nat)
    requires n < |d|
    ensures d[..n + 1] == d[..n] + [d[n]]
  {
  }

  lemma {:induction false} PutAllDistinct(d: Vendors)
    requires DistinctKeys(d)
    ensures PutAll(d) == d
    decreases |d|
  {
    if |d| > 0 {
      PutAllDistinct(d[..|d| - 1]);
      assert d == d[..|d| - 1] + [d[|d| - 1]];
    }
  }

  lemma DecodeOfEntries(es: seq<string>, d: Vendors)
    requires |es| > 0 && forall k | 0 <= k < |es| :: SolidEntry(es[k])
    requires |es[|es| - 1]| > 0 && ParsedEntries(es) == d && DistinctKeys(d)
    ensures Decode(Join(es, ',')) == d
  {
    var text := Join(es, ',');
    JoinEndsSolid(es, ',');
    SolidEnd(es[|es| - 1]);
    assert StripRight(text) == text;
    EntriesOfJoin(es);
    PutAllDistinct(d);
  }

  lemma SolidEnd(e: string)
    requires SolidEntry(e) && |e| > 0
    ensures !IsSpace(e[|e| - 1])
  {
  }

  lemma EmptyDecodes()
    ensures Decode("") == []
  {
    assert Entries("") == [""] && Split("", '=', 2) == [""];
    assert ParsedEntries([""]) == ParsedEntries([""][..0]);
  }

  /** Solid entries come back from their text. */
  lemma DecodeOfMembers(d: Vendors)
    requires SolidVendors(d)
    ensures Decode(Join(Members(d), ',')) == d
  {
    if |d| == 0 {
      EmptyDecodes();
    } else {
      ParsedAll(d);
      DecodeOfEntries(Members(d), d);
    }
  }

  // ----- what decoding leaves is solid -------------------------------------------------

  predicate Clean(s: string) {
    OnlyBlanks(s) && (|s| > 0 ==> !IsBlank(s[0]))
  }

  lemma {:induction false} EntriesAreSolid(s: string)
    requires OnlyBlanks(s) && NoBlankEnds(s)
    ensures forall k | 0 <= k < |Entries(s)| :: SolidEntry(Entries(s)[k])
    decreases |s|
  {
    var i := IndexOf(s, ',');
    if i.Some? {
      EntriesAreSolid(BlanksOffLeft(s[i.value + 1..])) by { RestIsClean(s, i.value); }
      HeadIsSolid(s, i.value);
    } else {
      EntriesWhole(s);
    }
  }

  lemma SuffixOnlyBlanks(s: string, n: nat)
    requires OnlyBlanks(s) && n <= |s|
    ensures OnlyBlanks(s[n..])
  {
  }

  lemma RestIsClean(s: string, i: nat)
    requires OnlyBlanks(s) && NoBlankEnds(s) && i < |s|
    ensures var rest := BlanksOffLeft(s[i + 1..]); OnlyBlanks(rest) && NoBlankEnds(rest)
  {
    var rest := BlanksOffLeft(s[i + 1..]);
    SuffixOfSuffix(s, i + 1, |rest|);
    SuffixOnlyBlanks(s, |s| - |rest|);
    SuffixEnds(s, rest);
  }

  lemma SuffixEnds(s: string, rest: string)
    requires NoBlankEnds(s) && |rest| <= |s| && rest == s[|s| - |rest|..] && (|rest| > 0 ==> !IsBlank(rest[0]))
    ensures NoBlankEnds(rest)
  {
    if |rest| > 0 {
      assert rest[|rest| - 1] == s[|s| - 1];
    }
  }

  lemma SuffixOfSuffix(s: string, n: nat, m: nat)
    requires n + m <= |s|
    ensures s[n..][|s[n..]| - m..] == s[|s| - m..]
  {
  }

  lemma HeadIsSolid(s: string, i: nat)
    requires OnlyBlanks(s) && NoBlankEnds(s) && i < |s| && ',' !in s[..i]
    ensures SolidEntry(BlanksOffRight(s[..i]))
  {
    var head := BlanksOffRight(s[..i]);
    assert head == s[..|head|];
    assert forall c | c in head :: c in s[..i];
  }

  lemma ParsedIsSolid(e: string)
    requires SolidEntry(e) && ParseEntry(e).Some?
    ensures SolidPair(ParseEntry(e).value) && Member(ParseEntry(e).value) == e
  {
    JoinOfSplit(e, '=', 2);
    SplitIsFree(e, '=', 2);
    var parts := Split(e, '=', 2);
    assert Join(parts, '=') == parts[0] + "=" + parts[1];
  }

  lemma {:induction false} ParsedAreSolid(es: seq<string>)
    requires forall k | 0 <= k < |es| :: SolidEntry(es[k])
    ensures forall k | 0 <= k < |ParsedEntries(es)| :: SolidPair(ParsedEntries(es)[k])
    decreases |es|
  {
    if |es| > 0 {
      ParsedAreSolid(es[..|es| - 1]);
      var e := es[|es| - 1];
      if ParseEntry(e).Some? {
        ParsedIsSolid(e);
      }
    }
  }

  lemma DecodedIsSolid(x: string)
    requires Clean(x)
    ensures SolidVendors(Decode(x))
  {
    var s := StripRight(x);
    EntriesAreSolid(s);
    var pairs := Pairs(x);
    ParsedAreSolid(Entries(s));
    DecodeIsOrderedDict(pairs);
    var d := PutAll(pairs);
    OrderedIsDistinct(d, pairs);
    forall i | 0 <= i < |d|
      ensures SolidPair(d[i])
    {
      assert LastValueIs(pairs, d[i].0, d[i].1);
      var k :| 0 <= k < |pairs| && pairs[k] == (d[i].0, d[i].1);
    }
  }

  lemma TakeIsSolid(d: Vendors, limit: nat)
    requires SolidVendors(d)
    ensures SolidVendors(Take(d, limit))
  {
  }

  /** Decode after text after decode: the decoded entries again, up to the limit of the text. */
  lemma DecodeTextDecode(x: string, limit: nat)
    requires Clean(x)
    ensures Decode(TextOf(Decode(x), limit)) == Take(Decode(x), limit)
  {
    DecodedIsSolid(x);
    TakeIsSolid(Decode(x), limit);
    DecodeOfMembers(Take(Decode(x), limit));
  }

  // ----- the tracestate that is sent on ------------------------------------------------

  /** vendors.pop(key): the entries of the others. */
  function Without(d: Vendors, k: string): (r: Vendors)
    ensures forall i | 0 <= i < |r| :: r[i].0 != k && r[i] in d
    ensures forall p | p in d && p.0 != k :: p in r
  {
    if |d| == 0 then []
    else Without(d[..|d| - 1], k) + if d[|d| - 1].0 == k then [] else [d[|d| - 1]]
  }

  function Get(d: Vendors, k: string): (r: string)
  {
    var i := IndexOfKey(d, k);
    if i.Some? then d[i.value].1 else ""
  }

  /** The agent's own member, then what was kept of the inbound tracestate. */
  function Emitted(own: string, kept: string): string {
    if |kept| > 0 then own + "," + kept else own
  }

  lemma {:induction false} WithoutIsSolid(d: Vendors, k: string)
    requires SolidVendors(d)
    ensures SolidVendors(Without(d, k))
    decreases |d|
  {
    if |d| > 0 {
      WithoutIsSolid(d[..|d| - 1], k);
      var rest := Without(d[..|d| - 1], k);
      forall i | 0 <= i < |rest|
        ensures rest[i].0 != d[|d| - 1].0
      {
        assert rest[i] in d[..|d| - 1];
      }
    }
  }

  lemma TextIsEmptyIffNone(d: Vendors, limit: nat)
    requires limit > 0
    ensures |TextOf(d, limit)| == 0 <==> |d| == 0
  {
    if |d| > 0 {
      var t := Take(d, limit);
      assert |Members(t)[0]| > 0;
      assert |Join(Members(t), ',')| >= |Members(t)[0]|;
    }
  }

  /** The agent's member in front of solid foreign entries. */
  lemma EmittedDecodes(own: (string, string), foreign: Vendors, limit: nat)
    requires limit > 0 && SolidPair(own) && SolidVendors(foreign)
    requires forall i | 0 <= i < |foreign| :: foreign[i].0 != own.0
    ensures Decode(Emitted(Member(own), TextOf(foreign, limit))) == [own] + Take(foreign, limit)
  {
    var kept := Take(foreign, limit);
    var all := [own] + kept;
    assert SolidVendors(all);
    TextIsEmptyIffNone(foreign, limit);
    assert Members(all) == [Member(own)] + Members(kept);
    if |kept| > 0 {
      JoinHead(Member(own), Members(kept), ',');
    } else {
      assert Join([Member(own)], ',') == Member(own);
    }
    DecodeOfMembers(all);
  }

  predicate Short(p: (string, string)) {
    |p.0| <= 256 && |p.1| <= 256
  }

  lemma {:induction false} ParsedWithoutFirst(e: string, es: seq<string>)
    requires ParseEntry(e).None?
    ensures ParsedEntries([e] + es) == ParsedEntries(es)
    decreases |es|
  {
    var all := [e] + es;
    if |es| == 0 {
      assert all[..0] == [];
    } else {
      ParsedWithoutFirst(e, es[..|es| - 1]);
      assert all[..|all| - 1] == [e] + es[..|es| - 1];
    }
  }

  lemma ParsedAll(d: Vendors)
    requires forall i | 0 <= i < |d| :: SolidPair(d[i])
    ensures ParsedEntries(Members(d)) == d
  {
    ParsedMembers(d, |d|);
    assert Members(d)[..|d|] == Members(d) && d[..|d|] == d;
  }

  lemma OverlongDoesNotParse(p: (string, string))
    requires '=' !in p.0 && '=' !in p.1 && !Short(p)
    ensures ParseEntry(Member(p)).None?
  {
    assert Join([p.0, p.1], '=') == Member(p);
    SplitOfJoin([p.0, p.1], '=', 2);
  }

  lemma OwnAndKept(own: (string, string), foreign: Vendors, limit: nat)
    requires limit > 0
    ensures Emitted(Member(own), TextOf(foreign, limit)) == Join([Member(own)] + Members(Take(foreign, limit)), ',')
  {
    var kept := Take(foreign, limit);
    TextIsEmptyIffNone(foreign, limit);
    if |kept| > 0 {
      JoinHead(Member(own), Members(kept), ',');
    } else {
      assert [Member(own)] + Members(kept) == [Member(own)];
    }
  }

  /** An overlong member of the agent is dropped by the decoder, and only that. */
  lemma OverlongIsDropped(own: (string, string), foreign: Vendors, limit: nat)
    requires limit > 0 && '=' !in own.0 && '=' !in own.1 && SolidEntry(Member(own)) && !Short(own)
    requires SolidVendors(foreign)
    ensures Decode(Emitted(Member(own), TextOf(foreign, limit))) == Take(foreign, limit)
  {
    var kept := Take(foreign, limit);
    TakeIsSolid(foreign, limit);
    OwnAndKept(own, foreign, limit);
    OverlongDoesNotParse(own);
    ParsedWithoutFirst(Member(own), Members(kept));
    ParsedAll(kept);
    WithOwnIsSolid(own, kept);
    DecodeOfEntries([Member(own)] + Members(kept), kept);
  }

  lemma WithOwnIsSolid(own: (string, string), kept: Vendors)
    requires SolidEntry(Member(own)) && SolidVendors(kept)
    ensures var es := [Member(own)] + Members(kept);
      |es[|es| - 1]| > 0 && forall k | 0 <= k < |es| :: SolidEntry(es[k])
  {
  }

  lemma AmongPrefix(d: Vendors, k: string, i: nat) returns (j: nat)
    requires |d| > 0 && i < |Without(d[..|d| - 1], k)|
    ensures j < |d| - 1 && d[j] == Without(d[..|d| - 1], k)[i]
  {
    var prefix := d[..|d| - 1];
    var p := Without(prefix, k)[i];
    j :| 0 <= j < |prefix| && prefix[j] == p;
  }

  lemma {:induction false} WithoutKeepsOrder(d: Vendors, k: string, pairs: seq<(string, string)>)
    requires InFirstOrder(d, pairs)
    ensures InFirstOrder(Without(d, k), pairs)
    decreases |d|
  {
    if |d| > 0 {
      var rest := Without(d[..|d| - 1], k);
      WithoutKeepsOrder(d[..|d| - 1], k, pairs);
      forall i | 0 <= i < |rest|
        ensures FirstIndex(pairs, rest[i].0) < FirstIndex(pairs, d[|d| - 1].0)
      {
        var j := AmongPrefix(d, k, i);
      }
    }
  }

  lemma OthersKeepValues(d: Vendors, k: string, pairs: seq<(string, string)>)
    requires WithLastValues(d, pairs)
    ensures WithLastValues(Without(d, k), pairs)
  {
    var all := Without(d, k);
    forall i | 0 <= i < |all|
      ensures LastValueIs(pairs, all[i].0, all[i].1)
    {
      assert all[i] in d;
      var j :| 0 <= j < |d| && d[j] == all[i];
      assert LastValueIs(pairs, d[j].0, d[j].1);
    }
  }

  lemma OutboundOrder(d: Vendors, k: string, limit: nat, pairs: seq<(string, string)>)
    requires InFirstOrder(d, pairs) && WithLastValues(d, pairs)
    ensures InFirstOrder(Take(Without(d, k), limit), pairs)
    ensures WithLastValues(Take(Without(d, k), limit), pairs)
  {
    WithoutKeepsOrder(d, k, pairs);
    OthersKeepValues(d, k, pairs);
    FirstOnesInOrder(Without(d, k), limit, pairs);
    FirstOnesWithValues(Without(d, k), limit, pairs);
  }

  lemma FirstOnesInOrder(d: Vendors, limit: nat, pairs: seq<(string, string)>)
    requires InFirstOrder(d, pairs)
    ensures InFirstOrder(Take(d, limit), pairs)
  {
  }

  lemma FirstOnesWithValues(d: Vendors, limit: nat, pairs: seq<(string, string)>)
    requires WithLastValues(d, pairs)
    ensures WithLastValues(Take(d, limit), pairs)
  {
    forall i | 0 <= i < |Take(d, limit)|
      ensures LastValueIs(pairs, Take(d, limit)[i].0, Take(d, limit)[i].1)
    {
      assert LastValueIs(pairs, d[i].0, d[i].1);
    }
  }

  /** Main result: for any inbound tracestate whose only whitespace is blanks and none leading,
      the outbound one decodes to the agent's own entry and then at most 31 of the others, in
      order of first appearance with their last value; so there are at most 32 list-members,
      as section 3.3.1 of W3C Trace Context asks, and the agent's key is there once. */
  lemma OutboundTracestate(x: string, own: (string, string))
    requires Clean(x) && SolidPair(own)
    ensures var foreign := Without(Decode(x), own.0);
            var out := Decode(Emitted(Member(own), TextOf(foreign, 31)));
      && out == [own] + Take(foreign, 31)
      && |out| <= 32 && DistinctKeys(out)
      && OrderedDictOf(Decode(x), Pairs(x))
      && InFirstOrder(out[1..], Pairs(x)) && WithLastValues(out[1..], Pairs(x))
  {
    var foreign := Without(Decode(x), own.0);
    DecodedIsSolid(x);
    WithoutIsSolid(Decode(x), own.0);
    EmittedDecodes(own, foreign, 31);
    OwnInFront(own, foreign, 31);
    DecodeIsOrderedDict(Pairs(x));
    OutboundOrder(Decode(x), own.0, 31, Pairs(x));
    assert ([own] + Take(foreign, 31))[1..] == Take(foreign, 31);
  }

  lemma OwnInFront(own: (string, string), foreign: Vendors, limit: nat)
    requires DistinctKeys(foreign) && forall i | 0 <= i < |foreign| :: foreign[i].0 != own.0
    ensures DistinctKeys([own] + Take(foreign, limit))
  {
  }
}
