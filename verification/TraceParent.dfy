/** W3CTraceParent of newrelic/common/encoding_utils.py: the traceparent header of W3C Trace
    Context, section 3.2. */
module TraceParent {
  import opened Prelude
  import opened Text

  datatype Parent = Parent(tr: string, id: string, sa: bool, v: string)

  /** None is a header that is turned down; Fails is a ValueError out of `int(flags, 2)`. */
  datatype Decoded = Accepted(parent: Parent) | Declined | Fails

  predicate IsHexLower(c: char) {
    '0' <= c <= '9' || 'a' <= c <= 'f'
  }

  predicate AllHex(s: string) {
    forall k | 0 <= k < |s| :: IsHexLower(s[k])
  }

  /** `^[0-9a-f]+$`: the dollar also matches before a final newline. */
  predicate MatchesHex(s: string) {
    var n := if |s| > 0 && s[|s| - 1] == '\n' then |s| - 1 else |s|;
    n > 0 && AllHex(s[..n])
  }

  predicate IsBinary(c: char) {
    c == '0' || c == '1'
  }

  /** int(flags, 2) for the two characters that have matched; None is a ValueError. */
  function BinaryFlags(s: string): Option<nat>
    requires |s| == 2
  {
    if !IsBinary(s[0]) then None
    else if s[1] == '\n' then Some(if s[0] == '1' then 1 else 0)
    else if !IsBinary(s[1]) then None
    else Some((if s[0] == '1' then 2 else 0) + if s[1] == '1' then 1 else 0)
  }

  function Repeat(c: char, n: nat): (s: string)
    ensures |s| == n && forall k | 0 <= k < n :: s[k] == c
  {
    seq(n, i => c)
  }

  /** s.zfill(32); a leading sign would stay in front. */
  function ZFill(s: string): string {
    if |s| >= 32 then s
    else if |s| > 0 && (s[0] == '+' || s[0] == '-') then [s[0]] + Repeat('0', 32 - |s|) + s[1..]
    else Repeat('0', 32 - |s|) + s
  }

  function Flags(sa: bool): string {
    if sa then "01" else "00"
  }

  /** W3CTraceParent.text; `id` is the span's or a random one. */
  function TextOf(p: Parent): string {
    Join([p.v, ZFill(LowerText(p.tr)), p.id, Flags(p.sa)], '-')
  }

  predicate FieldsOk(fields: seq<string>)
    requires |fields| >= 4
  {
    && |fields[1]| == 32 && MatchesHex(fields[1])
    && |fields[2]| == 16 && MatchesHex(fields[2])
    && |fields[3]| == 2 && MatchesHex(fields[3])
  }

  function Decode(payload: string): Decoded {
    if |payload| < 55 then Declined
    else
      var fields := Split(payload, '-', 4);
      if |fields| < 4 then Declined
      else
        var version := fields[0];
        if |version| != 2 || !MatchesHex(version) then Declined
        else if version == "ff" then Declined
        else if version == "00" && |fields| != 4 then Declined
        else if !FieldsOk(fields) then Declined
        else if fields[2] == Repeat('0', 16) || fields[1] == Repeat('0', 32) then Declined
        else
          var flags := BinaryFlags(fields[3]);
          if flags.None? then Fails
          else Accepted(Parent(fields[1], fields[2], flags.value % 2 == 1, version))
  }

  // ----- round trips -------------------------------------------------------------------

  predicate ValidVersion(v: string) {
    |v| == 2 && AllHex(v) && v != "ff"
  }

  predicate ValidTraceId(s: string) {
    |s| == 32 && AllHex(s) && s != Repeat('0', 32)
  }

  predicate ValidSpanId(s: string) {
    |s| == 16 && AllHex(s) && s != Repeat('0', 16)
  }

  // ----- what the patterns and numbers are ---------------------------------------------

  lemma HexDigits(c: char)
    ensures IsHexLower(c) <==> c in "0123456789abcdef"
  {
  }

  /** One or more digits, and perhaps a newline after them. */
  lemma MatchesHexIff(s: string)
    ensures MatchesHex(s) <==> exists t: string | |t| > 0 && AllHex(t) :: s == t || s == t + "\n"
  {
    var n := if |s| > 0 && s[|s| - 1] == '\n' then |s| - 1 else |s|;
    if MatchesHex(s) {
      assert s[..n] + s[n..] == s;
      assert s[n..] == "" || s[n..] == "\n";
      assert s == s[..n] || s == s[..n] + "\n";
    }
    forall t: string | |t| > 0 && AllHex(t) && (s == t || s == t + "\n")
      ensures MatchesHex(s)
    {
      assert t[|t| - 1] != '\n';
      assert (t + "\n")[..|t|] == t && t[..|t|] == t;
    }
  }

  /** Two binary digits, the first the higher one; int() takes one with a newline too. */
  lemma BinaryFlagsAre(s: string)
    requires |s| == 2
    ensures BinaryFlags(s) == if s == "00" || s == "0\n" then Some(0) else if s == "01" || s == "1\n" then Some(1)
                              else if s == "10" then Some(2) else if s == "11" then Some(3) else None
  {
  }

  predicate Signed(s: string) {
    |s| > 0 && s[0] in "+-"
  }

  /** Shorter texts are filled up to 32 with zeros, which stand behind a sign. */
  lemma ZFillFills(s: string)
    ensures |ZFill(s)| == if |s| < 32 then 32 else |s|
    ensures |s| >= 32 ==> ZFill(s) == s
    ensures |s| < 32 ==>
              var z := ZFill(s); var k := if Signed(s) then 1 else 0;
              && z[..k] == s[..k] && z[32 - |s| + k..] == s[k..]
              && forall i | k <= i < 32 - |s| + k :: z[i] == '0'
  {
    if |s| < 32 {
      var z := Repeat('0', 32 - |s|);
      if Signed(s) {
        assert ([s[0]] + z + s[1..])[32 - |s| + 1..] == s[1..];
        assert ([s[0]] + z + s[1..])[..1] == s[..1];
      } else {
        assert (z + s)[32 - |s|..] == s;
        assert (z + s)[..0] == s[..0];
      }
    }
  }

  lemma HexHasNoDash(s: string)
    requires AllHex(s)
    ensures '-' !in s && '\n' !in s
    ensures |s| > 0 ==> MatchesHex(s)
  {
    if |s| > 0 {
      assert s[..|s|] == s;
    }
  }

  lemma FourFields(a: string, b: string, c: string, d: string)
    requires '-' !in a && '-' !in b && '-' !in c && '-' !in d
    ensures Split(Join([a, b, c, d], '-'), '-', 4) == [a, b, c, d]
    ensures |Join([a, b, c, d], '-')| == |a| + |b| + |c| + |d| + 3
  {
    SplitOfJoin([a, b, c, d], '-', 4);
    JoinFour(a, b, c, d);
  }

  lemma JoinFour(a: string, b: string, c: string, d: string)
    ensures Join([a, b, c, d], '-') == a + ['-'] + (b + ['-'] + (c + ['-'] + d))
  {
    JoinTwo(c, d, '-');
    assert [b, c, d][1..] == [c, d] && [a, b, c, d][1..] == [b, c, d];
  }

  /** Whether the fields of a header pass all checks before the flags are read. */
  predicate Passes(h: string, f: seq<string>) {
    && |h| >= 55 && Split(h, '-', 4) == f && |f| >= 4
    && |f[0]| == 2 && MatchesHex(f[0]) && f[0] != "ff" && (f[0] == "00" ==> |f| == 4)
    && FieldsOk(f) && f[2] != Repeat('0', 16) && f[1] != Repeat('0', 32)
  }

  lemma PassedIsRead(h: string, f: seq<string>)
    requires Passes(h, f)
    ensures Decode(h) == var n := BinaryFlags(f[3]);
                         if n.None? then Fails else Accepted(Parent(f[1], f[2], n.value % 2 == 1, f[0]))
  {
  }

  lemma ValidPass(h: string, f: seq<string>)
    requires |h| >= 55 && Split(h, '-', 4) == f && |f| >= 4 && (f[0] == "00" ==> |f| == 4)
    requires ValidVersion(f[0]) && ValidTraceId(f[1]) && ValidSpanId(f[2]) && |f[3]| == 2 && AllHex(f[3])
    ensures Passes(h, f)
  {
    HexHasNoDash(f[0]);
    HexHasNoDash(f[1]);
    HexHasNoDash(f[2]);
    HexHasNoDash(f[3]);
  }

  lemma FlagDigits(fl: string)
    requires |fl| == 2 && AllHex(fl)
    ensures var n := BinaryFlags(fl);
      && (n.Some? <==> IsBinary(fl[0]) && IsBinary(fl[1]))
      && (n.Some? ==> (n.value % 2 == 1 <==> fl[1] == '1'))
  {
    assert fl[1] != '\n';
  }

  /** A header of the standard's form is accepted only if its flags, two hexadecimal digits
      in section 3.2.2.5 of W3C Trace Context, happen to be binary digits: the decoder reads
      them in base 2 and fails on the others. */
  lemma FlagsAreReadInBaseTwo(v: string, tr: string, id: string, fl: string)
    requires ValidVersion(v) && ValidTraceId(tr) && ValidSpanId(id) && |fl| == 2 && AllHex(fl)
    ensures var d := Decode(Join([v, tr, id, fl], '-'));
      && (d.Accepted? <==> IsBinary(fl[0]) && IsBinary(fl[1]))
      && (d.Fails? <==> !d.Accepted?)
      && (d.Accepted? ==> d.parent == Parent(tr, id, fl[1] == '1', v))
  {
    NoDashes(v, tr, id, fl);
    FourFields(v, tr, id, fl);
    var h, f := Join([v, tr, id, fl], '-'), [v, tr, id, fl];
    ValidPass(h, f);
    PassedIsRead(h, f);
    FlagDigits(fl);
  }

  lemma NoDashes(v: string, tr: string, id: string, fl: string)
    requires AllHex(v) && AllHex(tr) && AllHex(id) && AllHex(fl)
    ensures '-' !in v && '-' !in tr && '-' !in id && '-' !in fl
  {
    HexHasNoDash(v);
    HexHasNoDash(tr);
    HexHasNoDash(id);
    HexHasNoDash(fl);
  }

  /** Flags that are no hexadecimal digits are turned down. */
  lemma BadFlagsAreDeclined(v: string, tr: string, id: string, fl: string)
    requires ValidVersion(v) && ValidTraceId(tr) && ValidSpanId(id)
    requires |fl| == 2 && '-' !in fl && !MatchesHex(fl)
    ensures Decode(Join([v, tr, id, fl], '-')) == Declined
  {
    HexHasNoDash(v);
    HexHasNoDash(tr);
    HexHasNoDash(id);
    FourFields(v, tr, id, fl);
  }

  /** Flags that the standard allows, on which the decoder fails. */
  lemma FlagsTwoFail(tr: string, id: string)
    requires ValidTraceId(tr) && ValidSpanId(id)
    ensures Decode(Join(["00", tr, id, "02"], '-')) == Fails
  {
    FlagsAreReadInBaseTwo("00", tr, id, "02");
  }

  /** There are such ids. */
  lemma ValidIdsExist()
    ensures ValidTraceId(Repeat('a', 32)) && ValidSpanId(Repeat('b', 16))
    ensures Decode(Join(["00", Repeat('a', 32), Repeat('b', 16), "02"], '-')) == Fails
  {
    assert Repeat('a', 32)[0] != Repeat('0', 32)[0];
    assert Repeat('b', 16)[0] != Repeat('0', 16)[0];
    FlagsTwoFail(Repeat('a', 32), Repeat('b', 16));
  }

  // ----- exactly what is accepted ------------------------------------------------------

  /** A header of the form of section 3.2 of W3C Trace Context with binary flags; versions
      other than 00 may go on after a dash. */
  predicate IsHeader(h: string, v: string, tr: string, id: string, fl: string) {
    && ValidVersion(v) && ValidTraceId(tr) && ValidSpanId(id)
    && |fl| == 2 && IsBinary(fl[0]) && IsBinary(fl[1])
    && var form := Join([v, tr, id, fl], '-');
       h == form || (v != "00" && form + "-" <= h)
  }

  lemma BinaryIsHex(fl: string)
    requires |fl| == 2 && IsBinary(fl[0]) && IsBinary(fl[1])
    ensures AllHex(fl)
  {
  }

  lemma MatchWithoutNewline(s: string)
    requires '\n' !in s && MatchesHex(s)
    ensures AllHex(s)
  {
    assert s[..|s|] == s;
  }

  lemma FiveFields(a: string, b: string, c: string, d: string, rest: string)
    requires '-' !in a && '-' !in b && '-' !in c && '-' !in d
    ensures Split(Join([a, b, c, d], '-') + "-" + rest, '-', 4) == [a, b, c, d, rest]
  {
    var f := [a, b, c, d, rest];
    assert f[..4] == [a, b, c, d];
    FiveSplit(f);
  }

  lemma FiveSplit(f: seq<string>)
    requires |f| == 5 && '-' !in f[0] && '-' !in f[1] && '-' !in f[2] && '-' !in f[3]
    ensures Split(Join(f[..4], '-') + "-" + f[4], '-', 4) == f
  {
    JoinFive(f);
    SplitOfOpenJoin(f, '-');
  }

  lemma JoinFive(f: seq<string>)
    requires |f| == 5
    ensures Join(f, '-') == Join(f[..4], '-') + "-" + f[4]
    ensures f[..4] == [f[0], f[1], f[2], f[3]]
  {
    assert f[1..][1..] == f[2..] && f[2..][1..] == f[3..] && f[3..] == [f[3], f[4]];
    JoinTwo(f[3], f[4], '-');
    JoinFour(f[0], f[1], f[2], f[3]);
    assert f[..4] == [f[0], f[1], f[2], f[3]];
    assert Join(f[2..], '-') == f[2] + ['-'] + Join(f[3..], '-');
    assert Join(f[1..], '-') == f[1] + ['-'] + Join(f[2..], '-');
  }

  lemma HeaderIsAccepted(h: string, v: string, tr: string, id: string, fl: string)
    requires IsHeader(h, v, tr, id, fl)
    ensures Decode(h) == Accepted(Parent(tr, id, fl[1] == '1', v))
  {
    var form := Join([v, tr, id, fl], '-');
    BinaryIsHex(fl);
    if h == form {
      FlagsAreReadInBaseTwo(v, tr, id, fl);
    } else {
      var rest := h[|form| + 1..];
      assert h == form + "-" + rest;
      LongerIsAccepted(v, tr, id, fl, rest);
    }
  }

  lemma LongerIsAccepted(v: string, tr: string, id: string, fl: string, rest: string)
    requires ValidVersion(v) && v != "00" && ValidTraceId(tr) && ValidSpanId(id)
    requires |fl| == 2 && IsBinary(fl[0]) && IsBinary(fl[1])
    ensures Decode(Join([v, tr, id, fl], '-') + "-" + rest) == Accepted(Parent(tr, id, fl[1] == '1', v))
  {
    BinaryIsHex(fl);
    NoDashes(v, tr, id, fl);
    FiveFields(v, tr, id, fl, rest);
    FourFields(v, tr, id, fl);
    var h, f := Join([v, tr, id, fl], '-') + "-" + rest, [v, tr, id, fl, rest];
    ValidPass(h, f);
    PassedIsRead(h, f);
    FlagDigits(fl);
  }

  lemma AcceptedPasses(h: string)
    requires Decode(h).Accepted?
    ensures var f, p := Split(h, '-', 4), Decode(h).parent;
      && Passes(h, f) && BinaryFlags(f[3]).Some?
      && p == Parent(f[1], f[2], BinaryFlags(f[3]).value % 2 == 1, f[0])
  {
  }

  lemma AcceptedIsHeader(h: string)
    requires '\n' !in h && Decode(h).Accepted?
    ensures var f := Split(h, '-', 4); |f| >= 4 && IsHeader(h, f[0], f[1], f[2], f[3])
  {
    var f := Split(h, '-', 4);
    AcceptedPasses(h);
    JoinOfSplit(h, '-', 4);
    PartsKeepOut(f, '-', '\n');
    MatchWithoutNewline(f[0]);
    MatchWithoutNewline(f[1]);
    MatchWithoutNewline(f[2]);
    FlagsWithoutNewline(f[3]);
    if |f| == 4 {
      assert f == [f[0], f[1], f[2], f[3]];
    } else {
      JoinFive(f);
    }
  }

  lemma FlagsWithoutNewline(fl: string)
    requires |fl| == 2 && '\n' !in fl && BinaryFlags(fl).Some?
    ensures IsBinary(fl[0]) && IsBinary(fl[1])
  {
    assert fl[1] in fl;
  }

  /** Main result: the headers that are accepted, and what is read from them. */
  lemma AcceptedIffHeader(h: string, p: Parent)
    requires '\n' !in h
    ensures Decode(h) == Accepted(p)
            <==> exists fl: string :: IsHeader(h, p.v, p.tr, p.id, fl) && p.sa == (fl[1] == '1')
  {
    if Decode(h) == Accepted(p) {
      var f := Split(h, '-', 4);
      AcceptedIsHeader(h);
      HeaderIsAccepted(h, f[0], f[1], f[2], f[3]);
    }
    forall fl: string | IsHeader(h, p.v, p.tr, p.id, fl)
      ensures Decode(h) == Accepted(Parent(p.tr, p.id, fl[1] == '1', p.v))
    {
      HeaderIsAccepted(h, p.v, p.tr, p.id, fl);
    }
  }

  /** Decoding undoes the text: for any trace id that becomes valid when lowered and padded,
      that is the id that comes back; all else comes back as it was. */
  lemma DecodeUndoesText(p: Parent)
    requires ValidVersion(p.v) && ValidTraceId(ZFill(LowerText(p.tr))) && ValidSpanId(p.id)
    ensures Decode(TextOf(p)) == Accepted(p.(tr := ZFill(LowerText(p.tr))))
  {
    FlagsAreReadInBaseTwo(p.v, ZFill(LowerText(p.tr)), p.id, Flags(p.sa));
  }

  lemma LowerIdIsKept(tr: string)
    requires |tr| == 32 && AllHex(tr)
    ensures ZFill(LowerText(tr)) == tr
  {
  }

  /** Encoding a decoded version-00 header again gives the same header exactly when its flags
      were 00 or 01. */
  lemma TextOfDecoded(h: string)
    requires Decode(h).Accepted? && Decode(h).parent.v == "00"
    ensures TextOf(Decode(h).parent) == h <==> Split(h, '-', 4)[3] in ["00", "01"]
  {
    var f, p := Split(h, '-', 4), Decode(h).parent;
    AcceptedPasses(h);
    JoinOfSplit(h, '-', 4);
    SplitIsFree(h, '-', 4);
    assert f == [f[0], f[1], f[2], f[3]];
    LowerKept(f[1]);
    TwoFlags(f[3]);
    SameFlags(f[0], f[1], f[2], f[3], Flags(p.sa));
  }

  lemma SameFlags(v: string, tr: string, id: string, a: string, b: string)
    requires '-' !in v && '-' !in tr && '-' !in id && '-' !in a && '-' !in b
    ensures Join([v, tr, id, a], '-') == Join([v, tr, id, b], '-') <==> a == b
  {
    FourFields(v, tr, id, a);
    FourFields(v, tr, id, b);
    assert [v, tr, id, a][3] == a && [v, tr, id, b][3] == b;
  }

  lemma LowerKept(s: string)
    requires |s| == 32 && MatchesHex(s)
    ensures ZFill(LowerText(s)) == s
  {
    var n := if s[|s| - 1] == '\n' then |s| - 1 else |s|;
    forall k | 0 <= k < |s|
      ensures LowerChar(s[k]) == s[k]
    {
      if k < n {
        assert s[..n][k] == s[k];
      }
    }
  }

  lemma TwoFlags(s: string)
    requires |s| == 2 && BinaryFlags(s).Some?
    ensures Flags(BinaryFlags(s).value % 2 == 1) == s <==> s in ["00", "01"]
  {
  }
}
