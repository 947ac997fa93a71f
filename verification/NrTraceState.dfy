/** NrTraceState of newrelic/common/encoding_utils.py: the agent's own list-member of the
    tracestate header. */
module NrTraceState {
  import opened Prelude
  import opened Text
  import TraceState

  /** A dictionary entry: missing, present with None, or present with a value. */
  datatype Field<+T> = Absent | Null | Val(value: T)

  /** A priority is the integer 0 or a float of at most six decimals. */
  datatype Priority = IntZero | Float(millionths: int)

  function Millionths(p: Priority): int {
    if p.IntZero? then 0 else p.millionths
  }

  datatype Data = Data(
    v: Option<string>,
    ac: string,
    ap: string,
    tx: Option<string>,
    sa: Option<bool>,
    pr: Field<Priority>,
    ti: int,
    tk: Option<string>)

  /** f"{pr:.6f}" without trailing zeros and point, but only if `pr` is not falsy: zero and
      None are written as they print. */
  function PriorityText(pr: Field<Priority>): string {
    match pr
    case Absent => ""
    case Null => "None"
    case Val(p) =>
      if p.IntZero? then "0"
      else if p.millionths == 0 then "0.0"
      else if p.millionths < 0 then "-" + ShowFixed(-p.millionths)
      else ShowFixed(p.millionths)
  }

  function ShowInt(n: int): string {
    if n < 0 then "-" + ShowNat(-n) else ShowNat(n)
  }

  function GetOr(o: Option<string>, default: string): string {
    if o.Some? then o.value else default
  }

  function SampledText(sa: Option<bool>): string {
    if sa == Some(true) then "1" else "0"
  }

  /** The fields before the time; the type is always 0 and the span id is left out. */
  function BeforeTime(d: Data): (r: seq<string>)
    ensures |r| == 8
  {
    [GetOr(d.v, "0"), "0", d.ac, d.ap, "", GetOr(d.tx, ""), SampledText(d.sa), PriorityText(d.pr)]
  }

  function Payload(d: Data): string {
    Join(BeforeTime(d) + [ShowInt(d.ti)], '-')
  }

  function Key(d: Data): string {
    GetOr(d.tk, d.ac) + "@nr"
  }

  /** NrTraceState.text: the member of the tracestate. */
  function TextOf(d: Data): string {
    TraceState.Member((Key(d), Payload(d)))
  }

  datatype Decoded = Decoded(
    tk: string,
    ti: int,
    v: string,
    ty: string,
    ac: string,
    ap: string,
    id: Option<string>,
    tx: Option<string>,
    sa: Field<bool>,
    pr: Field<int>)

  /** int(s) and float(s), the latter in millionths; None is an exception. */
  datatype Readers = Readers(int_: string -> Option<int>, float_: string -> Option<int>)

  /** They read plain decimals, and "None" is no number. */
  ghost predicate Plain(r: Readers) {
    && (forall n: nat :: r.int_(ShowNat(n)) == Some(n))
    && (forall s :: PlainValue(s).Some? ==> r.float_(s) == Some(PlainValue(s).value))
    && r.float_("None").None?
  }

  /** Readers of plain decimals and nothing else. */
  function DecimalReaders(): Readers {
    Readers((s: string) => if |s| > 0 && AllDigits(s) then Some(ReadDigits(s)) else None,
            (s: string) => if PlainValue(s).Some? then Some(PlainValue(s).value) else None)
  }

  lemma DecimalReadersArePlain()
    ensures Plain(DecimalReaders())
  {
    forall n: nat
      ensures DecimalReaders().int_(ShowNat(n)) == Some(n)
    {
      ReadOfShow(n);
    }
    assert PlainValue("None").None? by {
      SplitIsFree("None", '.', 2);
      assert "None"[0] == 'N';
      SplitWhole("None", '.', 2);
    }
  }

  function NonEmpty(s: string): Option<string> {
    if |s| == 0 then None else Some(s)
  }

  function ParentType(ty: string): Option<string> {
    if ty == "0" then Some("App") else if ty == "1" then Some("Browser") else if ty == "2" then Some("Mobile") else None
  }

  function ReadSampled(s: string): Field<bool> {
    if |s| == 0 then Absent else if s == "1" then Val(true) else if s == "0" then Val(false) else Null
  }

  function ReadPriority(s: string, r: Readers): Field<int> {
    if |s| == 0 then Absent
    else if r.float_(s).Some? then Val(r.float_(s).value) else Null
  }

  function Decode(payload: string, tk: string, r: Readers): Option<Decoded> {
    DecodeFields(Split(payload, '-', 9), tk, r)
  }

  function DecodeFields(f: seq<string>, tk: string, r: Readers): Option<Decoded> {
    if |f| >= 9 && |f[0]| > 0 && |f[1]| > 0 && |f[2]| > 0 && |f[3]| > 0 && |f[8]| > 0 then
      var ti := r.int_(f[8]);
      if ti.None? then None
      else
        var ty := ParentType(f[1]);
        if ty.None? then None
        else Some(Decoded(tk, ti.value, f[0], ty.value, f[2], f[3], NonEmpty(f[4]), NonEmpty(f[5]),
                          ReadSampled(f[6]), ReadPriority(f[7], r)))
    else None
  }

  // ----- the loop of decode ------------------------------------------------------------

  const FIELDS: seq<string> := ["v", "ty", "ac", "ap", "id", "tx", "sa", "pr"]

  /** The dictionary holds the non-empty ones of the first n fields. */
  ghost predicate Filled(data: map<string, string>, fields: seq<string>, n: nat)
    requires n <= |FIELDS| && n <= |fields|
  {
    forall k | 0 <= k < n :: HasField(data, FIELDS[k], fields[k])
  }

  predicate HasField(data: map<string, string>, name: string, value: string) {
    if |value| > 0 then name in data && data[name] == value else name !in data
  }

  lemma FieldsAreDistinct(i: nat, k: nat)
    requires k < i < |FIELDS|
    ensures FIELDS[k] != FIELDS[i]
  {
  }

  lemma FilledGrows(data: map<string, string>, fields: seq<string>, i: nat)
    requires i < |FIELDS| && i < |fields| && Filled(data, fields, i)
    requires forall k | i <= k < |FIELDS| :: FIELDS[k] !in data
    ensures var more := if |fields[i]| > 0 then data[FIELDS[i] := fields[i]] else data;
      Filled(more, fields, i + 1) && forall k | i < k < |FIELDS| :: FIELDS[k] !in more
  {
    forall k: nat | k < |FIELDS| && k != i
      ensures FIELDS[k] != FIELDS[i]
    {
      if k < i {
        FieldsAreDistinct(i, k);
      } else {
        FieldsAreDistinct(k, i);
      }
    }
  }

  function Lookup(data: map<string, string>, name: string): string {
    if name in data then data[name] else ""
  }

  lemma FilledLooksUp(data: map<string, string>, fields: seq<string>)
    requires |fields| >= 8 && Filled(data, fields, 8)
    ensures Lookup(data, "v") == fields[0] && Lookup(data, "ty") == fields[1]
    ensures Lookup(data, "ac") == fields[2] && Lookup(data, "ap") == fields[3]
    ensures Lookup(data, "id") == fields[4] && Lookup(data, "tx") == fields[5]
    ensures Lookup(data, "sa") == fields[6] && Lookup(data, "pr") == fields[7]
  {
    forall k | 0 <= k < 8
      ensures Lookup(data, FIELDS[k]) == fields[k]
    {
      assert HasField(data, FIELDS[k], fields[k]);
    }
  }

  /** The dictionary that decode fills from the fields. */
  method FillFields(fields: seq<string>) returns (data: map<string, string>)
    requires |fields| >= 8
    ensures Filled(data, fields, 8)
  {
    data := map[];
    for i := 0 to |FIELDS|
      invariant Filled(data, fields, i)
      invariant forall k | i <= k < |FIELDS| :: FIELDS[k] !in data
    {
      FilledGrows(data, fields, i);
      if |fields[i]| > 0 {
        data := data[FIELDS[i] := fields[i]];
      }
    }
  }

  /** decode itself. */
  method DecodeLoop(payload: string, tk: string, r: Readers) returns (decoded: Option<Decoded>)
    ensures decoded == Decode(payload, tk, r)
  {
    var fields := Split(payload, '-', 9);
    if |fields| < 9 || |fields[0]| == 0 || |fields[1]| == 0 || |fields[2]| == 0 || |fields[3]| == 0
       || |fields[8]| == 0 {
      return None;
    }
    var ti := r.int_(fields[8]);
    if ti.None? {
      return None;
    }
    var data := FillFields(fields);
    FilledLooksUp(data, fields);
    var ty := ParentType(Lookup(data, "ty"));
    if ty.None? {
      return None;
    }
    var sa, pr := ReadSampled(Lookup(data, "sa")), ReadPriority(Lookup(data, "pr"), r);
    decoded := Some(Decoded(tk, ti.value, Lookup(data, "v"), ty.value, Lookup(data, "ac"), Lookup(data, "ap"),
                            NonEmpty(Lookup(data, "id")), NonEmpty(Lookup(data, "tx")), sa, pr));
  }

  lemma KnownTypes(ty: string)
    ensures ParentType(ty).Some? <==> ty == "0" || ty == "1" || ty == "2"
  {
  }

  predicate Complete(f: seq<string>, r: Readers)
    requires |f| >= 9
  {
    && |f[0]| > 0 && |f[2]| > 0 && |f[3]| > 0 && |f[8]| > 0
    && (f[1] == "0" || f[1] == "1" || f[1] == "2") && r.int_(f[8]).Some?
  }

  lemma CompleteDecodes(f: seq<string>, tk: string, r: Readers)
    requires |f| >= 9
    ensures DecodeFields(f, tk, r).Some? <==> Complete(f, r)
  {
    KnownTypes(f[1]);
  }

  lemma TenthIsDropped(f: seq<string>, extra: string, tk: string, r: Readers)
    requires |f| == 9
    ensures DecodeFields(f + [extra], tk, r) == DecodeFields(f, tk, r)
  {
    assert forall k | 0 <= k < 9 :: (f + [extra])[k] == f[k];
  }

  /** Nine fields decode if and only if version, ids and time are there, the type is known and
      the time is a number; and whatever follows them after a dash is dropped. */
  lemma DecodesIffComplete(f: seq<string>, extra: string, tk: string, r: Readers)
    requires |f| == 9 && Free(f, '-')
    ensures Decode(Join(f, '-'), tk, r).Some? <==> Complete(f, r)
    ensures Decode(Join(f + [extra], '-'), tk, r) == Decode(Join(f, '-'), tk, r)
  {
    SplitOfJoin(f, '-', 9);
    CompleteDecodes(f, tk, r);
    assert (f + [extra])[..9] == f;
    SplitOfOpenJoin(f + [extra], '-');
    TenthIsDropped(f, extra, tk, r);
  }

  /** What nine complete fields decode to: types 0, 1 and 2 are App, Browser and Mobile; an empty
      span id, transaction id, flag or priority is missing; a flag that is neither 1 nor 0, and a
      priority that is no number, are None. */
  lemma DecodesTo(f: seq<string>, tk: string, r: Readers)
    requires |f| == 9 && Free(f, '-') && Complete(f, r)
    ensures Decode(Join(f, '-'), tk, r).Some?
    ensures var d := Decode(Join(f, '-'), tk, r).value;
      && d.tk == tk && d.v == f[0] && d.ac == f[2] && d.ap == f[3] && r.int_(f[8]) == Some(d.ti)
      && (f[1] == "0" <==> d.ty == "App") && (f[1] == "1" <==> d.ty == "Browser") && (f[1] == "2" <==> d.ty == "Mobile")
      && (if f[4] == "" then d.id == None else d.id == Some(f[4]))
      && (if f[5] == "" then d.tx == None else d.tx == Some(f[5]))
      && (f[6] == "" <==> d.sa == Absent) && (f[6] == "1" <==> d.sa == Val(true)) && (f[6] == "0" <==> d.sa == Val(false))
      && (f[7] == "" <==> d.pr == Absent) && (f[7] != "" && r.float_(f[7]).None? <==> d.pr == Null)
      && (f[7] != "" && r.float_(f[7]).Some? ==> d.pr == Val(r.float_(f[7]).value))
  {
    SplitOfJoin(f, '-', 9);
    FieldsDecodeTo(f, tk, r);
  }

  lemma FieldsDecodeTo(f: seq<string>, tk: string, r: Readers)
    requires |f| == 9 && Complete(f, r)
    ensures DecodeFields(f, tk, r)
            == Some(Decoded(tk, r.int_(f[8]).value, f[0],
                            if f[1] == "0" then "App" else if f[1] == "1" then "Browser" else "Mobile",
                            f[2], f[3], if f[4] == "" then None else Some(f[4]), if f[5] == "" then None else Some(f[5]),
                            ReadSampled(f[6]), ReadPriority(f[7], r)))
  {
    KnownTypes(f[1]);
  }

  // ----- round trip --------------------------------------------------------------------

  predicate NotNegative(pr: Field<Priority>) {
    pr.Val? ==> 0 <= Millionths(pr.value)
  }

  predicate DashFree(d: Data) {
    && NotNegative(d.pr)
    && '-' !in GetOr(d.v, "0") && '-' !in d.ac && '-' !in d.ap && '-' !in GetOr(d.tx, "")
    && |GetOr(d.v, "0")| > 0 && |d.ac| > 0 && |d.ap| > 0
  }

  function DecodedPriority(pr: Field<Priority>): Field<int> {
    match pr
    case Absent => Absent
    case Null => Null
    case Val(p) => Val(Millionths(p))
  }

  /** How a priority that is no positive number is written. */
  lemma OtherPrioritiesShow(m: int)
    requires m > 0
    ensures PriorityText(Absent) == "" && PriorityText(Null) == "None" && PriorityText(Val(IntZero)) == "0"
    ensures PriorityText(Val(Float(0))) == "0.0" && PriorityText(Val(Float(-m))) == "-" + PriorityText(Val(Float(m)))
  {
  }

  lemma PriorityTextIsDashFree(pr: Field<Priority>)
    requires NotNegative(pr)
    ensures '-' !in PriorityText(pr)
  {
    if pr.Val? && pr.value.Float? && pr.value.millionths > 0 {
      var m := pr.value.millionths;
      var frac := StripZeros(PaddedDigits(m % 1_000_000, 6));
      assert Pow10(6) == 1_000_000;
      NotAmongDigits(ShowNat(m / 1_000_000), '-');
      NotAmongDigits(frac, '-');
    }
  }

  lemma PriorityReads(pr: Field<Priority>, r: Readers)
    requires Plain(r) && NotNegative(pr)
    ensures ReadPriority(PriorityText(pr), r) == DecodedPriority(pr)
  {
    if pr.Val? {
      var m := Millionths(pr.value);
      if m > 0 {
        FixedHasItsValue(m);
        assert |ShowFixed(m)| > 0;
      } else {
        ZeroReads();
      }
    }
  }

  lemma ZeroReads()
    ensures PlainValue("0") == Some(0) && PlainValue("0.0") == Some(0)
  {
    assert ReadDigits("0") == 0 by { ReadOfShow(0); }
    assert PlainValue("0") == Some(0) by { SplitOfJoin(["0"], '.', 2); }
    PointZeroReads();
  }

  lemma PointZeroReads()
    requires ReadDigits("0") == 0
    ensures PlainValue("0.0") == Some(0)
  {
    SplitOfJoin(["0", "0"], '.', 2);
    assert Join(["0", "0"], '.') == "0.0";
  }

  lemma BeforeTimeIsFree(d: Data)
    requires DashFree(d)
    ensures Free(BeforeTime(d), '-')
  {
    PriorityTextIsDashFree(d.pr);
  }

  lemma FieldsOf(d: Data, last: seq<string>)
    requires DashFree(d) && 1 <= |last| <= 2 && Free(last, '-')
    ensures Split(Join(BeforeTime(d) + last, '-'), '-', 9) == BeforeTime(d) + last
  {
    BeforeTimeIsFree(d);
    var before := BeforeTime(d);
    assert Free(before + last, '-');
    SplitOfJoin(before + last, '-', 9);
  }

  lemma SampledReads(sa: Option<bool>)
    ensures ReadSampled(SampledText(sa)) == Val(sa == Some(true))
  {
  }

  lemma NineFieldsDecode(f: seq<string>, tk: string, r: Readers, ti: int)
    requires |f| == 9 && |f[0]| > 0 && f[1] == "0" && |f[2]| > 0 && |f[3]| > 0 && f[4] == "" && |f[8]| > 0
    requires r.int_(f[8]) == Some(ti)
    ensures DecodeFields(f, tk, r)
            == Some(Decoded(tk, ti, f[0], "App", f[2], f[3], None, NonEmpty(f[5]),
                            ReadSampled(f[6]), ReadPriority(f[7], r)))
  {
  }

  lemma FieldsOfData(d: Data)
    ensures var f := BeforeTime(d) + [ShowInt(d.ti)];
      && |f| == 9 && f[0] == GetOr(d.v, "0") && f[1] == "0" && f[2] == d.ac && f[3] == d.ap && f[4] == ""
      && f[5] == GetOr(d.tx, "") && f[6] == SampledText(d.sa) && f[7] == PriorityText(d.pr) && f[8] == ShowInt(d.ti)
  {
  }

  lemma FieldsDecode(d: Data, tk: string, r: Readers)
    requires DashFree(d) && Plain(r) && 0 <= d.ti
    ensures DecodeFields(BeforeTime(d) + [ShowNat(d.ti)], tk, r)
            == Some(Decoded(tk, d.ti, GetOr(d.v, "0"), "App", d.ac, d.ap, None, NonEmpty(GetOr(d.tx, "")),
                            Val(d.sa == Some(true)), DecodedPriority(d.pr)))
  {
    FieldsOfData(d);
    PriorityReads(d.pr, r);
    SampledReads(d.sa);
    assert r.int_(ShowNat(d.ti)) == Some(d.ti);
    NineFieldsDecode(BeforeTime(d) + [ShowNat(d.ti)], tk, r, d.ti);
  }

  /** Decoding undoes the text of dash-free ids and a non-negative time: every field comes
      back but the span id, which is no longer sent. */
  lemma DecodeUndoesText(d: Data, tk: string, r: Readers)
    requires DashFree(d) && Plain(r) && 0 <= d.ti
    ensures Decode(Payload(d), tk, r)
            == Some(Decoded(tk, d.ti, GetOr(d.v, "0"), "App", d.ac, d.ap, None, NonEmpty(GetOr(d.tx, "")),
                            Val(d.sa == Some(true)), DecodedPriority(d.pr)))
  {
    NotAmongDigits(ShowNat(d.ti), '-');
    FieldsOf(d, [ShowNat(d.ti)]);
    FieldsDecode(d, tk, r);
  }

  lemma {:induction false} JoinAppend(a: seq<string>, b: string, c: string, sep: char)
    ensures Join(a + [b + [sep] + c], sep) == Join(a + [b, c], sep)
    decreases |a|
  {
    if |a| == 0 {
      assert Join([b, c], sep) == b + [sep] + Join([b, c][1..], sep);
      assert [b, c][1..] == [c];
      assert a + [b + [sep] + c] == [b + [sep] + c] && a + [b, c] == [b, c];
    } else {
      JoinAppend(a[1..], b, c, sep);
      assert (a + [b + [sep] + c])[1..] == a[1..] + [b + [sep] + c];
      assert (a + [b, c])[1..] == a[1..] + [b, c];
    }
  }

  lemma NegativePayload(d: Data)
    requires d.ti < 0
    ensures Payload(d) == Join(BeforeTime(d) + ["", ShowNat(-d.ti)], '-')
  {
    var digits := ShowNat(-d.ti);
    JoinAppend(BeforeTime(d), "", digits, '-');
    assert "" + ['-'] + digits == ShowInt(d.ti);
  }

  lemma NoTimeNoFields(before: seq<string>, digits: string, tk: string, r: Readers)
    requires |before| == 8
    ensures DecodeFields(before + ["", digits], tk, r).None?
  {
    assert (before + ["", digits])[8] == "";
  }

  /** The time decides: a negative one puts its sign where the time is looked for. */
  lemma DecodesIffTimeNotNegative(d: Data, tk: string, r: Readers)
    requires DashFree(d) && Plain(r)
    ensures Decode(Payload(d), tk, r).Some? <==> 0 <= d.ti
  {
    if 0 <= d.ti {
      DecodeUndoesText(d, tk, r);
    } else {
      NegativePayload(d);
      FieldsOf(d, ["", ShowNat(-d.ti)]) by { NotAmongDigits(ShowNat(-d.ti), '-'); }
      NoTimeNoFields(BeforeTime(d), ShowNat(-d.ti), tk, r);
    }
  }

  // ----- the member fits into a tracestate ---------------------------------------------

  predicate IdChar(c: char) {
    '0' <= c <= '9' || 'a' <= c <= 'z' || 'A' <= c <= 'Z'
  }

  predicate PlainText(s: string) {
    forall k | 0 <= k < |s| :: IdChar(s[k]) || s[k] in "-.@"
  }

  /** Ids as they are given out: letters and digits. */
  predicate PlainData(d: Data) {
    && DashFree(d)
    && PlainText(GetOr(d.v, "0")) && PlainText(d.ac) && PlainText(d.ap) && PlainText(GetOr(d.tx, ""))
    && PlainText(GetOr(d.tk, d.ac))
  }

  /** And short enough for the decoder of the tracestate. */
  predicate PlainIds(d: Data) {
    PlainData(d) && 0 <= d.ti && TraceState.Short((Key(d), Payload(d)))
  }

  lemma DigitsArePlain(s: string)
    requires AllDigits(s)
    ensures PlainText(s)
  {
  }

  lemma {:induction false} JoinIsPlain(parts: seq<string>, sep: char)
    requires sep in "-.@" && forall k | 0 <= k < |parts| :: PlainText(parts[k])
    ensures PlainText(Join(parts, sep))
    decreases |parts|
  {
    if |parts| > 1 {
      JoinIsPlain(parts[1..], sep);
    }
  }

  lemma PriorityIsPlain(pr: Field<Priority>)
    requires NotNegative(pr)
    ensures PlainText(PriorityText(pr))
  {
    if pr.Val? && pr.value.Float? && pr.value.millionths > 0 {
      var m := pr.value.millionths;
      assert Pow10(6) == 1_000_000;
      DigitsArePlain(ShowNat(m / 1_000_000));
      DigitsArePlain(StripZeros(PaddedDigits(m % 1_000_000, 6)));
    }
  }

  lemma IntIsPlain(n: int)
    ensures PlainText(ShowInt(n))
  {
    DigitsArePlain(ShowNat(if n < 0 then -n else n));
  }

  lemma PayloadIsPlain(d: Data)
    requires PlainData(d)
    ensures PlainText(Payload(d)) && |Payload(d)| > 0
  {
    PriorityIsPlain(d.pr);
    IntIsPlain(d.ti);
    JoinIsPlain(BeforeTime(d) + [ShowInt(d.ti)], '-');
    JoinTail(BeforeTime(d) + [ShowInt(d.ti)], '-');
  }

  /** The member has one `=` and no commas or blanks. */
  lemma MemberIsPlain(d: Data)
    requires PlainData(d)
    ensures '=' !in Key(d) && '=' !in Payload(d) && TraceState.SolidEntry(TextOf(d))
  {
    PayloadIsPlain(d);
    KeyIsPlain(d);
    PlainPair(Key(d), Payload(d));
  }

  lemma KeyIsPlain(d: Data)
    requires PlainText(GetOr(d.tk, d.ac))
    ensures PlainText(Key(d))
  {
  }

  lemma MemberIsSolid(d: Data)
    requires PlainIds(d)
    ensures TraceState.SolidPair((Key(d), Payload(d)))
  {
    MemberIsPlain(d);
  }

  lemma PlainPair(k: string, v: string)
    requires PlainText(k) && PlainText(v)
    ensures '=' !in k && '=' !in v && TraceState.SolidEntry(TraceState.Member((k, v)))
  {
    var m := TraceState.Member((k, v));
    forall i | 0 <= i < |m|
      ensures !TraceState.IsSpace(m[i]) && m[i] != ','
    {
      assert m[i] == if i < |k| then k[i] else if i == |k| then '=' else v[i - |k| - 1];
    }
  }
}
