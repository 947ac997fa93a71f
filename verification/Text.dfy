/** The string operations that the header codecs use. */
module Text {
  import opened Prelude

  // ----- splitting and joining ---------------------------------------------------------

  function IndexOf(s: string, c: char): (r: Option<nat>)
    ensures r.Some? ==> r.value < |s| && s[r.value] == c && c !in s[..r.value]
    ensures r.None? ==> c !in s
  {
    if |s| == 0 then None
    else if s[0] == c then Some(0)
    else
      var r := IndexOf(s[1..], c);
      assert r.Some? ==> s[..r.value + 1] == [s[0]] + s[1..][..r.value];
      if r.None? then None else Some(r.value + 1)
  }

  /** s.split(sep, max) */
  function Split(s: string, sep: char, max: nat): (r: seq<string>)
    ensures 1 <= |r| <= max + 1
    decreases max
  {
    var i := IndexOf(s, sep);
    if max == 0 || i.None? then [s]
    else [s[..i.value]] + Split(s[i.value + 1..], sep, max - 1)
  }

  /** sep.join(parts) */
  function Join(parts: seq<string>, sep: char): string {
    if |parts| == 0 then ""
    else if |parts| == 1 then parts[0]
    else parts[0] + [sep] + Join(parts[1..], sep)
  }

  predicate Free(parts: seq<string>, c: char) {
    forall k | 0 <= k < |parts| :: c !in parts[k]
  }

  lemma IndexOfSep(a: string, sep: char, b: string)
    requires sep !in a
    ensures IndexOf(a + [sep] + b, sep) == Some(|a|)
  {
    var s := a + [sep] + b;
    assert s[|a|] == sep;
    assert forall k | 0 <= k < |a| :: s[k] == a[k];
  }

  lemma SplitHead(a: string, sep: char, b: string, max: nat)
    requires sep !in a && max > 0
    ensures Split(a + [sep] + b, sep, max) == [a] + Split(b, sep, max - 1)
  {
    var s := a + [sep] + b;
    IndexOfSep(a, sep, b);
    assert s[..|a|] == a && s[|a| + 1..] == b;
  }

  lemma SplitWhole(s: string, sep: char, max: nat)
    requires sep !in s
    ensures Split(s, sep, max) == [s]
  {
  }

  lemma JoinTail(parts: seq<string>, sep: char)
    requires |parts| > 1
    ensures Join(parts, sep) == parts[0] + [sep] + Join(parts[1..], sep)
  {
  }

  /** Parts without the separator come back from their join. */
  lemma {:induction false} SplitOfJoin(parts: seq<string>, sep: char, max: nat)
    requires 1 <= |parts| <= max + 1 && Free(parts, sep)
    ensures Split(Join(parts, sep), sep, max) == parts
    decreases |parts|
  {
    if |parts| > 1 {
      SplitOfJoin(parts[1..], sep, max - 1);
      SplitHead(parts[0], sep, Join(parts[1..], sep), max);
      JoinTail(parts, sep);
      HeadAndTail(parts);
    } else {
      SplitWhole(parts[0], sep, max);
      assert parts == [parts[0]];
    }
  }

  lemma HeadAndTail(parts: seq<string>)
    requires |parts| > 0
    ensures [parts[0]] + parts[1..] == parts
  {
  }

  /** The last part may hold separators where no further split is allowed. */
  lemma {:induction false} SplitOfOpenJoin(parts: seq<string>, sep: char)
    requires |parts| > 0 && Free(parts[..|parts| - 1], sep)
    ensures Split(Join(parts, sep), sep, |parts| - 1) == parts
    decreases |parts|
  {
    if |parts| > 1 {
      var rest := parts[1..];
      assert rest[..|rest| - 1] == parts[..|parts| - 1][1..];
      assert parts[..|parts| - 1][0] == parts[0];
      SplitOfOpenJoin(rest, sep);
      SplitHead(parts[0], sep, Join(rest, sep), |parts| - 1);
      JoinTail(parts, sep);
      HeadAndTail(parts);
    }
  }

  lemma AroundIndex(s: string, i: nat)
    requires i < |s|
    ensures s == s[..i] + [s[i]] + s[i + 1..]
  {
  }

  lemma JoinsBack(s: string, i: nat, parts: seq<string>)
    requires i < |s| && |parts| > 0 && Join(parts, s[i]) == s[i + 1..]
    ensures Join([s[..i]] + parts, s[i]) == s
  {
    JoinHead(s[..i], parts, s[i]);
    AroundIndex(s, i);
  }

  lemma SplitIs(s: string, sep: char, max: nat, parts: seq<string>)
    requires parts == if max == 0 || IndexOf(s, sep).None? then [s]
                      else [s[..IndexOf(s, sep).value]] + Split(s[IndexOf(s, sep).value + 1..], sep, max - 1)
    requires Join(parts, sep) == s
    ensures Join(Split(s, sep, max), sep) == s
  {
    assert Split(s, sep, max) == parts;
  }

  /** Splitting loses nothing. */
  lemma {:induction false} JoinOfSplit(s: string, sep: char, max: nat)
    ensures Join(Split(s, sep, max), sep) == s
    decreases max
  {
    if max > 0 && IndexOf(s, sep).Some? {
      var i := IndexOf(s, sep).value;
      var parts := Split(s[i + 1..], sep, max - 1);
      JoinOfSplit(s[i + 1..], sep, max - 1);
      JoinsBack(s, i, parts);
      SplitIs(s, sep, max, [s[..i]] + parts);
    } else {
      SplitIs(s, sep, max, [s]);
    }
  }

  lemma JoinHead(a: string, rest: seq<string>, sep: char)
    requires |rest| > 0
    ensures Join([a] + rest, sep) == a + [sep] + Join(rest, sep)
  {
    assert ([a] + rest)[1..] == rest;
  }

  /** All parts but perhaps the last are free of the separator. */
  lemma {:induction false} SplitIsFree(s: string, sep: char, max: nat)
    ensures Free(Split(s, sep, max)[..|Split(s, sep, max)| - 1], sep)
    ensures |Split(s, sep, max)| <= max ==> Free(Split(s, sep, max), sep)
    decreases max
  {
    var i := IndexOf(s, sep);
    if max > 0 && i.Some? {
      var rest := Split(s[i.value + 1..], sep, max - 1);
      SplitIsFree(s[i.value + 1..], sep, max - 1);
      var parts := [s[..i.value]] + rest;
      assert Split(s, sep, max) == parts;
      assert parts[..|parts| - 1] == [s[..i.value]] + rest[..|rest| - 1];
    }
  }

  lemma {:induction false} PartsKeepOut(parts: seq<string>, sep: char, c: char)
    requires c !in Join(parts, sep)
    ensures Free(parts, c)
    decreases |parts|
  {
    if |parts| > 1 {
      var j := Join(parts, sep);
      assert j == parts[0] + [sep] + Join(parts[1..], sep);
      forall k | 0 <= k < |Join(parts[1..], sep)|
        ensures Join(parts[1..], sep)[k] != c
      {
        assert j[|parts[0]| + 1 + k] == Join(parts[1..], sep)[k];
      }
      PartsKeepOut(parts[1..], sep, c);
      forall k | 0 <= k < |parts|
        ensures c !in parts[k]
      {
        if k == 0 {
          assert forall x | x in parts[0] :: x in j;
        } else {
          assert parts[k] == parts[1..][k - 1];
        }
      }
    }
  }

  // ----- decimal numbers ---------------------------------------------------------------

  const ZERO: char := '0'

  predicate IsDigit(c: char) {
    '0' <= c <= '9'
  }

  predicate AllDigits(s: string) {
    forall k | 0 <= k < |s| :: IsDigit(s[k])
  }

  function Digit(d: nat): (c: char)
    requires d < 10
    ensures IsDigit(c)
  {
    ZERO + d as char
  }

  function DigitValue(c: char): (d: nat)
    requires IsDigit(c)
    ensures d < 10 && Digit(d) == c
  {
    (c - ZERO) as int
  }

  function ShowNat(n: nat): (s: string)
    ensures |s| > 0 && AllDigits(s)
  {
    if n < 10 then [Digit(n)] else ShowNat(n / 10) + [Digit(n % 10)]
  }

  function ReadDigits(s: string): nat
    requires AllDigits(s)
  {
    if |s| == 0 then 0 else 10 * ReadDigits(s[..|s| - 1]) + DigitValue(s[|s| - 1])
  }

  lemma {:induction false} ReadOfShow(n: nat)
    ensures ReadDigits(ShowNat(n)) == n
  {
    if n >= 10 {
      ReadOfShow(n / 10);
      assert ShowNat(n)[..|ShowNat(n)| - 1] == ShowNat(n / 10);
    } else {
      assert ReadDigits([Digit(n)][..0]) == 0;
    }
  }

  function Pow10(n: nat): nat {
    if n == 0 then 1 else 10 * Pow10(n - 1)
  }

  // ----- fixed point: numbers in millionths --------------------------------------------

  /** The digits of f, n of them. */
  function PaddedDigits(f: nat, n: nat): (s: string)
    requires f < Pow10(n)
    ensures |s| == n && AllDigits(s)
  {
    if n == 0 then "" else PaddedDigits(f / 10, n - 1) + [Digit(f % 10)]
  }

  /** rstrip("0") */
  function StripZeros(s: string): (r: string)
    ensures r <= s && (|r| > 0 ==> r[|r| - 1] != ZERO)
  {
    if |s| > 0 && s[|s| - 1] == ZERO then StripZeros(s[..|s| - 1]) else s
  }

  /** f"{m:.6f}".rstrip("0").rstrip(".") for m in millionths. */
  function ShowFixed(m: nat): string {
    assert Pow10(6) == 1_000_000;
    var frac := StripZeros(PaddedDigits(m % 1_000_000, 6));
    if |frac| == 0 then ShowNat(m / 1_000_000) else ShowNat(m / 1_000_000) + "." + frac
  }

  /** The value in millionths of digits, or of digits, a point and one to six digits. */
  function PlainValue(s: string): Option<nat> {
    var parts := Split(s, '.', 2);
    if |parts| > 2 || |parts[0]| == 0 || !AllDigits(parts[0]) then None
    else if |parts| == 1 then Some(ReadDigits(parts[0]) * 1_000_000)
    else if |parts[1]| == 0 || |parts[1]| > 6 || !AllDigits(parts[1]) then None
    else Some(ReadDigits(parts[0]) * 1_000_000 + FractionValue(parts[1]))
  }

  function FractionValue(s: string): nat
    requires AllDigits(s) && |s| <= 6
  {
    ReadDigits(s) * Pow10(6 - |s|)
  }

  lemma {:induction false} ReadOfPadded(f: nat, n: nat)
    requires f < Pow10(n)
    ensures ReadDigits(PaddedDigits(f, n)) == f
  {
    if n > 0 {
      ReadOfPadded(f / 10, n - 1);
      assert PaddedDigits(f, n)[..n - 1] == PaddedDigits(f / 10, n - 1);
    }
  }

  lemma {:induction false} StripKeepsValue(s: string)
    requires AllDigits(s) && |s| <= 6
    ensures AllDigits(StripZeros(s)) && FractionValue(StripZeros(s)) == FractionValue(s)
    decreases |s|
  {
    if |s| > 0 && s[|s| - 1] == ZERO {
      StripKeepsValue(s[..|s| - 1]);
      assert Pow10(6 - (|s| - 1)) == 10 * Pow10(6 - |s|);
      assert ReadDigits(s) == 10 * ReadDigits(s[..|s| - 1]);
      ShiftDigit(ReadDigits(s[..|s| - 1]), Pow10(6 - |s|));
    }
  }

  lemma ShiftDigit(a: nat, b: nat)
    ensures a * (10 * b) == (10 * a) * b
  {
  }

  lemma NotAmongDigits(s: string, c: char)
    requires AllDigits(s) && !IsDigit(c)
    ensures c !in s
  {
  }

  lemma WholeReads(whole: string)
    requires |whole| > 0 && AllDigits(whole)
    ensures PlainValue(whole) == Some(ReadDigits(whole) * 1_000_000)
  {
    NotAmongDigits(whole, '.');
    SplitOfJoin([whole], '.', 2);
  }

  lemma PointReads(whole: string, frac: string)
    requires |whole| > 0 && AllDigits(whole) && 1 <= |frac| <= 6 && AllDigits(frac)
    ensures PlainValue(whole + "." + frac) == Some(ReadDigits(whole) * 1_000_000 + FractionValue(frac))
  {
    NotAmongDigits(whole, '.');
    NotAmongDigits(frac, '.');
    JoinTwo(whole, frac, '.');
    SplitOfJoin([whole, frac], '.', 2);
    TwoPartsRead(whole + "." + frac, whole, frac);
  }

  lemma TwoPartsRead(s: string, whole: string, frac: string)
    requires |whole| > 0 && AllDigits(whole) && 1 <= |frac| <= 6 && AllDigits(frac)
    requires Split(s, '.', 2) == [whole, frac]
    ensures PlainValue(s) == Some(ReadDigits(whole) * 1_000_000 + FractionValue(frac))
  {
  }

  lemma JoinTwo(a: string, b: string, sep: char)
    ensures Join([a, b], sep) == a + [sep] + b
  {
    JoinHead(a, [b], sep);
    assert [a] + [b] == [a, b];
  }

  lemma NothingIsZero(frac: string)
    requires |frac| == 0
    ensures FractionValue(frac) == 0
  {
  }

  lemma MillionthsSplit(v: Option<nat>, a: nat, b: nat, m: nat)
    requires v == Some(a * 1_000_000 + b) && a == m / 1_000_000 && b == m % 1_000_000
    ensures v == Some(m)
  {
  }

  lemma FractionIsAll(f: nat)
    requires f < Pow10(6)
    ensures FractionValue(PaddedDigits(f, 6)) == f
  {
    ReadOfPadded(f, 6);
  }

  lemma FixedParts(m: nat) returns (whole: string, frac: string)
    ensures |whole| > 0 && AllDigits(whole) && AllDigits(frac) && |frac| <= 6
    ensures ReadDigits(whole) == m / 1_000_000 && FractionValue(frac) == m % 1_000_000
    ensures ShowFixed(m) == if |frac| == 0 then whole else whole + "." + frac
  {
    assert Pow10(6) == 1_000_000;
    var padded := PaddedDigits(m % 1_000_000, 6);
    ReadOfShow(m / 1_000_000);
    FractionIsAll(m % 1_000_000);
    StripKeepsValue(padded);
    whole, frac := ShowNat(m / 1_000_000), StripZeros(padded);
  }

  lemma PartsRead(s: string, m: nat, whole: string, frac: string)
    requires |whole| > 0 && AllDigits(whole) && AllDigits(frac) && |frac| <= 6
    requires ReadDigits(whole) == m / 1_000_000 && FractionValue(frac) == m % 1_000_000
    requires s == if |frac| == 0 then whole else whole + "." + frac
    ensures PlainValue(s) == Some(m)
  {
    if |frac| == 0 {
      NothingIsZero(frac);
      WholeReads(whole);
    } else {
      PointReads(whole, frac);
    }
    MillionthsSplit(PlainValue(s), ReadDigits(whole), FractionValue(frac), m);
  }

  /** The short decimal form has exactly the value it was made from. */
  lemma FixedHasItsValue(m: nat)
    ensures PlainValue(ShowFixed(m)) == Some(m)
  {
    var whole, frac := FixedParts(m);
    PartsRead(ShowFixed(m), m, whole, frac);
  }

  lemma {:induction false} ZerosStrip(n: nat)
    requires 0 < Pow10(n)
    ensures StripZeros(PaddedDigits(0, n)) == ""
  {
    if n > 0 {
      assert PaddedDigits(0, n)[..n - 1] == PaddedDigits(0, n - 1);
      ZerosStrip(n - 1);
    }
  }

  /** A whole number shows as it is; any other shows a point and as few digits as it needs, six at
      most. */
  lemma FixedIsShort(m: nat)
    ensures m % 1_000_000 == 0 ==> ShowFixed(m) == ShowNat(m / 1_000_000)
    ensures m % 1_000_000 != 0 ==>
              exists frac: string | 1 <= |frac| <= 6 && AllDigits(frac) && frac[|frac| - 1] != '0' ::
                ShowFixed(m) == ShowNat(m / 1_000_000) + "." + frac
  {
    assert Pow10(6) == 1_000_000;
    var f := m % 1_000_000;
    var padded := PaddedDigits(f, 6);
    if f == 0 {
      ZerosStrip(6);
    } else {
      ReadOfPadded(f, 6);
      StripKeepsValue(padded);
    }
  }
}
