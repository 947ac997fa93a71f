/** Response headers, and what both response middlewares read from them. */
module HttpHeaders {
  import opened Prelude

  datatype Header = Header(name: string, value: string)
  type Headers = seq<Header>

  predicate Named(h: Header, name: string) {
    LowerText(h.name) == name
  }

  /** What the value of a header means is left to the language's own conversions and to the
      configuration: `int(value)`, `str(number)`, whether a disposition is "attachment",
      whether a content type is one of those configured. */
  datatype Policy = Policy(
    parseInt: string -> Option<int>,
    showInt: int -> string,
    isAttachment: string -> bool,
    allowsType: string -> bool)

  /** The last header of that name decides. */
  function LastValue(hs: Headers, name: string): Option<string> {
    if |hs| == 0 then None
    else if Named(hs[|hs| - 1], name) then Some(hs[|hs| - 1].value)
    else LastValue(hs[..|hs| - 1], name)
  }

  /** No content encoding, no attachment, and a content type that is allowed. */
  predicate Eligible(hs: Headers, p: Policy) {
    var disposition, contentType := LastValue(hs, "content-disposition"), LastValue(hs, "content-type");
    && LastValue(hs, "content-encoding").None?
    && !(disposition.Some? && p.isAttachment(disposition.value))
    && contentType.Some? && p.allowsType(contentType.value)
  }

  // ----- content length ----------------------------------------------------------------

  predicate DeclaresLength(h: Header, p: Policy) {
    Named(h, "content-length") && p.parseInt(h.value).Some?
  }

  /** A content length that is no number. */
  predicate HasBadLength(hs: Headers, p: Policy) {
    exists i | 0 <= i < |hs| :: Named(hs[i], "content-length") && p.parseInt(hs[i].value).None?
  }

  function DeclaredLength(hs: Headers, p: Policy): Option<int> {
    if |hs| == 0 then None
    else if DeclaresLength(hs[|hs| - 1], p) then p.parseInt(hs[|hs| - 1].value)
    else DeclaredLength(hs[..|hs| - 1], p)
  }

  function WithoutLength(hs: Headers, p: Policy): Headers {
    if |hs| == 0 then []
    else WithoutLength(hs[..|hs| - 1], p) + if DeclaresLength(hs[|hs| - 1], p) then [] else [hs[|hs| - 1]]
  }

  // ----- what these mean ---------------------------------------------------------------

  /** Header i is the last of that name. */
  predicate LastNamed(hs: Headers, name: string, i: nat) {
    && i < |hs| && Named(hs[i], name)
    && forall j | i < j < |hs| :: !Named(hs[j], name)
  }

  predicate AnyNamed(hs: Headers, name: string) {
    exists i | 0 <= i < |hs| :: Named(hs[i], name)
  }

  lemma {:induction false} LastValueIs(hs: Headers, name: string)
    ensures LastValue(hs, name).Some? <==> AnyNamed(hs, name)
    ensures forall i: nat | LastNamed(hs, name, i) :: LastValue(hs, name) == Some(hs[i].value)
    decreases |hs|
  {
    if |hs| > 0 {
      var n := |hs| - 1;
      var rest := hs[..n];
      LastValueIs(rest, name);
      if !Named(hs[n], name) {
        assert AnyNamed(rest, name) <==> AnyNamed(hs, name) by {
          assert forall i | 0 <= i < n :: rest[i] == hs[i];
        }
        forall i: nat | LastNamed(hs, name, i)
          ensures LastValue(hs, name) == Some(hs[i].value)
        {
          assert LastNamed(rest, name, i);
        }
      }
    }
  }

  /** A response is changed only if it has no content encoding, its last content disposition is
      no attachment, and its last content type is one that is allowed. */
  lemma EligibleIff(hs: Headers, p: Policy)
    ensures Eligible(hs, p)
            <==> && !AnyNamed(hs, "content-encoding")
                 && (forall i: nat | LastNamed(hs, "content-disposition", i) :: !p.isAttachment(hs[i].value))
                 && (exists i: nat :: LastNamed(hs, "content-type", i) && p.allowsType(hs[i].value))
  {
    LastValueIs(hs, "content-encoding");
    LastValueIs(hs, "content-disposition");
    LastValueIs(hs, "content-type");
    if LastValue(hs, "content-disposition").Some? {
      var i := FindLast(hs, "content-disposition");
    }
    if LastValue(hs, "content-type").Some? {
      var i := FindLast(hs, "content-type");
    }
  }

  lemma {:induction false} FindLast(hs: Headers, name: string) returns (i: nat)
    requires AnyNamed(hs, name)
    ensures LastNamed(hs, name, i)
    decreases |hs|
  {
    var n := |hs| - 1;
    if Named(hs[n], name) {
      i := n;
    } else {
      var k :| 0 <= k < |hs| && Named(hs[k], name);
      assert Named(hs[..n][k], name);
      i := FindLast(hs[..n], name);
    }
  }

  lemma LengthAppend(hs: Headers, h: Header, p: Policy)
    ensures WithoutLength(hs + [h], p) == WithoutLength(hs, p) + if DeclaresLength(h, p) then [] else [h]
    ensures DeclaredLength(hs + [h], p) == if DeclaresLength(h, p) then p.parseInt(h.value) else DeclaredLength(hs, p)
  {
    assert (hs + [h])[..|hs|] == hs;
  }

  /** What the next header, number i, adds. */
  lemma NextHeader(hs: Headers, i: nat, p: Policy)
    requires i < |hs|
    ensures WithoutLength(hs[..i + 1], p) == WithoutLength(hs[..i], p) + if DeclaresLength(hs[i], p) then [] else [hs[i]]
    ensures DeclaredLength(hs[..i + 1], p)
            == if DeclaresLength(hs[i], p) then p.parseInt(hs[i].value) else DeclaredLength(hs[..i], p)
    ensures HasBadLength(hs[..i + 1], p)
            <==> HasBadLength(hs[..i], p) || (Named(hs[i], "content-length") && p.parseInt(hs[i].value).None?)
  {
    CutAt(hs, i);
    LengthAppend(hs[..i], hs[i], p);
  }

  lemma NextValue(hs: Headers, i: nat, name: string)
    requires i < |hs|
    ensures LastValue(hs[..i + 1], name) == if Named(hs[i], name) then Some(hs[i].value) else LastValue(hs[..i], name)
  {
    CutAt(hs, i);
  }

  lemma CutAt(hs: Headers, i: nat)
    requires i < |hs|
    ensures hs[..i + 1] == hs[..i] + [hs[i]] && hs[..i + 1][..i] == hs[..i]
  {
  }

  /** Only content lengths declare one, and they do unless one of them is bad. */
  lemma OnlyContentLengths(hs: Headers, p: Policy)
    ensures !AnyNamed(hs, "content-length") ==>
              DeclaredLength(hs, p) == None && WithoutLength(hs, p) == hs && !HasBadLength(hs, p)
    ensures !HasBadLength(hs, p) <==>
            forall i | 0 <= i < |hs| && Named(hs[i], "content-length") :: p.parseInt(hs[i].value).Some?
  {
    if !AnyNamed(hs, "content-length") {
      NoLengthDeclared(hs, p);
    }
  }

  /** Header i is the last that declares a length. */
  predicate LastDeclares(hs: Headers, p: Policy, i: nat) {
    && i < |hs| && DeclaresLength(hs[i], p)
    && forall j | i < j < |hs| :: !DeclaresLength(hs[j], p)
  }

  lemma {:induction false} NoLengthDeclared(hs: Headers, p: Policy)
    requires forall i | 0 <= i < |hs| :: !DeclaresLength(hs[i], p)
    ensures DeclaredLength(hs, p) == None && WithoutLength(hs, p) == hs
    decreases |hs|
  {
    if |hs| > 0 {
      NoLengthDeclared(hs[..|hs| - 1], p);
    }
  }

  /** The declared length is that of the last header which declares one. */
  lemma {:induction false} DeclaredLengthIs(hs: Headers, p: Policy, i: nat)
    requires LastDeclares(hs, p, i)
    ensures DeclaredLength(hs, p) == p.parseInt(hs[i].value)
    decreases |hs|
  {
    if i < |hs| - 1 {
      assert LastDeclares(hs[..|hs| - 1], p, i);
      DeclaredLengthIs(hs[..|hs| - 1], p, i);
    }
  }

  lemma {:induction false} LengthsAreOut(hs: Headers, p: Policy)
    ensures forall i | 0 <= i < |WithoutLength(hs, p)| :: !DeclaresLength(WithoutLength(hs, p)[i], p)
    decreases |hs|
  {
    if |hs| > 0 {
      LengthsAreOut(hs[..|hs| - 1], p);
    }
  }

  /** What is left declares no length, and nothing else can be taken out. */
  lemma WithoutLengthTwice(hs: Headers, p: Policy)
    ensures WithoutLength(WithoutLength(hs, p), p) == WithoutLength(hs, p)
    ensures DeclaredLength(WithoutLength(hs, p), p) == None
  {
    LengthsAreOut(hs, p);
    NoLengthDeclared(WithoutLength(hs, p), p);
  }

  /** Every other header is left, as often as it came, ... */
  lemma {:induction false} OthersAreLeft(hs: Headers, p: Policy, h: Header)
    requires !DeclaresLength(h, p)
    ensures multiset(WithoutLength(hs, p))[h] == multiset(hs)[h]
    decreases |hs|
  {
    if |hs| > 0 {
      OthersAreLeft(hs[..|hs| - 1], p, h);
      assert hs == hs[..|hs| - 1] + [hs[|hs| - 1]];
    }
  }

  /** ... and in the order in which it came. */
  lemma {:induction false} WithoutLengthConcat(a: Headers, b: Headers, p: Policy)
    ensures WithoutLength(a + b, p) == WithoutLength(a, p) + WithoutLength(b, p)
    decreases |b|
  {
    if |b| == 0 {
      assert a + b == a;
    } else {
      WithoutLengthConcat(a, b[..|b| - 1], p);
      assert (a + b)[..|a + b| - 1] == a + b[..|b| - 1];
    }
  }

  /** Numbers that are shown are read back. */
  ghost predicate RoundTrips(p: Policy) {
    forall n: int :: p.parseInt(p.showInt(n)) == Some(n)
  }

  lemma ShownLength(name: string, n: int, p: Policy)
    requires LowerText(name) == "content-length" && RoundTrips(p)
    ensures DeclaresLength(Header(name, p.showInt(n)), p) && p.parseInt(p.showInt(n)) == Some(n)
  {
  }
}
