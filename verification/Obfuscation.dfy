/** The XOR obfuscation of newrelic/common/encoding_utils.py: UTF-8 (section 3 of RFC 3629),
    a cyclic XOR with an ASCII key, and base64 (section 4 of RFC 4648). */
module Obfuscation {
  import opened Prelude

  // ----- UTF-8 -------------------------------------------------------------------------

  function EncodeChar(c: char): (r: seq<Byte>)
    ensures 1 <= |r| <= 4
  {
    var x := c as int;
    if x < 0x80 then [x]
    else if x < 0x800 then [0xC0 + x / 64, 0x80 + x % 64]
    else if x < 0x1_0000 then [0xE0 + x / 64 / 64, 0x80 + x / 64 % 64, 0x80 + x % 64]
    else [0xF0 + x / 64 / 64 / 64, 0x80 + x / 64 / 64 % 64, 0x80 + x / 64 % 64, 0x80 + x % 64]
  }

  function EncodeText(s: string): seq<Byte> {
    if |s| == 0 then [] else EncodeChar(s[0]) + EncodeText(s[1..])
  }

  predicate Tail(b: Byte) {
    0x80 <= b < 0xC0
  }

  predicate IsScalar(x: int) {
    0 <= x < 0xD800 || 0xE000 <= x < 0x11_0000
  }

  /** The bits of a head and of its tail bytes. */
  function Two(h: int, b: int): int {
    (h - 0xC0) * 64 + (b - 0x80)
  }

  function Three(h: int, b: int, c: int): int {
    (h - 0xE0) * 4096 + (b - 0x80) * 64 + (c - 0x80)
  }

  function Four(h: int, b: int, c: int, d: int): int {
    (h - 0xF0) * 262144 + (b - 0x80) * 4096 + (c - 0x80) * 64 + (d - 0x80)
  }

  /** The length that a head announces. */
  function Length(h: Byte): Option<nat> {
    if h < 0x80 then Some(1)
    else if h < 0xC0 then None
    else if h < 0xE0 then Some(2)
    else if h < 0xF0 then Some(3)
    else if h < 0xF8 then Some(4)
    else None
  }

  /** The value of a sequence of the announced length; shortest forms of scalar values only. */
  function SequenceValue(bs: seq<Byte>): (r: Option<int>)
    requires 1 <= |bs| <= 4
    ensures r.Some? ==> IsScalar(r.value)
  {
    if exists k | 1 <= k < |bs| :: !Tail(bs[k]) then None
    else
      var x := if |bs| == 1 then bs[0]
               else if |bs| == 2 then Two(bs[0], bs[1])
               else if |bs| == 3 then Three(bs[0], bs[1], bs[2])
               else Four(bs[0], bs[1], bs[2], bs[3]);
      var least := if |bs| == 1 then 0 else if |bs| == 2 then 0x80 else if |bs| == 3 then 0x800 else 0x1_0000;
      if x < least || !IsScalar(x) then None else Some(x)
  }

  /** The character at the start and its length. */
  function DecodeChar(bs: seq<Byte>): (r: Option<(char, nat)>)
    requires |bs| > 0
    ensures r.Some? ==> 0 < r.value.1 <= |bs|
  {
    var n := Length(bs[0]);
    if n.None? || n.value > |bs| then None
    else
      var x := SequenceValue(bs[..n.value]);
      if x.None? then None else Some((x.value as char, n.value))
  }

  /** bytes.decode("utf-8"); None is a UnicodeDecodeError. */
  function DecodeText(bs: seq<Byte>): Option<string> {
    if |bs| == 0 then Some("")
    else
      var first := DecodeChar(bs);
      if first.None? then None
      else
        var rest := DecodeText(bs[first.value.1..]);
        if rest.None? then None else Some([first.value.0] + rest.value)
  }

  lemma BitsOfTwo(x: int)
    ensures Two(0xC0 + x / 64, 0x80 + x % 64) == x
  {
  }

  lemma BitsOfThree(x: int)
    ensures Three(0xE0 + x / 64 / 64, 0x80 + x / 64 % 64, 0x80 + x % 64) == x
  {
    BitsOfTwo(x);
    BitsOfTwo(x / 64);
  }

  lemma BitsOfFour(x: int)
    ensures Four(0xF0 + x / 64 / 64 / 64, 0x80 + x / 64 / 64 % 64, 0x80 + x / 64 % 64, 0x80 + x % 64) == x
  {
    BitsOfTwo(x);
    BitsOfThree(x / 64);
  }

  lemma EncodedHasItsValue(c: char)
    ensures SequenceValue(EncodeChar(c)) == Some(c as int)
  {
    BitsOfTwo(c as int);
    BitsOfThree(c as int);
    BitsOfFour(c as int);
  }

  lemma EncodedHasItsLength(c: char)
    ensures Length(EncodeChar(c)[0]) == Some(|EncodeChar(c)|)
  {
  }

  lemma CharDecodes(c: char, rest: seq<Byte>)
    ensures DecodeChar(EncodeChar(c) + rest) == Some((c, |EncodeChar(c)|))
  {
    EncodedHasItsValue(c);
    EncodedHasItsLength(c);
    assert (EncodeChar(c) + rest)[..|EncodeChar(c)|] == EncodeChar(c);
  }

  lemma TwoHasItsBits(h: int, b: int)
    requires 0x80 <= b < 0xC0
    ensures Two(h, b) / 64 == h - 0xC0 && Two(h, b) % 64 == b - 0x80
  {
  }

  lemma ThreeHasItsBits(h: int, b: int, c: int)
    requires 0x80 <= b < 0xC0 && 0x80 <= c < 0xC0
    ensures var x := Three(h, b, c); x / 64 / 64 == h - 0xE0 && x / 64 % 64 == b - 0x80 && x % 64 == c - 0x80
  {
    TwoHasItsBits(h - 0x20, b);
    TwoHasItsBits(Two(h - 0x20, b) + 0xC0, c);
  }

  lemma FourHasItsBits(h: int, b: int, c: int, d: int)
    requires 0x80 <= b < 0xC0 && 0x80 <= c < 0xC0 && 0x80 <= d < 0xC0
    ensures var x := Four(h, b, c, d);
      && x / 64 / 64 / 64 == h - 0xF0 && x / 64 / 64 % 64 == b - 0x80 && x / 64 % 64 == c - 0x80 && x % 64 == d - 0x80
  {
    ThreeHasItsBits(h - 0x10, b, c);
    TwoHasItsBits(Three(h - 0x10, b, c) + 0xC0, d);
  }

  lemma ValueIsEncoded(bs: seq<Byte>)
    requires 1 <= |bs| <= 4 && Length(bs[0]) == Some(|bs|) && SequenceValue(bs).Some?
    ensures EncodeChar(SequenceValue(bs).value as char) == bs
  {
    if |bs| == 2 {
      TwoHasItsBits(bs[0], bs[1]);
    } else if |bs| == 3 {
      ThreeHasItsBits(bs[0], bs[1], bs[2]);
    } else if |bs| == 4 {
      FourHasItsBits(bs[0], bs[1], bs[2], bs[3]);
    }
  }

  lemma DecodedCharEncodes(bs: seq<Byte>)
    requires |bs| > 0 && DecodeChar(bs).Some?
    ensures var (c, n) := DecodeChar(bs).value; EncodeChar(c) == bs[..n]
  {
    ValueIsEncoded(bs[..Length(bs[0]).value]);
  }

  lemma HeadAndRest(s: string)
    requires |s| > 0
    ensures [s[0]] + s[1..] == s
  {
  }

  lemma {:induction false} TextDecodes(s: string)
    ensures DecodeText(EncodeText(s)) == Some(s)
    decreases |s|
  {
    if |s| > 0 {
      var first, rest := EncodeChar(s[0]), EncodeText(s[1..]);
      CharDecodes(s[0], rest);
      assert (first + rest)[|first|..] == rest;
      TextDecodes(s[1..]);
      HeadAndRest(s);
    }
  }

  lemma EncodedCons(c: char, t: string)
    ensures EncodeText([c] + t) == EncodeChar(c) + EncodeText(t)
  {
    assert ([c] + t)[1..] == t;
  }

  lemma {:induction false} DecodedTextEncodes(bs: seq<Byte>)
    requires DecodeText(bs).Some?
    ensures EncodeText(DecodeText(bs).value) == bs
    decreases |bs|
  {
    if |bs| > 0 {
      var (c, n) := DecodeChar(bs).value;
      var rest := DecodeText(bs[n..]);
      assert rest.Some? && DecodeText(bs).value == [c] + rest.value;
      DecodedTextEncodes(bs[n..]);
      DecodedCharEncodes(bs);
      EncodedCons(c, rest.value);
      CutAndJoined(bs, n);
    }
  }

  lemma CutAndJoined(bs: seq<Byte>, n: nat)
    requires n <= |bs|
    ensures bs[..n] + bs[n..] == bs
  {
  }

  /** The decoder accepts exactly what the encoder makes, and gives it back. */
  lemma Utf8IsExact(bs: seq<Byte>, s: string)
    ensures DecodeText(bs) == Some(s) <==> bs == EncodeText(s)
  {
    TextDecodes(s);
    if DecodeText(bs).Some? {
      DecodedTextEncodes(bs);
    }
  }

  // ----- XOR ---------------------------------------------------------------------------

  function Pow2(n: nat): nat {
    if n == 0 then 1 else 2 * Pow2(n - 1)
  }

  /** The exclusive or of the lowest n bits. */
  function XorBits(a: nat, b: nat, n: nat): (r: nat)
    ensures r < Pow2(n)
  {
    if n == 0 then 0 else (a % 2 + b % 2) % 2 + 2 * XorBits(a / 2, b / 2, n - 1)
  }

  lemma Halves(p: nat, q: nat)
    requires p < 2
    ensures (p + 2 * q) % 2 == p && (p + 2 * q) / 2 == q
  {
  }

  /** The lowest bit and the others. */
  lemma XorStep(a: nat, b: nat, n: nat)
    requires n > 0
    ensures XorBits(a, b, n) % 2 == (a % 2 + b % 2) % 2
    ensures XorBits(a, b, n) / 2 == XorBits(a / 2, b / 2, n - 1)
  {
    Halves((a % 2 + b % 2) % 2, XorBits(a / 2, b / 2, n - 1));
  }

  lemma TwiceIsNothing(a: nat, b: nat)
    ensures ((a % 2 + b % 2) % 2 + b % 2) % 2 == a % 2
  {
  }

  lemma {:induction false} XorUndoes(a: nat, b: nat, n: nat)
    requires a < Pow2(n)
    ensures XorBits(XorBits(a, b, n), b, n) == a
  {
    if n > 0 {
      var x := XorBits(a, b, n);
      XorUndoes(a / 2, b / 2, n - 1);
      XorStep(a, b, n);
      assert XorBits(x, b, n) == (x % 2 + b % 2) % 2 + 2 * XorBits(x / 2, b / 2, n - 1);
      TwiceIsNothing(a, b);
    }
  }

  predicate Bit(a: nat, k: nat) {
    if k == 0 then a % 2 == 1 else Bit(a / 2, k - 1)
  }

  /** A bit of the result is set if just one of the two is. */
  lemma {:induction false} XorIsBitwise(a: nat, b: nat, n: nat, k: nat)
    requires k < n
    ensures Bit(XorBits(a, b, n), k) <==> (Bit(a, k) != Bit(b, k))
    decreases k
  {
    Halves((a % 2 + b % 2) % 2, XorBits(a / 2, b / 2, n - 1));
    if k > 0 {
      XorIsBitwise(a / 2, b / 2, n - 1, k - 1);
    }
  }

  function Xor(a: Byte, b: Byte): Byte {
    assert Pow2(4) == 16 && Pow2(8) == 16 * Pow2(4);
    XorBits(a, b, 8)
  }

  lemma XorTwice(a: Byte, b: Byte)
    ensures Xor(Xor(a, b), b) == a
  {
    assert Pow2(4) == 16 && Pow2(8) == 16 * Pow2(4);
    XorUndoes(a, b, 8);
  }

  /** xor_cipher_genkey; None is a UnicodeEncodeError. */
  function GenKey(key: string): Option<seq<Byte>> {
    if forall k | 0 <= k < |key| :: key[k] as int < 128
    then Some(seq(|key|, k requires 0 <= k < |key| => key[k] as int))
    else None
  }

  /** bytes.decode("latin-1") */
  function Latin1(bs: seq<Byte>): (s: string)
    ensures |s| == |bs| && forall k | 0 <= k < |bs| :: s[k] as int == bs[k]
  {
    seq(|bs|, k requires 0 <= k < |bs| => bs[k] as char)
  }

  /** What xor_cipher_encrypt asks of its text. */
  predicate IsLatin1(text: string) {
    forall k | 0 <= k < |text| :: text[k] as int < 256
  }

  function Encrypt(text: string, key: seq<Byte>): seq<Byte>
    requires IsLatin1(text) && (|text| > 0 ==> |key| > 0)
  {
    seq(|text|, i requires 0 <= i < |text| => Xor(text[i] as int, key[i % |key|]))
  }

  function Decrypt(bytes: seq<Byte>, key: seq<Byte>): seq<Byte>
    requires |bytes| > 0 ==> |key| > 0
  {
    seq(|bytes|, i requires 0 <= i < |bytes| => Xor(bytes[i], key[i % |key|]))
  }

  /** Byte i of the encrypted text is byte i of the text and byte i of the repeated key, bit by
      bit. */
  lemma EncryptedBits(text: string, key: seq<Byte>, i: nat, k: nat)
    requires IsLatin1(text) && |key| > 0 && i < |text| && k < 8
    ensures |Encrypt(text, key)| == |text|
    ensures Bit(Encrypt(text, key)[i], k) <==> (Bit(text[i] as int, k) != Bit(key[i % |key|], k))
  {
    XorIsBitwise(text[i] as int, key[i % |key|], 8, k);
  }

  lemma DecryptUndoesEncrypt(bytes: seq<Byte>, key: seq<Byte>)
    requires |bytes| > 0 ==> |key| > 0
    ensures Decrypt(Encrypt(Latin1(bytes), key), key) == bytes
  {
    forall i | 0 <= i < |bytes|
      ensures Decrypt(Encrypt(Latin1(bytes), key), key)[i] == bytes[i]
    {
      XorTwice(bytes[i], key[i % |key|]);
    }
  }

  // ----- base64 ------------------------------------------------------------------------

  /** The alphabet of table 1 of RFC 4648. */
  function Symbol(v: nat): char
    requires v < 64
  {
    if v < 26 then 'A' + v as char
    else if v < 52 then 'a' + (v - 26) as char
    else if v < 62 then '0' + (v - 52) as char
    else if v == 62 then '+' else '/'
  }

  function SymbolValue(c: char): (r: Option<nat>)
    ensures r.Some? ==> r.value < 64 && Symbol(r.value) == c
  {
    if 'A' <= c <= 'Z' then Some((c - 'A') as int)
    else if 'a' <= c <= 'z' then Some((c - 'a') as int + 26)
    else if '0' <= c <= '9' then Some((c - '0') as int + 52)
    else if c == '+' then Some(62)
    else if c == '/' then Some(63)
    else None
  }

  const PAD := '='

  lemma SymbolHasItsValue(v: nat)
    requires v < 64
    ensures SymbolValue(Symbol(v)) == Some(v) && Symbol(v) != PAD
  {
  }

  /** The alphabet: A to Z, a to z, 0 to 9, + and /. */
  lemma AlphabetOfSymbols(v: nat)
    requires v < 64
    ensures Symbol(0) == 'A' && Symbol(26) == 'a' && Symbol(52) == '0' && Symbol(62) == '+' && Symbol(63) == '/'
    ensures v < 25 || 26 <= v < 51 || 52 <= v < 61 ==> Symbol(v + 1) as int == Symbol(v) as int + 1
  {
  }

  function EncodeGroup(a: Byte, b: Byte, c: Byte): string {
    [Symbol(a / 4), Symbol(a % 4 * 16 + b / 16), Symbol(b % 16 * 4 + c / 64), Symbol(c % 64)]
  }

  /** base64.b64encode */
  function B64Encode(bs: seq<Byte>): string {
    if |bs| == 0 then ""
    else if |bs| == 1 then EncodeGroup(bs[0], 0, 0)[..2] + [PAD, PAD]
    else if |bs| == 2 then EncodeGroup(bs[0], bs[1], 0)[..3] + [PAD]
    else EncodeGroup(bs[0], bs[1], bs[2]) + B64Encode(bs[3..])
  }

  function DecodeGroup(v: nat, w: nat, x: nat, y: nat): seq<Byte>
    requires v < 64 && w < 64 && x < 64 && y < 64
  {
    [v * 4 + w / 16, w % 16 * 16 + x / 4, x % 4 * 64 + y]
  }

  /** base64.b64decode on groups of four symbols, the last one perhaps padded; None is
      anything else. */
  function B64Decode(s: string): Option<seq<Byte>> {
    if |s| == 0 then Some([])
    else if |s| < 4 then None
    else
      var v, w, x, y := SymbolValue(s[0]), SymbolValue(s[1]), SymbolValue(s[2]), SymbolValue(s[3]);
      if v.None? || w.None? then None
      else if |s| == 4 && s[2] == PAD && s[3] == PAD then Some(DecodeGroup(v.value, w.value, 0, 0)[..1])
      else if x.None? then None
      else if |s| == 4 && s[3] == PAD then Some(DecodeGroup(v.value, w.value, x.value, 0)[..2])
      else if y.None? then None
      else
        var rest := B64Decode(s[4..]);
        if rest.None? then None else Some(DecodeGroup(v.value, w.value, x.value, y.value) + rest.value)
  }

  /** Four symbols spell the number that the three bytes are, the first of each the highest. */
  lemma GroupSpells(a: Byte, b: Byte, c: Byte, v: nat, w: nat, x: nat, y: nat)
    requires v < 64 && w < 64 && x < 64 && y < 64
    requires EncodeGroup(a, b, c) == [Symbol(v), Symbol(w), Symbol(x), Symbol(y)]
    ensures ((v * 64 + w) * 64 + x) * 64 + y == (a * 256 + b) * 256 + c
  {
    SymbolsDiffer(v, a / 4);
    SymbolsDiffer(w, a % 4 * 16 + b / 16);
    SymbolsDiffer(x, b % 16 * 4 + c / 64);
    SymbolsDiffer(y, c % 64);
  }

  lemma SymbolsDiffer(v: nat, w: nat)
    requires v < 64 && w < 64 && Symbol(v) == Symbol(w)
    ensures v == w
  {
    SymbolHasItsValue(v);
    SymbolHasItsValue(w);
  }

  lemma GroupDecodes(a: Byte, b: Byte, c: Byte)
    ensures DecodeGroup(a / 4, a % 4 * 16 + b / 16, b % 16 * 4 + c / 64, c % 64) == [a, b, c]
  {
  }

  lemma GroupSymbols(a: Byte, b: Byte, c: Byte)
    ensures var g := EncodeGroup(a, b, c);
      && SymbolValue(g[0]) == Some(a / 4)
      && SymbolValue(g[1]) == Some(a % 4 * 16 + b / 16)
      && SymbolValue(g[2]) == Some(b % 16 * 4 + c / 64) && g[2] != PAD
      && SymbolValue(g[3]) == Some(c % 64) && g[3] != PAD
  {
    SymbolHasItsValue(a / 4);
    SymbolHasItsValue(a % 4 * 16 + b / 16);
    SymbolHasItsValue(b % 16 * 4 + c / 64);
    SymbolHasItsValue(c % 64);
  }

  lemma OneByteDecodes(a: Byte)
    ensures B64Decode(B64Encode([a])) == Some([a])
  {
    GroupSymbols(a, 0, 0);
    GroupDecodes(a, 0, 0);
    assert [a, 0, 0][..1] == [a];
  }

  lemma TwoBytesDecode(a: Byte, b: Byte)
    ensures B64Decode(B64Encode([a, b])) == Some([a, b])
  {
    GroupSymbols(a, b, 0);
    GroupDecodes(a, b, 0);
    assert [a, b, 0][..2] == [a, b];
  }

  lemma FullGroupDecodes(a: Byte, b: Byte, c: Byte, rest: string)
    ensures B64Decode(EncodeGroup(a, b, c) + rest)
            == if B64Decode(rest).None? then None else Some([a, b, c] + B64Decode(rest).value)
  {
    GroupSymbols(a, b, c);
    GroupDecodes(a, b, c);
    var s := EncodeGroup(a, b, c) + rest;
    assert s[4..] == rest;
  }

  lemma GroupAndRestDecode(a: Byte, b: Byte, c: Byte, rest: seq<Byte>)
    requires B64Decode(B64Encode(rest)) == Some(rest)
    ensures B64Decode(B64Encode([a, b, c] + rest)) == Some([a, b, c] + rest)
  {
    assert ([a, b, c] + rest)[3..] == rest;
    FullGroupDecodes(a, b, c, B64Encode(rest));
  }

  lemma GroupAndRest(bs: seq<Byte>)
    requires |bs| > 2
    ensures [bs[0], bs[1], bs[2]] + bs[3..] == bs
  {
  }

  /** Three test vectors of section 10 of RFC 4648: a full group, two bytes and one byte. */
  lemma KnownTexts()
    ensures B64Encode([102, 111, 111]) == "Zm9v"
    ensures B64Encode([102, 111]) == "Zm8="
    ensures B64Encode([102]) == "Zg=="
  {
    FullGroupAlone([102, 111, 111]);
    KnownGroup();
    assert EncodeGroup(102, 111, 0) == "Zm8A";
    assert EncodeGroup(102, 0, 0) == "ZgAA";
  }

  lemma KnownGroup()
    ensures EncodeGroup(102, 111, 111) == "Zm9v"
  {
  }

  lemma FullGroupAlone(bs: seq<Byte>)
    requires |bs| == 3
    ensures B64Encode(bs) == EncodeGroup(bs[0], bs[1], bs[2])
  {
    assert bs[3..] == [];
  }

  /** base64 decoding undoes the encoding. */
  lemma {:induction false} B64Decodes(bs: seq<Byte>)
    ensures B64Decode(B64Encode(bs)) == Some(bs)
    decreases |bs|
  {
    if |bs| == 1 {
      OneByteDecodes(bs[0]);
      assert bs == [bs[0]];
    } else if |bs| == 2 {
      TwoBytesDecode(bs[0], bs[1]);
      assert bs == [bs[0], bs[1]];
    } else if |bs| > 2 {
      B64Decodes(bs[3..]);
      GroupAndRestDecode(bs[0], bs[1], bs[2], bs[3..]);
      GroupAndRest(bs);
    }
  }

  // ----- obfuscation -------------------------------------------------------------------

  /** xor_cipher_encrypt_base64; None is an exception: a key that is not ASCII, or an empty one
      with something to encrypt. */
  function Obfuscate(text: string, key: string): Option<string> {
    var k := GenKey(key);
    var latin := Latin1(EncodeText(text));
    if k.None? || (|latin| > 0 && |k.value| == 0) then None
    else Some(B64Encode(Encrypt(latin, k.value)))
  }

  /** xor_cipher_decrypt_base64 */
  function Deobfuscate(text: string, key: string): Option<string> {
    var k, bytes := GenKey(key), B64Decode(text);
    if k.None? || bytes.None? || (|bytes.value| > 0 && |k.value| == 0) then None
    else DecodeText(Decrypt(bytes.value, k.value))
  }

  predicate Ascii(key: string) {
    forall k | 0 <= k < |key| :: key[k] as int < 128
  }

  lemma EncodedIsEmpty(s: string)
    ensures |EncodeText(s)| == 0 <==> |s| == 0
  {
  }

  /** Main result: for every text of Unicode scalar values, obfuscation works exactly with ASCII
      keys that are not empty, or any ASCII key if there is nothing to obfuscate; and what it
      gives, deobfuscation with the same key turns back into the text. */
  lemma RoundTrip(text: string, key: string)
    ensures Obfuscate(text, key).Some? <==> Ascii(key) && (|text| > 0 ==> |key| > 0)
    ensures Obfuscate(text, key).Some? ==> Deobfuscate(Obfuscate(text, key).value, key) == Some(text)
  {
    EncodedIsEmpty(text);
    if Obfuscate(text, key).Some? {
      var k, bytes := GenKey(key).value, EncodeText(text);
      B64Decodes(Encrypt(Latin1(bytes), k));
      DecryptUndoesEncrypt(bytes, k);
      TextDecodes(text);
    }
  }

  /** Hiding is not losing: two texts with one obfuscated form are one text. */
  lemma ObfuscatedTextsDiffer(s: string, t: string, key: string)
    requires Obfuscate(s, key).Some? && Obfuscate(s, key) == Obfuscate(t, key)
    ensures s == t
  {
    RoundTrip(s, key);
    RoundTrip(t, key);
  }
}
