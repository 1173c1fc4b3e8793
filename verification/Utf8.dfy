/** The text encoder in front of the digest, over UTF-16 code units. */
module Utf8 {
  import opened Bits
  import opened JsNumber
  import opened Sha1Spec

  type CodeUnit = c: nat | c < 0x1_0000

  const CR: CodeUnit := 13
  const LF: CodeUnit := 10

  /** Every CR LF pair, found from left to right, replaced by LF. */
  function CrLfToLf(s: seq<CodeUnit>): seq<CodeUnit> {
    if s == [] then []
    else if |s| >= 2 && s[0] == CR && s[1] == LF then [LF] + CrLfToLf(s[2..])
    else [s[0]] + CrLfToLf(s[1..])
  }

  ghost predicate CrLfFree(s: seq<CodeUnit>) {
    forall i :: 0 <= i < |s| - 1 ==> !(s[i] == CR && s[i + 1] == LF)
  }

  function EncodeUnit(c: CodeUnit): seq<Byte> {
    if c < 0x80 then [c]
    else if c < 0x800 then [0xC0 + c / 64, 0x80 + c % 64]
    else [0xE0 + c / 64 / 64, 0x80 + c / 64 % 64, 0x80 + c % 64]
  }

  function EncodeText(s: seq<CodeUnit>): seq<Byte> {
    if s == [] then [] else EncodeUnit(s[0]) + EncodeText(s[1..])
  }

  /** The bytes that the digest is taken of. */
  function Encoded(s: seq<CodeUnit>): seq<Byte> {
    EncodeText(CrLfToLf(s))
  }

  ghost predicate IsSurrogate(c: CodeUnit) {
    0xD800 <= c < 0xE000
  }

  ghost predicate Continuation(o: Byte) {
    0x80 <= o < 0xC0
  }

  /** The bits at the x positions of 110xxxxx 10xxxxxx and of 1110xxxx 10xxxxxx 10xxxxxx. */
  function Payload2(o0: int, o1: int): int {
    (o0 - 0xC0) * 64 + (o1 - 0x80)
  }

  function Payload3(o0: int, o1: int, o2: int): int {
    ((o0 - 0xE0) * 64 + (o1 - 0x80)) * 64 + (o2 - 0x80)
  }

  /**
   * Section 3 of RFC 3629: the row of the table is chosen by the range of the character
   * number, and its bits are distributed over the x positions of that row.
   */
  ghost predicate IsPattern(c: CodeUnit, o: seq<Byte>) {
    if c < 0x80 then o == [c]
    else if c < 0x800 then
      && |o| == 2 && 0xC0 <= o[0] < 0xE0 && Continuation(o[1])
      && c == Payload2(o[0], o[1])
    else
      && |o| == 3 && 0xE0 <= o[0] < 0xF0 && Continuation(o[1]) && Continuation(o[2])
      && c == Payload3(o[0], o[1], o[2])
  }

  /** The RFC has no octets for the surrogates. */
  ghost predicate IsRfc3629(c: CodeUnit, o: seq<Byte>) {
    !IsSurrogate(c) && IsPattern(c, o)
  }

  /** The encoder emits for every code unit, a surrogate or not, the one octet sequence of its row. */
  lemma EncodeUnitIsPattern(c: CodeUnit, o: seq<Byte>)
    ensures IsPattern(c, o) <==> o == EncodeUnit(c)
  {
    if IsPattern(c, o) && c >= 0x800 {
      SplitPayload3(c, o[0], o[1], o[2]);
    }
  }

  lemma SplitPayload3(c: int, o0: int, o1: int, o2: int)
    requires 0x80 <= o1 < 0xC0 && 0x80 <= o2 < 0xC0 && c == Payload3(o0, o1, o2)
    ensures o0 == 0xE0 + c / 64 / 64 && o1 == 0x80 + c / 64 % 64 && o2 == 0x80 + c % 64
  {
    assert c / 64 == (o0 - 0xE0) * 64 + (o1 - 0x80);
  }

  /** A text is RFC 3629 when it is the octets of its characters in order. */
  ghost predicate IsRfc3629Text(s: seq<CodeUnit>, o: seq<Byte>) {
    if s == [] then o == []
    else exists n: nat :: n <= |o| && IsRfc3629(s[0], o[..n]) && IsRfc3629Text(s[1..], o[n..])
  }

  lemma EncodeTextIsRfc3629(s: seq<CodeUnit>, o: seq<Byte>)
    requires forall i :: 0 <= i < |s| ==> !IsSurrogate(s[i])
    ensures IsRfc3629Text(s, o) <==> o == EncodeText(s)
  {
    EncodeTextMeetsRfc3629(s);
    if IsRfc3629Text(s, o) {
      Rfc3629TextUnique(s, o);
    }
  }

  lemma {:induction false} EncodeTextMeetsRfc3629(s: seq<CodeUnit>)
    requires forall i :: 0 <= i < |s| ==> !IsSurrogate(s[i])
    ensures IsRfc3629Text(s, EncodeText(s))
  {
    if s != [] {
      var o, n := EncodeText(s), |EncodeUnit(s[0])|;
      assert IsRfc3629(s[0], o[..n]) by {
        EncodeUnitIsPattern(s[0], o[..n]);
        assert o[..n] == EncodeUnit(s[0]);
      }
      EncodeTextMeetsRfc3629(s[1..]);
      assert o[n..] == EncodeText(s[1..]);
    }
  }

  lemma {:induction false} Rfc3629TextUnique(s: seq<CodeUnit>, o: seq<Byte>)
    requires forall i :: 0 <= i < |s| ==> !IsSurrogate(s[i])
    requires IsRfc3629Text(s, o)
    ensures o == EncodeText(s)
  {
    if s != [] {
      var n: nat :| n <= |o| && IsRfc3629(s[0], o[..n]) && IsRfc3629Text(s[1..], o[n..]);
      assert o[..n] == EncodeUnit(s[0]) by { EncodeUnitIsPattern(s[0], o[..n]); }
      assert o[n..] == EncodeText(s[1..]) by { Rfc3629TextUnique(s[1..], o[n..]); }
      assert o == o[..n] + o[n..];
    }
  }

  /** The inverse of the encoder; the first byte tells the length of a sequence. */
  function DecodeText(o: seq<Byte>): seq<int> {
    if o == [] then []
    else if o[0] < 0xC0 then [o[0]] + DecodeText(o[1..])
    else if o[0] < 0xE0 && |o| >= 2 then [Payload2(o[0], o[1])] + DecodeText(o[2..])
    else if |o| >= 3 then [Payload3(o[0], o[1], o[2])] + DecodeText(o[3..])
    else []
  }

  /** Decoding recovers every text, surrogates included. */
  lemma {:induction false} DecodeEncode(s: seq<CodeUnit>)
    ensures DecodeText(EncodeText(s)) == s
  {
    if s != [] {
      var head, tail := EncodeUnit(s[0]), EncodeText(s[1..]);
      DecodeEncode(s[1..]);
      assert (head + tail)[|head|..] == tail;
    }
  }

  lemma {:induction false} CrLfFreeUnchanged(s: seq<CodeUnit>)
    requires CrLfFree(s)
    ensures CrLfToLf(s) == s
  {
    if s != [] {
      CrLfFreeUnchanged(s[1..]);
    }
  }

  /** A CR LF pair anywhere in a text becomes one LF, and the texts around it are replaced on their own. */
  lemma {:induction false} PairBecomesLf(a: seq<CodeUnit>, b: seq<CodeUnit>)
    ensures CrLfToLf(a + [13, 10] + b) == CrLfToLf(a) + [10] + CrLfToLf(b)
  {
    var s := a + [13, 10] + b;
    if a == [] {
      assert s == [13, 10] + b && s[2..] == b;
    } else if |a| >= 2 && a[0] == CR && a[1] == LF {
      assert s[2..] == a[2..] + [13, 10] + b;
      PairBecomesLf(a[2..], b);
    } else {
      assert s[1..] == a[1..] + [13, 10] + b;
      assert |s| >= 2 && s[1] == if |a| == 1 then 13 else a[1];
      PairBecomesLf(a[1..], b);
    }
  }

  /** Two texts get the same bytes exactly when they agree after CR LF is read as LF. */
  lemma EncodedInjective(s: seq<CodeUnit>, t: seq<CodeUnit>)
    ensures Encoded(s) == Encoded(t) <==> CrLfToLf(s) == CrLfToLf(t)
    ensures CrLfFree(s) && CrLfFree(t) ==> (Encoded(s) == Encoded(t) <==> s == t)
  {
    DecodeEncode(CrLfToLf(s));
    DecodeEncode(CrLfToLf(t));
    if CrLfFree(s) && CrLfFree(t) {
      CrLfFreeUnchanged(s);
      CrLfFreeUnchanged(t);
    }
  }

  lemma Shift6(c: nat)
    ensures Shr(c, 6) == c / 64
  {
    assert Shr(c, 6) == Shr(c / 2, 5) == Shr(c / 2 / 2, 4) == Shr(c / 2 / 2 / 2, 3);
    assert Shr(c / 2 / 2 / 2, 3) == Shr(c / 2 / 2 / 2 / 2, 2) == Shr(c / 2 / 2 / 2 / 2 / 2, 1);
  }

  lemma Shift12(c: nat)
    ensures Shr(c, 12) == c / 64 / 64
  {
    ShiftTwice(c, 6, 6);
    Shift6(c);
    Shift6(c / 64);
  }

  lemma SixBits(c: nat)
    ensures And(c, 63) == c % 64
  {
    AndMask(c, 6);
    PowersOfTwo();
    Shift6(c);
    ShlIsMultiple(c / 64, 6);
  }

  /** `(p & 63) | 128`. */
  lemma ContinuationBits(p: nat)
    requires p < 0x1_0000
    ensures BitOr(BitAnd(p, 63), 128) == 0x80 + p % 64
  {
    SixBits(p);
    ReadWord(p);
    ReadWord(63);
    SmallWord(BitAnd(p, 63), p % 64);
    PowersOfTwo();
    assert Shl(2, 6) == 128;
    OrPattern(p % 64, 2, 6);
  }

  /** `(c >> 6) | 192`. */
  lemma LeadOfTwo(c: CodeUnit)
    requires c < 0x800
    ensures BitOr(ShiftRight(c, 6), 192) == 0xC0 + c / 64
  {
    ReadWord(c);
    Shift6(c);
    assert Pow2(5) == 32 && Shl(6, 5) == 192;
    OrPattern(c / 64, 6, 5);
  }

  /** `(c >> 12) | 224`. */
  lemma LeadOfThree(c: CodeUnit)
    ensures BitOr(ShiftRight(c, 12), 224) == 0xE0 + c / 64 / 64
  {
    ReadWord(c);
    Shift12(c);
    assert Pow2(4) == 16 && Shl(14, 4) == 224;
    OrPattern(c / 64 / 64, 14, 4);
  }

  /** `((c >> 6) & 63) | 128`. */
  lemma MiddleOfThree(c: CodeUnit)
    ensures BitOr(BitAnd(ShiftRight(c, 6), 63), 128) == 0x80 + c / 64 % 64
  {
    ReadWord(c);
    Shift6(c);
    ContinuationBits(c / 64);
  }

  lemma EncodeNext(text: seq<CodeUnit>, n: nat, before: seq<Byte>, after: seq<Byte>)
    requires n < |text| && EncodeText(text) == before + EncodeText(text[n..])
    requires after == before + EncodeUnit(text[n])
    ensures EncodeText(text) == after + EncodeText(text[n + 1..])
  {
    EncodeSplit(text[n..]);
    assert text[n..][1..] == text[n + 1..];
    Associative(before, EncodeUnit(text[n]), EncodeText(text[n + 1..]));
  }

  lemma EncodeSplit(s: seq<CodeUnit>)
    requires s != []
    ensures EncodeText(s) == EncodeUnit(s[0]) + EncodeText(s[1..])
  {
  }

  lemma Associative<T>(a: seq<T>, b: seq<T>, c: seq<T>)
    ensures a + (b + c) == (a + b) + c
  {
  }

  /** The body of the encoding loop: the bytes of one code unit appended one by one. */
  method AppendUnit(utftext: seq<Byte>, c: CodeUnit) returns (r: seq<Byte>)
    ensures r == utftext + EncodeUnit(c)
  {
    if c < 128 {
      r := utftext + [c];
    } else if c > 127 && c < 2048 {
      var b0: Byte, b1: Byte := 0xC0 + c / 64, 0x80 + c % 64;
      assert BitOr(ShiftRight(c, 6), 192) == b0 by { LeadOfTwo(c); }
      assert BitOr(BitAnd(c, 63), 128) == b1 by { ContinuationBits(c); }
      r := utftext + [BitOr(ShiftRight(c, 6), 192) as Byte];
      r := r + [BitOr(BitAnd(c, 63), 128) as Byte];
    } else {
      var b0: Byte, b1: Byte, b2: Byte := 0xE0 + c / 64 / 64, 0x80 + c / 64 % 64, 0x80 + c % 64;
      assert BitOr(ShiftRight(c, 12), 224) == b0 by { LeadOfThree(c); }
      assert BitOr(BitAnd(ShiftRight(c, 6), 63), 128) == b1 by { MiddleOfThree(c); }
      assert BitOr(BitAnd(c, 63), 128) == b2 by { ContinuationBits(c); }
      r := utftext + [BitOr(ShiftRight(c, 12), 224) as Byte];
      r := r + [BitOr(BitAnd(ShiftRight(c, 6), 63), 128) as Byte];
      r := r + [BitOr(BitAnd(c, 63), 128) as Byte];
    }
  }

  method Utf8Encode(source: seq<CodeUnit>) returns (utftext: seq<Byte>)
    ensures utftext == Encoded(source)
  {
    var text := CrLfToLf(source);
    utftext := [];
    var n, len := 0, |text|;
    while n < len
      invariant 0 <= n <= len
      invariant EncodeText(text) == utftext + EncodeText(text[n..])
    {
      ghost var before := utftext;
      utftext := AppendUnit(utftext, text[n]);
      EncodeNext(text, n, before, utftext);
      n := n + 1;
    }
  }
}
