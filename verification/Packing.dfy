/** Packing of the encoded bytes into padded 32-bit words, and its inverse. */
module Packing {
  import opened Bits
  import opened JsNumber
  import opened Sha1Spec

  // The word built by shifting bytes into place and joining them with `|`.

  lemma ShiftedByte(b: Byte)
    ensures ToUint32(ShiftLeft(b, 24)) == b * 0x100_0000 == Shl(b, 24)
    ensures ToUint32(ShiftLeft(b, 16)) == b * 0x1_0000 == Shl(b, 16)
    ensures ToUint32(ShiftLeft(b, 8)) == b * 0x100 == Shl(b, 8)
  {
    PowersOfTwo();
    ShlIsMultiple(b, 24);
    ShlIsMultiple(b, 16);
    ShlIsMultiple(b, 8);
    ReadWord(b);
    ReadWord(b * 0x100_0000);
    ReadWord(b * 0x1_0000);
    ReadWord(b * 0x100);
  }

  lemma JoinLow(h: nat, l: nat, n: nat, x: int, y: int)
    requires n == 8 || n == 16 || n == 24
    requires l < Pow2(n) && Shl(h, n) + l < 0x1_0000_0000
    requires ToUint32(x) == Shl(h, n) && ToUint32(y) == l
    ensures ToUint32(BitOr(x, y)) == Shl(h, n) + l
  {
    OrSum(h, l, n);
  }

  lemma JoinTwo(b0: Byte, b1: Byte)
    ensures ToUint32(BitOr(ShiftLeft(b0, 24), ShiftLeft(b1, 16))) == JoinBytes(b0, b1, 0, 0)
  {
    ShiftedByte(b0);
    ShiftedByte(b1);
    PowersOfTwo();
    JoinLow(b0, b1 * 0x1_0000, 24, ShiftLeft(b0, 24), ShiftLeft(b1, 16));
  }

  lemma JoinThree(b0: Byte, b1: Byte, b2: Byte)
    ensures ToUint32(BitOr(BitOr(ShiftLeft(b0, 24), ShiftLeft(b1, 16)), ShiftLeft(b2, 8))) == JoinBytes(b0, b1, b2, 0)
  {
    var h := b0 * 0x100 + b1;
    JoinTwo(b0, b1);
    ShiftedByte(b2);
    assert Shl(h, 16) == h * 0x1_0000 by { PowersOfTwo(); ShlIsMultiple(h, 16); }
    assert b2 * 0x100 < Pow2(16) by { PowersOfTwo(); }
    JoinLow(h, b2 * 0x100, 16, BitOr(ShiftLeft(b0, 24), ShiftLeft(b1, 16)), ShiftLeft(b2, 8));
  }

  /** `b0 << 24 | b1 << 16 | b2 << 8 | b3`. */
  lemma JoinFour(b0: Byte, b1: Byte, b2: Byte, b3: Byte)
    ensures ToUint32(BitOr(BitOr(BitOr(ShiftLeft(b0, 24), ShiftLeft(b1, 16)), ShiftLeft(b2, 8)), b3))
         == JoinBytes(b0, b1, b2, b3)
  {
    JoinThree(b0, b1, b2);
    PowersOfTwo();
    ReadWord(b3);
    var h := b0 * 0x1_0000 + b1 * 0x100 + b2;
    ShlIsMultiple(h, 8);
    JoinLow(h, b3, 8, BitOr(BitOr(ShiftLeft(b0, 24), ShiftLeft(b1, 16)), ShiftLeft(b2, 8)), b3);
  }

  /** `b0 << 24 | 0x0800000`. */
  lemma MarkAfterOne(b0: Byte)
    ensures ToUint32(BitOr(ShiftLeft(b0, 24), 0x80_0000)) == JoinBytes(b0, 0x80, 0, 0)
  {
    ShiftedByte(b0);
    PowersOfTwo();
    ReadWord(0x80_0000);
    JoinLow(b0, 0x80_0000, 24, ShiftLeft(b0, 24), 0x80_0000);
  }

  /** `b0 << 24 | b1 << 16 | 0x08000`. */
  lemma MarkAfterTwo(b0: Byte, b1: Byte)
    ensures ToUint32(BitOr(BitOr(ShiftLeft(b0, 24), ShiftLeft(b1, 16)), 0x8000)) == JoinBytes(b0, b1, 0x80, 0)
  {
    JoinTwo(b0, b1);
    PowersOfTwo();
    ReadWord(0x8000);
    ShlIsMultiple(b0 * 0x100 + b1, 16);
    JoinLow(b0 * 0x100 + b1, 0x8000, 16, BitOr(ShiftLeft(b0, 24), ShiftLeft(b1, 16)), 0x8000);
  }

  // The two length words.

  function HighLength(n: nat): Word {
    ShrW(ToUint32(n), 29)
  }

  function LowLength(n: nat): Word {
    ToUint32(BitAnd(ShiftLeft(n, 3), 0xFFFF_FFFF))
  }

  function SourceLength(n: nat): (w: seq<Word>)
    ensures |w| == 2
  {
    [HighLength(n), LowLength(n)]
  }

  function Join64(high: int, low: int): int {
    high * 0x1_0000_0000 + low
  }

  /** Together they hold eight times the length, the length being read modulo 2^32. */
  lemma LengthWords(n: nat)
    ensures Join64(HighLength(n), LowLength(n)) == 8 * ToUint32(n)
    ensures HighLength(n) < 8
  {
    HighWord(ToUint32(n));
    LowWord(n);
    EightTimes(ToUint32(n), HighLength(n));
  }

  lemma Pow2Of29()
    ensures Pow2(29) == 0x2000_0000
  {
    PowersOfTwo();
    assert Pow2(29) == 32 * Pow2(24);
  }

  lemma HighWord(m: Word)
    ensures ShrW(m, 29) * 0x2000_0000 <= m < (ShrW(m, 29) + 1) * 0x2000_0000
  {
    ShrIsQuotient(m, 29);
    Pow2Of29();
    ShlIsMultiple(Shr(m, 29), 29);
    ShlIsMultiple(Shr(m, 29) + 1, 29);
  }

  lemma LowWord(n: nat)
    ensures LowLength(n) == 8 * ToUint32(n) % 0x1_0000_0000
  {
    var m := ToUint32(n);
    MaskAllOnes(ShiftLeft(n, 3));
    TimesEight(m);
  }

  lemma TimesEight(m: nat)
    ensures Shl(m, 3) == 8 * m
  {
    assert Shl(m, 3) == 2 * Shl(m, 2) == 4 * Shl(m, 1);
  }

  lemma EightTimes(m: nat, q: nat)
    requires q * 0x2000_0000 <= m < (q + 1) * 0x2000_0000 && m < 0x1_0000_0000
    ensures q < 8 && Join64(q, 8 * m % 0x1_0000_0000) == 8 * m
  {
    assert 8 * m == 0x1_0000_0000 * q + (8 * m - 0x1_0000_0000 * q);
  }

  /** The words that the source hashes: marked and zero-filled bytes, then the length words. */
  function SourceWords(message: seq<Byte>): (w: seq<Word>)
    ensures |w| == 16 * BlockCount(|message|)
  {
    MarkedLength(message);
    Words(Marked(message)) + SourceLength(|message|)
  }

  lemma MarkedLength(message: seq<Byte>)
    ensures |Marked(message)| == 4 * (16 * BlockCount(|message|) - 2)
    ensures |Marked(message)| % 4 == 0 && |Marked(message)| / 4 == 16 * BlockCount(|message|) - 2
  {
  }

  lemma WordsAppend(a: seq<Byte>, b: seq<Byte>)
    requires |a| % 4 == 0 && |b| == 8
    ensures Words(a + b) == Words(a) + [WordAt(b, 0), WordAt(b, 1)]
  {
    var k := |a| / 4;
    assert Words(a + b)[k] == WordAt(b, 0);
    assert Words(a + b)[k + 1] == WordAt(b, 1);
    forall i | 0 <= i < k
      ensures WordAt(a + b, i) == WordAt(a, i)
    {
    }
    assert Words(a + b) == Words(a) + [WordAt(b, 0), WordAt(b, 1)];
  }

  lemma BigEndian64Words(x: nat)
    requires x < 0x1_0000_0000_0000_0000
    ensures WordAt(BigEndian64(x), 0) == x / 0x1_0000_0000
    ensures WordAt(BigEndian64(x), 1) == x % 0x1_0000_0000
  {
    var h, l := WordBytes(x / 0x1_0000_0000), WordBytes(x % 0x1_0000_0000);
    assert BigEndian64(x)[..4] == h && BigEndian64(x)[4..] == l;
  }

  /** The standard's length words: eight times the length as a 64-bit number. */
  function FipsLength(n: nat): (w: seq<Word>)
    requires 8 * n < 0x1_0000_0000_0000_0000
    ensures |w| == 2
  {
    [8 * n / 0x1_0000_0000, 8 * n % 0x1_0000_0000]
  }

  lemma PaddedWordsSplit(message: seq<Byte>)
    requires 8 * |message| < 0x1_0000_0000_0000_0000
    ensures |Marked(message)| % 4 == 0
    ensures PaddedWords(message) == Words(Marked(message)) + FipsLength(|message|)
  {
    MarkedLength(message);
    WordsAppend(Marked(message), BigEndian64(8 * |message|));
    BigEndian64Words(8 * |message|);
  }

  /** The padding is the standard's exactly for messages shorter than 2^32 bytes. */
  lemma SourceWordsAreFips(message: seq<Byte>)
    requires 8 * |message| < 0x1_0000_0000_0000_0000
    ensures SourceWords(message) == PaddedWords(message) <==> |message| < 0x1_0000_0000
  {
    PaddedWordsSplit(message);
    var w := Words(Marked(message));
    assert (w + SourceLength(|message|))[|w|..] == SourceLength(|message|);
    assert (w + FipsLength(|message|))[|w|..] == FipsLength(|message|);
    LengthFits(|message|);
  }

  lemma LengthFits(n: nat)
    requires 8 * n < 0x1_0000_0000_0000_0000
    ensures SourceLength(n) == FipsLength(n) <==> n < 0x1_0000_0000
  {
    LengthWords(n);
    DivideLength(n, HighLength(n), LowLength(n));
  }

  lemma DivideLength(n: nat, high: Word, low: Word)
    requires Join64(high, low) == 8 * (n % 0x1_0000_0000) && high < 8
    ensures high == 8 * n / 0x1_0000_0000 && low == 8 * n % 0x1_0000_0000 <==> n < 0x1_0000_0000
  {
  }

  function ByteAt(w: seq<Word>, i: nat): Byte
    requires i < 4 * |w|
  {
    WordBytes(w[i / 4])[i % 4]
  }

  /** Reads the length from the last two words, then that many bytes from the front. */
  function Unpad(w: seq<Word>): (message: seq<Byte>) {
    if |w| < 2 then []
    else
      var n := Join64(w[|w| - 2], w[|w| - 1]) / 8;
      if n <= 4 * |w| then seq(n, i requires 0 <= i < n => ByteAt(w, i)) else []
  }

  lemma SplitWord(b0: Byte, b1: Byte, b2: Byte, b3: Byte)
    ensures JoinBytes(b0, b1, b2, b3) < 0x1_0000_0000
    ensures WordBytes(JoinBytes(b0, b1, b2, b3)) == [b0, b1, b2, b3]
  {
    var w := JoinBytes(b0, b1, b2, b3);
    assert w / 256 == b0 * 0x1_0000 + b1 * 0x100 + b2;
    assert w / 256 / 256 == b0 * 0x100 + b1;
  }

  lemma ByteOfWordAt(p: seq<Byte>, k: nat, j: nat)
    requires 4 * k + 3 < |p| && j < 4
    ensures WordBytes(WordAt(p, k))[j] == p[4 * k + j]
  {
    SplitWord(p[4 * k], p[4 * k + 1], p[4 * k + 2], p[4 * k + 3]);
  }

  lemma SourceWordAt(message: seq<Byte>, k: nat)
    requires 4 * k < |message|
    ensures 4 * k + 3 < |Marked(message)| && k < |SourceWords(message)|
    ensures SourceWords(message)[k] == WordAt(Marked(message), k)
  {
    MarkedLength(message);
  }

  lemma SourceWordByte(message: seq<Byte>, i: nat)
    requires i < |message|
    ensures i < 4 * |SourceWords(message)| && ByteAt(SourceWords(message), i) == message[i]
  {
    EnoughWords(|message|);
    ByteAddress(i);
    SourceWordAt(message, i / 4);
    ByteOfWordAt(Marked(message), i / 4, i % 4);
  }

  lemma ByteAddress(i: nat)
    ensures i % 4 < 4 && 4 * (i / 4) + i % 4 == i && 4 * (i / 4) <= i
  {
  }

  lemma UnpadLength(message: seq<Byte>)
    requires |message| < 0x1_0000_0000
    ensures var w := SourceWords(message); |w| >= 2 && Join64(w[|w| - 2], w[|w| - 1]) == 8 * |message|
  {
    MarkedLength(message);
    LastTwo(Words(Marked(message)), SourceLength(|message|));
    LengthWords(|message|);
    ReadWord(|message|);
  }

  lemma LastTwo(w: seq<Word>, t: seq<Word>)
    requires |t| == 2
    ensures var r := w + t; r[|r| - 2] == t[0] && r[|r| - 1] == t[1]
  {
  }

  lemma EnoughWords(n: nat)
    ensures n <= 4 * (16 * BlockCount(n))
  {
  }

  /** The words determine the message: nothing of it is lost below 2^32 bytes. */
  lemma UnpadSourceWords(message: seq<Byte>)
    requires |message| < 0x1_0000_0000
    ensures Unpad(SourceWords(message)) == message
  {
    UnpadLength(message);
    EnoughWords(|message|);
    forall i | 0 <= i < |message|
      ensures ByteAt(SourceWords(message), i) == message[i]
    {
      SourceWordByte(message, i);
    }
    UnpadReads(SourceWords(message), message);
  }

  lemma UnpadReads(w: seq<Word>, message: seq<Byte>)
    requires |w| >= 2 && Join64(w[|w| - 2], w[|w| - 1]) == 8 * |message| && |message| <= 4 * |w|
    requires forall i :: 0 <= i < |message| ==> ByteAt(w, i) == message[i]
    ensures Unpad(w) == message
  {
    assert |Unpad(w)| == |message|;
  }

  lemma PaddingInjective(a: seq<Byte>, b: seq<Byte>)
    requires |a| < 0x1_0000_0000 && |b| < 0x1_0000_0000
    ensures SourceWords(a) == SourceWords(b) <==> a == b
  {
    UnpadSourceWords(a);
    UnpadSourceWords(b);
  }

  function Residues(a: seq<Number>): (w: seq<Word>)
    ensures |w| == |a|
  {
    seq(|a|, i requires 0 <= i < |a| => ToUint32(a[i]))
  }

  function ByteOfMarked(msg: seq<Byte>, i: nat): Byte {
    if i < |msg| then msg[i] else if i == |msg| then 0x80 else 0
  }

  /** The word that holds the marker, by where the message ends in it. */
  lemma MarkedTail(msg: seq<Byte>, k: nat)
    requires 4 * k <= |msg| < 4 * k + 4
    ensures 4 * k + 3 < |Marked(msg)|
    ensures WordAt(Marked(msg), k) == JoinBytes(ByteOfMarked(msg, 4 * k), ByteOfMarked(msg, 4 * k + 1),
                                                ByteOfMarked(msg, 4 * k + 2), ByteOfMarked(msg, 4 * k + 3))
  {
    MarkedLength(msg);
    assert |Marked(msg)| % 4 == 0 && |Marked(msg)| > |msg|;
    MarkedByte(msg, 4 * k);
    MarkedByte(msg, 4 * k + 1);
    MarkedByte(msg, 4 * k + 2);
    MarkedByte(msg, 4 * k + 3);
  }

  lemma MarkedByte(msg: seq<Byte>, i: nat)
    requires i < |Marked(msg)|
    ensures Marked(msg)[i] == ByteOfMarked(msg, i)
  {
  }

  /** The word that carries the last bytes of the message and the marker. */
  method LastWord(msg: seq<Byte>) returns (i: Number)
    ensures 4 * (|msg| / 4) + 3 < |Marked(msg)| && ToUint32(i) == WordAt(Marked(msg), |msg| / 4)
    ensures -0x1_0000_0000 < i < 0x1_0000_0000
  {
    var n := |msg|;
    ghost var k := n / 4;
    MarkedTail(msg, k);
    match n % 4 {
      case 0 =>
        i := 0x8000_0000;
        ReadWord(0x8000_0000);
      case 1 =>
        i := BitOr(ShiftLeft(msg[n - 1], 24), 0x80_0000);
        MarkAfterOne(msg[n - 1]);
      case 2 =>
        i := BitOr(BitOr(ShiftLeft(msg[n - 2], 24), ShiftLeft(msg[n - 1], 16)), 0x8000);
        MarkAfterTwo(msg[n - 2], msg[n - 1]);
      case _ =>
        i := BitOr(BitOr(BitOr(ShiftLeft(msg[n - 3], 24), ShiftLeft(msg[n - 2], 16)), ShiftLeft(msg[n - 1], 8)), 0x80);
        JoinFour(msg[n - 3], msg[n - 2], msg[n - 1], 0x80);
    }
  }

  method PackFour(b0: Byte, b1: Byte, b2: Byte, b3: Byte) returns (j: Number)
    ensures ToUint32(j) == JoinBytes(b0, b1, b2, b3) && -0x1_0000_0000 < j < 0x1_0000_0000
  {
    j := BitOr(BitOr(BitOr(ShiftLeft(b0, 24), ShiftLeft(b1, 16)), ShiftLeft(b2, 8)), b3);
    JoinFour(b0, b1, b2, b3);
  }

  /** The loop over complete groups of four bytes. */
  method PackGroups(msg: seq<Byte>) returns (words: seq<Number>)
    ensures |words| == |msg| / 4
    ensures forall k :: 0 <= k < |words| ==> ToUint32(words[k]) == WordAt(msg, k)
    ensures forall k :: 0 <= k < |words| ==> -0x1_0000_0000 < words[k] < 0x1_0000_0000
  {
    words := [];
    var i := 0;
    while i < |msg| - 3
      invariant i == 4 * |words| <= |msg|
      invariant forall k :: 0 <= k < |words| ==> ToUint32(words[k]) == WordAt(msg, k)
      invariant forall k :: 0 <= k < |words| ==> -0x1_0000_0000 < words[k] < 0x1_0000_0000
    {
      var j := PackFour(msg[i], msg[i + 1], msg[i + 2], msg[i + 3]);
      words := words + [j];
      i := i + 4;
    }
  }

  /** The fill loop stops at the first length that leaves room for the two length words. */
  method ZeroFill(start: seq<Number>) returns (words: seq<Number>)
    ensures |start| <= |words| < |start| + 16 && |words| % 16 == 14
    ensures words == start + seq(|words| - |start|, _ => 0)
  {
    words := start;
    while |words| % 16 != 14
      invariant |start| <= |words| <= |start| + (14 - |start|) % 16
      invariant words == start + seq(|words| - |start|, _ => 0)
      decreases |start| + (14 - |start|) % 16 - |words|
    {
      words := words + [0];
    }
  }

  lemma FilledCount(n: nat, filled: nat)
    requires n / 4 < filled < n / 4 + 17 && filled % 16 == 14
    ensures filled == 16 * BlockCount(n) - 2
  {
    var b := BlockCount(n);
    assert 64 * b - 64 <= n + 8 < 64 * b;
    assert filled == 16 * (filled / 16) + 14;
  }

  lemma MarkedWord(msg: seq<Byte>, k: nat)
    requires 4 * k + 3 < |Marked(msg)|
    ensures k < |msg| / 4 ==> WordAt(Marked(msg), k) == WordAt(msg, k)
    ensures k > |msg| / 4 ==> WordAt(Marked(msg), k) == 0
  {
  }

  lemma MarkedWordAt(msg: seq<Byte>, words: seq<Number>, last: Number, filled: seq<Number>, k: nat)
    requires |words| == |msg| / 4 && forall k :: 0 <= k < |words| ==> ToUint32(words[k]) == WordAt(msg, k)
    requires ToUint32(last) == WordAt(Marked(msg), |msg| / 4)
    requires |filled| > |words| && filled == words + [last] + seq(|filled| - |words| - 1, _ => 0)
    requires k < |filled| && 4 * k + 3 < |Marked(msg)|
    ensures ToUint32(filled[k]) == WordAt(Marked(msg), k)
  {
    MarkedWord(msg, k);
    if k < |words| {
      assert filled[k] == words[k];
    } else if k == |words| {
      assert filled[k] == last;
    } else {
      assert filled[k] == 0;
    }
  }

  lemma MarkedWords(msg: seq<Byte>, words: seq<Number>, last: Number, filled: seq<Number>)
    requires |words| == |msg| / 4 && forall k :: 0 <= k < |words| ==> ToUint32(words[k]) == WordAt(msg, k)
    requires ToUint32(last) == WordAt(Marked(msg), |msg| / 4)
    requires |words| < |filled| < |words| + 17 && |filled| % 16 == 14
    requires filled == words + [last] + seq(|filled| - |words| - 1, _ => 0)
    ensures |Marked(msg)| % 4 == 0 && Residues(filled) == Words(Marked(msg))
  {
    MarkedLength(msg);
    FilledCount(|msg|, |filled|);
    var w := Words(Marked(msg));
    forall k | 0 <= k < |filled|
      ensures k < |w| && ToUint32(filled[k]) == w[k]
    {
      MarkedWordAt(msg, words, last, filled, k);
    }
    assert Residues(filled) == w;
  }

  lemma ResiduesAppend(a: seq<Number>, b: seq<Number>)
    ensures Residues(a + b) == Residues(a) + Residues(b)
  {
  }

  method PackMessage(msg: seq<Byte>) returns (wordArray: seq<Number>)
    ensures Residues(wordArray) == SourceWords(msg)
    ensures forall k :: 0 <= k < |wordArray| ==> -0x1_0000_0000 < wordArray[k] < 0x1_0000_0000
  {
    var groups := PackGroups(msg);
    var i := LastWord(msg);
    wordArray := ZeroFill(groups + [i]);
    MarkedWords(msg, groups, i, wordArray);
    var high, low := ShiftRightUnsigned(|msg|, 29), BitAnd(ShiftLeft(|msg|, 3), 0xFFFF_FFFF);
    ReadWord(high);
    ResiduesAppend(wordArray, [high]);
    ResiduesAppend(wordArray + [high], [low]);
    wordArray := wordArray + [high];
    wordArray := wordArray + [low];
    assert Residues(wordArray) == Words(Marked(msg)) + [HighLength(|msg|)] + [LowLength(|msg|)];
  }
}
