/** SHA-1 as FIPS 180-4 writes it: words, padding, message schedule, rounds. */
module Sha1Spec {
  import opened Bits
  import opened JsNumber

  type Byte = b: nat | b < 256

  // Section 3.2: operations on words.

  /** Addition modulo 2^32. */
  function Add(x: Word, y: Word): Word {
    ToUint32(x + y)
  }

  /** ROTL: the left shift joined with the bits shifted out. */
  function Rotl(x: Word, s: nat): Word
    requires 0 < s < 32
  {
    OrW(ShlW(x, s), ShrW(x, 32 - s))
  }

  // Section 4.1.1: functions; section 4.2.1: constants.

  function Ch(x: Word, y: Word, z: Word): Word {
    XorW(AndW(x, y), AndW(NotW(x), z))
  }

  function Parity(x: Word, y: Word, z: Word): Word {
    XorW(XorW(x, y), z)
  }

  function Maj(x: Word, y: Word, z: Word): Word {
    XorW(XorW(AndW(x, y), AndW(x, z)), AndW(y, z))
  }

  function F(t: nat, x: Word, y: Word, z: Word): Word
    requires t < 80
  {
    if t < 20 then Ch(x, y, z)
    else if t < 40 then Parity(x, y, z)
    else if t < 60 then Maj(x, y, z)
    else Parity(x, y, z)
  }

  function K(t: nat): Word
    requires t < 80
  {
    if t < 20 then 0x5A82_7999
    else if t < 40 then 0x6ED9_EBA1
    else if t < 60 then 0x8F1B_BCDC
    else 0xCA62_C1D6
  }

  // Section 5.1.1: padding.

  /** The number of zero bytes that follow the marker byte. */
  function ZeroBytes(n: nat): nat {
    63 - (n + 8) % 64
  }

  function Zeros(k: nat): (z: seq<Byte>) {
    seq(k, _ => 0)
  }

  function WordBytes(w: Word): (b: seq<Byte>)
    ensures |b| == 4 && JoinBytes(b[0], b[1], b[2], b[3]) == w
  {
    [w / 256 / 256 / 256, w / 256 / 256 % 256, w / 256 % 256, w % 256]
  }

  function JoinBytes(b0: int, b1: int, b2: int, b3: int): int {
    b0 * 0x100_0000 + b1 * 0x1_0000 + b2 * 0x100 + b3
  }

  /** A 64-bit number as eight bytes, most significant first. */
  function BigEndian64(x: nat): (b: seq<Byte>)
    requires x < 0x1_0000_0000_0000_0000
    ensures |b| == 8
  {
    WordBytes(x / 0x1_0000_0000) + WordBytes(x % 0x1_0000_0000)
  }

  function Marked(message: seq<Byte>): seq<Byte> {
    message + [0x80] + Zeros(ZeroBytes(|message|))
  }

  /** The padded message; the standard defines it below 2^64 bits. */
  function Padded(message: seq<Byte>): (p: seq<Byte>)
    requires 8 * |message| < 0x1_0000_0000_0000_0000
    ensures |p| == 64 * ((|message| + 8) / 64 + 1)
  {
    Marked(message) + BigEndian64(8 * |message|)
  }

  function WordAt(bytes: seq<Byte>, k: nat): Word
    requires 4 * k + 3 < |bytes|
  {
    JoinBytes(bytes[4 * k], bytes[4 * k + 1], bytes[4 * k + 2], bytes[4 * k + 3])
  }

  /** Section 5.2.1: the bytes parsed into big-endian words. */
  function Words(bytes: seq<Byte>): (w: seq<Word>)
    requires |bytes| % 4 == 0
    ensures |w| == |bytes| / 4
    ensures forall k :: 0 <= k < |w| ==> w[k] == WordAt(bytes, k)
  {
    seq(|bytes| / 4, k requires 0 <= k < |bytes| / 4 => WordAt(bytes, k))
  }

  // Section 6.1.2: computation.

  type Block = b: seq<Word> | |b| == 16 witness [0, 0, 0, 0, 0, 0, 0, 0, 0, 0, 0, 0, 0, 0, 0, 0]

  datatype Chain = Chain(a: Word, b: Word, c: Word, d: Word, e: Word)

  /** Section 5.3.1. */
  const INITIAL := Chain(0x6745_2301, 0xEFCD_AB89, 0x98BA_DCFE, 0x1032_5476, 0xC3D2_E1F0)

  function Mix(w3: Word, w8: Word, w14: Word, w16: Word): Word {
    Rotl(XorW(XorW(XorW(w3, w8), w14), w16), 1)
  }

  /** The first `t` words of the message schedule. */
  function Schedule(m: Block, t: nat): (w: seq<Word>)
    requires 16 <= t
    ensures |w| == t
    decreases t, m
  {
    if t == 16 then m
    else
      var w := Schedule(m, t - 1);
      w + [Mix(w[t - 4], w[t - 9], w[t - 15], w[t - 17])]
  }

  /** Entry by entry this is the recurrence of the standard. */
  lemma {:induction false} ScheduleRecurrence(m: Block, t: nat, i: nat)
    requires 16 <= t && i < t
    ensures i < 16 ==> Schedule(m, t)[i] == m[i]
    ensures i >= 16 ==> var w := Schedule(m, t); w[i] == Mix(w[i - 3], w[i - 8], w[i - 14], w[i - 16])
  {
    if t > 16 && i < t - 1 {
      ScheduleRecurrence(m, t - 1, i);
    }
  }

  function Round(s: Chain, t: nat, w: Word): Chain
    requires t < 80
  {
    var temp := Add(Add(Add(Add(Rotl(s.a, 5), F(t, s.b, s.c, s.d)), s.e), K(t)), w);
    Chain(temp, s.a, Rotl(s.b, 30), s.c, s.d)
  }

  /** The working variables after `t` rounds. */
  function Rounds(h: Chain, m: Block, t: nat): Chain
    requires t <= 80
    decreases t, h, m
  {
    if t == 0 then h else Round(Rounds(h, m, t - 1), t - 1, Schedule(m, 80)[t - 1])
  }

  function Compress(h: Chain, m: Block): Chain {
    var s := Rounds(h, m, 80);
    Chain(Add(h.a, s.a), Add(h.b, s.b), Add(h.c, s.c), Add(h.d, s.d), Add(h.e, s.e))
  }

  /** The hash value after the first `n` blocks. */
  function HashBlocks(w: seq<Word>, n: nat): Chain
    requires 16 * n <= |w|
    decreases n, w
  {
    if n == 0 then INITIAL else Compress(HashBlocks(w, n - 1), w[16 * (n - 1)..16 * n])
  }

  function BlockCount(n: nat): nat {
    (n + 8) / 64 + 1
  }

  lemma WholeBlocks(bytes: seq<Byte>, blocks: nat)
    requires |bytes| == 64 * blocks
    ensures |bytes| % 4 == 0 && |bytes| / 4 == 16 * blocks
  {
  }

  function PaddedWords(message: seq<Byte>): (w: seq<Word>)
    requires 8 * |message| < 0x1_0000_0000_0000_0000
    ensures |w| == 16 * BlockCount(|message|)
  {
    WholeBlocks(Padded(message), BlockCount(|message|));
    Words(Padded(message))
  }

  function Digest(message: seq<Byte>): Chain
    requires 8 * |message| < 0x1_0000_0000_0000_0000
  {
    HashBlocks(PaddedWords(message), BlockCount(|message|))
  }

  /** The zeros chosen in bytes are the least count of bits that the standard asks for. */
  lemma ZeroBytesLeast(n: nat, k: nat)
    ensures (8 * n + 1 + (7 + 8 * ZeroBytes(n))) % 512 == 448
    ensures (8 * n + 1 + k) % 512 == 448 ==> 7 + 8 * ZeroBytes(n) <= k
  {
    var q := (n + 8) / 64;
    assert 8 * n + 1 + (7 + 8 * ZeroBytes(n)) == 512 * q + 448;
    if (8 * n + 1 + k) % 512 == 448 {
      var p := (8 * n + 1 + k) / 512;
      assert 8 * n + 1 + k == 512 * p + 448;
      assert 7 + 8 * ZeroBytes(n) - k == 512 * (q - p);
    }
  }
}
