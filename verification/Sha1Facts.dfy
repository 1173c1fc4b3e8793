/** What the definitions of FIPS 180-4 are, said without their formulas. */
module Sha1Facts {
  import opened Bits
  import opened JsNumber
  import opened Sha1Spec

  lemma WordBits(x: Word)
    ensures x < Pow2(32) && NotW(x) == Not(x, 32)
  {
    PowersOfTwo();
  }

  /** Ch takes each digit from the second word where the first has a 1 and from the third elsewhere. */
  lemma ChBit(x: Word, y: Word, z: Word, i: nat)
    requires i < 32
    ensures Bit(Ch(x, y, z), i) == if Bit(x, i) == 1 then Bit(y, i) else Bit(z, i)
  {
    WordBits(x);
    BitOfNot(x, 32, i);
    BitOfAnd(x, y, i);
    BitOfAnd(NotW(x), z, i);
    BitOfXor(AndW(x, y), AndW(NotW(x), z), i);
  }

  /** Parity has a 1 where an odd number of the words have one. */
  lemma ParityBit(x: Word, y: Word, z: Word, i: nat)
    ensures Bit(Parity(x, y, z), i) == (Bit(x, i) + Bit(y, i) + Bit(z, i)) % 2
  {
    BitOfXor(x, y, i);
    BitOfXor(XorW(x, y), z, i);
  }

  /** Maj has a 1 where two or three of the words have one. */
  lemma MajBit(x: Word, y: Word, z: Word, i: nat)
    ensures Bit(Maj(x, y, z), i) == 1 <==> Bit(x, i) + Bit(y, i) + Bit(z, i) >= 2
  {
    BitOfAnd(x, y, i);
    BitOfAnd(x, z, i);
    BitOfAnd(y, z, i);
    BitOfXor(AndW(x, y), AndW(x, z), i);
    BitOfXor(XorW(AndW(x, y), AndW(x, z)), AndW(y, z), i);
  }

  /** The function of a round, by its number: choice, parity, majority, parity. */
  lemma RoundFunctionBit(t: nat, x: Word, y: Word, z: Word, i: nat)
    requires t < 80 && i < 32
    ensures var ones := Bit(x, i) + Bit(y, i) + Bit(z, i);
      Bit(F(t, x, y, z), i) ==
        if t <= 19 then (if Bit(x, i) == 1 then Bit(y, i) else Bit(z, i))
        else if 40 <= t <= 59 then (if ones >= 2 then 1 else 0)
        else ones % 2
  {
    ChBit(x, y, z, i);
    ParityBit(x, y, z, i);
    MajBit(x, y, z, i);
  }

  /** Rotation multiplies by a power of two and puts what overflows 32 bits back at the other end. */
  lemma RotlMultiplies(x: Word, s: nat)
    requires 0 < s < 32
    ensures Rotl(x, s) == x * Pow2(s) - ShrW(x, 32 - s) * 0xFFFF_FFFF
  {
    var p, q := Pow2(32 - s), ShrW(x, 32 - s);
    ShrIsQuotient(x, 32 - s);
    ShlIsMultiple(q, 32 - s);
    ShlIsMultiple(q + 1, 32 - s);
    ShlIsMultiple(x, s);
    PowerSplit(s);
    Overflow(x, q, p, Pow2(s));
    ShlIsMultiple(x - q * p, s);
    OrSum(x - q * p, q, s);
  }

  lemma {:induction false} PowerSum(a: nat, b: nat)
    ensures Pow2(a + b) == Pow2(a) * Pow2(b)
  {
    if a > 0 {
      PowerSum(a - 1, b);
      assert Pow2(a + b) == 2 * Pow2(a - 1 + b);
      assert 2 * (Pow2(a - 1) * Pow2(b)) == Pow2(a) * Pow2(b);
    }
  }

  lemma PowerSplit(s: nat)
    requires s < 32
    ensures Pow2(32 - s) * Pow2(s) == 0x1_0000_0000
  {
    PowerSum(32 - s, s);
    PowersOfTwo();
  }

  /** x = q * p + r: shifted by s, the part q leaves the word and r moves up. */
  lemma Overflow(x: Word, q: nat, p: nat, t: nat)
    requires p * t == 0x1_0000_0000 && q * p <= x < (q + 1) * p
    ensures q < t && (x * t) % 0x1_0000_0000 == (x - q * p) * t
    ensures (x - q * p) * t + q == x * t - q * 0xFFFF_FFFF
  {
    var r := x - q * p;
    assert x * t == q * (p * t) + r * t by {
      assert (q * p + r) * t == q * p * t + r * t;
    }
    assert 0 <= r * t < p * t by {
      assert r <= p - 1;
      assert r * t <= (p - 1) * t;
    }
    if q >= t {
      Monotone(t, q, p);
    }
    ModuloUnique(x * t, q, r * t);
  }

  lemma Monotone(t: nat, q: nat, p: nat)
    requires t <= q
    ensures t * p <= q * p
  {
  }

  lemma ModuloUnique(n: nat, q: nat, r: nat)
    requires n == q * 0x1_0000_0000 + r && r < 0x1_0000_0000
    ensures n % 0x1_0000_0000 == r
  {
  }

  /** The four constants are 2^30 times the square roots of 2, 3, 5 and 10, without the fraction. */
  lemma ConstantsAreRoots(t: nat)
    requires t < 80
    ensures var p := if t < 20 then 2 else if t < 40 then 3 else if t < 60 then 5 else 10;
      K(t) * K(t) <= p * 0x4000_0000 * 0x4000_0000 < (K(t) + 1) * (K(t) + 1)
  {
  }

  /** Digits counted up from 0 to f, down again, and for the last word one up against one down. */
  function PatternByte(i: nat): nat
    requires i < 20
  {
    if i < 8 then 16 * (2 * i) + (2 * i + 1)
    else if i < 16 then 16 * (31 - 2 * i) + (30 - 2 * i)
    else 16 * (31 - i) + (i - 16)
  }

  function WordOf(c: Chain, j: nat): Word
    requires j < 5
  {
    match j
    case 0 => c.a
    case 1 => c.b
    case 2 => c.c
    case 3 => c.d
    case _ => c.e
  }

  /** The initial value, least significant byte first: 01 23 45 67, 89 ab cd ef and so on. */
  lemma InitialPattern(j: nat)
    requires j < 5
    ensures WordOf(INITIAL, j)
         == JoinBytes(PatternByte(4 * j + 3), PatternByte(4 * j + 2), PatternByte(4 * j + 1), PatternByte(4 * j))
  {
  }

  /** The padded length is the least multiple of 512 bits that has room for the 1 and the 64 bits. */
  lemma PaddingLength(message: seq<Byte>)
    requires 8 * |message| < 0x1_0000_0000_0000_0000
    ensures var n, p := 8 * |message|, 8 * |Padded(message)|;
      p == 8 * |Marked(message)| + 64 && p % 512 == 0 && n + 65 <= p < n + 65 + 512
  {
    var k := |message|;
    Filled(k, ZeroBytes(k), (k + 8) / 64, (k + 8) % 64);
    assert |Padded(message)| == k + 1 + ZeroBytes(k) + 8;
  }

  lemma Filled(k: nat, z: nat, q: nat, r: nat)
    requires k + 8 == 64 * q + r && r < 64 && z == 63 - r
    ensures 8 * (k + 1 + z + 8) == 512 * (q + 1) && (8 * (k + 1 + z + 8)) % 512 == 0
  {
  }

  /**
   * Section 5.1.1 in bits, byte i and its r-th bit from the left: the message, a 1, nothing but 0 behind it,
   * and in the last 64 bits the number of bits of the message.
   */
  lemma PaddingBits(message: seq<Byte>, i: nat, r: nat)
    requires 8 * |message| < 0x1_0000_0000_0000_0000
    requires i < |Padded(message)| && r < 8
    ensures var p := Padded(message);
      && (i < |message| ==> p[i] == message[i])
      && (i == |message| ==> Bit(p[i], 7 - r) == if r == 0 then 1 else 0)
      && (|message| < i < |p| - 8 ==> Bit(p[i], 7 - r) == 0)
      && (i >= |p| - 8 ==> Bit(p[i], 7 - r) == Bit(8 * |message|, 8 * (|p| - 1 - i) + 7 - r))
  {
    var m := |Marked(message)|;
    if i < m {
      assert Padded(message)[i] == Marked(message)[i];
      MarkedBit(message, i, 7 - r);
    } else {
      assert Padded(message)[i] == BigEndian64(8 * |message|)[i - m];
      LengthByte(8 * |message|, i - m, 7 - r);
    }
  }

  lemma MarkedBit(message: seq<Byte>, i: nat, r: nat)
    requires i < |Marked(message)| && r < 8
    ensures i < |message| ==> Marked(message)[i] == message[i]
    ensures i == |message| ==> Bit(Marked(message)[i], r) == if r == 7 then 1 else 0
    ensures i > |message| ==> Bit(Marked(message)[i], r) == 0
  {
    if i == |message| {
      assert Pow2(7) == 0x80;
      BitOfPower(7, r);
    } else if i > |message| {
      ZeroBits(r);
    }
  }

  /** Bit r of the i-th of the eight length bytes. */
  lemma LengthByte(x: nat, i: nat, r: nat)
    requires x < 0x1_0000_0000_0000_0000 && i < 8 && r < 8
    ensures Bit(BigEndian64(x)[i], r) == Bit(x, 8 * (7 - i) + r)
  {
    if i < 4 {
      HighByteBit(x, x / 0x1_0000_0000, i, r);
    } else {
      LowByteBit(x, x % 0x1_0000_0000, i - 4, r);
    }
  }

  lemma HighByteBit(x: nat, high: Word, i: nat, r: nat)
    requires i < 4 && r < 8 && high == x / 0x1_0000_0000
    ensures Bit(WordBytes(high)[i], r) == Bit(x, 8 * (7 - i) + r)
  {
    WordByteBit(high, i, r);
    HighBit(x, 8 * (3 - i) + r);
    assert 32 + (8 * (3 - i) + r) == 8 * (7 - i) + r;
  }

  lemma LowByteBit(x: nat, low: Word, i: nat, r: nat)
    requires i < 4 && r < 8 && low == x % 0x1_0000_0000
    ensures Bit(WordBytes(low)[i], r) == Bit(x, 8 * (3 - i) + r)
  {
    WordByteBit(low, i, r);
    BitOfLowWord(x, 8 * (3 - i) + r);
  }

  lemma BitOfLowWord(x: nat, k: nat)
    requires k < 32
    ensures Bit(x % 0x1_0000_0000, k) == Bit(x, k)
  {
    LowBits(x, 32, k);
    LowWord(x);
  }

  lemma HighBit(x: nat, i: nat)
    ensures Bit(x / 0x1_0000_0000, i) == Bit(x, 32 + i)
  {
    LowWord(x);
    ShiftTwice(x, 32, i);
  }

  lemma LowWord(x: nat)
    ensures Shr(x, 32) == x / 0x1_0000_0000 && And(x, Pow2(32) - 1) == x % 0x1_0000_0000
  {
    var q := Shr(x, 32);
    ShrIsQuotient(x, 32);
    ShlIsMultiple(q, 32);
    ShlIsMultiple(q + 1, 32);
    AndMask(x, 32);
    PowersOfTwo();
  }

  lemma LowByte(x: nat)
    ensures Shr(x, 8) == x / 0x100 && And(x, Pow2(8) - 1) == x % 0x100
  {
    var q := Shr(x, 8);
    ShrIsQuotient(x, 8);
    ShlIsMultiple(q, 8);
    ShlIsMultiple(q + 1, 8);
    AndMask(x, 8);
    PowersOfTwo();
  }

  lemma {:induction false} MaskBits(n: nat, i: nat)
    requires i < n
    ensures Bit(Pow2(n) - 1, i) == 1
  {
    assert (Pow2(n) - 1) % 2 == 1 && (Pow2(n) - 1) / 2 == Pow2(n - 1) - 1;
    if i > 0 {
      MaskBits(n - 1, i - 1);
    }
  }

  lemma LowBits(x: nat, n: nat, i: nat)
    requires i < n
    ensures Bit(And(x, Pow2(n) - 1), i) == Bit(x, i)
  {
    BitOfAnd(x, Pow2(n) - 1, i);
    MaskBits(n, i);
  }

  lemma WordByteBit(w: Word, i: nat, r: nat)
    requires i < 4 && r < 8
    ensures Bit(WordBytes(w)[i], r) == Bit(w, 8 * (3 - i) + r)
  {
    ByteOfWord(w, i);
    var v := Shr(w, 8 * (3 - i));
    ShiftTwice(w, 8 * (3 - i), r);
    LowByte(v);
    LowBits(v, 8, r);
  }

  lemma ByteOfWord(w: Word, i: nat)
    requires i < 4
    ensures WordBytes(w)[i] == Shr(w, 8 * (3 - i)) % 0x100
  {
    ShiftBytes(w);
    assert WordBytes(w) == [w / 256 / 256 / 256, w / 256 / 256 % 256, w / 256 % 256, w % 256];
  }

  lemma ShiftBytes(w: nat)
    ensures Shr(w, 8) == w / 256 && Shr(w, 16) == w / 256 / 256 && Shr(w, 24) == w / 256 / 256 / 256
  {
    ShiftByte(w);
    ShiftByte(w / 256);
    ShiftByte(w / 256 / 256);
    ShiftTwice(w, 8, 8);
    ShiftTwice(w, 8, 16);
    ShiftTwice(w / 256, 8, 8);
  }

  lemma ShiftByte(x: nat)
    ensures Shr(x, 8) == x / 256
  {
    LowByte(x);
  }

  lemma {:induction false} BitOfPower(n: nat, i: nat)
    ensures Bit(Pow2(n), i) == if i == n then 1 else 0
  {
    if n > 0 && i > 0 {
      assert Pow2(n) / 2 == Pow2(n - 1);
      BitOfPower(n - 1, i - 1);
    } else if i > 0 {
      ZeroBits(i - 1);
    }
  }

  lemma {:induction false} ZeroBits(i: nat)
    ensures Bit(0, i) == 0
  {
    if i > 0 {
      ZeroBits(i - 1);
    }
  }

  /** A round moves four of the five variables on, the second one rotated by 30 on its way. */
  lemma RoundMoves(h: Chain, m: Block, t: nat)
    requires 1 <= t && t + 4 <= 80
    ensures var a := Rounds(h, m, t).a;
      && Rounds(h, m, t + 1).b == a && Rounds(h, m, t + 2).c == Rotl(a, 30)
      && Rounds(h, m, t + 3).d == Rotl(a, 30) && Rounds(h, m, t + 4).e == Rotl(a, 30)
  {
    assert Rounds(h, m, t + 4) == Round(Rounds(h, m, t + 3), t + 3, Schedule(m, 80)[t + 3]);
    assert Rounds(h, m, t + 3) == Round(Rounds(h, m, t + 2), t + 2, Schedule(m, 80)[t + 2]);
    assert Rounds(h, m, t + 2) == Round(Rounds(h, m, t + 1), t + 1, Schedule(m, 80)[t + 1]);
    assert Rounds(h, m, t + 1) == Round(Rounds(h, m, t), t, Schedule(m, 80)[t]);
  }

  /** The new first variable is the sum of five words, cut to 32 bits once. */
  lemma RoundAdds(h: Chain, m: Block, t: nat)
    requires t < 80
    ensures var s := Rounds(h, m, t);
      Rounds(h, m, t + 1).a ==
        (Rotl(s.a, 5) + F(t, s.b, s.c, s.d) + s.e + K(t) + Schedule(m, 80)[t]) % 0x1_0000_0000
  {
    var s := Rounds(h, m, t);
    AddsOnce(Rotl(s.a, 5), F(t, s.b, s.c, s.d), s.e, K(t), Schedule(m, 80)[t]);
    assert Rounds(h, m, t + 1) == Round(s, t, Schedule(m, 80)[t]);
  }

  lemma AddsOnce(a: Word, b: Word, c: Word, d: Word, e: Word)
    ensures Add(Add(Add(Add(a, b), c), d), e) == (a + b + c + d + e) % 0x1_0000_0000
  {
    AddOne(a + b, c);
    AddOne(a + b + c, d);
    AddOne(a + b + c + d, e);
  }

  lemma AddOne(x: nat, y: Word)
    ensures Add(ToUint32(x), y) == ToUint32(x + y)
  {
    SameResidue(ToUint32(x) + y, x + y, x / 0x1_0000_0000);
  }

  /** Each chaining variable is increased by its own working variable. */
  lemma CompressAdds(h: Chain, m: Block, j: nat)
    requires j < 5
    ensures WordOf(Compress(h, m), j) == (WordOf(h, j) + WordOf(Rounds(h, m, 80), j)) % 0x1_0000_0000
  {
  }
}
