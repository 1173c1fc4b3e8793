/** Integer-valued JavaScript numbers and the 32-bit operators on them. */
module JsNumber {
  import opened Bits

  /** The integers that a double holds exactly, together with all their neighbours. */
  type Number = x: int | -0x20_0000_0000_0000 < x < 0x20_0000_0000_0000

  type Word = x: nat | x < 0x1_0000_0000

  /** The word that every bitwise operator reads its operand as. */
  function ToUint32(x: int): (w: Word) {
    x % 0x1_0000_0000
  }

  lemma SameResidue(x: int, y: int, k: int)
    requires y == x + 0x1_0000_0000 * k
    ensures x % 0x1_0000_0000 == y % 0x1_0000_0000
  {
    var p, q := x / 0x1_0000_0000, y / 0x1_0000_0000;
    assert y % 0x1_0000_0000 - x % 0x1_0000_0000 == 0x1_0000_0000 * (p + k - q);
  }

  /** The two's complement reading of a word, which every bitwise operator but `>>>` returns. */
  function Signed(w: Word): (x: Number)
    ensures ToUint32(x) == w
    ensures -0x8000_0000 <= x < 0x8000_0000
  {
    if w < 0x8000_0000 then w else w - 0x1_0000_0000
  }

  /** `+`, defined only where the double-precision sum is exact. */
  function Plus(x: Number, y: Number): Number
    requires -0x20_0000_0000_0000 < x + y < 0x20_0000_0000_0000
  {
    x + y
  }

  lemma PowersOfTwo()
    ensures Pow2(6) == 64 && Pow2(8) == 0x100 && Pow2(16) == 0x1_0000 && Pow2(24) == 0x100_0000
    ensures Pow2(32) == 0x1_0000_0000
  {
    assert Pow2(8) == 0x100;
    assert Pow2(16) == 0x1_0000;
    assert Pow2(24) == 0x100_0000;
  }

  // The operators of FIPS 180-4, section 3.2, and of ECMAScript both work on words.

  function AndW(x: Word, y: Word): Word {
    PowersOfTwo();
    Bounds(x, y, 32);
    And(x, y)
  }

  function OrW(x: Word, y: Word): Word {
    PowersOfTwo();
    Bounds(x, y, 32);
    Or(x, y)
  }

  function XorW(x: Word, y: Word): Word {
    PowersOfTwo();
    Bounds(x, y, 32);
    Xor(x, y)
  }

  function NotW(x: Word): Word {
    0xFFFF_FFFF - x
  }

  function ShlW(x: Word, s: nat): Word {
    ToUint32(Shl(x, s))
  }

  function ShrW(x: Word, s: nat): Word {
    Shr(x, s)
  }

  function BitAnd(x: int, y: int): (r: Number)
    ensures ToUint32(r) == AndW(ToUint32(x), ToUint32(y))
    ensures -0x8000_0000 <= r < 0x8000_0000
  {
    Signed(AndW(ToUint32(x), ToUint32(y)))
  }

  function BitOr(x: int, y: int): (r: Number)
    ensures ToUint32(r) == OrW(ToUint32(x), ToUint32(y))
    ensures -0x8000_0000 <= r < 0x8000_0000
  {
    Signed(OrW(ToUint32(x), ToUint32(y)))
  }

  function BitXor(x: int, y: int): (r: Number)
    ensures ToUint32(r) == XorW(ToUint32(x), ToUint32(y))
    ensures -0x8000_0000 <= r < 0x8000_0000
  {
    Signed(XorW(ToUint32(x), ToUint32(y)))
  }

  function BitNot(x: int): (r: Number)
    ensures ToUint32(r) == NotW(ToUint32(x))
    ensures -0x8000_0000 <= r < 0x8000_0000
  {
    Signed(NotW(ToUint32(x)))
  }

  /** `x << s`. */
  function ShiftLeft(x: int, s: nat): (r: Number)
    requires s < 32
    ensures ToUint32(r) == ShlW(ToUint32(x), s)
    ensures -0x8000_0000 <= r < 0x8000_0000
  {
    Signed(ShlW(ToUint32(x), s))
  }

  /** `x >> s`. */
  function ShiftRight(x: int, s: nat): (r: Number)
    requires s < 32
    ensures 0 <= x < 0x8000_0000 ==> r == ShrW(x, s)
  {
    Shr(Signed(ToUint32(x)), s)
  }

  /** `x >>> s`. */
  function ShiftRightUnsigned(x: int, s: nat): (r: Number)
    requires s < 32
    ensures r == ShrW(ToUint32(x), s)
  {
    Shr(ToUint32(x), s)
  }

  lemma ReadWord(w: Word)
    ensures ToUint32(w) == w
  {
  }

  lemma SmallWord(r: int, w: Word)
    requires ToUint32(r) == w && -0x8000_0000 <= r < 0x8000_0000 && w < 0x8000_0000
    ensures r == w
  {
  }

  /** `l | (h << n)` where the low part `l` fits below the shifted pattern. */
  lemma OrPattern(l: nat, h: nat, n: nat)
    requires l < Pow2(n) && Shl(h, n) + l < 0x8000_0000
    ensures BitOr(l, Shl(h, n)) == Shl(h, n) + l
  {
    OrSum(h, l, n);
    OrCommutes(Shl(h, n), l);
    ReadWord(l);
    ReadWord(Shl(h, n));
    SmallWord(BitOr(l, Shl(h, n)), Shl(h, n) + l);
  }

  /** `x & 0xffffffff` changes only the sign convention, never the residue modulo 2^32. */
  lemma MaskAllOnes(x: int)
    ensures ToUint32(BitAnd(x, 0xFFFF_FFFF)) == ToUint32(x)
  {
    var u := ToUint32(x);
    AndMask(u, 32);
    PowersOfTwo();
    ShrSmall(u, 32);
    ReadWord(0xFFFF_FFFF);
  }
}
