/** The password digest: SHA-1 computed on signed JavaScript numbers. */
module EncryptUtil {
  import opened Bits
  import opened JsNumber
  import opened Sha1Spec
  import opened Packing
  import opened Utf8

  /** Every number that the digest adds lies strictly between -2^32 and 2^32. */
  predicate Operand(x: Number) {
    -0x1_0000_0000 < x < 0x1_0000_0000
  }

  method RotateLeft(n: Number, s: nat) returns (r: Number)
    requires 0 < s < 32
    ensures Operand(r) && ToUint32(r) == Rotl(ToUint32(n), s)
  {
    ReadWord(ShiftRightUnsigned(n, 32 - s));
    r := BitOr(ShiftLeft(n, s), ShiftRightUnsigned(n, 32 - s));
  }

  lemma AddResidues(x: int, y: int)
    ensures ToUint32(x + y) == Add(ToUint32(x), ToUint32(y))
  {
    var p, q := x / 0x1_0000_0000, y / 0x1_0000_0000;
    var r := ToUint32(x) + ToUint32(y);
    assert x + y == r + 0x1_0000_0000 * (p + q);
    SameResidue(r, x + y, p + q);
  }

  lemma FiveResidues(r: int, f: int, e: int, w: int, k: int)
    ensures ToUint32(r + f + e + w + k)
         == Add(Add(Add(Add(ToUint32(r), ToUint32(f)), ToUint32(e)), ToUint32(k)), ToUint32(w))
  {
    AddResidues(r, f);
    AddResidues(r + f, e);
    AddResidues(r + f + e, k);
    AddResidues(r + f + e + k, w);
    assert r + f + e + w + k == r + f + e + k + w;
  }

  /** `x & 0x0ffffffff`. */
  method Cut(x: Number) returns (r: Number)
    ensures Operand(r) && ToUint32(r) == ToUint32(x)
  {
    MaskAllOnes(x);
    r := BitAnd(x, 0xFFFF_FFFF);
  }

  /** The sum of one round: five operands, added exactly, then cut to a word. */
  method RoundSum(a: Number, f: Number, e: Number, w: Number, k: Number) returns (temp: Number)
    requires Operand(a) && Operand(f) && Operand(e) && Operand(w) && Operand(k)
    ensures Operand(temp)
    ensures ToUint32(temp)
         == Add(Add(Add(Add(Rotl(ToUint32(a), 5), ToUint32(f)), ToUint32(e)), ToUint32(k)), ToUint32(w))
  {
    var r := RotateLeft(a, 5);
    FiveResidues(r, f, e, w, k);
    temp := Cut(Plus(Plus(Plus(Plus(r, f), e), w), k));
  }

  /** The feed-forward of one chaining variable. */
  method FeedForward(h: Number, a: Number) returns (r: Number)
    requires Operand(h) && Operand(a)
    ensures Operand(r) && ToUint32(r) == Add(ToUint32(h), ToUint32(a))
  {
    var sum := Plus(h, a);
    SumResidue(h, a);
    r := Cut(sum);
  }

  lemma SumResidue(h: Number, a: Number)
    requires Operand(h) && Operand(a)
    ensures ToUint32(Plus(h, a)) == Add(ToUint32(h), ToUint32(a))
  {
    AddResidues(h, a);
  }

  /** The OR form of the source is the XOR form of the standard. */
  method Choose(b: Number, c: Number, d: Number) returns (f: Number)
    ensures Operand(f) && ToUint32(f) == Ch(ToUint32(b), ToUint32(c), ToUint32(d))
  {
    PowersOfTwo();
    ChooseOrXor(ToUint32(b), ToUint32(c), ToUint32(d), 32);
    f := BitOr(BitAnd(b, c), BitAnd(BitNot(b), d));
  }

  method ParityOf(b: Number, c: Number, d: Number) returns (f: Number)
    ensures Operand(f) && ToUint32(f) == Parity(ToUint32(b), ToUint32(c), ToUint32(d))
  {
    f := BitXor(BitXor(b, c), d);
  }

  method Majority(b: Number, c: Number, d: Number) returns (f: Number)
    ensures Operand(f) && ToUint32(f) == Maj(ToUint32(b), ToUint32(c), ToUint32(d))
  {
    PowersOfTwo();
    MajorityOrXor(ToUint32(b), ToUint32(c), ToUint32(d), 32);
    f := BitOr(BitOr(BitAnd(b, c), BitAnd(b, d)), BitAnd(c, d));
  }

  ghost function View(a: Number, b: Number, c: Number, d: Number, e: Number): Chain {
    Chain(ToUint32(a), ToUint32(b), ToUint32(c), ToUint32(d), ToUint32(e))
  }

  ghost predicate Operands(a: Number, b: Number, c: Number, d: Number, e: Number) {
    Operand(a) && Operand(b) && Operand(c) && Operand(d) && Operand(e)
  }

  ghost predicate Scheduled(W: seq<Number>, m: Block) {
    Residues(W) == Schedule(m, 80) && forall i :: 0 <= i < |W| ==> Operand(W[i])
  }

  method ScheduleWord(w3: Number, w8: Number, w14: Number, w16: Number) returns (r: Number)
    ensures Operand(r)
    ensures ToUint32(r) == Mix(ToUint32(w3), ToUint32(w8), ToUint32(w14), ToUint32(w16))
  {
    r := RotateLeft(BitXor(BitXor(BitXor(w3, w8), w14), w16), 1);
  }

  method CopyBlock(W: array<Number>, wordArray: seq<Number>, blockstart: nat, ghost m: Block)
    requires W.Length == 80 && blockstart + 16 <= |wordArray|
    requires forall k :: 0 <= k < |wordArray| ==> Operand(wordArray[k])
    requires m == Residues(wordArray)[blockstart..blockstart + 16]
    modifies W
    ensures Residues(W[..16]) == m && forall k :: 0 <= k < 16 ==> Operand(W[k])
  {
    var i := 0;
    while i < 16
      invariant 0 <= i <= 16
      invariant forall k :: 0 <= k < i ==> W[k] == wordArray[blockstart + k]
    {
      W[i] := wordArray[blockstart + i];
      i := i + 1;
    }
    assert Residues(W[..16]) == m;
  }

  /** Sixteen words copied, sixty-four derived. */
  method FillSchedule(W: array<Number>, wordArray: seq<Number>, blockstart: nat, ghost m: Block)
    requires W.Length == 80 && blockstart + 16 <= |wordArray|
    requires forall k :: 0 <= k < |wordArray| ==> Operand(wordArray[k])
    requires m == Residues(wordArray)[blockstart..blockstart + 16]
    modifies W
    ensures Scheduled(W[..], m)
  {
    CopyBlock(W, wordArray, blockstart, m);
    var i := 16;
    while i <= 79
      invariant 16 <= i <= 80
      invariant forall k :: 0 <= k < i ==> Operand(W[k])
      invariant Residues(W[..i]) == Schedule(m, i)
    {
      var w := ScheduleWord(W[i - 3], W[i - 8], W[i - 14], W[i - 16]);
      ExtendSchedule(m, W[..i], w);
      W[i] := w;
      i := i + 1;
      assert W[..i] == W[..i - 1] + [w];
    }
    assert W[..80] == W[..];
  }

  lemma ExtendSchedule(m: Block, W: seq<Number>, w: Number)
    requires |W| >= 16 && Residues(W) == Schedule(m, |W|)
    requires var r, i := Residues(W), |W|; ToUint32(w) == Mix(r[i - 3], r[i - 8], r[i - 14], r[i - 16])
    ensures Residues(W + [w]) == Schedule(m, |W| + 1)
  {
    ResiduesAppend(W, [w]);
    assert Residues([w]) == [ToUint32(w)];
    NextScheduled(m, Residues(W));
  }

  lemma NextScheduled(m: Block, r: seq<Word>)
    requires |r| >= 16 && r == Schedule(m, |r|)
    ensures var i := |r|; Schedule(m, i + 1) == r + [Mix(r[i - 3], r[i - 8], r[i - 14], r[i - 16])]
  {
  }

  /** One pass through a round loop, for whichever of the four loops `f` and `k` come from. */
  method OneRound(A: Number, B: Number, C: Number, D: Number, E: Number, f: Number, w: Number, k: Number,
                  ghost h: Chain, ghost m: Block, ghost i: nat)
    returns (a: Number, b: Number, c: Number, d: Number, e: Number)
    requires i < 80 && Operands(A, B, C, D, E) && Operand(f) && Operand(w)
    requires View(A, B, C, D, E) == Rounds(h, m, i) && ToUint32(w) == Schedule(m, 80)[i]
    requires ToUint32(f) == F(i, ToUint32(B), ToUint32(C), ToUint32(D)) && k == K(i)
    ensures Operands(a, b, c, d, e)
    ensures View(a, b, c, d, e) == Rounds(h, m, i + 1)
  {
    var temp := RoundSum(A, f, E, w, k);
    e := D;
    d := C;
    c := RotateLeft(B, 30);
    b := A;
    a := temp;
    ReadWord(k);
    assert Rounds(h, m, i + 1) == Round(View(A, B, C, D, E), i, ToUint32(w));
  }

  lemma ScheduledWord(W: seq<Number>, m: Block, i: nat)
    requires Scheduled(W, m) && i < |W|
    ensures Operand(W[i]) && |W| == 80 && ToUint32(W[i]) == Schedule(m, 80)[i]
  {
    assert Residues(W)[i] == ToUint32(W[i]);
  }

  /** The loop over rounds 0 to 19. */
  method Rounds0To19(W: array<Number>, A0: Number, B0: Number, C0: Number, D0: Number, E0: Number,
                ghost h: Chain, ghost m: Block)
    returns (A: Number, B: Number, C: Number, D: Number, E: Number)
    requires W.Length == 80 && Scheduled(W[..], m) && Operands(A0, B0, C0, D0, E0)
    requires View(A0, B0, C0, D0, E0) == Rounds(h, m, 0)
    ensures Operands(A, B, C, D, E) && View(A, B, C, D, E) == Rounds(h, m, 20)
  {
    A, B, C, D, E := A0, B0, C0, D0, E0;
    var i := 0;
    while i <= 19
      invariant 0 <= i <= 20 && Operands(A, B, C, D, E)
      invariant View(A, B, C, D, E) == Rounds(h, m, i)
    {
      var f := Choose(B, C, D);
      ScheduledWord(W[..], m, i);
      A, B, C, D, E := OneRound(A, B, C, D, E, f, W[i], 0x5A82_7999, h, m, i);
      i := i + 1;
    }
    assert i == 20;
  }

  /** The loop over rounds 20 to 39. */
  method Rounds20To39(W: array<Number>, A0: Number, B0: Number, C0: Number, D0: Number, E0: Number,
                ghost h: Chain, ghost m: Block)
    returns (A: Number, B: Number, C: Number, D: Number, E: Number)
    requires W.Length == 80 && Scheduled(W[..], m) && Operands(A0, B0, C0, D0, E0)
    requires View(A0, B0, C0, D0, E0) == Rounds(h, m, 20)
    ensures Operands(A, B, C, D, E) && View(A, B, C, D, E) == Rounds(h, m, 40)
  {
    A, B, C, D, E := A0, B0, C0, D0, E0;
    var i := 20;
    while i <= 39
      invariant 20 <= i <= 40 && Operands(A, B, C, D, E)
      invariant View(A, B, C, D, E) == Rounds(h, m, i)
    {
      var f := ParityOf(B, C, D);
      ScheduledWord(W[..], m, i);
      A, B, C, D, E := OneRound(A, B, C, D, E, f, W[i], 0x6ED9_EBA1, h, m, i);
      i := i + 1;
    }
    assert i == 40;
  }

  /** The loop over rounds 40 to 59. */
  method Rounds40To59(W: array<Number>, A0: Number, B0: Number, C0: Number, D0: Number, E0: Number,
                ghost h: Chain, ghost m: Block)
    returns (A: Number, B: Number, C: Number, D: Number, E: Number)
    requires W.Length == 80 && Scheduled(W[..], m) && Operands(A0, B0, C0, D0, E0)
    requires View(A0, B0, C0, D0, E0) == Rounds(h, m, 40)
    ensures Operands(A, B, C, D, E) && View(A, B, C, D, E) == Rounds(h, m, 60)
  {
    A, B, C, D, E := A0, B0, C0, D0, E0;
    var i := 40;
    while i <= 59
      invariant 40 <= i <= 60 && Operands(A, B, C, D, E)
      invariant View(A, B, C, D, E) == Rounds(h, m, i)
    {
      var f := Majority(B, C, D);
      ScheduledWord(W[..], m, i);
      A, B, C, D, E := OneRound(A, B, C, D, E, f, W[i], 0x8F1B_BCDC, h, m, i);
      i := i + 1;
    }
    assert i == 60;
  }

  /** The loop over rounds 60 to 79. */
  method Rounds60To79(W: array<Number>, A0: Number, B0: Number, C0: Number, D0: Number, E0: Number,
                ghost h: Chain, ghost m: Block)
    returns (A: Number, B: Number, C: Number, D: Number, E: Number)
    requires W.Length == 80 && Scheduled(W[..], m) && Operands(A0, B0, C0, D0, E0)
    requires View(A0, B0, C0, D0, E0) == Rounds(h, m, 60)
    ensures Operands(A, B, C, D, E) && View(A, B, C, D, E) == Rounds(h, m, 80)
  {
    A, B, C, D, E := A0, B0, C0, D0, E0;
    var i := 60;
    while i <= 79
      invariant 60 <= i <= 80 && Operands(A, B, C, D, E)
      invariant View(A, B, C, D, E) == Rounds(h, m, i)
    {
      var f := ParityOf(B, C, D);
      ScheduledWord(W[..], m, i);
      A, B, C, D, E := OneRound(A, B, C, D, E, f, W[i], 0xCA62_C1D6, h, m, i);
      i := i + 1;
    }
    assert i == 80;
  }

  /** The four loops of twenty rounds. */
  method EightyRounds(W: array<Number>, H0: Number, H1: Number, H2: Number, H3: Number, H4: Number, ghost m: Block)
    returns (A: Number, B: Number, C: Number, D: Number, E: Number)
    requires W.Length == 80 && Scheduled(W[..], m) && Operands(H0, H1, H2, H3, H4)
    ensures Operands(A, B, C, D, E)
    ensures View(A, B, C, D, E) == Rounds(View(H0, H1, H2, H3, H4), m, 80)
  {
    ghost var h := View(H0, H1, H2, H3, H4);
    A, B, C, D, E := Rounds0To19(W, H0, H1, H2, H3, H4, h, m);
    A, B, C, D, E := Rounds20To39(W, A, B, C, D, E, h, m);
    A, B, C, D, E := Rounds40To59(W, A, B, C, D, E, h, m);
    A, B, C, D, E := Rounds60To79(W, A, B, C, D, E, h, m);
  }

  /** One pass through the block loop, on the block `m`. */
  method HashBlock(W: array<Number>, wordArray: seq<Number>, blockstart: nat,
                   H0: Number, H1: Number, H2: Number, H3: Number, H4: Number, ghost m: Block)
    returns (G0: Number, G1: Number, G2: Number, G3: Number, G4: Number)
    requires W.Length == 80 && blockstart + 16 <= |wordArray| && Operands(H0, H1, H2, H3, H4)
    requires forall k :: 0 <= k < |wordArray| ==> Operand(wordArray[k])
    requires m == Residues(wordArray)[blockstart..blockstart + 16]
    modifies W
    ensures Operands(G0, G1, G2, G3, G4)
    ensures View(G0, G1, G2, G3, G4) == Compress(View(H0, H1, H2, H3, H4), m)
  {
    FillSchedule(W, wordArray, blockstart, m);
    var A, B, C, D, E := EightyRounds(W, H0, H1, H2, H3, H4, m);
    G0 := FeedForward(H0, A);
    G1 := FeedForward(H1, B);
    G2 := FeedForward(H2, C);
    G3 := FeedForward(H3, D);
    G4 := FeedForward(H4, E);
  }

  /** The same pass, seen as the step from `n` to `n + 1` hashed blocks. */
  method HashNext(W: array<Number>, wordArray: seq<Number>, blockstart: nat,
                  H0: Number, H1: Number, H2: Number, H3: Number, H4: Number, ghost n: nat)
    returns (G0: Number, G1: Number, G2: Number, G3: Number, G4: Number)
    requires W.Length == 80 && blockstart == 16 * n && 16 * (n + 1) <= |wordArray| && Operands(H0, H1, H2, H3, H4)
    requires forall k :: 0 <= k < |wordArray| ==> Operand(wordArray[k])
    requires View(H0, H1, H2, H3, H4) == HashBlocks(Residues(wordArray), n)
    modifies W
    ensures Operands(G0, G1, G2, G3, G4)
    ensures View(G0, G1, G2, G3, G4) == HashBlocks(Residues(wordArray), n + 1)
  {
    ghost var m: Block := Residues(wordArray)[16 * n..16 * (n + 1)];
    G0, G1, G2, G3, G4 := HashBlock(W, wordArray, blockstart, H0, H1, H2, H3, H4, m);
  }

  method HashWords(wordArray: seq<Number>, ghost blocks: nat)
    returns (H0: Number, H1: Number, H2: Number, H3: Number, H4: Number)
    requires |wordArray| == 16 * blocks
    requires forall k :: 0 <= k < |wordArray| ==> Operand(wordArray[k])
    ensures View(H0, H1, H2, H3, H4) == HashBlocks(Residues(wordArray), blocks)
  {
    var W := new Number[80];
    ghost var n: nat := 0;
    H0, H1, H2, H3, H4 := 0x6745_2301, 0xEFCD_AB89, 0x98BA_DCFE, 0x1032_5476, 0xC3D2_E1F0;
    var blockstart := 0;
    while blockstart < |wordArray|
      invariant blockstart == 16 * n && n <= blocks
      invariant Operands(H0, H1, H2, H3, H4)
      invariant View(H0, H1, H2, H3, H4) == HashBlocks(Residues(wordArray), n)
    {
      H0, H1, H2, H3, H4 := HashNext(W, wordArray, blockstart, H0, H1, H2, H3, H4, n);
      blockstart := blockstart + 16;
      n := n + 1;
    }
    assert n == blocks;
  }

  // Hexadecimal digits.

  const HEX := "0123456789abcdef"

  /** The `k` low base-16 digits of `x`, most significant first. */
  function Hex(x: nat, k: nat): (s: string)
    ensures |s| == k
    ensures forall i :: 0 <= i < k ==> s[i] in HEX
  {
    if k == 0 then "" else Hex(x / 16, k - 1) + [HEX[x % 16]]
  }

  function HexChain(h: Chain): (s: string)
    ensures |s| == 40
    ensures forall i :: 0 <= i < 40 ==> s[i] in HEX
  {
    Hex(h.a, 8) + Hex(h.b, 8) + Hex(h.c, 8) + Hex(h.d, 8) + Hex(h.e, 8)
  }

  function ToLowerCase(s: string): string {
    seq(|s|, i requires 0 <= i < |s| => if 'A' <= s[i] <= 'Z' then s[i] + 32 as char else s[i])
  }

  lemma ShiftNibble(x: nat)
    ensures Shr(x, 4) == x / 16
  {
    assert Shr(x, 4) == Shr(x / 2, 3) == Shr(x / 2 / 2, 2) == Shr(x / 2 / 2 / 2, 1);
    FourHalves(x);
  }

  lemma FourHalves(x: nat)
    ensures x / 2 / 2 / 2 / 2 == x / 16
  {
  }

  lemma LowNibble(x: nat)
    ensures And(x, 15) == x % 16
  {
    AndMask(x, 4);
    assert Pow2(4) == 16;
    ShiftNibble(x);
    ShlIsMultiple(x / 16, 4);
  }

  /** `(val >>> (i * 4)) & 0x0f`. */
  method Nibble(val: Number, i: nat) returns (v: nat)
    requires i < 8
    ensures v == Shr(ToUint32(val), 4 * i) % 16
  {
    ghost var x := Shr(ToUint32(val), 4 * i);
    LowNibble(x);
    ReadWord(x);
    ReadWord(15);
    SmallWord(BitAnd(ShiftRightUnsigned(val, i * 4), 0x0f), x % 16);
    v := BitAnd(ShiftRightUnsigned(val, i * 4), 0x0f);
  }

  lemma HexStep(u: nat, i: nat, k: nat)
    ensures Hex(Shr(u, 4 * i), k + 1) == Hex(Shr(u, 4 * (i + 1)), k) + [HEX[Shr(u, 4 * i) % 16]]
  {
    assert 4 * (i + 1) == 4 * i + 4;
    ShiftTwice(u, 4 * i, 4);
    ShiftNibble(Shr(u, 4 * i));
  }

  method CvtHex(val: Number) returns (str: string)
    ensures str == Hex(ToUint32(val), 8)
  {
    ghost var u := ToUint32(val);
    str := "";
    var i := 7;
    while i >= 0
      invariant -1 <= i <= 7
      invariant str == Hex(Shr(u, 4 * (i + 1)), 7 - i)
    {
      HexStep(u, i, 7 - i);
      var v := Nibble(val, i);
      str := str + [HEX[v]];
      i := i - 1;
    }
  }

  lemma LowerCaseKeepsHex(s: string)
    requires forall i :: 0 <= i < |s| ==> s[i] in HEX
    ensures ToLowerCase(s) == s
  {
    forall i | 0 <= i < |s|
      ensures !('A' <= s[i] <= 'Z')
    {
      assert s[i] in HEX;
    }
  }

  method HexDigest(H0: Number, H1: Number, H2: Number, H3: Number, H4: Number) returns (digest: string)
    ensures digest == HexChain(View(H0, H1, H2, H3, H4))
  {
    var s0 := CvtHex(H0);
    var s1 := CvtHex(H1);
    var s2 := CvtHex(H2);
    var s3 := CvtHex(H3);
    var s4 := CvtHex(H4);
    var temp := s0 + s1 + s2 + s3 + s4;
    assert temp == HexChain(View(H0, H1, H2, H3, H4));
    LowerCaseKeepsHex(temp);
    digest := ToLowerCase(temp);
  }

  /** Eight digits a word, the first word in front, and in a word the most significant digit. */
  ghost predicate Spells(digest: string, h: Chain) {
    && |digest| == 40 && (forall i :: 0 <= i < 40 ==> digest[i] in HEX)
    && (forall i :: 0 <= i < 40 ==> '0' <= digest[i] <= '9' || 'a' <= digest[i] <= 'f')
    && HexValue(digest[0..8]) == h.a
    && HexValue(digest[8..16]) == h.b
    && HexValue(digest[16..24]) == h.c
    && HexValue(digest[24..32]) == h.d
    && HexValue(digest[32..40]) == h.e
  }

  lemma HexChainSpells(h: Chain)
    ensures Spells(HexChain(h), h)
  {
    var a, b, c, d, e := Hex(h.a, 8), Hex(h.b, 8), Hex(h.c, 8), Hex(h.d, 8), Hex(h.e, 8);
    Slices(a, b, c, d, e);
    LowerHexDigits(HexChain(h));
    WordReadsBack(h.a);
    WordReadsBack(h.b);
    WordReadsBack(h.c);
    WordReadsBack(h.d);
    WordReadsBack(h.e);
  }

  lemma Slices(a: string, b: string, c: string, d: string, e: string)
    requires |a| == |b| == |c| == |d| == |e| == 8
    ensures var s := a + b + c + d + e;
      |s| == 40 && s[0..8] == a && s[8..16] == b && s[16..24] == c && s[24..32] == d && s[32..40] == e
  {
  }

  lemma LowerHexDigits(s: string)
    requires forall i :: 0 <= i < |s| ==> s[i] in HEX
    ensures forall i :: 0 <= i < |s| ==> '0' <= s[i] <= '9' || 'a' <= s[i] <= 'f'
  {
  }

  lemma WordReadsBack(w: Word)
    ensures HexValue(Hex(w, 8)) == w
  {
    PowersOfTwo();
    HexReadsBack(w, 8);
  }

  /** For every text the digest is the hash of the source's padding; below 2^32 bytes that is SHA-1. */
  method Mask(text: seq<CodeUnit>) returns (digest: string)
    ensures |digest| == 40 && forall i :: 0 <= i < 40 ==> digest[i] in HEX
    ensures digest == HexChain(HashBlocks(SourceWords(Encoded(text)), BlockCount(|Encoded(text)|)))
    ensures |Encoded(text)| < 0x1_0000_0000 ==> digest == HexChain(Digest(Encoded(text)))
    ensures Spells(digest, HashBlocks(SourceWords(Encoded(text)), BlockCount(|Encoded(text)|)))
    ensures |Encoded(text)| < 0x1_0000_0000 ==> Spells(digest, Digest(Encoded(text)))
  {
    var msg := Utf8Encode(text);
    var wordArray := PackMessage(msg);
    WholeBlocksOf(wordArray, SourceWords(msg), BlockCount(|msg|));
    var H0, H1, H2, H3, H4 := HashWords(wordArray, BlockCount(|msg|));
    HashOfSource(msg, View(H0, H1, H2, H3, H4));
    HexChainSpells(View(H0, H1, H2, H3, H4));
    digest := HexDigest(H0, H1, H2, H3, H4);
  }

  lemma WholeBlocksOf(a: seq<Number>, w: seq<Word>, blocks: nat)
    requires Residues(a) == w && |w| == 16 * blocks
    ensures |a| == 16 * blocks
  {
  }

  lemma HashOfSource(msg: seq<Byte>, h: Chain)
    requires h == HashBlocks(SourceWords(msg), BlockCount(|msg|))
    ensures |msg| < 0x1_0000_0000 ==> h == Digest(msg)
  {
    if |msg| < 0x1_0000_0000 {
      SourceWordsAreFips(msg);
    }
  }

  /** Reading the digits back gives the number, so the text determines the five words. */
  function HexValue(s: string): nat
    requires forall i :: 0 <= i < |s| ==> s[i] in HEX
  {
    if s == "" then 0
    else
      16 * HexValue(s[..|s| - 1]) + DigitValue(s[|s| - 1])
  }

  function DigitValue(c: char): nat
    requires c in HEX
  {
    if c <= '9' then c as nat - '0' as nat else c as nat - 'a' as nat + 10
  }

  lemma DigitReadsBack(d: nat)
    requires d < 16
    ensures HEX[d] in HEX && DigitValue(HEX[d]) == d
  {
  }

  lemma {:induction false} HexReadsBack(x: nat, k: nat)
    requires x < Pow2(4 * k)
    ensures HexValue(Hex(x, k)) == x
  {
    if k > 0 {
      SixteenTimes(x, k);
      HexReadsBack(x / 16, k - 1);
      assert Hex(x, k)[..k - 1] == Hex(x / 16, k - 1);
      DigitReadsBack(x % 16);
    }
  }

  lemma SixteenTimes(x: nat, k: nat)
    requires k > 0 && x < Pow2(4 * k)
    ensures x / 16 < Pow2(4 * (k - 1))
  {
    var p := Pow2(4 * (k - 1));
    assert Pow2(4 * k) == 2 * Pow2(4 * k - 1) == 4 * Pow2(4 * k - 2) == 8 * Pow2(4 * k - 3) == 16 * p;
  }

  lemma HexChainInjective(g: Chain, h: Chain)
    ensures HexChain(g) == HexChain(h) <==> g == h
  {
    HexChainSpells(g);
    HexChainSpells(h);
  }
}
