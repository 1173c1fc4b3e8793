/** `formatMoney`: rounding to c decimals and writing the result, on exact decimal numbers. */
module Money {
  import opened Digits
  import opened Wrappers
  import opened Decimal
  import opened ThousandComma

  // What rounding means, without any text: `k` out of the quotient n / d.

  /** k is n / d rounded to the nearest whole number, a half going up. */
  ghost predicate IsHalfUp(k: nat, n: nat, d: nat) {
    2 * (k * d) <= 2 * n + d < 2 * (k * d) + 2 * d
  }

  /** k is n / d + 1/20 rounded down. */
  ghost predicate IsDown(k: nat, n: nat, d: nat) {
    20 * (k * d) <= 20 * n + d < 20 * (k * d) + 20 * d
  }

  function HalfUpOf(n: nat, d: nat): (k: nat)
    requires d > 0
    ensures IsHalfUp(k, n, d)
  {
    var k := Quotient(2 * n + d, 2 * d);
    MulAssociates(k, 2, d);
    k
  }

  function DownOf(n: nat, d: nat): (k: nat)
    requires d > 0
    ensures IsDown(k, n, d)
  {
    var k := Quotient(20 * n + d, 20 * d);
    MulAssociates(k, 20, d);
    k
  }

  lemma HalfUpUnique(j: nat, k: nat, n: nat, d: nat)
    requires d > 0 && IsHalfUp(j, n, d) && IsHalfUp(k, n, d)
    ensures j == k
  {
    OrderedProducts(j, k, d);
    OrderedProducts(k, j, d);
  }

  lemma DownUnique(j: nat, k: nat, n: nat, d: nat)
    requires d > 0 && IsDown(j, n, d) && IsDown(k, n, d)
    ensures j == k
  {
    OrderedProducts(j, k, d);
    OrderedProducts(k, j, d);
  }

  lemma OrderedProducts(j: nat, k: nat, d: nat)
    ensures j < k ==> j * d + d <= k * d
  {
    if j < k {
      MulMonotone(j + 1, k, d);
      MulDistributes(j, 1, d);
    }
  }

  lemma HalfUpScales(n: nat, d: nat, c: nat)
    requires d > 0 && c > 0 && d * c > 0
    ensures HalfUpOf(n * c, d * c) == HalfUpOf(n, d)
  {
    var k := HalfUpOf(n, d);
    MulAssociates(k, d, c);
    MulMonotone(2 * (k * d), 2 * n + d, c);
    MulMonotone(2 * n + d + 1, 2 * (k * d) + 2 * d, c);
    MulDistributes(2 * n + d, 1, c);
    MulDistributes(2 * n, d, c);
    MulDistributes(2 * (k * d), 2 * d, c);
    MulAssociates(2, n, c);
    MulAssociates(2, k * d, c);
    MulAssociates(2, d, c);
    HalfUpUnique(k, HalfUpOf(n * c, d * c), n * c, d * c);
  }

  /** One digit behind the point decides: the rest of the fraction is below it. */
  lemma CutThenRound(whole: nat, digit: nat, e: nat, p: nat)
    requires e < p && 10 * p > 0
    ensures HalfUpOf(10 * whole + digit, 10) == HalfUpOf((10 * whole + digit) * p + e, 10 * p)
  {
    var x := 10 * whole + digit;
    var k := HalfUpOf(x, 10);
    assert 20 * k <= 2 * x + 10 <= 20 * k + 18;
    MulMonotone(20 * k, 2 * x + 10, p);
    MulMonotone(2 * x + 10, 20 * k + 18, p);
    MulAssociates(20, k, p);
    MulAssociates(k, 10, p);
    MulDistributes(2 * x, 10, p);
    MulAssociates(2, x, p);
    MulDistributes(20 * k, 18, p);
    HalfUpUnique(k, HalfUpOf(x * p + e, 10 * p), x * p + e, 10 * p);
  }

  /** One decimal rounded half up and then cut is a twentieth added and then cut. */
  lemma RoundThenCut(n: nat, d: nat)
    requires d > 0
    ensures HalfUpOf(10 * n, d) / 10 == DownOf(n, d)
  {
    var t := HalfUpOf(10 * n, d);
    var k := t / 10;
    MulMonotone(10 * k, t, d);
    MulMonotone(t + 1, 10 * k + 10, d);
    MulDistributes(t, 1, d);
    MulDistributes(10 * k, 10, d);
    MulAssociates(10, k, d);
    DownUnique(k, DownOf(n, d), n, d);
  }

  /**
   * The mode named DOWN exceeds the exact quotient exactly when 19/20 of a unit or more
   * would be cut off, and then by at most a twentieth.
   */
  lemma DownTruncatesExactlyWhen(n: nat, d: nat)
    requires d > 0
    ensures DownOf(n, d) == Quotient(n, d) <==> 20 * Remainder(n, d) < 19 * d
    ensures DownOf(n, d) * d > n <==> 20 * Remainder(n, d) >= 19 * d
    ensures 20 * (DownOf(n, d) * d) <= 20 * n + d
  {
    var q, r := Quotient(n, d), Remainder(n, d);
    MulDistributes(q, 1, d);
    if 20 * r < 19 * d {
      DownUnique(q, DownOf(n, d), n, d);
    } else {
      DownUnique(q + 1, DownOf(n, d), n, d);
    }
  }

  lemma DownOfExample(n: nat, d: nat)
    requires n == 1999600 && d == 10000
    ensures DownOf(n, d) == 200 && Quotient(n, d) == 199
  {
    DownUnique(200, DownOf(n, d), n, d);
    QuotientUnique(n, d, 199);
  }

  /** 1.9996 at two places: DOWN makes 200 hundredths of it, where truncation leaves 199. */
  lemma DownExceeds(money: Number, c: nat)
    requires money == Num(false, 19996, 4) && c == 2
    ensures var n, d := money.mantissa * Pow10(c), Pow10(money.scale); DownOf(n, d) == 200 && Quotient(n, d) == 199
    ensures forall text :: Writes(text, false, 200, c) ==> StripCommas(text) == "2.00"
  {
    assert Pow10(2) == 100 && Pow10(4) == 10000;
    DownOfExample(money.mantissa * Pow10(c), Pow10(money.scale));
    TwoHundredHundredths(200, 2);
  }

  lemma TwoHundredHundredths(k: nat, c: nat)
    requires k == 200 && c == 2
    ensures Fixed(false, k, c) == "2.00"
  {
    assert Pow10(c) == 100;
    QuotientUnique(k, 100, 2);
    assert Write(2) == "2" && Pad(0, 2) == "00" && "2" + ("." + "00") == "2.00";
  }

  // Texts of rounded numbers.

  /** `toFixed(c)` of a number that rounds to k / 10^c in magnitude; `sign` says that it is below zero. */
  function Fixed(sign: bool, k: nat, c: nat): string {
    Signed(sign, Write(Whole(k, c)) + if c == 0 then "" else "." + Pad(Fraction(k, c), c))
  }

  lemma ParseUnsigned(w: string, d: string)
    requires AllDigits(w) && AllDigits(d) && w != ""
    ensures AllDigits(w + d) && ParseFloat(w) == Some(Num(false, Val(w), 0))
    ensures ParseFloat(w + ("." + d)) == Some(Num(false, Val(w + d), |d|))
  {
    ParseShown(false, w, d);
    RunBeforePoint(w, w);
    assert w[..|w|] == w && w[|w|..] == "" && w + "" == w;
  }

  lemma ParseSigned(w: string)
    requires AllDigits(w) && w != ""
    ensures ParseFloat(Signed(true, w)) == Some(Num(true, Val(w), 0))
  {
    RunBeforePoint(w, w);
    assert Signed(true, w)[1..] == w && w[..|w|] == w && w[|w|..] == "" && w + "" == w;
  }

  lemma JoinedDigits(k: nat, c: nat)
    ensures var w, d := Write(Whole(k, c)), Pad(Fraction(k, c), c); AllDigits(w + d) && Val(w + d) == k
  {
    ValConcat(Write(Whole(k, c)), Pad(Fraction(k, c), c));
    ValWrite(Whole(k, c));
    ValPad(Fraction(k, c), c);
  }

  /** Reading the text gives the rounded number back. */
  lemma ReadsFixed(sign: bool, k: nat, c: nat)
    ensures ParseFloat(Fixed(sign, k, c)) == Some(Num(sign, k, c))
  {
    var w, d := Write(Whole(k, c)), Pad(Fraction(k, c), c);
    JoinedDigits(k, c);
    if c == 0 {
      assert w + "" == w && w + d == w;
      ParseUnsigned(w, "");
      ParseSigned(w);
    } else {
      ParseShown(sign, w, d);
    }
  }

  // The two rounding modes.

  /** `money2.substring(0, money2.split('.')[0].length + 2)`. */
  function CutBehindPoint(text: string): string {
    var end := |FirstPart(text)| + 2;
    text[..if end < |text| then end else |text|]
  }

  /** `Math.round` of the text of m / 10^s, cut off one digit behind the point. */
  method RoundCut(m: nat, s: nat) returns (k: nat)
    ensures k == HalfUpOf(m, Pow10(s))
  {
    CutTextRounds(m, s);
    var money2 := AbsText(m, s);
    var cut := ParseFloat(CutBehindPoint(money2));
    k := HalfUpOf(cut.value.mantissa, Pow10(cut.value.scale));
  }

  /** The first digit behind the point of n / 10^t. */
  function FirstDigit(n: nat, t: nat): (d: nat)
    requires t > 0
    ensures d < 10
  {
    var f, p := Fraction(n, t), Pow10(t - 1);
    assert Quotient(f, p) < 10 by {
      if Quotient(f, p) >= 10 {
        MulMonotone(10, Quotient(f, p), p);
      }
    }
    Quotient(f, p)
  }

  lemma Recompose(n: nat, w: nat, f: nat, d: nat, e: nat, p: nat)
    requires n == w * (10 * p) + f && f == d * p + e
    ensures (10 * w + d) * p + e == n
  {
    MulDistributes(10 * w, d, p);
    MulAssociates(w, 10, p);
  }

  lemma CutQuotientRounds(n: nat, p: nat, w: nat, f: nat, d: nat)
    requires p > 0 && n == w * (10 * p) + f && d * p <= f < d * p + p
    ensures HalfUpOf(10 * w + d, 10) == HalfUpOf(n, 10 * p)
  {
    Recompose(n, w, f, d, f - d * p, p);
    CutThenRound(w, d, f - d * p, p);
  }

  lemma FirstDigitRounds(n: nat, t: nat)
    requires t > 0
    ensures HalfUpOf(10 * Whole(n, t) + FirstDigit(n, t), 10) == HalfUpOf(n, Pow10(t))
  {
    CutQuotientRounds(n, Pow10(t - 1), Whole(n, t), Fraction(n, t), FirstDigit(n, t));
  }

  lemma ReadsOneDecimal(w: nat, digit: nat)
    requires digit < 10
    ensures ParseFloat(Write(w) + ("." + Pad(digit, 1))) == Some(Num(false, 10 * w + digit, 1))
  {
    assert Pow10(1) == 10;
    ParseUnsigned(Write(w), Pad(digit, 1));
    ValConcat(Write(w), Pad(digit, 1));
    ValWrite(w);
    ValPad(digit, 1);
  }

  lemma CutLong(w: string, f: string)
    requires AllDigits(w) && AllDigits(f) && f != ""
    ensures CutBehindPoint(w + "." + f) == w + ("." + f[..1])
  {
    PointAfter(w, f);
  }

  lemma CutShort(w: string)
    requires AllDigits(w)
    ensures CutBehindPoint(w) == w
  {
    NoPoint(w);
  }

  lemma CutTextRounds(m: nat, s: nat)
    ensures var r := ParseFloat(CutBehindPoint(AbsText(m, s)));
      r.Some? && HalfUpOf(r.value.mantissa, Pow10(r.value.scale)) == HalfUpOf(m, Pow10(s))
  {
    var (n, t) := Normal(m, s);
    NormalRounds(m, s);
    if t == 0 {
      CutShort(Write(n));
      ParseUnsigned(Write(n), "");
      ValWrite(n);
    } else {
      CutLong(Write(Whole(n, t)), Pad(Fraction(n, t), t));
      PadPrefix(Fraction(n, t), t, 1);
      ReadsOneDecimal(Whole(n, t), FirstDigit(n, t));
      FirstDigitRounds(n, t);
      assert Pow10(1) == 10;
    }
  }

  lemma NormalRounds(m: nat, s: nat)
    ensures var (n, t) := Normal(m, s); HalfUpOf(n, Pow10(t)) == HalfUpOf(m, Pow10(s))
  {
    var (n, t) := Normal(m, s);
    NormalSameValue(m, s);
    Pow10Sum(t, s - t);
    HalfUpScales(n, Pow10(t), Pow10(s - t));
  }

  lemma PlainSigned(sign: bool, w: string)
    requires AllDigits(w)
    ensures ',' !in Signed(sign, w) && '.' !in Signed(sign, w)
  {
    assert forall i :: 0 <= i < |Signed(sign, w)| ==> IsDigit(Signed(sign, w)[i]) || Signed(sign, w)[i] == '-';
  }

  lemma PartsOfFixed(w: string, f: string)
    requires '.' !in w && AllDigits(f)
    ensures FirstPart(w + ("." + f)) == w && SecondPart(w + ("." + f)) == f
  {
    FirstPartBefore(w, "." + f);
    assert (w + ("." + f))[|w| + 1..] == f;
    NoPoint(f);
  }

  /** `Fixed` without a choice in it: a signed whole part and the decimals, if any. */
  lemma FixedSplit(sign: bool, k: nat, c: nat)
    ensures var w := Signed(sign, Write(Whole(k, c)));
      Fixed(sign, k, c) == if c == 0 then w else w + ("." + Pad(Fraction(k, c), c))
  {
    var w := Write(Whole(k, c));
    if c == 0 {
      assert w + "" == w;
    } else {
      assert "-" + (w + ("." + Pad(Fraction(k, c), c))) == "-" + w + ("." + Pad(Fraction(k, c), c));
    }
  }

  lemma NoCommaInFixed(sign: bool, k: nat, c: nat)
    ensures var text := Fixed(sign, k, c);
      && ',' !in text && FirstPart(text) == Signed(sign, Write(Whole(k, c)))
      && SecondPart(text) == if c == 0 then "" else Pad(Fraction(k, c), c)
  {
    var w, f := Signed(sign, Write(Whole(k, c))), Pad(Fraction(k, c), c);
    FixedSplit(sign, k, c);
    PlainSigned(sign, Write(Whole(k, c)));
    if c == 0 {
      FirstPartWhole(w);
    } else {
      PartsOfFixed(w, f);
    }
  }

  lemma {:induction false} FirstPartWhole(s: string)
    requires '.' !in s
    ensures FirstPart(s) == s
  {
    if s != "" {
      FirstPartWhole(s[1..]);
    }
  }

  lemma {:induction false} FirstPartBefore(s: string, t: string)
    requires '.' !in s && t != "" && t[0] == '.'
    ensures FirstPart(s + t) == s
  {
    if s == "" {
      assert s + t == t;
    } else {
      assert (s + t)[1..] == s[1..] + t;
      FirstPartBefore(s[1..], t);
    }
  }

  /** The text of (-1)^sign * k / 10^c with separators; zero has no sign. */
  ghost predicate Writes(text: string, sign: bool, k: nat, c: nat) {
    && StripCommas(text) == Fixed(sign && k > 0, k, c)
    && ParseFloat(StripCommas(text)) == Some(Num(sign && k > 0, k, c))
    && text == Grouped(Signed(sign && k > 0, Write(Whole(k, c)))) + if c == 0 then "" else "." + Pad(Fraction(k, c), c)
  }

  lemma FixedStartsPlain(sign: bool, k: nat, c: nat)
    ensures StartsPlain(Fixed(sign, k, c))
  {
    var rest := if c == 0 then "" else "." + Pad(Fraction(k, c), c);
    NoCommaInFixed(sign, k, c);
    StripPlain(Fixed(sign, k, c));
    PlainStart(sign, Whole(k, c), rest);
  }

  lemma WritesStartsPlain(text: string, sign: bool, k: nat, c: nat)
    requires Writes(text, sign, k, c)
    ensures StartsPlain(text)
  {
    FixedStartsPlain(sign && k > 0, k, c);
    NoCommaInFixed(sign && k > 0, k, c);
    StripPlain(Fixed(sign && k > 0, k, c));
  }

  /** `(sign * (k / 10^c)).toFixed(c)` with separators. */
  method WriteFixed(sign: bool, k: nat, c: nat) returns (text: string)
    ensures Writes(text, sign, k, c) && StartsPlain(text)
  {
    var below := sign && k > 0;
    ghost var w, rest := Signed(below, Write(Whole(k, c))), if c == 0 then "" else "." + Pad(Fraction(k, c), c);
    text := ThousandComma.ThousandComma(Fixed(below, k, c));
    NoCommaInFixed(below, k, c);
    assert text == Grouped(w) + rest;
    FixedSplit(below, k, c);
    assert Fixed(below, k, c) == w + rest;
    StripWritten(w, rest);
    ReadsFixed(below, k, c);
    WritesStartsPlain(text, sign, k, c);
  }

  /** Rounding half away from zero at c places, written with separators when there is one. */
  method FormatHalfUp(money: Number, c: nat, separateSign: bool) returns (text: string)
    ensures var sign := money.negative && money.mantissa > 0;
      var k := HalfUpOf(money.mantissa * Pow10(c), Pow10(money.scale));
      if separateSign then Writes(text, sign, k, c) else text == Fixed(sign && k > 0, k, c)
    ensures StartsPlain(text)
  {
    var sign := money.negative && money.mantissa > 0;
    var k := RoundCut(money.mantissa * Pow10(c), money.scale);
    if separateSign {
      text := WriteFixed(sign, k, c);
    } else {
      text := Fixed(sign && k > 0, k, c);
      FixedStartsPlain(sign && k > 0, k, c);
    }
  }

  /** `Math.ceil` below zero and `Math.floor` above, of the text that `toFixed(1)` gives for n / d. */
  method CutTenths(sign: bool, n: nat, d: nat) returns (k: nat)
    requires d > 0
    ensures k == DownOf(n, d)
  {
    var tenths := HalfUpOf(10 * n, d);
    ReadsFixed(sign, tenths, 1);
    var oneDecimal := ParseFloat(Fixed(sign, tenths, 1)).value;
    RoundThenCut(n, d);
    assert Pow10(1) == 10;
    QuotientByTen(tenths);
    var whole := if sign then Ceil(oneDecimal) else Floor(oneDecimal);
    k := if sign then -whole else whole;
  }

  /** The mode named DOWN. */
  method FormatDown(money: Number, c: nat) returns (text: string)
    ensures Writes(text, money.negative && money.mantissa > 0, DownOf(money.mantissa * Pow10(c), Pow10(money.scale)), c)
    ensures StartsPlain(text)
  {
    var sign := money.negative && money.mantissa > 0;
    var k := CutTenths(sign, money.mantissa * Pow10(c), Pow10(money.scale));
    text := WriteFixed(sign, k, c);
  }

  /** Whole numbers next to x towards +infinity and towards -infinity. */
  function Ceil(x: Number): (r: int)
    ensures x.negative ==> r + Quotient(x.mantissa, Pow10(x.scale)) == 0
  {
    var q: int := Quotient(x.mantissa, Pow10(x.scale));
    if x.negative then -q else if Remainder(x.mantissa, Pow10(x.scale)) == 0 then q else q + 1
  }

  function Floor(x: Number): (r: int)
    ensures !x.negative ==> r == Quotient(x.mantissa, Pow10(x.scale))
  {
    -Ceil(x.(negative := !x.negative))
  }
}
