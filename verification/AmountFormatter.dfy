/** The amount input: cleaning, reading and re-writing a typed amount with its default options. */
module AmountFormatter {
  import opened Digits
  import opened Wrappers
  import opened Decimal
  import opened ThousandComma

  // Reading a text.

  predicate Kept(c: char, minus: bool) {
    IsDigit(c) || c == '.' || (minus && c == '-')
  }

  /** Digits and points, and minus characters where they are wanted. */
  function Keep(s: string, minus: bool): string {
    if s == "" then "" else
      var head := if Kept(s[0], minus) then [s[0]] else "";
      head + Keep(s[1..], minus)
  }

  function RemoveMinus(s: string): string {
    if s == "" then "" else
      var head := if s[0] != '-' then [s[0]] else "";
      head + RemoveMinus(s[1..])
  }

  function Count(s: string, c: char): nat {
    if s == "" then 0 else (if s[0] == c then 1 else 0) + Count(s[1..], c)
  }

  /** A minus character in front, or an odd number of them. */
  predicate IsNegative(text: string) {
    (text != "" && text[0] == '-') || Count(text, '-') % 2 == 1
  }

  /** What a text means to the input: its sign and its number. */
  function Reads(text: string): Option<Number> {
    ParseFloat(Signed(IsNegative(text), Keep(text, false)))
  }

  // Writing a number.

  /** One or two decimals: what is left of the fraction after two digits, or two zeros. */
  function Decimals(m: nat, s: nat): string {
    if s == 0 then "00" else Pad(Fraction(m, s), s)[..if s < 2 then s else 2]
  }

  function Shown(n: Number): string {
    var (m, s) := Normal(n.mantissa, n.scale);
    Signed(n.negative && n.mantissa > 0, Grouped(Write(Whole(m, s))) + ("." + Decimals(m, s)))
  }

  /** The text that replaces a typed text. */
  function Formatted(text: string): string {
    if text == "" then ""
    else match Reads(text)
      case None => "0.00"
      case Some(n) => Shown(n)
  }

  // The method.

  /** Matches of `/\\./g`, a backslash and one more character; `\` is what the source's regex looks for. */
  function BackslashPairs(s: string): nat {
    if |s| < 2 then 0
    else if s[0] == '\\' && s[1] !in "\n\r" then 1 + BackslashPairs(s[2..])
    else BackslashPairs(s[1..])
  }

  lemma {:induction false} NoBackslashNoPair(s: string)
    requires '\\' !in s
    ensures BackslashPairs(s) == 0
  {
    if |s| >= 2 {
      NoBackslashNoPair(s[1..]);
    }
  }

  lemma {:induction false} KeepOnly(s: string, minus: bool)
    ensures forall i :: 0 <= i < |Keep(s, minus)| ==> Kept(Keep(s, minus)[i], minus)
  {
    if s != "" {
      KeepOnly(s[1..], minus);
    }
  }

  lemma RemoveMinusHead(c: char, rest: string)
    ensures RemoveMinus([c] + rest) == (if c != '-' then [c] else "") + RemoveMinus(rest)
    ensures Count([c] + rest, '-') == (if c == '-' then 1 else 0) + Count(rest, '-')
  {
    assert ([c] + rest)[1..] == rest;
  }

  lemma {:induction false} KeepTwice(s: string)
    ensures RemoveMinus(Keep(s, true)) == Keep(s, false)
    ensures Count(Keep(s, true), '-') == Count(s, '-')
  {
    if s != "" {
      var r := Keep(s[1..], true);
      KeepTwice(s[1..]);
      RemoveMinusHead(s[0], r);
      assert Keep(s, true) == if Kept(s[0], true) then [s[0]] + r else r;
      assert Keep(s, false) == (if Kept(s[0], false) then [s[0]] else "") + Keep(s[1..], false);
    }
  }

  lemma DigitsOnlyWordChars(s: string)
    requires AllDigits(s)
    ensures LookaheadGrouped(s) == Grouped(s)
  {
    LookaheadIsGrouped(s, false);
  }

  class Input {
    var value: string

    constructor (value: string)
      ensures this.value == value
    {
      this.value := value;
    }

    method OnChangeSeparatorAdvanced()
      modifies this
      ensures value == Formatted(old(value))
      ensures value != "" ==> StartsPlain(value)
    {
      if value != "" {
        FormattedStartsPlain(value);
      }
      if value == "" {
        return;
      }
      var cleanValue := Clean(value);
      if cleanValue == "" || cleanValue == "-" {
        value := "0.00";
        return;
      }
      var num := ParseFloat(cleanValue);
      if num.None? {
        value := "0.00";
        return;
      }
      value := WriteNumber(num.value);
    }
  }

  lemma NoCommaInDecimals(d: string)
    requires AllDigits(d)
    ensures ',' !in "." + d
  {
  }

  lemma SignedStartsPlain(sign: bool, n: nat, d: string)
    requires AllDigits(d)
    ensures StartsPlain(Signed(sign, Grouped(Write(n)) + ("." + d)))
  {
    var w, rest := Write(n), "." + d;
    NoCommaInDecimals(d);
    StripWritten(w, rest);
    StripHead('-', Grouped(w) + rest);
    PlainStart(sign, n, rest);
  }

  /** What is shown has no zero in front of its whole part. */
  lemma FormattedStartsPlain(text: string)
    requires text != ""
    ensures StartsPlain(Formatted(text))
  {
    match Reads(text)
    case None => DefaultStartsPlain();
    case Some(n) => ShownStartsPlain(n);
  }

  lemma DefaultStartsPlain()
    ensures StartsPlain("0.00")
  {
    StripPlain("0.00");
  }

  lemma ShownStartsPlain(n: Number)
    ensures StartsPlain(Shown(n))
  {
    var (m, s) := Normal(n.mantissa, n.scale);
    SignedStartsPlain(n.negative && n.mantissa > 0, Whole(m, s), Decimals(m, s));
  }

  /** The text with one sign in front and nothing but digits and points behind it. */
  method Clean(text: string) returns (cleanValue: string)
    requires text != ""
    ensures ParseFloat(cleanValue) == Reads(text)
  {
    var hasNegativeAtStart := text[0] == '-';
    KeepTwice(text);
    cleanValue := Keep(text, true);
    var negativeCount := Count(cleanValue, '-');
    cleanValue := RemoveMinus(cleanValue);
    var shouldBeNegative := hasNegativeAtStart || negativeCount % 2 == 1;
    if shouldBeNegative && cleanValue != "" {
      cleanValue := "-" + cleanValue;
    }
    KeepOnly(text, false);
    NoBackslashNoPair(cleanValue);
    if BackslashPairs(cleanValue) > 1 {
      // the branch that would drop every point but the first
      assert false;
    }
  }

  /** Two digits of the fraction, or as many as there are, or two zeros. */
  method CutDecimals(part: string, ghost m: nat, ghost s: nat) returns (decimalPart: string)
    requires part == if s == 0 then "" else Pad(Fraction(m, s), s)
    ensures decimalPart == Decimals(m, s)
  {
    decimalPart := part;
    if decimalPart != "" {
      decimalPart := decimalPart[..if |decimalPart| < 2 then |decimalPart| else 2];
    } else {
      decimalPart := "00";
    }
  }

  method WriteNumber(num: Number) returns (finalValue: string)
    ensures finalValue == Shown(num)
  {
    ghost var (m, s) := Normal(num.mantissa, num.scale);
    var isNegative := num.negative && num.mantissa > 0;
    var absoluteValue := AbsText(num.mantissa, num.scale);
    PartsOfAbsText(num.mantissa, num.scale);
    var integerPart := FirstPart(absoluteValue);
    var decimalPart := CutDecimals(SecondPart(absoluteValue), m, s);
    DigitsOnlyWordChars(integerPart);
    var formattedInteger := LookaheadGrouped(integerPart);
    finalValue := (if isNegative then "-" else "") + formattedInteger;
    finalValue := finalValue + ("." + decimalPart);
    Assembled(isNegative, formattedInteger, "." + decimalPart);
  }

  lemma Assembled(sign: bool, a: string, b: string)
    ensures (if sign then "-" else "") + a + b == Signed(sign, a + b)
  {
  }

  // A second and a third pass.

  /** The number that is shown for `n`: at most two decimals of it. */
  function Cut(n: Number): (r: Number)
    ensures r.scale == 1 || r.scale == 2
  {
    var (m, s) := Normal(n.mantissa, n.scale);
    var d := Decimals(m, s);
    ValConcat(Write(Whole(m, s)), d);
    Num(n.negative && n.mantissa > 0, Val(Write(Whole(m, s)) + d), |d|)
  }

  /** Hundredths of |n|, rounded towards zero. */
  function Cents(n: Number): nat {
    Quotient(n.mantissa * 100, Pow10(n.scale))
  }

  function SignedCents(n: Number): int {
    var cents: int := Cents(n);
    if n.negative then -cents else cents
  }

  lemma {:induction false} KeepConcat(a: string, b: string, minus: bool)
    ensures Keep(a + b, minus) == Keep(a, minus) + Keep(b, minus)
  {
    if a == "" {
      assert a + b == b;
    } else {
      assert (a + b)[1..] == a[1..] + b;
      KeepConcat(a[1..], b, minus);
      var head := if Kept(a[0], minus) then [a[0]] else "";
      assert Keep(a + b, minus) == head + (Keep(a[1..], minus) + Keep(b, minus));
    }
  }

  lemma {:induction false} CountConcat(a: string, b: string, c: char)
    ensures Count(a + b, c) == Count(a, c) + Count(b, c)
  {
    if a == "" {
      assert a + b == b;
    } else {
      assert (a + b)[1..] == a[1..] + b;
      CountConcat(a[1..], b, c);
    }
  }

  /** The cleaning regex takes out exactly the separators that were put in. */
  lemma {:induction false} KeepGrouped(s: string, after: bool)
    requires AllDigits(s)
    ensures Keep(Grouped(s, after), false) == s && Count(Grouped(s, after), '-') == 0
  {
    if s != "" {
      var rest := Grouped(s[1..], true);
      KeepGrouped(s[1..], true);
      KeepPiece(s[0], rest, s[1..]);
      var comma := after && Run(s) % 3 == 0;
      assert Grouped(s, after) == if comma then [','] + ([s[0]] + rest) else [s[0]] + rest;
    }
  }

  lemma KeepPiece(c: char, rest: string, kept: string)
    requires IsDigit(c) && Keep(rest, false) == kept && Count(rest, '-') == 0
    ensures Keep([c] + rest, false) == [c] + kept && Count([c] + rest, '-') == 0
    ensures Keep([','] + ([c] + rest), false) == [c] + kept && Count([','] + ([c] + rest), '-') == 0
  {
    KeepHead(c, rest);
    KeepHead(',', [c] + rest);
  }

  lemma KeepHead(c: char, rest: string)
    ensures Keep([c] + rest, false) == (if Kept(c, false) then [c] else "") + Keep(rest, false)
    ensures Count([c] + rest, '-') == (if c == '-' then 1 else 0) + Count(rest, '-')
  {
    assert ([c] + rest)[1..] == rest;
  }

  lemma {:induction false} KeepDigits(s: string)
    requires AllDigits(s)
    ensures Keep(s, false) == s && Count(s, '-') == 0
  {
    if s != "" {
      KeepDigits(s[1..]);
    }
  }

  lemma CleanSigned(sign: bool, u: string)
    requires u != "" && u[0] != '-'
    ensures Keep(Signed(sign, u), false) == Keep(u, false)
    ensures Count(Signed(sign, u), '-') == Count(u, '-') + (if sign then 1 else 0)
    ensures (Signed(sign, u)[0] == '-') == sign
  {
    KeepHead('-', u);
  }

  /** A shown text, cleaned: the digits without separators and the sign in front. */
  lemma CleanShown(w: string, d: string)
    requires AllDigits(w) && AllDigits(d) && w != ""
    ensures var u := Grouped(w) + ("." + d);
      Keep(u, false) == w + ("." + d) && Count(u, '-') == 0 && u != "" && u[0] != '-'
  {
    KeepGrouped(w, false);
    KeepDigits(d);
    KeepHead('.', d);
    KeepConcat(Grouped(w), "." + d, false);
    CountConcat(Grouped(w), "." + d, '-');
    assert Grouped(w)[0] == w[0];
  }

  /** Reading a shown text gives the number that was shown. */
  lemma ReadsShown(n: Number)
    ensures Shown(n) != "" && Reads(Shown(n)) == Some(Cut(n))
  {
    var (m, s) := Normal(n.mantissa, n.scale);
    ReadsSigned(n.negative && n.mantissa > 0, Write(Whole(m, s)), Decimals(m, s));
  }

  lemma ReadsSigned(sign: bool, w: string, d: string)
    requires AllDigits(w) && AllDigits(d) && w != ""
    ensures AllDigits(w + d)
    ensures var t := Signed(sign, Grouped(w) + ("." + d)); t != "" && Reads(t) == Some(Num(sign, Val(w + d), |d|))
  {
    CleanShown(w, d);
    CleanSigned(sign, Grouped(w) + ("." + d));
    ParseShown(sign, w, d);
  }

  lemma SplitCents(m: nat, p: nat)
    requires p > 0
    ensures var w, f := Quotient(m, 100 * p), Remainder(m, 100 * p);
      Quotient(f, p) < 100 && w * 100 + Quotient(f, p) == Quotient(m * 100, 100 * p)
  {
    var w, f := Quotient(m, 100 * p), Remainder(m, 100 * p);
    var h := Quotient(f, p);
    assert h < 100 by {
      if h >= 100 {
        MulMonotone(100, h, p);
      }
    }
    MulAssociates(w, 100, p);
    MulDistributes(w * 100, h, p);
    QuotientUnique(m, p, w * 100 + h);
    QuotientCancel(m, p, 100);
  }

  lemma OneOrTwoDecimals(m: nat, s: nat)
    ensures var d := Decimals(m, s);
      && AllDigits(d) && |d| == (if s == 1 then 1 else 2)
      && Val(d) == if s == 0 then 0 else if s == 1 then Fraction(m, s) else Quotient(Fraction(m, s), Pow10(s - 2))
  {
    var f := Fraction(m, s);
    if s == 0 {
      ValPad(0, 2);
      assert Pad(0, 2) == "00";
    } else if s == 1 {
      ValPad(f, 1);
      assert Pad(f, 1)[..1] == Pad(f, 1);
    } else {
      Pow10Sum(2, s - 2);
      assert Pow10(2) == 100;
      SplitCents(m, Pow10(s - 2));
      PadPrefix(f, s, 2);
      ValPad(Quotient(f, Pow10(s - 2)), 2);
    }
  }

  lemma LongCents(m: nat, s: nat)
    requires s >= 2
    ensures Whole(m, s) * 100 + Quotient(Fraction(m, s), Pow10(s - 2)) == Quotient(m * 100, Pow10(s))
    ensures Quotient(Fraction(m, s), Pow10(s - 2)) < 100
  {
    Pow10Sum(2, s - 2);
    assert Pow10(2) == 100;
    SplitCents(m, Pow10(s - 2));
  }

  /** m / 10^s in hundredths, from its whole part and its decimals. */
  lemma CentsOfParts(m: nat, s: nat)
    ensures var d := Decimals(m, s);
      && AllDigits(d) && 1 <= |d| <= 2
      && (Whole(m, s) * Pow10(|d|) + Val(d)) * Pow10(2 - |d|) == Quotient(m * 100, Pow10(s))
  {
    OneOrTwoDecimals(m, s);
    assert Pow10(0) == 1 && Pow10(1) == 10 && Pow10(2) == 100;
    if s >= 2 {
      LongCents(m, s);
    } else if s == 1 {
      QuotientUnique(m * 100, 10, m * 10);
    } else {
      QuotientByOne(m);
      QuotientByOne(m * 100);
    }
  }

  lemma CentsOfNormal(n: Number)
    ensures var (m, s) := Normal(n.mantissa, n.scale); Cents(n) == Quotient(m * 100, Pow10(s))
  {
    var (m, s) := Normal(n.mantissa, n.scale);
    var c := Pow10(n.scale - s);
    NormalSameValue(n.mantissa, n.scale);
    Pow10Sum(s, n.scale - s);
    assert n.mantissa * 100 == (m * 100) * c by { MulAssociates(m, c, 100); }
    QuotientCancel(m * 100, Pow10(s), c);
  }

  /** The number shown is the number read, truncated toward zero to two places. */
  lemma CutTruncates(n: Number)
    ensures Cut(n).mantissa * Pow10(2 - Cut(n).scale) == Cents(n)
    ensures Cents(Cut(n)) == Cents(n) && SignedCents(Cut(n)) == SignedCents(n)
  {
    var (m, s) := Normal(n.mantissa, n.scale);
    var w, d := Write(Whole(m, s)), Decimals(m, s);
    CentsOfParts(m, s);
    CentsOfNormal(n);
    ValConcat(w, d);
    ValWrite(Whole(m, s));
    ExactCents(Cut(n));
    if n.mantissa == 0 {
      QuotientUnique(0, Pow10(n.scale), 0);
    }
  }

  lemma ExactCents(r: Number)
    requires r.scale == 1 || r.scale == 2
    ensures Cents(r) == r.mantissa * Pow10(2 - r.scale)
  {
    assert Pow10(1) == 10 && Pow10(2) == 100;
    QuotientUnique(r.mantissa * 100, Pow10(r.scale), r.mantissa * Pow10(2 - r.scale));
  }

  /** The value after one pass, for every typed text that holds a number. */
  lemma FirstPassTruncates(text: string)
    requires text != "" && Reads(text).Some?
    ensures Formatted(text) != "" && Reads(Formatted(text)).Some?
    ensures SignedCents(Reads(Formatted(text)).value) == SignedCents(Reads(text).value)
    ensures var r := Reads(Formatted(text)).value;
      r.scale <= 2 && r.mantissa * Pow10(2 - r.scale) == Cents(Reads(text).value)
  {
    ReadsShown(Reads(text).value);
    CutTruncates(Reads(text).value);
  }

  lemma ValOfPad(m: nat, k: nat, s: string)
    requires m < Pow10(k) && Pad(m, k) == s
    ensures AllDigits(s) && |s| == k && Val(s) == m
  {
    ValPad(m, k);
  }

  lemma ReadsDefault()
    ensures Reads("0.00") == Some(Num(false, 0, 2))
  {
    assert Pad(0, 3) == "000" == "0" + "00";
    ValOfPad(0, 3, "000");
    ShortDigits("0", false);
    assert "0" + ("." + "00") == "0.00";
    ReadsSigned(false, "0", "00");
  }

  lemma ShownZero()
    ensures Shown(Num(false, 0, 2)) == "0.00"
  {
    assert Normal(0, 2) == (0, 0);
    QuotientByOne(0);
    ShortDigits("0", false);
    assert Write(0) == "0";
  }

  lemma NormalOfCut(r: Number)
    requires r.scale == 1 || r.scale == 2
    ensures Normal(r.mantissa, r.scale) == Normal(r.mantissa * Pow10(2 - r.scale), 2)
  {
    assert Pow10(1) == 10;
    if r.scale == 1 {
      NormalTrailingZero(r.mantissa, 1);
    }
  }

  /** A number with at most two decimals is shown the same after it was shown once. */
  lemma ShownOfCut(r: Number)
    requires r.scale == 1 || r.scale == 2
    ensures Shown(Cut(r)) == Shown(r)
  {
    CutTruncates(r);
    ExactCents(r);
    NormalOfCut(r);
    NormalOfCut(Cut(r));
    assert Pow10(1) == 10 && Pow10(0) == 1;
  }

  /** A second pass never changes the value. */
  lemma SecondPassKeepsValue(text: string)
    requires text != "" && Reads(text).Some?
    ensures var once := Formatted(text); var twice := Formatted(once);
      && Reads(once).Some? && Reads(twice).Some?
      && SignedCents(Reads(twice).value) == SignedCents(Reads(once).value)
      && Cents(Reads(twice).value) == Cents(Reads(text).value)
  {
    FirstPassTruncates(text);
    FirstPassTruncates(Formatted(text));
  }

  /** A third pass never changes the text, whatever was typed. */
  lemma ThirdPassKeepsText(text: string)
    ensures Formatted(Formatted(Formatted(text))) == Formatted(Formatted(text))
  {
    if text != "" {
      ReadsDefault();
      ShownZero();
      if Reads(text).Some? {
        var n := Reads(text).value;
        ReadsShown(n);
        ReadsShown(Cut(n));
        ShownOfCut(Cut(n));
      }
    }
  }

  // When is a second pass already without effect?

  /**
   * There are more than two decimals once trailing zeros are dropped, the second one is 0, and either the
   * first one is not, so the zero is written now and dropped later, or a negative number is cut to "-0.00".
   */
  predicate Wobbles(n: Number) {
    var c := Cents(n);
    Normal(n.mantissa, n.scale).1 >= 3 && c % 10 == 0 && (c % 100 != 0 || (n.negative && c == 0))
  }

  lemma NormalOfNormal(m: nat, s: nat)
    ensures Normal(Normal(m, s).0, Normal(m, s).1) == Normal(m, s)
  {
  }

  lemma HundredthsOfShort(m: nat, s: nat)
    requires s <= 2
    ensures Quotient(m * 100, Pow10(s)) == m * Pow10(2 - s)
    ensures Normal(m * Pow10(2 - s), 2) == Normal(m, s)
  {
    assert Pow10(0) == 1 && Pow10(1) == 10 && Pow10(2) == 100;
    if s == 0 {
      QuotientByOne(m * 100);
      NormalTrailingZero(m, 0);
      NormalTrailingZero(10 * m, 1);
    } else if s == 1 {
      QuotientUnique(m * 100, 10, m * 10);
      NormalTrailingZero(m, 1);
    } else {
      QuotientUnique(m * 100, 100, m);
    }
  }

  lemma PositiveProduct(a: nat, b: nat)
    requires b >= 1
    ensures a * b > 0 <==> a > 0
  {
    MulMonotone(1, b, a);
  }

  lemma CutOfShort(n: Number)
    requires Normal(n.mantissa, n.scale).1 <= 2
    ensures Normal(Cut(n).mantissa, Cut(n).scale) == Normal(n.mantissa, n.scale)
    ensures Cut(n).mantissa > 0 <==> n.mantissa > 0
  {
    var (m, s) := Normal(n.mantissa, n.scale);
    CutTruncates(n);
    CentsOfNormal(n);
    NormalOfCut(Cut(n));
    HundredthsOfShort(m, s);
    NormalOfNormal(n.mantissa, n.scale);
    NormalSameValue(n.mantissa, n.scale);
    PositiveProduct(m, Pow10(n.scale - s));
    PositiveProduct(m, Pow10(2 - s));
    PositiveProduct(Cut(n).mantissa, Pow10(2 - Cut(n).scale));
  }

  lemma NormalPositive(m: nat, s: nat)
    requires Normal(m, s).1 > 0
    ensures Normal(m, s).0 > 0 && m > 0
  {
    NormalSameValue(m, s);
    PositiveProduct(Normal(m, s).0, Pow10(s - Normal(m, s).1));
  }

  /** Whole part and decimals of a number with three or more decimals, from its hundredths. */
  lemma PartsOfLong(n: Number)
    requires Normal(n.mantissa, n.scale).1 >= 3
    ensures var (m, s) := Normal(n.mantissa, n.scale); var c := Cents(n);
      && n.mantissa > 0 && Whole(m, s) == c / 100
      && |Decimals(m, s)| == 2 && Decimals(m, s) == Pad(c % 100, 2)
  {
    var (m, s) := Normal(n.mantissa, n.scale);
    NormalPositive(n.mantissa, n.scale);
    CentsOfNormal(n);
    LongCents(m, s);
    OneOrTwoDecimals(m, s);
    PadVal(Decimals(m, s));
  }

  /** The number c / 100 is shown with whole part `w` and decimals `d`. */
  ghost predicate ShownParts(c: nat, w: nat, d: string) {
    var (m, s) := Normal(c, 2);
    Whole(m, s) == w && Decimals(m, s) == d
  }

  lemma WholeIs(m: nat, s: nat, p: nat, w: nat, f: nat)
    requires p == Pow10(s) && m == w * p + f && f < p
    ensures Whole(m, s) == w && Fraction(m, s) == f
  {
    QuotientUnique(m, p, w);
  }

  lemma LastDigit(a: nat, f: nat)
    ensures (10 * a + f) % 10 == f % 10
  {
  }

  lemma AlreadyNormal(c: nat)
    requires c % 10 != 0
    ensures Normal(c, 2) == (c, 2)
  {
  }

  lemma TwoDecimals(a: nat, f: nat)
    requires f < 100 && f % 10 != 0
    ensures ShownParts(100 * a + f, a, Pad(f, 2))
  {
    LastDigit(10 * a, f);
    NormalParts(100 * a + f, a, f);
  }

  lemma NormalParts(c: nat, a: nat, f: nat)
    requires c == 100 * a + f && f < 100 && c % 10 != 0
    ensures ShownParts(c, a, Pad(f, 2))
  {
    AlreadyNormal(c);
    assert Pow10(2) == 100;
    WholeIs(c, 2, 100, a, f);
    assert Pad(f, 2)[..2] == Pad(f, 2);
  }

  lemma OneDecimal(a: nat, b: nat)
    requires 0 < b < 10
    ensures ShownParts(10 * (10 * a + b), a, Pad(b, 1))
  {
    var c := 10 * a + b;
    assert Normal(10 * c, 2) == (c, 1) by {
      LastDigit(a, b);
      NormalTrailingZero(c, 1);
    }
    assert Pow10(1) == 10;
    WholeIs(c, 1, 10, a, b);
    assert Pad(b, 1)[..1] == Pad(b, 1);
  }

  lemma NoDecimals(a: nat)
    ensures ShownParts(10 * (10 * a), a, Pad(0, 2))
  {
    NormalTrailingZero(10 * a, 1);
    NormalTrailingZero(a, 0);
    WholeNumberParts(a);
  }

  lemma WholeNumberParts(a: nat)
    ensures Normal(a, 0) == (a, 0) && Whole(a, 0) == a && Decimals(a, 0) == Pad(0, 2)
  {
    QuotientByOne(a);
    assert Pad(0, 2) == "00";
  }

  /** The decimals of c / 100, c ending in the digits b and d, once a trailing zero is gone. */
  function ShortDecimals(b: nat, d: nat): string
    requires b < 10 && d < 10
  {
    if d == 0 && b != 0 then Pad(b, 1) else Pad(10 * b + d, 2)
  }

  lemma HundredthsTwo(c: nat, a: nat, b: nat, d: nat)
    requires c == 100 * a + (10 * b + d) && b < 10 && 0 < d < 10
    ensures ShownParts(c, a, Pad(10 * b + d, 2))
  {
    LastDigit(b, d);
    TwoDecimals(a, 10 * b + d);
  }

  lemma PartsOfHundredths(c: nat, a: nat, b: nat, d: nat)
    requires c == 100 * a + 10 * b + d && b < 10 && d < 10
    ensures ShownParts(c, a, ShortDecimals(b, d))
  {
    if d != 0 {
      HundredthsTwo(c, a, b, d);
    } else {
      HundredthsFew(c, a, b);
    }
  }

  lemma HundredthsFew(c: nat, a: nat, b: nat)
    requires c == 10 * (10 * a + b) && b < 10
    ensures ShownParts(c, a, ShortDecimals(b, 0))
  {
    if b != 0 {
      OneDecimal(a, b);
    } else {
      NoDecimals(a);
    }
  }

  lemma DigitsOfHundredths(c: nat)
    ensures var a, b, d := c / 100, c / 10 % 10, c % 10;
      c == 100 * a + 10 * b + d && c % 100 == 10 * b + d
  {
    assert c / 10 / 10 == c / 100;
  }

  lemma SignedDiffers(a: bool, b: bool, s: string, t: string)
    requires s != "" && t != "" && s[0] != '-' && t[0] != '-'
    ensures Signed(a, s) == Signed(b, t) <==> a == b && s == t
  {
    if Signed(a, s) == Signed(b, t) {
      assert a == b;
      assert a ==> Signed(a, s)[1..] == s && Signed(b, t)[1..] == t;
    }
  }

  lemma ShownFromParts(n: Number, w: nat, d: string)
    requires n.scale == 2 && ShownParts(n.mantissa, w, d)
    ensures Shown(n) == Signed(n.negative && n.mantissa > 0, Grouped(Write(w)) + ("." + d))
  {
  }

  lemma ShortDecimalsSame(b: nat, d: nat)
    requires b < 10 && d < 10
    ensures ShortDecimals(b, d) == Pad(10 * b + d, 2) <==> !(d == 0 && b != 0)
  {
    if d == 0 && b != 0 {
      assert |ShortDecimals(b, d)| == 1 && |Pad(10 * b + d, 2)| == 2;
    }
  }

  lemma LongShown(n: Number, a: nat, f: nat)
    requires Normal(n.mantissa, n.scale).1 >= 3 && Cents(n) == 100 * a + f && f < 100
    ensures Shown(n) == Signed(n.negative, Grouped(Write(a)) + ("." + Pad(f, 2)))
  {
    PartsOfLong(n);
    assert Cents(n) / 100 == a && Cents(n) % 100 == f;
  }

  lemma LongCutShown(n: Number, a: nat, b: nat, d: nat)
    requires Normal(n.mantissa, n.scale).1 >= 3
    requires Cents(n) == 100 * a + 10 * b + d && b < 10 && d < 10
    ensures Shown(Cut(n)) == Signed(n.negative && Cents(n) > 0, Grouped(Write(a)) + ("." + ShortDecimals(b, d)))
  {
    CutOfLong(n);
    NormalPositive(n.mantissa, n.scale);
    PartsOfHundredths(Cents(n), a, b, d);
    ShownFromParts(Cut(n), a, ShortDecimals(b, d));
  }

  lemma TextsDiffer(negative: bool, c: nat, a: nat, b: nat, d: nat)
    requires b < 10 && d < 10
    ensures Signed(negative && c > 0, Grouped(Write(a)) + ("." + ShortDecimals(b, d)))
         == Signed(negative, Grouped(Write(a)) + ("." + Pad(10 * b + d, 2)))
       <==> !(d == 0 && b != 0) && !(negative && c == 0)
  {
    SameText(negative, negative && c > 0, Write(a), Pad(10 * b + d, 2), ShortDecimals(b, d));
    ShortDecimalsSame(b, d);
  }

  lemma SecondPassOfLong(n: Number, a: nat, b: nat, d: nat)
    requires Normal(n.mantissa, n.scale).1 >= 3
    requires Cents(n) == 100 * a + 10 * b + d && b < 10 && d < 10
    ensures Shown(Cut(n)) == Shown(n) <==> !(d == 0 && b != 0) && !(n.negative && Cents(n) == 0)
  {
    TextsDiffer(n.negative, Cents(n), a, b, d);
    var x := Signed(n.negative && Cents(n) > 0, Grouped(Write(a)) + ("." + ShortDecimals(b, d)));
    var y := Signed(n.negative, Grouped(Write(a)) + ("." + Pad(10 * b + d, 2)));
    SameTexts(n, a, b, d, x, y);
  }

  lemma SameTexts(n: Number, a: nat, b: nat, d: nat, x: string, y: string)
    requires Normal(n.mantissa, n.scale).1 >= 3
    requires Cents(n) == 100 * a + 10 * b + d && b < 10 && d < 10
    requires x == Signed(n.negative && Cents(n) > 0, Grouped(Write(a)) + ("." + ShortDecimals(b, d)))
    requires y == Signed(n.negative, Grouped(Write(a)) + ("." + Pad(10 * b + d, 2)))
    ensures Shown(Cut(n)) == x && Shown(n) == y
  {
    LongShown(n, a, 10 * b + d);
    LongCutShown(n, a, b, d);
  }

  lemma ShownAgain(n: Number)
    ensures Shown(Cut(n)) == Shown(n) <==> !Wobbles(n)
  {
    if Normal(n.mantissa, n.scale).1 <= 2 {
      CutOfShort(n);
    } else {
      var c := Cents(n);
      DigitsOfHundredths(c);
      SecondPassOfLong(n, c / 100, c / 10 % 10, c % 10);
    }
  }

  lemma CutOfLong(n: Number)
    requires Normal(n.mantissa, n.scale).1 >= 3
    ensures Cut(n) == Num(n.negative && n.mantissa > 0, Cents(n), 2)
  {
    var (m, s) := Normal(n.mantissa, n.scale);
    OneOrTwoDecimals(m, s);
    CutTruncates(n);
    assert Pow10(0) == 1;
  }

  lemma SameText(a: bool, b: bool, w: string, d: string, e: string)
    requires AllDigits(w) && w != "" && AllDigits(d) && AllDigits(e)
    ensures Signed(a, Grouped(w) + ("." + d)) == Signed(b, Grouped(w) + ("." + e)) <==> a == b && d == e
  {
    CleanShown(w, d);
    CleanShown(w, e);
    SignedDiffers(a, b, Grouped(w) + ("." + d), Grouped(w) + ("." + e));
    SameEnding(Grouped(w), "." + d, "." + e);
    SameEnding(".", d, e);
  }

  lemma SameEnding(a: string, s: string, t: string)
    ensures a + s == a + t <==> s == t
  {
    assert (a + s)[|a|..] == s && (a + t)[|a|..] == t;
  }

  /** For every typed number: a second pass leaves the text alone exactly when the number does not wobble. */
  lemma SecondPassKeepsText(text: string)
    requires text != "" && Reads(text).Some?
    ensures Formatted(Formatted(text)) == Formatted(text) <==> !Wobbles(Reads(text).value)
  {
    ReadsShown(Reads(text).value);
    ShownAgain(Reads(text).value);
  }

  lemma FormatExample(text: string, d: string, m: nat, s: nat, shown: string)
    requires AllDigits(d) && text == "1" + ("." + d) && |d| == s
    requires m < Pow10(s + 1) && Pad(m, s + 1) == "1" + d
    requires Shown(Num(false, m, s)) == shown
    ensures Formatted(text) == shown
  {
    ShortDigits("1", false);
    ReadsSigned(false, "1", d);
    ValPad(m, s + 1);
  }

  lemma ShownOneAndDecimals(m: nat, s: nat)
    requires Normal(m, s) == (m, s) && Pow10(s) <= m < 2 * Pow10(s)
    ensures Shown(Num(false, m, s)) == "1" + ("." + Decimals(m, s)) && Fraction(m, s) == m - Pow10(s)
  {
    QuotientUnique(m, Pow10(s), 1);
    ShortDigits("1", false);
    assert Write(1) == "1";
  }

  lemma DigitsOf1101()
    ensures Pad(1101, 4) == "1" + "101" && Pad(101, 3)[..2] == "10"
  {
    assert Pad(1, 1) == "1" && Pad(11, 2) == "11" && Pad(110, 3) == "11" + "0" == "110";
    assert Pad(1101, 4) == "110" + "1";
    assert Pad(10, 2) == "10";
    assert Pad(101, 3) == "10" + "1";
  }

  lemma FirstPassOf1101()
    ensures Formatted("1.101") == "1.10"
  {
    assert Pow10(4) == 10000 && Pow10(3) == 1000;
    DigitsOf1101();
    ShownOneAndDecimals(1101, 3);
    assert Decimals(1101, 3) == "10" && "1" + ("." + "10") == "1.10";
    FormatExample("1.101", "101", 1101, 3, "1.10");
  }

  lemma SecondPassOf1101()
    ensures Formatted("1.10") == "1.1"
  {
    assert Pow10(3) == 1000 && Pow10(1) == 10;
    ShownOneAndDecimals(11, 1);
    assert Pad(1, 1) == "1" && "1"[..1] == "1" && "1" + ("." + "1") == "1.1";
    assert Normal(110, 2) == (11, 1);
    assert Pad(110, 3) == "110" == "1" + "10" && "1" + ("." + "10") == "1.10";
    FormatExample("1.10", "10", 110, 2, "1.1");
  }

  /** One pass is not enough: 1.101 becomes 1.10 and then 1.1. */
  lemma OnePassIsNotEnough()
    ensures Formatted("1.101") == "1.10" && Formatted("1.10") == "1.1"
  {
    FirstPassOf1101();
    SecondPassOf1101();
  }
}
