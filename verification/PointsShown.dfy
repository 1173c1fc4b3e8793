/** Amounts typed with several points: what the amount input shows, and what it means to show. */
module PointsShown {
  import opened Wrappers
  import opened Digits
  import opened Decimal
  import opened ThousandComma
  import opened AmountFormatter
  import opened SeveralPoints

  function Shows(r: Option<Number>): string {
    if r.Some? then Shown(r.value) else "0.00"
  }

  /** The text that the branch for several points is written to give. */
  function IntendedText(text: string): string {
    if text == "" then "" else Shows(IntendedReading(text))
  }

  ghost predicate SomeDigit(s: string) {
    exists i :: 0 <= i < |s| && s[i] != '0'
  }

  // The digits of a text: before its first point, before its second one, and behind that.

  function WholeDigits(text: string): string {
    FirstPart(Keep(text, false))
  }

  function Decimals(text: string): string {
    FirstPart(BehindPoint(Keep(text, false)))
  }

  function FurtherDigits(text: string): string {
    RemovePoints(BehindPoint(BehindPoint(Keep(text, false))))
  }

  /**
   * The digits behind the second point are all 0; or a digit other than 0 is a second or later decimal already;
   * or the first two decimals are 00, and a negative amount has a digit other than 0 in front of the point.
   */
  ghost predicate ShowsAlike(negative: bool, w: string, d: string, e: string) {
    || !SomeDigit(e)
    || (|d| >= 2 && SomeDigit(d[1..]))
    || (!SomeDigit(d) && "00" <= d + e && (negative ==> SomeDigit(w)))
  }

  // Shown decimals, digit by digit.

  function TrimZeros(d: string): (t: string)
    ensures t <= d && (t != "" ==> t[|t| - 1] != '0')
    ensures forall i :: |t| <= i < |d| ==> d[i] == '0'
  {
    if d != "" && d[|d| - 1] == '0' then TrimZeros(d[..|d| - 1]) else d
  }

  function TwoPlaces(d: string): string {
    var t := TrimZeros(d);
    if t == "" then "00" else t[..if |t| < 2 then |t| else 2]
  }

  lemma TrimLength(d: string)
    ensures var n := |TrimZeros(d)|;
      && (forall i :: n <= i < |d| ==> d[i] == '0')
      && (n > 0 ==> d[n - 1] != '0')
  {
    assert TrimZeros(d) <= d;
  }

  /** What is left of digits that more digits, not all 0, were written behind. */
  lemma TrimBehind(d: string, e: string)
    requires SomeDigit(e)
    ensures |TrimZeros(d + e)| > |d|
  {
    var f := d + e;
    TrimLength(f);
    var i :| 0 <= i < |e| && e[i] != '0';
    assert f[|d| + i] != '0';
  }

  lemma TwoPlacesOf(d: string)
    requires |TrimZeros(d)| >= 2
    ensures |d| >= 2 && TwoPlaces(d) == d[..2]
  {
    var t := TrimZeros(d);
    assert t == d[..|t|];
    assert t[..2] == d[..2];
  }

  lemma SecondDecimal(d: string, e: string)
    requires |d| >= 2 && SomeDigit(d[1..]) && SomeDigit(e)
    ensures TwoPlaces(d) == TwoPlaces(d + e) && SomeDigit(d)
  {
    var i :| 0 <= i < |d| - 1 && d[1..][i] != '0';
    assert d[i + 1] != '0';
    TrimLength(d);
    TrimBehind(d, e);
    TwoPlacesOf(d);
    TwoPlacesOf(d + e);
    assert (d + e)[..2] == d[..2];
  }

  lemma FirstDecimalOnly(d: string, e: string)
    requires SomeDigit(d) && !(|d| >= 2 && SomeDigit(d[1..])) && SomeDigit(e)
    ensures TwoPlaces(d) != TwoPlaces(d + e)
  {
    var i :| 0 <= i < |d| && d[i] != '0';
    if i > 0 {
      LaterDigit(d, i);
    }
    TrimLength(d);
    LaterZeros(d);
    assert |TwoPlaces(d)| == 1;
    TrimBehind(d, e);
    TwoPlacesOf(d + e);
  }

  lemma LaterZeros(d: string)
    requires d != "" && d[0] != '0' && !(|d| >= 2 && SomeDigit(d[1..]))
    ensures |TrimZeros(d)| == 1
  {
    TrimLength(d);
    var n := |TrimZeros(d)|;
    if n >= 2 {
      LaterDigit(d, n - 1);
    }
  }

  lemma LaterDigit(d: string, i: nat)
    requires 0 < i < |d| && d[i] != '0'
    ensures |d| >= 2 && SomeDigit(d[1..])
  {
    assert d[1..][i - 1] != '0';
  }

  lemma SamePlaces(d: string, e: string)
    requires SomeDigit(e)
    ensures TwoPlaces(d) == TwoPlaces(d + e) <==>
      ((|d| >= 2 && SomeDigit(d[1..])) || (!SomeDigit(d) && "00" <= d + e))
  {
    if |d| >= 2 && SomeDigit(d[1..]) {
      SecondDecimal(d, e);
    } else if SomeDigit(d) {
      FirstDecimalOnly(d, e);
    } else {
      TrimLength(d);
      TrimBehind(d, e);
      ZeroPlaces(d + e);
    }
  }

  lemma ZeroPlaces(f: string)
    requires TrimZeros(f) != ""
    ensures TwoPlaces(f) == "00" <==> "00" <= f
  {
    var u := TrimZeros(f);
    assert u == f[..|u|];
    if "00" <= f {
      assert f[0] == f[1] == '0';
      assert |u| > 2;
      assert u[..2] == f[..2] == "00";
    }
  }

  lemma {:induction false} ValBound(s: string)
    requires AllDigits(s)
    ensures Val(s) < Pow10(|s|)
  {
    if s != "" {
      ValBound(s[..|s| - 1]);
    }
  }

  lemma ValLast(w: string, d: string)
    requires AllDigits(w) && AllDigits(d) && d != ""
    ensures AllDigits(w + d) && AllDigits(w + d[..|d| - 1])
    ensures Val(w + d) == 10 * Val(w + d[..|d| - 1]) + DigitValue(d[|d| - 1])
  {
    assert (w + d)[..|w + d| - 1] == w + d[..|d| - 1];
  }

  /** Without the zeros at its end, the same number in normal form. */
  lemma {:induction false} NormalOfDigits(w: string, d: string)
    requires AllDigits(w) && AllDigits(d)
    ensures var t := TrimZeros(d);
      AllDigits(w + d) && AllDigits(w + t) && Normal(Val(w + d), |d|) == (Val(w + t), |t|)
  {
    if d != "" {
      ValLast(w, d);
      if d[|d| - 1] == '0' {
        NormalTrailingZero(Val(w + d[..|d| - 1]), |d| - 1);
        NormalOfDigits(w, d[..|d| - 1]);
      } else {
        NotNormalised(Val(w + d[..|d| - 1]), DigitValue(d[|d| - 1]), |d|);
      }
    }
  }

  lemma NotNormalised(m: nat, digit: nat, s: nat)
    requires 0 < digit < 10
    ensures Normal(10 * m + digit, s) == (10 * m + digit, s)
  {
    assert (10 * m + digit) % 10 != 0;
  }

  lemma PartsOfDigits(w: string, t: string)
    requires AllDigits(w) && AllDigits(t)
    ensures AllDigits(w + t) && Whole(Val(w + t), |t|) == Val(w) && Fraction(Val(w + t), |t|) == Val(t)
  {
    ValConcat(w, t);
    ValBound(t);
    WholeIs(Val(w + t), |t|, Pow10(|t|), Val(w), Val(t));
  }

  /** How the number with these digits is shown; a zero without a sign. */
  function ShownText(negative: bool, w: string, d: string): string
    requires AllDigits(w) && AllDigits(d) && AllDigits(w + d)
  {
    Signed(negative && Val(w + d) > 0, Grouped(Write(Val(w))) + ("." + TwoPlaces(d)))
  }

  lemma DecimalsOfDigits(w: string, t: string)
    requires AllDigits(w) && AllDigits(t)
    ensures AllDigits(w + t)
    ensures AmountFormatter.Decimals(Val(w + t), |t|) == if t == "" then "00" else t[..if |t| < 2 then |t| else 2]
  {
    PartsOfDigits(w, t);
    PadVal(t);
  }

  lemma ShownDigits(negative: bool, w: string, d: string)
    requires AllDigits(w) && AllDigits(d)
    ensures AllDigits(w + d) && Shown(Num(negative, Val(w + d), |d|)) == ShownText(negative, w, d)
  {
    NormalOfDigits(w, d);
    PartsOfDigits(w, TrimZeros(d));
    DecimalsOfDigits(w, TrimZeros(d));
  }

  lemma ShowsDigits(negative: bool, w: string, d: string)
    requires AllDigits(w) && AllDigits(d)
    ensures AllDigits(w + d)
    ensures Shows(if w + d == "" then None else Some(Num(negative, Val(w + d), |d|))) == ShownText(negative, w, d)
  {
    ShownDigits(negative, w, d);
    if w + d == "" {
      assert w == "" && d == "";
      ShownDigits(false, "", "");
      ShownNothing();
    }
  }

  lemma ShownNothing()
    ensures ShownText(false, "", "") == "0.00"
  {
    ShortDigits("0", false);
    assert Write(0) == "0" && "0" + ("." + "00") == "0.00";
  }

  // The two readings of a text.

  lemma ZeroValue(s: string)
    requires AllDigits(s)
    ensures Val(s) > 0 <==> SomeDigit(s)
  {
    ZeroDigits(s);
  }

  lemma SomeDigitJoined(a: string, b: string)
    ensures SomeDigit(a + b) <==> SomeDigit(a) || SomeDigit(b)
  {
    if i :| 0 <= i < |a| && a[i] != '0' {
      assert (a + b)[i] != '0';
    }
    if i :| 0 <= i < |b| && b[i] != '0' {
      assert (a + b)[|a| + i] != '0';
    }
  }

  /** The same signs, where further digits that are not all 0 make the amount differ from zero. */
  lemma SameSigns(negative: bool, w: string, d: string, e: string)
    requires AllDigits(w) && AllDigits(d) && AllDigits(e) && SomeDigit(e)
    ensures AllDigits(w + d) && AllDigits(w + (d + e))
    ensures (negative && Val(w + d) > 0) == (negative && Val(w + (d + e)) > 0)
       <==> (negative ==> SomeDigit(w) || SomeDigit(d))
  {
    ZeroValue(w + d);
    ZeroValue(w + (d + e));
    SomeDigitJoined(w, d);
    SomeDigitJoined(d, e);
    SomeDigitJoined(w, d + e);
  }

  lemma TailOfDigits(d: string)
    requires |d| >= 2 && SomeDigit(d[1..])
    ensures SomeDigit(d)
  {
    assert d == d[..1] + d[1..];
    SomeDigitJoined(d[..1], d[1..]);
  }

  lemma TrimUnique(f: string, n: nat)
    requires n <= |f| && (n > 0 ==> f[n - 1] != '0') && forall i :: n <= i < |f| ==> f[i] == '0'
    ensures TrimZeros(f) == f[..n]
  {
    TrimLength(f);
    assert TrimZeros(f) == f[..|TrimZeros(f)|];
  }

  lemma TrimSame(d: string, e: string)
    requires !SomeDigit(e)
    ensures TrimZeros(d + e) == TrimZeros(d)
  {
    TrimLength(d);
    var n := |TrimZeros(d)|;
    assert forall i :: 0 <= i < |e| ==> e[i] == '0';
    TrimUnique(d + e, n);
    assert (d + e)[..n] == d[..n] == TrimZeros(d);
  }

  /** Sign and decimals are the same exactly when the digits show alike. */
  lemma SamePieces(negative: bool, w: string, d: string, e: string)
    requires AllDigits(w) && AllDigits(d) && AllDigits(e)
    ensures AllDigits(w + d) && AllDigits(w + (d + e))
    ensures (negative && Val(w + d) > 0) == (negative && Val(w + (d + e)) > 0) && TwoPlaces(d) == TwoPlaces(d + e)
       <==> ShowsAlike(negative, w, d, e)
  {
    if SomeDigit(e) {
      SamePlaces(d, e);
      SameSigns(negative, w, d, e);
      if |d| >= 2 && SomeDigit(d[1..]) {
        TailOfDigits(d);
      }
    } else {
      TrimSame(d, e);
      ZeroValue(w + d);
      ZeroValue(w + (d + e));
      SomeDigitJoined(w, d);
      SomeDigitJoined(d, e);
      SomeDigitJoined(w, d + e);
    }
  }

  lemma DigitsShown(negative: bool, w: string, d: string, e: string)
    requires AllDigits(w) && AllDigits(d) && AllDigits(e)
    ensures AllDigits(w + d) && AllDigits(w + (d + e))
    ensures ShownText(negative, w, d) == ShownText(negative, w, d + e) <==> ShowsAlike(negative, w, d, e)
  {
    SamePieces(negative, w, d, e);
    var a, b := negative && Val(w + d) > 0, negative && Val(w + (d + e)) > 0;
    SameText(a, b, Write(Val(w)), TwoPlaces(d), TwoPlaces(d + e));
  }

  lemma TwoPointsShown(negative: bool, w: string, d: string, z: string)
    requires AllDigits(w) && AllDigits(d) && DigitsAndPoints(z)
    ensures var c := w + ("." + (d + ("." + z)));
      Shows(ParseFloat(Signed(negative, c))) == Shows(ParseFloat(Signed(negative, KeepFirstPoint(c))))
      <==> ShowsAlike(negative, w, d, RemovePoints(z))
  {
    var e := RemovePoints(z);
    OnlyDigitsLeft(z);
    TwoPointsKept(w, d, z);
    ParseParts(negative, w, d, "." + z);
    ParseJoined(negative, w, d + e);
    ShowsDigits(negative, w, d);
    ShowsDigits(negative, w, d + e);
    DigitsShown(negative, w, d, e);
  }

  lemma DigitsOfText(c: string, w: string, d: string, z: string)
    requires AllDigits(w) && AllDigits(d) && c == w + ("." + (d + ("." + z)))
    ensures FirstPart(c) == w && FirstPart(BehindPoint(c)) == d && BehindPoint(BehindPoint(c)) == z
  {
    var x, y := d + ("." + z), "." + z;
    PointSplits(w, "." + x);
    FirstPointAt(w, "." + x);
    assert ("." + x)[1..] == x && y[1..] == z;
    PointSplits(d, y);
    FirstPointAt(d, y);
  }

  lemma CleanedShown(negative: bool, c: string)
    requires DigitsAndPoints(c)
    ensures Shows(ParseFloat(Signed(negative, c))) == Shows(ParseFloat(Signed(negative, KeepFirstPoint(c)))) <==>
      ShowsAlike(negative, FirstPart(c), FirstPart(BehindPoint(c)), RemovePoints(BehindPoint(BehindPoint(c))))
  {
    var w, x, point := PartsOf(c);
    var d, z, second := PartsOf(x);
    if point && second {
      TwoPointsShown(negative, w, d, z);
      DigitsOfText(c, w, d, z);
    } else {
      assert z == "" && !SomeDigit(RemovePoints(z));
      OnePoint(c, w, x, d, point);
    }
  }

  /** For every text, the amount shown is the intended one exactly when its digits show alike. */
  lemma ShowsAsIntendedExactlyWhen(text: string)
    ensures Formatted(text) == IntendedText(text)
       <==> ShowsAlike(IsNegative(text), WholeDigits(text), Decimals(text), FurtherDigits(text))
  {
    KeepOnly(text, false);
    CleanedShown(IsNegative(text), Keep(text, false));
    if text == "" {
      assert !SomeDigit(FurtherDigits(text));
    }
  }

  /** 1.23.4 is shown as 1.23 under both readings; 1.2.3 is not shown alike. */
  lemma ShownExamples()
    ensures ShowsAlike(false, "1", "23", "4") && !ShowsAlike(false, "1", "2", "3")
  {
    assert "23"[1..][0] != '0' && "3"[0] != '0' && "2"[0] != '0';
  }

  lemma ParseWhole(negative: bool, w: string)
    requires AllDigits(w)
    ensures ParseFloat(Signed(negative, w)) == if w == "" then None else Some(Num(negative, Val(w), 0))
  {
    RunOfConcat(w, "");
    assert w + "" == w && w[..|w|] == w && w[|w|..] == "";
    assert Signed(true, w)[1..] == w;
  }

  lemma ReadingOfDigits(negative: bool, c: string)
    requires DigitsAndPoints(c)
    ensures var w, d := FirstPart(c), FirstPart(BehindPoint(c));
      && AllDigits(w) && AllDigits(d) && AllDigits(w + d)
      && ParseFloat(Signed(negative, c)) == if w + d == "" then None else Some(Num(negative, Val(w + d), |d|))
  {
    var w, x, point := PartsOf(c);
    var d, z, second := PartsOf(x);
    if point && second {
      DigitsOfText(c, w, d, z);
      ParseParts(negative, w, d, "." + z);
    } else if point {
      PointSplits(w, "." + d);
      NoPoint(d);
      ParseJoined(negative, w, d);
    } else {
      NoPoint(w);
      assert w + "" == w;
      ParseWhole(negative, w);
    }
  }

  /** The amount shown, for every text, from its digits before the first point and up to the second. */
  lemma FormattedDigits(text: string)
    requires text != ""
    ensures AllDigits(WholeDigits(text)) && AllDigits(Decimals(text)) && AllDigits(WholeDigits(text) + Decimals(text))
    ensures Formatted(text) == ShownText(IsNegative(text), WholeDigits(text), Decimals(text))
  {
    KeepOnly(text, false);
    ReadingOfDigits(IsNegative(text), Keep(text, false));
    ShowsDigits(IsNegative(text), WholeDigits(text), Decimals(text));
  }
}
