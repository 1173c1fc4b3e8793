/** Amounts typed with several points: what the amount input reads, and what it means to read. */
module SeveralPoints {
  import opened Wrappers
  import opened Digits
  import opened Decimal
  import opened AmountFormatter

  function RemovePoints(s: string): string {
    if s == "" then "" else
      var head := if s[0] != '.' then [s[0]] else "";
      head + RemovePoints(s[1..])
  }

  /** The first point stays and every later one is dropped. */
  function KeepFirstPoint(s: string): string {
    if s == "" then ""
    else if s[0] == '.' then "." + RemovePoints(s[1..])
    else [s[0]] + KeepFirstPoint(s[1..])
  }

  /** The reading of a text that the branch for several points is written for. */
  function IntendedReading(text: string): Option<Number> {
    ParseFloat(Signed(IsNegative(text), KeepFirstPoint(Keep(text, false))))
  }

  function BehindPoint(s: string): string {
    if s == "" then ""
    else if s[0] == '.' then s[1..]
    else BehindPoint(s[1..])
  }

  /** Some digit other than 0 is typed behind the second point. */
  ghost predicate DigitBehindSecondPoint(text: string) {
    exists c :: c in BehindPoint(BehindPoint(Keep(text, false))) && IsDigit(c) && c != '0'
  }

  function ValueOrZero(r: Option<Number>): Number {
    if r.Some? then r.value else Num(false, 0, 0)
  }

  function SignedMantissa(n: Number): int {
    var m: int := n.mantissa;
    if n.negative then -m else m
  }

  /** The same quotient, whatever the scales; no number counts as zero, which is what is shown for it. */
  ghost predicate SameValue(a: Option<Number>, b: Option<Number>) {
    var x, y := ValueOrZero(a), ValueOrZero(b);
    SignedMantissa(x) * Pow10(y.scale) == SignedMantissa(y) * Pow10(x.scale)
  }

  // Reading a text of digits and points, part by part.

  /** Digits, a point, decimals, and whatever follows that is no digit. */
  lemma ParseParts(negative: bool, w: string, d: string, tail: string)
    requires AllDigits(w) && AllDigits(d) && (tail != "" ==> tail[0] == '.')
    ensures AllDigits(w + d)
    ensures ParseFloat(Signed(negative, w + ("." + (d + tail))))
         == if w + d == "" then None else Some(Num(negative, Val(w + d), |d|))
  {
    var t := w + ("." + (d + tail));
    ValConcat(w, d);
    RunOfConcat(w, "." + (d + tail));
    RunOfConcat(d, tail);
    assert Signed(negative, t)[if negative then 1 else 0..] == t;
    assert t[..|w|] == w && t[|w|..] == "." + (d + tail);
    assert ("." + (d + tail))[1..] == d + tail && (d + tail)[..|d|] == d;
  }

  lemma {:induction false} FirstPointAt(w: string, c: string)
    requires AllDigits(w) && c != "" && c[0] == '.'
    ensures BehindPoint(w + c) == c[1..] && KeepFirstPoint(w + c) == w + ("." + RemovePoints(c[1..]))
  {
    if w == "" {
      assert w + c == c;
    } else {
      assert (w + c)[1..] == w[1..] + c;
      FirstPointAt(w[1..], c);
    }
  }

  lemma {:induction false} NoPointIn(w: string)
    requires AllDigits(w)
    ensures BehindPoint(w) == "" && KeepFirstPoint(w) == w == RemovePoints(w)
  {
    if w != "" {
      NoPointIn(w[1..]);
    }
  }

  lemma {:induction false} RemovePointsConcat(a: string, b: string)
    ensures RemovePoints(a + b) == RemovePoints(a) + RemovePoints(b)
  {
    if a == "" {
      assert a + b == b;
    } else {
      assert (a + b)[1..] == a[1..] + b;
      RemovePointsConcat(a[1..], b);
    }
  }

  lemma RemovePointsFrom(d: string, z: string)
    requires AllDigits(d)
    ensures RemovePoints(d + ("." + z)) == d + RemovePoints(z)
  {
    var t := "." + z;
    NoPointIn(d);
    RemovePointsConcat(d, t);
    assert t[1..] == z;
    PointDropped(t);
  }

  lemma PointDropped(t: string)
    requires t != "" && t[0] == '.'
    ensures RemovePoints(t) == RemovePoints(t[1..])
  {
  }

  ghost predicate DigitsAndPoints(s: string) {
    forall i :: 0 <= i < |s| ==> IsDigit(s[i]) || s[i] == '.'
  }

  lemma {:induction false} OnlyDigitsLeft(z: string)
    requires DigitsAndPoints(z)
    ensures AllDigits(RemovePoints(z))
    ensures forall c :: c in RemovePoints(z) <==> c in z && c != '.'
  {
    if z != "" {
      OnlyDigitsLeft(z[1..]);
    }
  }

  /** Digits write zero exactly when all of them are 0. */
  lemma {:induction false} ZeroDigits(s: string)
    requires AllDigits(s)
    ensures Val(s) == 0 <==> forall i :: 0 <= i < |s| ==> s[i] == '0'
  {
    if s != "" {
      var n := |s| - 1;
      ZeroDigits(s[..n]);
      assert DigitValue(s[n]) == 0 <==> s[n] == '0';
    }
  }

  lemma CompareProducts(m: nat, p: nat, v: nat, q: nat)
    requires p > 0
    ensures m * (p * q) == (m * q + v) * p <==> v == 0
  {
    MulAssociates(m, q, p);
    MulDistributes(m * q, v, p);
    if v > 0 {
      MulMonotone(1, v, p);
    }
  }

  lemma NegateProducts(a: int, b: int, p: nat, q: nat)
    ensures (-a) * p == (-b) * q <==> a * p == b * q
  {
    assert (-a) * p == -(a * p) && (-b) * q == -(b * q);
  }

  /** With e more decimals, worth v of their last units, a number keeps its value exactly when v is 0. */
  lemma MoreDecimals(negative: bool, m: nat, d: nat, v: nat, e: nat, n: nat, none: bool)
    requires n == Joined(m, v, e) && (none ==> m == 0 && d == 0)
    ensures SameValue(if none then None else Some(Num(negative, m, d)), Some(Num(negative, n, d + e)))
       <==> v == 0
  {
    Pow10Sum(d, e);
    CompareProducts(m, Pow10(d), v, Pow10(e));
    NegateProducts(m, n, Pow10(d + e), Pow10(d));
  }

  /** A cleaned text with two points: the digits before, between and behind them. */
  lemma TwoPoints(negative: bool, w: string, d: string, z: string)
    requires AllDigits(w) && AllDigits(d) && DigitsAndPoints(z)
    ensures AllDigits(RemovePoints(z))
    ensures var c := w + ("." + (d + ("." + z)));
      var once, intended := ParseFloat(Signed(negative, c)), ParseFloat(Signed(negative, KeepFirstPoint(c)));
      SameValue(once, intended) <==> Val(RemovePoints(z)) == 0
  {
    var e := RemovePoints(z);
    OnlyDigitsLeft(z);
    TwoPointsKept(w, d, z);
    ParseParts(negative, w, d, "." + z);
    ParseJoined(negative, w, d + e);
    JoinedReading(negative, w, d, e);
  }

  lemma TwoPointsKept(w: string, d: string, z: string)
    requires AllDigits(w) && AllDigits(d)
    ensures KeepFirstPoint(w + ("." + (d + ("." + z)))) == w + ("." + (d + RemovePoints(z)))
  {
    var c := "." + (d + ("." + z));
    FirstPointAt(w, c);
    assert c[1..] == d + ("." + z);
    RemovePointsFrom(d, z);
  }

  lemma ParseJoined(negative: bool, w: string, d: string)
    requires AllDigits(w) && AllDigits(d)
    ensures AllDigits(w + d)
    ensures ParseFloat(Signed(negative, w + ("." + d)))
         == if w + d == "" then None else Some(Num(negative, Val(w + d), |d|))
  {
    ParseParts(negative, w, d, "");
    assert d + "" == d;
  }

  lemma JoinedReading(negative: bool, w: string, d: string, e: string)
    requires AllDigits(w) && AllDigits(d) && AllDigits(e)
    ensures AllDigits(w + d) && AllDigits(w + (d + e))
    ensures SameValue(if w + d == "" then None else Some(Num(negative, Val(w + d), |d|)),
                      if w + (d + e) == "" then None else Some(Num(negative, Val(w + (d + e)), |d + e|)))
       <==> Val(e) == 0
  {
    ValJoined(w, d);
    assert w + (d + e) == w + d + e;
    LongerReading(negative, w + d, |d|, e);
  }

  lemma LongerReading(negative: bool, a: string, d: nat, e: string)
    requires AllDigits(a) && AllDigits(e) && d <= |a|
    ensures AllDigits(a + e)
    ensures SameValue(if a == "" then None else Some(Num(negative, Val(a), d)),
                      if a + e == "" then None else Some(Num(negative, Val(a + e), d + |e|)))
       <==> Val(e) == 0
  {
    ValJoined(a, e);
    if a + e != "" {
      MoreDecimals(negative, Val(a), d, Val(e), |e|, Val(a + e), a == "");
    } else {
      assert a == "" && e == "";
      NothingTyped();
    }
  }

  lemma NothingTyped()
    ensures SameValue(None, None) && Val("") == 0
  {
  }

  /** A text of digits and points up to its first point and behind it. */
  lemma PartsOf(c: string) returns (w: string, x: string, point: bool)
    requires DigitsAndPoints(c)
    ensures AllDigits(w) && DigitsAndPoints(x) && BehindPoint(c) == x
    ensures c == if point then w + ("." + x) else w
    ensures point ==> KeepFirstPoint(c) == w + ("." + RemovePoints(x))
    ensures !point ==> x == "" && KeepFirstPoint(c) == c == RemovePoints(c)
  {
    w, point := c[..Run(c)], Run(c) < |c|;
    x := if point then c[Run(c) + 1..] else "";
    if point {
      var t := "." + x;
      assert c == w + t && t[1..] == x;
      FirstPointAt(w, t);
    } else {
      NoPointIn(c);
    }
  }

  lemma CleanedReading(negative: bool, c: string)
    requires DigitsAndPoints(c)
    ensures SameValue(ParseFloat(Signed(negative, c)), ParseFloat(Signed(negative, KeepFirstPoint(c))))
       <==> !exists x :: x in BehindPoint(BehindPoint(c)) && IsDigit(x) && x != '0'
  {
    var w, x, point := PartsOf(c);
    var d, z, second := PartsOf(x);
    if point && second {
      TwoPoints(negative, w, d, z);
      OnlyDigitsLeft(z);
      ZeroDigits(RemovePoints(z));
    } else {
      assert z == "";
      OnePoint(c, w, x, d, point);
    }
  }

  lemma OnePoint(c: string, w: string, x: string, d: string, point: bool)
    requires AllDigits(w) && AllDigits(d) && x == (if point then d else "")
    requires c == if point then w + ("." + x) else w
    ensures KeepFirstPoint(c) == c
  {
    NoPointIn(w);
    NoPointIn(d);
    if point {
      FirstPointAt(w, "." + d);
      assert ("." + d)[1..] == d;
    }
  }

  /**
   * For every text, reading it as it is gives the value of the intended reading exactly when no digit but 0
   * stands behind its second point.
   */
  lemma ReadsAsIntendedExactlyWhen(text: string)
    ensures SameValue(Reads(text), IntendedReading(text)) <==> !DigitBehindSecondPoint(text)
  {
    KeepOnly(text, false);
    CleanedReading(IsNegative(text), Keep(text, false));
  }

  lemma ExampleValues()
    ensures Val("12") == 12 && Val("123") == 123
  {
    ValOfDigits("1", "12", 1, 2);
    ValOfDigits("12", "123", 12, 3);
  }

  lemma ValOfDigits(t: string, s: string, v: nat, d: nat)
    requires AllDigits(t) && d < 10 && s == t + [DigitOf(d)] && (Val(t) == v || (|t| == 1 && v == DigitValue(t[0])))
    ensures AllDigits(s) && Val(s) == 10 * v + d
  {
    ValLastDigit(t, d);
    if |t| == 1 {
      assert t[..0] == "" && Val("") == 0;
    }
  }

  lemma ExampleTexts(text: string, w: string, d: string, z: string)
    requires AllDigits(w) && AllDigits(d) && AllDigits(z) && w != ""
    requires text == w + ("." + (d + ("." + z))) == Keep(text, false) && !IsNegative(text)
    ensures AllDigits(w + d) && AllDigits(w + (d + z))
    ensures Reads(text) == Some(Num(false, Val(w + d), |d|))
    ensures IntendedReading(text) == Some(Num(false, Val(w + (d + z)), |d + z|))
  {
    TwoPointsKept(w, d, z);
    ParseParts(false, w, d, "." + z);
    NoPointIn(z);
    ParseJoined(false, w, d + z);
  }

  lemma ExampleCleaned()
    ensures Keep("1.2.3", false) == "1.2.3" && !IsNegative("1.2.3")
  {
    assert Count("1.2.3", '-') == 0;
  }

  lemma ExampleDiffers()
    ensures !SameValue(Some(Num(false, 12, 1)), Some(Num(false, 123, 2)))
  {
    assert Pow10(1) == 10 && Pow10(2) == 100;
  }

  /** 1.2.3 is read as 1.2, not as the intended 1.23. */
  lemma SeveralPointsExample()
    ensures Reads("1.2.3") == Some(Num(false, 12, 1)) && IntendedReading("1.2.3") == Some(Num(false, 123, 2))
    ensures !SameValue(Reads("1.2.3"), IntendedReading("1.2.3"))
  {
    var text, w, d, z := "1.2.3", "1", "2", "3";
    ExampleCleaned();
    assert text == w + ("." + (d + ("." + z))) && w + d == "12" && w + (d + z) == "123";
    ExampleTexts(text, w, d, z);
    ExampleValues();
    ExampleDiffers();
  }
}
