/** `MathUtil.decimal`: arithmetic that removes the points, works on whole numbers and puts the point back. */
module DecimalMath {
  import opened Digits
  import opened Decimal

  /** The number mantissa / 10^scale. */
  datatype Exact = Exact(mantissa: int, scale: nat)

  /** The mantissa divided by ten, `scale` times. */
  function Value(d: Exact): real
    decreases d.scale
  {
    if d.scale == 0 then d.mantissa as real else Value(Exact(d.mantissa, d.scale - 1)) / 10.0
  }

  /** The number with as few decimals as possible. */
  function Trim(m: int, s: nat): (d: Exact)
    ensures d.scale <= s && (d.scale > 0 ==> d.mantissa % 10 != 0)
    decreases s, m
  {
    if s > 0 && m % 10 == 0 then Trim(m / 10, s - 1) else Exact(m, s)
  }

  function Max(a: nat, b: nat): nat {
    if a > b then a else b
  }

  // Texts of numbers: `[-]digits[.digits]`, where either side of the point may be empty but not both.

  function Unsigned(s: string): string {
    if s != "" && s[0] == '-' then s[1..] else s
  }

  /** `replace(".", "")` takes out the first point. */
  function RemovePoint(s: string): string {
    var w := FirstPart(s);
    if |w| < |s| then w + s[|w| + 1..] else s
  }

  predicate IsNumeral(s: string) {
    var digits := RemovePoint(Unsigned(s));
    AllDigits(digits) && digits != ""
  }

  function ZeroNumeral(): (s: string)
    ensures IsNumeral(s) && s == "0"
  {
    assert FirstPart("0") == "0";
    "0"
  }

  type Numeral = s: string | IsNumeral(s) witness ZeroNumeral()

  /** An argument is null, the empty text, or a numeral: as typed, or the text of a number. */
  datatype Argument = Null | Empty | Text(text: Numeral)

  /** `Number` of a text without a point. */
  function ToInteger(s: string): int
    requires AllDigits(Unsigned(s))
  {
    var v: int := Val(Unsigned(s));
    if s != "" && s[0] == '-' then -v else v
  }

  /** What decimals denote: each one counts a tenth of the one before. */
  function DecimalsValue(f: string): real
    requires AllDigits(f)
  {
    if f == "" then 0.0 else (DigitValue(f[0]) as real + DecimalsValue(f[1..])) / 10.0
  }

  function Magnitude(u: string): real
    requires AllDigits(FirstPart(u)) && AllDigits(SecondPart(u))
  {
    Val(FirstPart(u)) as real + DecimalsValue(SecondPart(u))
  }

  /** What a numeral denotes. */
  function Meaning(s: Numeral): real {
    NumeralParts(Unsigned(s));
    if s != "" && s[0] == '-' then -Magnitude(Unsigned(s)) else Magnitude(Unsigned(s))
  }

  lemma NumeralParts(u: string)
    requires AllDigits(RemovePoint(u))
    ensures AllDigits(FirstPart(u)) && AllDigits(SecondPart(u))
    ensures RemovePoint(u) == FirstPart(u) + SecondPart(u)
  {
    var w := FirstPart(u);
    if |w| < |u| {
      DigitsOfParts(w, u[|w| + 1..]);
      NoPoint(u[|w| + 1..]);
    } else {
      assert u == w;
    }
  }

  lemma DigitsOfParts(w: string, rest: string)
    requires AllDigits(w + rest)
    ensures AllDigits(w) && AllDigits(rest)
  {
    assert forall i :: 0 <= i < |rest| ==> (w + rest)[|w| + i] == rest[i];
    assert forall i :: 0 <= i < |w| ==> (w + rest)[i] == w[i];
  }

  /** A sign in front stays in front of the whole part and changes no decimals. */
  lemma SignInFront(u: string)
    ensures var s := "-" + u;
      FirstPart(s) == "-" + FirstPart(u) && SecondPart(s) == SecondPart(u) && RemovePoint(s) == "-" + RemovePoint(u)
  {
    var s, n := "-" + u, |FirstPart(u)|;
    assert s[1..] == u;
    if n < |u| {
      assert s[n + 2..] == u[n + 1..];
      assert "-" + FirstPart(u) + s[n + 2..] == "-" + (FirstPart(u) + u[n + 1..]);
    }
  }

  lemma PartsOfNumeral(s: Numeral)
    ensures SecondPart(s) == SecondPart(Unsigned(s))
    ensures Unsigned(RemovePoint(s)) == RemovePoint(Unsigned(s))
    ensures RemovePoint(s) != "" && ((s != "" && s[0] == '-') <==> RemovePoint(s)[0] == '-')
  {
    var u := Unsigned(s);
    if s != "" && s[0] == '-' {
      assert s == "-" + u;
      SignInFront(u);
    } else {
      assert IsDigit(RemovePoint(u)[0]);
    }
  }

  // Values are linear in the mantissa and shift with the scale.

  lemma {:induction false} ValueOfSum(x: int, y: int, s: nat)
    ensures Value(Exact(x + y, s)) == Value(Exact(x, s)) + Value(Exact(y, s))
  {
    if s > 0 {
      ValueOfSum(x, y, s - 1);
    }
  }

  lemma {:induction false} ValueOfNegative(m: int, s: nat)
    ensures Value(Exact(-m, s)) == -Value(Exact(m, s))
  {
    if s > 0 {
      ValueOfNegative(m, s - 1);
    }
  }

  function Negate(d: Exact): Exact {
    d.(mantissa := -d.mantissa)
  }

  lemma ValueOfNegate(d: Exact)
    ensures Value(Negate(d)) == -Value(d)
  {
    ValueOfNegative(d.mantissa, d.scale);
  }

  lemma {:induction false} TenTimesValue(m: int, s: nat)
    ensures Value(Exact(10 * m, s + 1)) == Value(Exact(m, s))
  {
    if s > 0 {
      TenTimesValue(m, s - 1);
    }
  }

  lemma {:induction false} ShiftValue(m: int, s: nat, k: nat)
    ensures Value(Exact(m * Pow10(k), s + k)) == Value(Exact(m, s))
  {
    if k > 0 {
      ShiftValue(m, s, k - 1);
      TenTimesValue(m * Pow10(k - 1), s + k - 1);
      assert m * Pow10(k) == 10 * (m * Pow10(k - 1));
    }
  }

  lemma {:induction false} TrimKeepsValue(m: int, s: nat)
    ensures Value(Trim(m, s)) == Value(Exact(m, s))
    decreases s
  {
    if s > 0 && m % 10 == 0 {
      TrimKeepsValue(m / 10, s - 1);
      TenTimesValue(m / 10, s - 1);
    }
  }

  /** The product of two numbers, under a name that equal factors can be put into. */
  function Times(x: real, y: real): real {
    x * y
  }

  lemma {:induction false} ValueOfProduct(a: Exact, b: Exact)
    ensures Value(Exact(a.mantissa * b.mantissa, a.scale + b.scale)) == Times(Value(a), Value(b))
    decreases a.scale + b.scale
  {
    if b.scale > 0 {
      var c := b.(scale := b.scale - 1);
      ValueOfProduct(a, c);
      TenthOfProduct(Value(a), Value(c));
    } else if a.scale > 0 {
      var c := a.(scale := a.scale - 1);
      ValueOfProduct(c, b);
      TenthOfProduct(Value(b), Value(c));
    }
  }

  lemma TenthOfProduct(x: real, y: real)
    ensures Times(x, y / 10.0) == Times(x, y) / 10.0 == Times(y / 10.0, x) && Times(x, y) == Times(y, x)
  {
  }

  /** Divided by ten, k times. */
  function Tenths(x: real, k: nat): real {
    if k == 0 then x else Tenths(x, k - 1) / 10.0
  }

  lemma {:induction false} TenthsOfValue(m: int, s: nat, k: nat)
    ensures Value(Exact(m, s + k)) == Tenths(Value(Exact(m, s)), k)
  {
    if k > 0 {
      TenthsOfValue(m, s, k - 1);
    }
  }

  lemma {:induction false} TenthsOfSum(x: real, y: real, k: nat)
    ensures Tenths(x + y, k) == Tenths(x, k) + Tenths(y, k)
    ensures Tenths(x - y, k) == Tenths(x, k) - Tenths(y, k)
  {
    if k > 0 {
      TenthsOfSum(x, y, k - 1);
    }
  }

  lemma {:induction false} DecimalsAreTenths(f: string)
    requires AllDigits(f)
    ensures DecimalsValue(f) == Value(Exact(Val(f), |f|))
  {
    if f != "" {
      var n := |f| - 1;
      var first, rest := DigitValue(f[0]), f[1..];
      DecimalsAreTenths(rest);
      LeadingDigit(f);
      ShiftValue(first, 0, n);
      ValueOfSum(first * Pow10(n), Val(rest), n);
    }
  }

  lemma LeadingDigit(f: string)
    requires AllDigits(f) && f != ""
    ensures Val(f) == DigitValue(f[0]) * Pow10(|f| - 1) + Val(f[1..])
  {
    assert f == [f[0]] + f[1..];
    assert Val([f[0]]) == DigitValue(f[0]);
    ValConcat([f[0]], f[1..]);
  }

  lemma WholeValue(w: int, k: nat)
    ensures Value(Exact(w * Pow10(k), k)) == w as real
  {
    ShiftValue(w, 0, k);
  }

  lemma PartsJoined(n: nat, t: nat)
    ensures Joined(Whole(n, t), Fraction(n, t), t) == n
  {
  }

  lemma JoinedValue(w: nat, f: nat, k: nat)
    ensures Value(Exact(Joined(w, f, k), k)) == w as real + Value(Exact(f, k))
  {
    var x: int := w * Pow10(k);
    WholeValue(w, k);
    ValueOfSum(x, f, k);
  }

  /** How `mul` takes a text: the integer without its point, and how many decimals it had. */
  function Parts(s: Numeral): Exact {
    PartsOfNumeral(s);
    Exact(ToInteger(RemovePoint(s)), |SecondPart(s)|)
  }

  lemma UnsignedPointRemoved(u: string)
    requires AllDigits(RemovePoint(u))
    ensures AllDigits(FirstPart(u)) && AllDigits(SecondPart(u))
    ensures Value(Exact(Val(RemovePoint(u)), |SecondPart(u)|)) == Magnitude(u)
  {
    var w, f := FirstPart(u), SecondPart(u);
    NumeralParts(u);
    ValJoined(w, f);
    JoinedValue(Val(w), Val(f), |f|);
    DecimalsAreTenths(f);
  }

  /** The integer without its point, over the power of ten of its decimals, is what the text denotes. */
  lemma PointRemoved(s: Numeral)
    ensures Value(Parts(s)) == Meaning(s)
  {
    var u := Unsigned(s);
    PartsOfNumeral(s);
    UnsignedPointRemoved(u);
    ValueOfNegative(Val(RemovePoint(u)), |SecondPart(u)|);
  }

  function Product(a: Exact, b: Exact): Exact {
    Trim(a.mantissa * b.mantissa, a.scale + b.scale)
  }

  /** `mul`: both points removed, the product divided by 10^(t1 + t2). */
  function Mul(s1: Numeral, s2: Numeral): Exact {
    Product(Parts(s1), Parts(s2))
  }

  // `+`, `-` and `/` on numbers.

  function Plus(a: Exact, b: Exact): Exact {
    Trim(a.mantissa * Pow10(b.scale) + b.mantissa * Pow10(a.scale), a.scale + b.scale)
  }

  function Minus(a: Exact, b: Exact): Exact {
    Plus(a, Negate(b))
  }

  function OverPower(a: Exact, k: nat): Exact {
    Trim(a.mantissa, a.scale + k)
  }

  /** Null and the empty text count as zero. */
  function ArgumentText(a: Argument): Numeral {
    match a
    case Text(s) => s
    case _ => ZeroNumeral()
  }

  function Denoted(a: Argument): real {
    match a
    case Text(s) => Meaning(s)
    case _ => 0.0
  }

  function MostDecimals(v1: Argument, v2: Argument): nat {
    Max(|SecondPart(ArgumentText(v1))|, |SecondPart(ArgumentText(v2))|)
  }

  function PowerNumeral(k: nat): (s: Numeral)
    ensures Parts(s) == Exact(Pow10(k), 0)
  {
    WholeText(Write(Pow10(k)));
    ValWrite(Pow10(k));
    Write(Pow10(k))
  }

  /** `mul(arg, m)` for m = 10^k. */
  function ScaledUp(a: Argument, k: nat): Exact {
    Mul(ArgumentText(a), PowerNumeral(k))
  }

  function Add(v1: Argument, v2: Argument): Exact {
    var k := MostDecimals(v1, v2);
    OverPower(Plus(ScaledUp(v1, k), ScaledUp(v2, k)), k)
  }

  function Subtract(v1: Argument, v2: Argument): Exact {
    var k := MostDecimals(v1, v2);
    OverPower(Minus(ScaledUp(v1, k), ScaledUp(v2, k)), k)
  }

  function Multiply(v1: Argument, v2: Argument): Exact {
    Mul(ArgumentText(v1), ArgumentText(v2))
  }

  lemma WholeText(w: string)
    requires AllDigits(w) && w != ""
    ensures IsNumeral(w) && Parts(w) == Exact(Val(w), 0)
  {
    NoPoint(w);
  }

  lemma ArgumentDenotes(a: Argument)
    ensures Value(Parts(ArgumentText(a))) == Denoted(a)
  {
    match a
    case Text(s) => PointRemoved(s);
    case _ =>
      WholeText("0");
      assert Val("0") == 0;
  }

  // The text that a computed number has.

  lemma AbsTextParts(m: nat, s: nat)
    ensures var (n, t) := Normal(m, s); var u := AbsText(m, s);
      && AllDigits(RemovePoint(u)) && RemovePoint(u) != "" && Unsigned(u) == u
      && Val(FirstPart(u)) == Whole(n, t) && Val(SecondPart(u)) == Fraction(n, t) && |SecondPart(u)| == t
  {
    var (n, t) := Normal(m, s);
    PartsOfAbsText(m, s);
    WrittenParts(AbsText(m, s), Whole(n, t), Fraction(n, t), t);
  }

  lemma WrittenParts(u: string, w: nat, f: nat, t: nat)
    requires f < Pow10(t) && u == if t == 0 then Write(w) else Write(w) + "." + Pad(f, t)
    requires FirstPart(u) == Write(w) && SecondPart(u) == if t == 0 then "" else Pad(f, t)
    ensures AllDigits(RemovePoint(u)) && RemovePoint(u) != "" && Unsigned(u) == u
    ensures Val(FirstPart(u)) == w && Val(SecondPart(u)) == f && |SecondPart(u)| == t
  {
    DigitsOf(u, Write(w), SecondPart(u), t == 0);
    ValWrite(w);
    ValPad(f, t);
  }

  lemma DigitsOf(u: string, w: string, f: string, whole: bool)
    requires AllDigits(w) && w != "" && AllDigits(f) && FirstPart(u) == w
    requires if whole then f == "" && u == w else u == w + "." + f
    ensures RemovePoint(u) == w + f && AllDigits(w + f) && Unsigned(u) == u
  {
    assert u[0] == w[0];
    assert !whole ==> u[|w| + 1..] == f;
    assert whole ==> w + f == w;
  }

  lemma NormalValue(m: nat, s: nat)
    ensures var (n, t) := Normal(m, s); Value(Exact(n, t)) == Value(Exact(m, s))
  {
    var (n, t) := Normal(m, s);
    NormalSameValue(m, s);
    ShiftValue(n, t, s - t);
  }

  lemma AbsTextDenotes(m: nat, s: nat)
    ensures var u := AbsText(m, s);
      && AllDigits(RemovePoint(u)) && RemovePoint(u) != "" && Unsigned(u) == u
      && AllDigits(FirstPart(u)) && AllDigits(SecondPart(u))
      && Magnitude(u) == Value(Exact(m, s))
  {
    var (n, t) := Normal(m, s);
    AbsTextParts(m, s);
    NumeralParts(AbsText(m, s));
    DecimalsAreTenths(SecondPart(AbsText(m, s)));
    PartsJoined(n, t);
    JoinedValue(Whole(n, t), Fraction(n, t), t);
    NormalValue(m, s);
  }

  lemma AbsTextMeans(m: nat, s: nat)
    ensures IsNumeral(AbsText(m, s)) && Meaning(AbsText(m, s)) == Value(Exact(m, s))
    ensures AbsText(m, s) != "" && AbsText(m, s)[0] != '-'
  {
    var u := AbsText(m, s);
    AbsTextDenotes(m, s);
    assert u != "" && u[0] != '-';
  }

  lemma NegatedText(u: Numeral, d: Exact)
    requires u != "" && u[0] != '-' && Meaning(u) == Value(Negate(d))
    ensures IsNumeral("-" + u) && Meaning("-" + u) == Value(d)
  {
    assert ("-" + u)[1..] == u;
    ValueOfNegate(d);
  }

  method AbsToText(d: Exact) returns (u: Numeral)
    requires d.mantissa >= 0
    ensures u != "" && u[0] != '-' && Meaning(u) == Value(d)
  {
    match d
    case Exact(m, s) =>
      AbsTextMeans(m, s);
      u := AbsText(m, s);
  }

  /** `toString` of a computed number is a numeral that denotes it. */
  method ToText(d: Exact) returns (s: Numeral)
    ensures Meaning(s) == Value(d)
  {
    if d.mantissa < 0 {
      var u := AbsToText(Negate(d));
      NegatedText(u, d);
      s := "-" + u;
    } else {
      s := AbsToText(d);
    }
  }

  // Exactness.

  lemma ProductExact(a: Exact, b: Exact)
    ensures Value(Product(a, b)) == Times(Value(a), Value(b))
  {
    TrimKeepsValue(a.mantissa * b.mantissa, a.scale + b.scale);
    ValueOfProduct(a, b);
  }

  lemma ProductOf(a: Exact, b: Exact, x: real, y: real)
    requires Value(a) == x && Value(b) == y
    ensures Value(Product(a, b)) == Times(x, y)
  {
    ProductExact(a, b);
  }

  lemma MulExact(s1: Numeral, s2: Numeral)
    ensures Value(Mul(s1, s2)) == Times(Meaning(s1), Meaning(s2))
  {
    PointRemoved(s1);
    PointRemoved(s2);
    var a, b, x, y := Parts(s1), Parts(s2), Meaning(s1), Meaning(s2);
    ProductOf(a, b, x, y);
  }

  /** A trailing power of ten is trimmed off completely. */
  lemma {:induction false} TrimMultiple(q: int, s: nat)
    ensures Trim(q * Pow10(s), s) == Exact(q, 0)
  {
    if s > 0 {
      TrimTen(q * Pow10(s - 1), s - 1);
      NextPower(q, s - 1);
      TrimMultiple(q, s - 1);
    }
  }

  lemma NextPower(q: int, s: nat)
    ensures q * Pow10(s + 1) == 10 * (q * Pow10(s))
  {
  }

  lemma TrimTen(m: int, s: nat)
    ensures Trim(10 * m, s + 1) == Trim(m, s)
  {
    assert 10 * m % 10 == 0 && 10 * m / 10 == m;
  }

  lemma TimesPowerWhole(d: Exact, k: nat)
    requires k >= d.scale
    ensures Product(d, Exact(Pow10(k), 0)).scale == 0
  {
    Pow10Sum(k - d.scale, d.scale);
    AssociateProduct(d.mantissa, Pow10(k - d.scale), Pow10(d.scale));
    TrimMultiple(d.mantissa * Pow10(k - d.scale), d.scale);
  }

  lemma TimesPowerBack(d: Exact, k: nat)
    ensures Value(OverPower(Product(d, Exact(Pow10(k), 0)), k)) == Value(d)
  {
    TrimKeepsValue(d.mantissa * Pow10(k), d.scale);
    OverPowerTenths(Product(d, Exact(Pow10(k), 0)), k);
    TenthsOfValue(d.mantissa * Pow10(k), d.scale, k);
    ShiftValue(d.mantissa, d.scale, k);
  }

  lemma OverPowerTenths(a: Exact, k: nat)
    ensures Value(OverPower(a, k)) == Tenths(Value(a), k)
  {
    TrimKeepsValue(a.mantissa, a.scale + k);
    TenthsOfValue(a.mantissa, a.scale, k);
  }

  /** The operands of a sum are whole numbers once they are scaled up. */
  lemma ScaledUpIsWhole(a: Argument, k: nat)
    ensures k >= |SecondPart(ArgumentText(a))| ==> ScaledUp(a, k).scale == 0
    ensures Value(OverPower(ScaledUp(a, k), k)) == Denoted(a)
  {
    ArgumentDenotes(a);
    TimesPowerBack(Parts(ArgumentText(a)), k);
    if k >= |SecondPart(ArgumentText(a))| {
      TimesPowerWhole(Parts(ArgumentText(a)), k);
    }
  }

  /** The power of ten that a sum is scaled up by leaves no decimals in either argument. */
  lemma OperandsAreWhole(v1: Argument, v2: Argument)
    ensures var k := MostDecimals(v1, v2); ScaledUp(v1, k).scale == 0 && ScaledUp(v2, k).scale == 0
  {
    ScaledUpIsWhole(v1, MostDecimals(v1, v2));
    ScaledUpIsWhole(v2, MostDecimals(v1, v2));
  }

  lemma AssociateProduct(a: int, b: int, c: int)
    ensures a * (b * c) == (a * b) * c
  {
  }

  lemma PlusExact(a: Exact, b: Exact)
    ensures Value(Plus(a, b)) == Value(a) + Value(b)
  {
    var x, y := a.mantissa * Pow10(b.scale), b.mantissa * Pow10(a.scale);
    TrimKeepsValue(x + y, a.scale + b.scale);
    ValueOfSum(x, y, a.scale + b.scale);
    ShiftValue(a.mantissa, a.scale, b.scale);
    ShiftValue(b.mantissa, b.scale, a.scale);
  }

  lemma MinusExact(a: Exact, b: Exact)
    ensures Value(Minus(a, b)) == Value(a) - Value(b)
  {
    PlusExact(a, Negate(b));
    ValueOfNegate(b);
  }

  lemma OverPowerPlus(a: Exact, b: Exact, k: nat)
    ensures Value(OverPower(Plus(a, b), k)) == Value(OverPower(a, k)) + Value(OverPower(b, k))
    ensures Value(OverPower(Minus(a, b), k)) == Value(OverPower(a, k)) - Value(OverPower(b, k))
  {
    PlusExact(a, b);
    MinusExact(a, b);
    OverPowerTenths(a, k);
    OverPowerTenths(b, k);
    OverPowerTenths(Plus(a, b), k);
    OverPowerTenths(Minus(a, b), k);
    TenthsOfSum(Value(a), Value(b), k);
  }

  // Sums, differences and products are those of exact rational arithmetic, for every two arguments.

  lemma AddExact(v1: Argument, v2: Argument)
    ensures Value(Add(v1, v2)) == Denoted(v1) + Denoted(v2)
  {
    var k := MostDecimals(v1, v2);
    ScaledUpIsWhole(v1, k);
    ScaledUpIsWhole(v2, k);
    OverPowerPlus(ScaledUp(v1, k), ScaledUp(v2, k), k);
  }

  lemma SubtractExact(v1: Argument, v2: Argument)
    ensures Value(Subtract(v1, v2)) == Denoted(v1) - Denoted(v2)
  {
    var k := MostDecimals(v1, v2);
    ScaledUpIsWhole(v1, k);
    ScaledUpIsWhole(v2, k);
    OverPowerPlus(ScaledUp(v1, k), ScaledUp(v2, k), k);
  }

  lemma MultiplyExact(v1: Argument, v2: Argument)
    ensures Value(Multiply(v1, v2)) == Times(Denoted(v1), Denoted(v2))
  {
    ArgumentDenotes(v1);
    ArgumentDenotes(v2);
    var a, b, x, y := Parts(ArgumentText(v1)), Parts(ArgumentText(v2)), Denoted(v1), Denoted(v2);
    ProductOf(a, b, x, y);
  }

  /** A computed number takes part in a further sum through its text. */
  method AddNumbers(a: Exact, b: Exact) returns (c: Exact)
    ensures Value(c) == Value(a) + Value(b)
  {
    var s1 := ToText(a);
    var s2 := ToText(b);
    AddExact(Text(s1), Text(s2));
    c := Add(Text(s1), Text(s2));
  }

  lemma QuotientOf(r: real, d: real, n: real)
    requires d > 0.0 && r * d == n
    ensures n / d == r
  {
  }

  /** How many steps of size `step` lead from `i` to at most `end`. */
  function StepsLeft(i: real, end: real, step: real): int
    requires step > 0.0
  {
    if i <= end then ((end - i) / step).Floor + 1 else 0
  }

  lemma OneStep(i: real, end: real, step: real)
    requires step > 0.0 && i <= end
    ensures StepsLeft(i + step, end, step) == StepsLeft(i, end, step) - 1
    ensures StepsLeft(i, end, step) >= 1
  {
    var x := (end - i) / step;
    var y := (end - (i + step)) / step;
    assert x * step == end - i && y * step == end - i - step;
    assert (x - 1.0) * step == x * step - step;
    QuotientOf(x - 1.0, step, end - (i + step));
    if i + step <= end {
      assert y * step >= 0.0;
    } else {
      assert y * step < 0.0;
      assert x * step >= 0.0;
    }
  }

  /** The j-th number of an arithmetic progression. */
  function Nth(first: real, step: real, j: nat): real {
    first + j as real * step
  }

  lemma NextNth(first: real, step: real, j: nat)
    ensures Nth(first, step, j + 1) == Nth(first, step, j) + step && Nth(first, step, 0) == first
  {
    assert (j + 1) as real == j as real + 1.0;
  }

  /**
   * The numbers from `start` to `end` in steps of `scale`. The loop ends whenever the step is
   * positive, and at once when the start lies beyond the end.
   */
  method CreateDecimalSet(start: Exact, end: Exact, scale: Exact) returns (temp: seq<Exact>)
    requires Value(start) <= Value(end) ==> Value(scale) > 0.0
    ensures Value(start) > Value(end) ==> temp == []
    ensures Value(start) <= Value(end) ==> |temp| == ((Value(end) - Value(start)) / Value(scale)).Floor + 1
    ensures forall j :: 0 <= j < |temp| ==> Value(temp[j]) == Nth(Value(start), Value(scale), j)
  {
    temp := [];
    var i := start;
    ghost var first, last, step := Value(start), Value(end), Value(scale);
    NextNth(first, step, 0);
    if Value(start) > Value(end) {
      return;
    }
    ghost var total := StepsLeft(first, last, step);
    while Value(i) <= Value(end)
      invariant Value(i) == Nth(first, step, |temp|)
      invariant |temp| + StepsLeft(Value(i), last, step) == total
      invariant forall j :: 0 <= j < |temp| ==> Value(temp[j]) == Nth(first, step, j)
      decreases StepsLeft(Value(i), last, step)
    {
      OneStep(Value(i), last, step);
      NextNth(first, step, |temp|);
      temp := temp + [i];
      i := AddNumbers(i, scale);
    }
  }
}
