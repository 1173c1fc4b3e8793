/** Exact decimal numbers and the text that JavaScript gives them. */
module Decimal {
  import opened Digits
  import opened Wrappers

  /** The number (-1)^negative * mantissa / 10^scale; a negative zero is a zero of its own. */
  datatype Number = Num(negative: bool, mantissa: nat, scale: nat)

  /** The longest prefix that reads as a number, on texts of digits, points and one leading sign. */
  function ParseFloat(s: string): Option<Number> {
    var negative := s != "" && s[0] == '-';
    var t := if negative then s[1..] else s;
    var whole := t[..Run(t)];
    var rest := t[Run(t)..];
    var fraction := if rest != "" && rest[0] == '.' then rest[1..][..Run(rest[1..])] else "";
    if whole + fraction == "" then None
    else
      ValConcat(whole, fraction);
      Some(Num(negative, Val(whole + fraction), |fraction|))
  }

  function Signed(sign: bool, s: string): string {
    if sign then "-" + s else s
  }

  lemma RunBeforePoint(w: string, d: string)
    requires AllDigits(w) && AllDigits(d)
    ensures Run(w + ("." + d)) == |w| && Run(d) == |d|
  {
    RunOfConcat(w, "." + d);
    RunOfConcat(d, "");
    assert d + "" == d;
  }

  lemma ParseShown(sign: bool, w: string, d: string)
    requires AllDigits(w) && AllDigits(d) && w != ""
    ensures AllDigits(w + d)
    ensures ParseFloat(Signed(sign, w + ("." + d))) == Some(Num(sign, Val(w + d), |d|))
  {
    var t := w + ("." + d);
    ValConcat(w, d);
    RunBeforePoint(w, d);
    assert t[0] == w[0];
    assert Signed(sign, t)[if sign then 1 else 0..] == t;
    assert t[..|w|] == w && t[|w|..] == "." + d;
    assert ("." + d)[1..] == d && d[..|d|] == d;
  }

  /** The same quotient with as few decimals as possible. */
  function Normal(m: nat, s: nat): (r: (nat, nat))
    ensures r.1 <= s
    ensures r.1 > 0 ==> r.0 % 10 != 0
    decreases s, m
  {
    if s > 0 && m % 10 == 0 then Normal(m / 10, s - 1) else (m, s)
  }

  lemma {:induction false} NormalSameValue(m: nat, s: nat)
    ensures var (n, t) := Normal(m, s); m == n * Pow10(s - t)
    decreases s
  {
    if s > 0 && m % 10 == 0 {
      NormalSameValue(m / 10, s - 1);
      var (n, t) := Normal(m, s);
      assert n * Pow10(s - t) == 10 * (n * Pow10(s - 1 - t));
    }
  }

  /** A zero written behind the last decimal changes nothing. */
  lemma NormalTrailingZero(m: nat, s: nat)
    ensures Normal(10 * m, s + 1) == Normal(m, s)
  {
    assert 10 * m % 10 == 0 && 10 * m / 10 == m;
  }

  /** The whole part and the decimals of m / 10^s. */
  function Whole(m: nat, s: nat): nat {
    Quotient(m, Pow10(s))
  }

  function Fraction(m: nat, s: nat): (f: nat)
    ensures f < Pow10(s)
  {
    Remainder(m, Pow10(s))
  }

  /** `Math.abs(x).toString()` for m / 10^s. */
  function AbsText(m: nat, s: nat): string {
    var (n, t) := Normal(m, s);
    if t == 0 then Write(n) else Write(Whole(n, t)) + "." + Pad(Fraction(n, t), t)
  }

  // `split('.')`.

  /** The text before the first point. */
  function FirstPart(s: string): (r: string)
    ensures '.' !in r && |r| <= |s| && r == s[..|r|]
    ensures |r| < |s| ==> s[|r|] == '.'
  {
    if s == "" || s[0] == '.' then "" else [s[0]] + FirstPart(s[1..])
  }

  /** The text between the first and the second point; empty when there is no point. */
  function SecondPart(s: string): string {
    var n := |FirstPart(s)|;
    if n < |s| then FirstPart(s[n + 1..]) else ""
  }

  /** `split('.')` of the text of a number. */
  lemma PartsOfAbsText(m: nat, s: nat)
    ensures var (n, t) := Normal(m, s);
      && FirstPart(AbsText(m, s)) == Write(Whole(n, t))
      && SecondPart(AbsText(m, s)) == if t == 0 then "" else Pad(Fraction(n, t), t)
  {
    var (n, t) := Normal(m, s);
    if t == 0 {
      assert Quotient(n, 1) == n by { QuotientUnique(n, 1, n); }
      NoPoint(Write(n));
    } else {
      PointAfter(Write(Whole(n, t)), Pad(Fraction(n, t), t));
    }
  }

  lemma {:induction false} NoPoint(a: string)
    requires AllDigits(a)
    ensures FirstPart(a) == a
  {
    if a != "" {
      NoPoint(a[1..]);
    }
  }

  lemma PointAfter(a: string, b: string)
    requires AllDigits(a) && AllDigits(b)
    ensures FirstPart(a + "." + b) == a && SecondPart(a + "." + b) == b
  {
    PointSplits(a, "." + b);
    assert a + "." + b == a + ("." + b);
    assert (a + "." + b)[|a| + 1..] == b;
    NoPoint(b);
  }

  lemma {:induction false} PointSplits(a: string, c: string)
    requires AllDigits(a) && c != "" && c[0] == '.'
    ensures FirstPart(a + c) == a
  {
    if a == "" {
      assert a + c == c;
    } else {
      assert (a + c)[1..] == a[1..] + c;
      PointSplits(a[1..], c);
    }
  }

  /** The first `j` of `k` padded digits are the digits of the quotient. */
  lemma {:induction false} PadPrefix(n: nat, k: nat, j: nat)
    requires j <= k
    ensures Pad(n, k)[..j] == Pad(Quotient(n, Pow10(k - j)), j)
    decreases k
  {
    if j < k {
      PadPrefix(n / 10, k - 1, j);
      QuotientByTen(n);
      QuotientOfQuotient(n, 10, Pow10(k - 1 - j));
    } else {
      assert Quotient(n, 1) == n by { QuotientUnique(n, 1, n); }
    }
  }
}
