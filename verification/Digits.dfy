/** Decimal digit strings and the numbers they write. */
module Digits {

  function Pow10(k: nat): (p: nat)
    ensures p >= 1
  {
    if k == 0 then 1 else 10 * Pow10(k - 1)
  }

  predicate IsDigit(c: char) {
    '0' <= c <= '9'
  }

  predicate AllDigits(s: string) {
    forall i :: 0 <= i < |s| ==> IsDigit(s[i])
  }

  function DigitOf(d: nat): (c: char)
    requires d < 10
    ensures IsDigit(c) && DigitValue(c) == d
  {
    "0123456789"[d]
  }

  function DigitValue(c: char): (d: nat)
    requires IsDigit(c)
    ensures d < 10
  {
    c as nat - '0' as nat
  }

  /** The number written by a digit string. */
  function Val(s: string): nat
    requires AllDigits(s)
  {
    if s == "" then 0 else 10 * Val(s[..|s| - 1]) + DigitValue(s[|s| - 1])
  }

  /** The number written without leading zeros. */
  function Write(n: nat): (s: string)
    ensures AllDigits(s) && s != ""
  {
    if n < 10 then [DigitOf(n)] else Write(n / 10) + [DigitOf(n % 10)]
  }

  /** The last `k` digits of a number, leading zeros included. */
  function Pad(n: nat, k: nat): (s: string)
    ensures AllDigits(s) && |s| == k
  {
    if k == 0 then "" else Pad(n / 10, k - 1) + [DigitOf(n % 10)]
  }

  lemma {:induction false} ValWrite(n: nat)
    ensures Val(Write(n)) == n
  {
    if n >= 10 {
      ValWrite(n / 10);
      assert Write(n)[..|Write(n)| - 1] == Write(n / 10);
    }
  }

  lemma {:induction false} ValPad(n: nat, k: nat)
    requires n < Pow10(k)
    ensures Val(Pad(n, k)) == n
  {
    if k > 0 {
      TenthBelow(n, Pow10(k - 1));
      ValPad(n / 10, k - 1);
      var t := Pad(n / 10, k - 1);
      ValLastDigit(t, n % 10);
    }
  }

  lemma TenthBelow(n: nat, p: nat)
    requires n < 10 * p
    ensures n / 10 < p && 10 * (n / 10) + n % 10 == n
  {
  }

  lemma ValLastDigit(t: string, d: nat)
    requires AllDigits(t) && d < 10
    ensures Val(t + [DigitOf(d)]) == 10 * Val(t) + d
  {
    assert (t + [DigitOf(d)])[..|t|] == t;
  }

  lemma {:induction false} ValConcat(a: string, b: string)
    requires AllDigits(a) && AllDigits(b)
    ensures AllDigits(a + b) && Val(a + b) == Val(a) * Pow10(|b|) + Val(b)
    decreases |b|
  {
    if b == "" {
      assert a + b == a;
    } else {
      var c := b[..|b| - 1];
      ValConcat(a, c);
      assert (a + b)[..|a + b| - 1] == a + c;
      TenTimes(Val(a), Pow10(|c|));
    }
  }

  lemma TenTimes(v: nat, p: nat)
    ensures v * (10 * p) == 10 * (v * p)
  {
  }

  /** A number is written without a zero in front, which only zero itself has. */
  lemma {:induction false} WriteStarts(n: nat)
    ensures Write(n)[0] == '0' <==> n == 0
    ensures n == 0 ==> Write(n) == "0"
  {
    if n >= 10 {
      WriteStarts(n / 10);
    }
  }

  /** Digits without a zero in front are what their value is written as. */
  lemma {:induction false} WriteOfVal(s: string)
    requires AllDigits(s) && s != "" && (s[0] == '0' ==> |s| == 1)
    ensures Write(Val(s)) == s
  {
    var t, d := s[..|s| - 1], s[|s| - 1];
    if t == "" {
      assert s == [d] && Val("") == 0;
    } else {
      WriteOfVal(t);
      ValPositive(t);
      assert Val(s) / 10 == Val(t) && Val(s) % 10 == DigitValue(d);
      assert s == t + [d];
    }
  }

  lemma {:induction false} ValPositive(s: string)
    requires AllDigits(s) && s != "" && s[0] != '0'
    ensures Val(s) > 0
  {
    if |s| > 1 {
      ValPositive(s[..|s| - 1]);
    } else {
      assert s[..0] == "" && Val("") == 0;
    }
  }

  /** k digits of `f` written behind those of `w`. */
  function Joined(w: nat, f: nat, k: nat): nat {
    w * Pow10(k) + f
  }

  lemma ValJoined(w: string, f: string)
    requires AllDigits(w) && AllDigits(f)
    ensures AllDigits(w + f) && Val(w + f) == Joined(Val(w), Val(f), |f|)
  {
    ValConcat(w, f);
  }

  /** Digits of the same length are the same when they write the same number. */
  lemma {:induction false} PadVal(s: string)
    requires AllDigits(s)
    ensures Pad(Val(s), |s|) == s
  {
    if s != "" {
      var t := s[..|s| - 1];
      PadVal(t);
      assert Val(s) / 10 == Val(t) && Val(s) % 10 == DigitValue(s[|s| - 1]);
      assert s == t + [s[|s| - 1]];
    }
  }

  lemma {:induction false} Pow10Sum(a: nat, b: nat)
    ensures Pow10(a + b) == Pow10(a) * Pow10(b)
  {
    if a > 0 {
      Pow10Sum(a - 1, b);
      assert Pow10(a + b) == 10 * Pow10(a - 1 + b);
      assert 10 * (Pow10(a - 1) * Pow10(b)) == Pow10(a) * Pow10(b);
    }
  }

  /** The length of the run of digits at the front. */
  function Run(s: string): (n: nat)
    ensures n <= |s|
    ensures AllDigits(s[..n]) && (n < |s| ==> !IsDigit(s[n]))
  {
    if s == "" || !IsDigit(s[0]) then 0 else
      var n := 1 + Run(s[1..]);
      assert s[..n] == [s[0]] + s[1..][..n - 1];
      n
  }

  lemma {:induction false} RunFrom(s: string, k: nat)
    requires k <= Run(s)
    ensures Run(s[k..]) == Run(s) - k
  {
    if k > 0 {
      RunFrom(s[1..], k - 1);
      assert s[1..][k - 1..] == s[k..];
    } else {
      assert s[0..] == s;
    }
  }

  lemma {:induction false} RunOfConcat(a: string, b: string)
    ensures Run(a + b) == if AllDigits(a) then |a| + Run(b) else Run(a)
  {
    if a == "" {
      assert a + b == b;
    } else {
      assert (a + b)[1..] == a[1..] + b;
      RunOfConcat(a[1..], b);
      assert AllDigits(a) <==> IsDigit(a[0]) && AllDigits(a[1..]);
    }
  }

  /** The whole quotient of natural numbers. */
  function Quotient(x: nat, m: nat): (q: nat)
    requires m > 0
    ensures q * m <= x < q * m + m
    decreases x, m
  {
    if x < m then 0 else
      var q := Quotient(x - m, m);
      assert (q + 1) * m == q * m + m;
      q + 1
  }

  function Remainder(x: nat, m: nat): (r: nat)
    requires m > 0
    ensures r < m
  {
    x - Quotient(x, m) * m
  }

  /** No other quotient leaves a remainder below the divisor. */
  lemma {:induction false} QuotientUnique(x: nat, m: nat, q: nat)
    requires m > 0 && q * m <= x < q * m + m
    ensures Quotient(x, m) == q && Remainder(x, m) == x - q * m
    decreases x
  {
    OneLess(q, m);
    if x >= m {
      assert q >= 1;
      QuotientUnique(x - m, m, q - 1);
    }
  }

  lemma OneLess(q: nat, m: nat)
    requires m > 0
    ensures q >= 1 ==> q * m >= m && (q - 1) * m == q * m - m
  {
    if q >= 1 {
      assert (q - 1) * m == q * m - m;
    }
  }

  lemma QuotientByTen(x: nat)
    ensures Quotient(x, 10) == x / 10 && Remainder(x, 10) == x % 10
  {
    QuotientUnique(x, 10, x / 10);
  }

  lemma QuotientByOne(n: nat)
    ensures Quotient(n, 1) == n && Remainder(n, 1) == 0
  {
    QuotientUnique(n, 1, n);
  }

  lemma MulMonotone(a: nat, b: nat, m: nat)
    requires a <= b
    ensures a * m <= b * m
  {
    assert b * m == a * m + (b - a) * m;
  }

  lemma MulAssociates(a: nat, b: nat, c: nat)
    ensures (a * b) * c == a * (b * c) == a * (c * b) == (a * c) * b
  {
  }

  lemma MulDistributes(a: nat, b: nat, c: nat)
    ensures (a + b) * c == a * c + b * c
  {
  }

  lemma QuotientOfQuotient(n: nat, a: nat, b: nat)
    requires a > 0 && b > 0 && a * b > 0
    ensures Quotient(Quotient(n, a), b) == Quotient(n, a * b)
  {
    var q := Quotient(n, a);
    var p := Quotient(q, b);
    MulAssociates(p, b, a);
    MulMonotone(p * b, q, a);
    MulMonotone(q + 1, p * b + b, a);
    MulDistributes(q, 1, a);
    MulDistributes(p * b, b, a);
    QuotientUnique(n, a * b, p);
  }

  /** A common factor cancels. */
  lemma QuotientCancel(n: nat, d: nat, c: nat)
    requires d > 0 && c > 0 && d * c > 0
    ensures Quotient(n * c, d * c) == Quotient(n, d)
  {
    var q := Quotient(n, d);
    MulAssociates(q, d, c);
    MulMonotone(q * d, n, c);
    MulMonotone(n + 1, q * d + d, c);
    MulDistributes(n, 1, c);
    MulDistributes(q * d, d, c);
    QuotientUnique(n * c, d * c, q);
  }
}
