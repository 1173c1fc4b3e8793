/** Thousand separators, written by a regex loop and by a single lookahead pattern. */
module ThousandComma {
  import opened Digits
  import opened Decimal

  /**
   * A comma goes exactly in front of a digit that has a digit before it and is the first
   * of a positive multiple of three remaining digits.
   */
  function Grouped(s: string, afterDigit: bool := false): string {
    if s == "" then "" else
      var comma := if afterDigit && IsDigit(s[0]) && Run(s) % 3 == 0 then "," else "";
      comma + [s[0]] + Grouped(s[1..], IsDigit(s[0]))
  }

  predicate IsWordChar(c: char) {
    IsDigit(c) || 'a' <= c <= 'z' || 'A' <= c <= 'Z' || c == '_'
  }

  /** `replace(/\B(?=(\d{3})+(?!\d))/g, ',')`: no word boundary here and 3, 6, 9, ... digits ahead. */
  function LookaheadGrouped(s: string, afterWord: bool := false): string {
    if s == "" then "" else
      var comma := if IsWordChar(s[0]) == afterWord && Run(s) > 0 && Run(s) % 3 == 0 then "," else "";
      comma + [s[0]] + LookaheadGrouped(s[1..], IsWordChar(s[0]))
  }

  /** The two agree where every word character is a digit, signs and points included. */
  lemma {:induction false} LookaheadIsGrouped(s: string, after: bool)
    requires forall i :: 0 <= i < |s| ==> IsWordChar(s[i]) ==> IsDigit(s[i])
    ensures LookaheadGrouped(s, after) == Grouped(s, after)
  {
    if s != "" {
      LookaheadIsGrouped(s[1..], IsDigit(s[0]));
    }
  }

  /** `/(-?\d+)(\d{3})/`: where the second group of the leftmost match starts, if any. */
  function MatchSplit(s: string): (r: int)
    ensures r == -1 || 1 <= r <= |s| - 3
    ensures r != -1 ==> IsDigit(s[r - 1]) && Run(s[r..]) == 3
    ensures r == -1 ==> Run(s) < 4
  {
    if s == "" then -1
    else
      var start := if s[0] == '-' then 1 else 0;
      var n := Run(s[start..]);
      if n >= 4 then
        SplitHere(s, start);
        start + n - 3
      else
        var r := MatchSplit(s[1..]);
        if r == -1 then -1 else
          SplitLater(s, r);
          r + 1
  }

  lemma SplitHere(s: string, start: nat)
    requires start <= |s| && Run(s[start..]) >= 4
    ensures var r := start + Run(s[start..]) - 3; 1 <= r <= |s| - 3 && IsDigit(s[r - 1]) && Run(s[r..]) == 3
  {
    var t := s[start..];
    var n := Run(t);
    assert IsDigit(t[..n][n - 4]);
    RunFrom(t, n - 3);
    assert t[n - 3..] == s[start + n - 3..];
  }

  lemma SplitLater(s: string, r: nat)
    requires s != "" && r <= |s| - 1
    ensures s[1..][r..] == s[r + 1..]
  {
  }

  lemma NoMatchTail(s: string)
    requires s != "" && MatchSplit(s) == -1
    ensures MatchSplit(s[1..]) == -1 && Run(s) < 4 && (IsDigit(s[0]) ==> Run(s[1..]) < 3)
  {
    assert s[0..] == s;
  }

  /** With no match every run is shorter than four, so no comma is due. */
  lemma {:induction false} NoMatchNoComma(s: string, after: bool)
    requires MatchSplit(s) == -1 && (after ==> Run(s) < 3)
    ensures Grouped(s, after) == s
  {
    if s != "" {
      NoMatchTail(s);
      NoMatchNoComma(s[1..], IsDigit(s[0]));
      NotDue(s, after);
    }
  }

  lemma NotDue(s: string, after: bool)
    requires s != "" && (after ==> Run(s) < 3)
    ensures Grouped(s, after) == [s[0]] + Grouped(s[1..], IsDigit(s[0]))
  {
    ThreeApart(Run(s));
  }

  lemma RunThreeApart(a: string, b: string)
    requires a != "" && Run(b) == 3
    ensures IsDigit(a[0]) ==> Run(a + b) % 3 == Run(a + ("," + b)) % 3
  {
    RunOfConcat(a, b);
    RunOfConcat(a, "," + b);
    if AllDigits(a) {
      ThreeApart(|a|);
    }
  }

  lemma ThreeApart(n: nat)
    ensures (n + 3) % 3 == n % 3
    ensures 1 <= n < 3 ==> n % 3 != 0
  {
  }

  lemma GroupedAfterComma(b: string)
    requires Run(b) == 3
    ensures Grouped(b, true) == "," + Grouped(b, false)
    ensures Grouped("," + b, true) == "," + Grouped(b, false)
  {
    assert ("," + b)[1..] == b;
  }

  /** Writing one due comma leaves the others due exactly where they were. */
  lemma {:induction false} OneCommaKeepsGrouped(a: string, b: string, after: bool)
    requires a != "" && IsDigit(a[|a| - 1]) && Run(b) == 3
    ensures Grouped(a + b, after) == Grouped(a + ("," + b), after)
  {
    var c := "," + b;
    assert (a + b)[1..] == a[1..] + b && (a + c)[1..] == a[1..] + c;
    RunThreeApart(a, b);
    assert Grouped(a[1..] + b, IsDigit(a[0])) == Grouped(a[1..] + c, IsDigit(a[0])) by {
      if |a| == 1 {
        assert a[1..] + b == b && a[1..] + c == c;
        GroupedAfterComma(b);
      } else {
        OneCommaKeepsGrouped(a[1..], b, IsDigit(a[0]));
      }
    }
  }

  /** A text that goes on with something other than a digit is grouped piece by piece. */
  lemma {:induction false} GroupedInPieces(a: string, c: string, after: bool)
    requires c != "" && !IsDigit(c[0])
    ensures Grouped(a + c, after) == Grouped(a, after) + Grouped(c, false)
  {
    if a == "" {
      assert a + c == c;
    } else {
      RunStops(a, c);
      assert (a + c)[1..] == a[1..] + c;
      GroupedInPieces(a[1..], c, IsDigit(a[0]));
    }
  }

  lemma RunStops(a: string, c: string)
    requires c != "" && !IsDigit(c[0])
    ensures Run(a + c) == Run(a)
  {
    RunOfConcat(a, c);
    RunOfConcat(a, "");
    assert a + "" == a;
  }

  /** At most three digits in a row take no comma. */
  lemma ShortDigits(s: string, after: bool)
    requires AllDigits(s) && |s| + (if after then 1 else 0) <= 3
    ensures Grouped(s, after) == s
  {
    if s != "" {
      RunOfConcat(s, "");
      assert s + "" == s;
      ShortDigits(s[1..], true);
    }
  }

  lemma LastGroup(a: string, b: string)
    requires a != "" && IsDigit(a[|a| - 1]) && Run(b) == 3 && Grouped(b, false) == b
    ensures Grouped(a + b, false) == Grouped(a, false) + "," + b
  {
    var c := "," + b;
    OneCommaKeepsGrouped(a, b, false);
    GroupedInPieces(a, c, false);
    assert c[1..] == b;
    assert Grouped(c, false) == c;
  }

  /** On digits, signed or not, the last three are a group of their own behind the groups of the rest. */
  lemma GroupsOfThree(sign: bool, a: string, b: string)
    requires AllDigits(a) && AllDigits(b) && |b| == 3
    ensures Grouped(Signed(sign, a + b)) == Signed(sign, if a == "" then b else Grouped(a) + "," + b)
  {
    SignThenGroups(a + b);
    ShortDigits(b, false);
    RunOfConcat(b, "");
    assert b + "" == b;
    if a == "" {
      assert a + b == b;
    } else {
      LastGroup(a, b);
    }
  }

  lemma SignThenGroups(digits: string)
    ensures Grouped("-" + digits) == "-" + Grouped(digits)
  {
    assert ("-" + digits)[1..] == digits;
  }

  /** Neighbouring digits; every comma the loop writes separates one pair. */
  function DigitPairs(s: string): nat {
    if |s| < 2 then 0 else (if IsDigit(s[0]) && IsDigit(s[1]) then 1 else 0) + DigitPairs(s[1..])
  }

  lemma {:induction false} CommaSplitsPair(a: string, b: string)
    requires a != "" && b != "" && IsDigit(a[|a| - 1]) && IsDigit(b[0])
    ensures DigitPairs(a + ("," + b)) == DigitPairs(a + b) - 1
  {
    var c := "," + b;
    assert (a + b)[1..] == a[1..] + b && (a + c)[1..] == a[1..] + c;
    if |a| == 1 {
      assert a[1..] + b == b && a[1..] + c == c && c[1..] == b;
    } else {
      CommaSplitsPair(a[1..], b);
    }
  }

  /** The loop terminates on every text and puts each comma that is due, no other. */
  method InsertCommas(text: string) returns (part: string)
    ensures part == Grouped(text)
  {
    part := text;
    while MatchSplit(part) != -1
      invariant Grouped(part) == Grouped(text)
      decreases DigitPairs(part)
    {
      var split := MatchSplit(part);
      ghost var a, b := part[..split], part[split..];
      assert part == a + b;
      OneCommaKeepsGrouped(a, b, false);
      CommaSplitsPair(a, b);
      part := part[..split] + "," + part[split..];
      assert part == a + "," + b == a + ("," + b);
    }
    NoMatchNoComma(part, false);
  }

  /** `replace(/,/g, '')`. */
  function StripCommas(s: string): string {
    if s == "" then "" else (if s[0] == ',' then "" else [s[0]]) + StripCommas(s[1..])
  }

  lemma {:induction false} StripConcat(a: string, b: string)
    ensures StripCommas(a + b) == StripCommas(a) + StripCommas(b)
  {
    if a == "" {
      assert a + b == b;
    } else {
      assert (a + b)[1..] == a[1..] + b;
      StripConcat(a[1..], b);
    }
  }

  /** Taking the commas out again gives the text back. */
  lemma {:induction false} StripGrouped(s: string, after: bool)
    requires ',' !in s
    ensures StripCommas(Grouped(s, after)) == s
  {
    if s != "" {
      var rest := Grouped(s[1..], IsDigit(s[0]));
      StripGrouped(s[1..], IsDigit(s[0]));
      StripHead(s[0], rest);
      StripHead(',', [s[0]] + rest);
      assert Grouped(s, after) == [s[0]] + rest || Grouped(s, after) == [','] + ([s[0]] + rest);
    }
  }

  lemma StripHead(c: char, rest: string)
    ensures StripCommas([c] + rest) == (if c == ',' then "" else [c]) + StripCommas(rest)
  {
    assert ([c] + rest)[1..] == rest;
  }

  /** Without sign and separators the text starts with 0 only in front of the point or as 0 itself. */
  predicate StartsPlain(text: string) {
    var u := StripCommas(text);
    var v := if u != "" && u[0] == '-' then u[1..] else u;
    v != "" && (v[0] == '0' ==> |v| == 1 || v[1] == '.')
  }

  /** The separators of a written amount come off again, whatever the amount. */
  lemma StripWritten(w: string, rest: string)
    requires ',' !in w && ',' !in rest
    ensures StripCommas(Grouped(w) + rest) == w + rest
  {
    StripGrouped(w, false);
    StripConcat(Grouped(w), rest);
    StripPlain(rest);
  }

  lemma {:induction false} StripPlain(s: string)
    requires ',' !in s
    ensures StripCommas(s) == s
  {
    if s != "" {
      StripPlain(s[1..]);
    }
  }

  lemma PlainStart(sign: bool, n: nat, rest: string)
    requires rest != "" ==> rest[0] == '.'
    ensures var u := Signed(sign, Write(n) + rest);
      var v := if u != "" && u[0] == '-' then u[1..] else u;
      v != "" && (v[0] == '0' ==> |v| == 1 || v[1] == '.')
  {
    var w := Write(n) + rest;
    WriteStarts(n);
    assert w[0] == Write(n)[0];
    assert Signed(true, w)[1..] == w;
  }

  method ThousandComma(number: string) returns (r: string)
    ensures r == Grouped(FirstPart(number)) + (if SecondPart(number) != "" then "." + SecondPart(number) else "")
  {
    var part := InsertCommas(FirstPart(number));
    if SecondPart(number) != "" {
      return part + "." + SecondPart(number);
    }
    return part;
  }
}
