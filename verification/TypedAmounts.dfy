/** What the amount input keeps of a typed text, and how what it shows begins. */
module TypedAmounts {
  import opened Wrappers
  import opened Digits
  import opened Decimal
  import opened ThousandComma
  import opened AmountFormatter

  // Cleaning.

  /** The places of the kept characters, in order: digits, points, and minus characters where they are wanted. */
  lemma {:induction false} KeepSelects(s: string, minus: bool) returns (at: seq<nat>)
    ensures |at| == |Keep(s, minus)|
    ensures forall i :: 0 <= i < |at| ==> at[i] < |s| && s[at[i]] == Keep(s, minus)[i]
    ensures forall i, j :: 0 <= i < j < |at| ==> at[i] < at[j]
    ensures forall k :: 0 <= k < |s| ==> (k in at <==> '0' <= s[k] <= '9' || s[k] == '.' || (minus && s[k] == '-'))
  {
    if s == "" {
      at := [];
    } else {
      var n := |s| - 1;
      var t, c := s[..n], s[n];
      var before := KeepSelects(t, minus);
      assert s == t + [c];
      KeepConcat(t, [c], minus);
      KeepLast(c, minus);
      at := before + if Kept(c, minus) then [n] else [];
      assert forall k :: 0 <= k < n ==> s[k] == t[k];
    }
  }

  lemma KeepLast(c: char, minus: bool)
    ensures Keep([c], minus) == if Kept(c, minus) then [c] else ""
  {
    assert [c][1..] == "";
  }

  lemma {:induction false} CountIsNumber(s: string, c: char)
    ensures Count(s, c) == |set i | 0 <= i < |s| && s[i] == c|
  {
    var all := set i | 0 <= i < |s| && s[i] == c;
    if s == "" {
      assert all == {};
    } else {
      var n := |s| - 1;
      var t := s[..n];
      CountIsNumber(t, c);
      var before := set i | 0 <= i < |t| && t[i] == c;
      assert s == t + [s[n]];
      CountConcat(t, [s[n]], c);
      CountOne(s[n], c);
      assert all == if s[n] == c then before + {n} else before;
    }
  }

  lemma CountOne(d: char, c: char)
    ensures Count([d], c) == if d == c then 1 else 0
  {
    assert [d][1..] == "";
  }

  lemma KeepHasNoMinus(text: string)
    ensures Keep(text, false) != "" ==> Keep(text, false)[0] != '-'
  {
    KeepOnly(text, false);
  }

  /** The number read is negative when the text starts with a minus character or has an odd number of them. */
  lemma SignOfText(text: string)
    requires Reads(text).Some?
    ensures Reads(text).value.negative <==>
      ((text != "" && text[0] == '-') || |set i | 0 <= i < |text| && text[i] == '-'| % 2 == 1)
  {
    CountIsNumber(text, '-');
    KeepHasNoMinus(text);
  }

  // Showing.

  lemma GroupedStarts(s: string)
    requires s != ""
    ensures Grouped(s) != "" && Grouped(s)[0] == s[0]
  {
  }

  lemma ShownStarts(n: Number)
    ensures Shown(n) != "" && (Shown(n)[0] == '-' <==> n.negative && n.mantissa > 0)
  {
    var (m, s) := Normal(n.mantissa, n.scale);
    GroupedStarts(Write(Whole(m, s)));
  }

  /** The text shown starts with a minus exactly when the number read is negative and not zero. */
  lemma SignOfShown(text: string)
    requires text != "" && Reads(text).Some?
    ensures Formatted(text) != ""
    ensures Formatted(text)[0] == '-' <==>
      (((text != "" && text[0] == '-') || |set i | 0 <= i < |text| && text[i] == '-'| % 2 == 1)
       && Reads(text).value.mantissa > 0)
  {
    SignOfText(text);
    ShownStarts(Reads(text).value);
  }
}
