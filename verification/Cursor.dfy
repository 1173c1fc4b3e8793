/** Where the cursor of the amount input goes after the text was rewritten. */
module Cursor {

  /** Characters that the search in the new text passes over. */
  predicate IsSeparator(c: char) {
    c == ',' || c == ' '
  }

  /** Characters that the old prefix is counted without: the comma and every white space. */
  predicate IsCommaOrSpace(c: char) {
    c == ',' || IsWhiteSpace(c)
  }

  predicate IsWhiteSpace(c: char) {
    || '\t' <= c <= '\r' || c == ' ' || c == '\U{A0}' || c == '\U{1680}' || '\U{2000}' <= c <= '\U{200A}'
    || c == '\U{2028}' || c == '\U{2029}' || c == '\U{202F}' || c == '\U{205F}' || c == '\U{3000}' || c == '\U{FEFF}'
  }

  /** The twenty-five white space characters and line ends of ECMAScript. */
  lemma WhiteSpaceCharacters(c: char)
    ensures IsWhiteSpace(c) <==>
      c in "\t\n\U{B}\U{C}\r \U{A0}\U{1680}\U{2000}\U{2001}\U{2002}\U{2003}\U{2004}\U{2005}\U{2006}\U{2007}"
         + "\U{2008}\U{2009}\U{200A}\U{2028}\U{2029}\U{202F}\U{205F}\U{3000}\U{FEFF}"
  {
  }

  function CountSignificant(s: string): nat {
    if s == "" then 0
    else CountSignificant(s[..|s| - 1]) + if IsSeparator(s[|s| - 1]) then 0 else 1
  }

  function RemoveCommasAndSpaces(s: string): string {
    if s == "" then ""
    else (if IsCommaOrSpace(s[0]) then "" else [s[0]]) + RemoveCommasAndSpaces(s[1..])
  }

  /** Both counts are the numbers of places that hold no separator, of the one kind and of the other. */
  lemma {:induction false} SignificantPlaces(s: string)
    ensures CountSignificant(s) == |set i | 0 <= i < |s| && s[i] != ',' && s[i] != ' '|
  {
    var all := set i | 0 <= i < |s| && s[i] != ',' && s[i] != ' ';
    if s == "" {
      assert all == {};
    } else {
      var n := |s| - 1;
      var t := s[..n];
      SignificantPlaces(t);
      var before := set i | 0 <= i < |t| && t[i] != ',' && t[i] != ' ';
      assert all == if s[n] != ',' && s[n] != ' ' then before + {n} else before;
    }
  }

  lemma {:induction false} KeptPlaces(s: string)
    ensures |RemoveCommasAndSpaces(s)| == |set i | 0 <= i < |s| && s[i] != ',' && !IsWhiteSpace(s[i])|
  {
    var all := set i | 0 <= i < |s| && s[i] != ',' && !IsWhiteSpace(s[i]);
    if s == "" {
      assert all == {};
    } else {
      var n := |s| - 1;
      var t := s[..n];
      KeptPlaces(t);
      RemoveLast(t, s[n]);
      assert s == t + [s[n]];
      var before := set i | 0 <= i < |t| && t[i] != ',' && !IsWhiteSpace(t[i]);
      assert all == if s[n] != ',' && !IsWhiteSpace(s[n]) then before + {n} else before;
    }
  }

  lemma {:induction false} RemoveLast(t: string, c: char)
    ensures RemoveCommasAndSpaces(t + [c]) == RemoveCommasAndSpaces(t) + if IsCommaOrSpace(c) then "" else [c]
  {
    var last := if IsCommaOrSpace(c) then "" else [c];
    if t == "" {
      assert t + [c] == [c] && [c][1..] == "";
    } else {
      var first := if IsCommaOrSpace(t[0]) then "" else [t[0]];
      RemoveLast(t[1..], c);
      RemoveFirst(t);
      RemoveFirst(t + [c]);
      assert (t + [c])[1..] == t[1..] + [c];
      assert first + (RemoveCommasAndSpaces(t[1..]) + last) == first + RemoveCommasAndSpaces(t[1..]) + last;
    }
  }

  lemma RemoveFirst(s: string)
    requires s != ""
    ensures RemoveCommasAndSpaces(s) == (if IsCommaOrSpace(s[0]) then "" else [s[0]]) + RemoveCommasAndSpaces(s[1..])
  {
  }

  /** In a text whose only white space is the blank the two counts agree. */
  lemma {:induction false} SameCounts(s: string)
    requires forall i :: 0 <= i < |s| && IsWhiteSpace(s[i]) ==> s[i] == ' '
    ensures |RemoveCommasAndSpaces(s)| == CountSignificant(s)
  {
    if s != "" {
      var n := |s| - 1;
      SameCounts(s[..n]);
      RemoveLast(s[..n], s[n]);
      assert s == s[..n] + [s[n]];
      assert IsWhiteSpace(' ');
    }
  }

  /** `substring(0, pos)`. */
  function Prefix(s: string, pos: int): string {
    if pos <= 0 then "" else if pos > |s| then s else s[..pos]
  }

  lemma {:induction false} CountMonotone(s: string, i: nat, j: nat)
    requires i <= j <= |s|
    ensures CountSignificant(s[..i]) <= CountSignificant(s[..j]) <= CountSignificant(s[..i]) + (j - i)
    decreases j
  {
    if i < j {
      assert s[..j][..j - 1] == s[..j - 1];
      CountMonotone(s, i, j - 1);
    }
  }

  /**
   * With k significant characters before the old cursor the new one goes behind the k-th
   * significant character; behind the first character when k is 0; to the front when there
   * are fewer than k.
   */
  ghost predicate IsCursor(oldValue: string, newValue: string, oldPos: int, pos: nat) {
    var k := |RemoveCommasAndSpaces(Prefix(oldValue, oldPos))|;
    && pos <= |newValue|
    && (k == 0 ==> pos == if newValue == "" then 0 else 1)
    && (k > CountSignificant(newValue) ==> pos == 0)
    && (1 <= k <= CountSignificant(newValue) ==>
          && CountSignificant(newValue[..pos]) == k
          && forall i :: 0 <= i < pos ==> CountSignificant(newValue[..i]) < k)
  }

  /** The text is as before, the blank is its only white space, and a significant character precedes the cursor. */
  ghost predicate NothingMoved(oldValue: string, newValue: string, oldPos: int) {
    && oldValue == newValue && (forall i :: 0 <= i < |oldValue| && IsWhiteSpace(oldValue[i]) ==> oldValue[i] == ' ')
    && 0 < oldPos <= |oldValue| && oldValue[oldPos - 1] != ',' && oldValue[oldPos - 1] != ' '
  }

  lemma CursorStays(oldValue: string, newValue: string, oldPos: int, pos: nat)
    requires NothingMoved(oldValue, newValue, oldPos) && IsCursor(oldValue, newValue, oldPos, pos)
    ensures pos == oldPos
  {
    var s := oldValue;
    var k := CountSignificant(s[..oldPos]);
    assert Prefix(s, oldPos) == s[..oldPos];
    SameCounts(s[..oldPos]);
    assert s[..oldPos][..oldPos - 1] == s[..oldPos - 1];
    CountMonotone(s, oldPos, |s|);
    assert s[..|s|] == s;
    if pos < oldPos {
      CountMonotone(s, pos, oldPos - 1);
    }
  }

  method CalculateCursorPosition(oldValue: string, newValue: string, oldPos: int) returns (pos: nat)
    ensures IsCursor(oldValue, newValue, oldPos, pos)
    ensures NothingMoved(oldValue, newValue, oldPos) ==> pos == oldPos
  {
    var oldPrefix := Prefix(oldValue, oldPos);
    var newPrefix := "";
    var charCount := 0;
    ghost var k := |RemoveCommasAndSpaces(oldPrefix)|;
    var i := 0;
    while i < |newValue|
      invariant 0 <= i <= |newValue| && newPrefix == ""
      invariant charCount == CountSignificant(newValue[..i])
      invariant forall j :: 0 <= j <= i && (k > 0 || j > 0) ==> CountSignificant(newValue[..j]) < k
    {
      var c := newValue[i];
      assert newValue[..i + 1][..i] == newValue[..i];
      if c != ',' && c != ' ' {
        charCount := charCount + 1;
      }
      var oldCharCount := |RemoveCommasAndSpaces(oldPrefix)|;
      if charCount >= oldCharCount {
        newPrefix := newValue[..i + 1];
        CountMonotone(newValue, i + 1, |newValue|);
        assert newValue[..|newValue|] == newValue;
        assert k > 0 ==> CountSignificant(newValue[..i]) < k;
        break;
      }
      i := i + 1;
    }
    assert newValue[..|newValue|] == newValue;
    pos := if |newPrefix| < |newValue| then |newPrefix| else |newValue|;
    assert IsCursor(oldValue, newValue, oldPos, pos);
    if NothingMoved(oldValue, newValue, oldPos) {
      CursorStays(oldValue, newValue, oldPos, pos);
    }
  }
}
