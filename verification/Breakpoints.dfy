/** The width poll that keeps `breakpoint-N` classes on the body. */
module Breakpoints {

  function Elements(s: seq<int>): set<int> {
    set x | x in s
  }

  /** The class a width calls for, looking at nothing but the width. */
  function Wanted(bps: set<int>, distinct: bool, w: int): (r: set<int>) {
    set b | b in bps && b <= w && (distinct ==> forall c :: c in bps && c <= w ==> c <= b)
  }

  /** Breakpoints that the width has dropped below, and that it has risen to, since the last poll. */
  function Gone(bps: set<int>, last: int, w: int): set<int> {
    set b | b in bps && w < b <= last
  }

  function Entered(bps: set<int>, last: int, w: int): set<int> {
    set b | b in bps && last < b <= w
  }

  predicate Contracts(bps: set<int>, last: int, w: int) {
    0 < last && w < last && exists b :: b in bps && w < b
  }

  /** The classes after one poll, in closed form. */
  function NextBody(bps: set<int>, distinct: bool, last: int, w: int, body: set<int>): set<int> {
    if !distinct then body + Entered(bps, last, w) - Gone(bps, last, w)
    else if Entered(bps, last, w) != {} then body - bps + Wanted(bps, true, w)
    else body - Gone(bps, last, w) + if Contracts(bps, last, w) then Wanted(bps, true, w) else {}
  }

  // Sorting from large to small.

  predicate Descending(s: seq<int>) {
    forall i, j :: 0 <= i < j < |s| ==> s[i] >= s[j]
  }

  function Insert(x: int, s: seq<int>): (r: seq<int>)
    requires Descending(s)
    ensures Descending(r) && |r| == |s| + 1
    ensures forall y :: y in r <==> y == x || y in s
  {
    if s == [] || x >= s[0] then [x] + s
    else
      var r := Insert(x, s[1..]);
      assert forall y :: y in s[1..] ==> y in s && y <= s[0];
      assert forall i :: 0 <= i < |r| ==> r[i] in r;
      [s[0]] + r
  }

  function SortDescending(s: seq<int>): (r: seq<int>)
    ensures Descending(r) && |r| == |s|
    ensures forall y :: y in r <==> y in s
  {
    if s == [] then [] else Insert(s[0], SortDescending(s[1..]))
  }

  lemma SortKeepsElements(s: seq<int>)
    ensures Elements(SortDescending(s)) == Elements(s)
  {
  }

  lemma {:induction false} InsertCounts(x: int, s: seq<int>)
    requires Descending(s)
    ensures multiset(Insert(x, s)) == multiset(s) + multiset{x}
  {
    if s != [] && x < s[0] {
      assert s == [s[0]] + s[1..];
      InsertCounts(x, s[1..]);
    }
  }

  lemma {:induction false} SortIsPermutation(s: seq<int>)
    ensures multiset(SortDescending(s)) == multiset(s)
  {
    if s != [] {
      assert s == [s[0]] + s[1..];
      SortIsPermutation(s[1..]);
      InsertCounts(s[0], SortDescending(s[1..]));
    }
  }

  lemma {:induction false} SortedIsFixed(s: seq<int>)
    requires Descending(s)
    ensures SortDescending(s) == s
  {
    if s != [] {
      SortedIsFixed(s[1..]);
    }
  }

  // One iteration of the polling loop: the prefix `p` of the sorted list grows by `x`.

  ghost predicate Extends(p: seq<int>, x: int) {
    forall i :: 0 <= i < |p| ==> p[i] >= x
  }

  lemma GrowAll(p: seq<int>, x: int, last: int, w: int, body: set<int>)
    ensures NextBody(Elements(p + [x]), false, last, w, body)
         == NextBody(Elements(p), false, last, w, body)
          + (if last < x <= w then {x} else {}) - (if w < x <= last then {x} else {})
  {
    assert Elements(p + [x]) == Elements(p) + {x};
  }

  lemma GrowAbove(p: seq<int>, x: int, last: int, w: int, body: set<int>)
    requires Extends(p, x) && x > w
    requires Entered(Elements(p), last, w) == {}
    ensures Entered(Elements(p + [x]), last, w) == {}
    ensures NextBody(Elements(p + [x]), true, last, w, body)
         == NextBody(Elements(p), true, last, w, body) - (if w < x <= last then {x} else {})
  {
    assert Elements(p + [x]) == Elements(p) + {x};
    assert Wanted(Elements(p), true, w) == {} == Wanted(Elements(p + [x]), true, w);
  }

  lemma GrowBelow(p: seq<int>, x: int, last: int, w: int, body: set<int>)
    requires Descending(p) && Extends(p, x) && x <= w && x <= last
    requires Entered(Elements(p), last, w) == {}
    ensures Entered(Elements(p + [x]), last, w) == {}
    ensures NextBody(Elements(p + [x]), true, last, w, body)
         == NextBody(Elements(p), true, last, w, body)
          + (if p != [] && w < p[|p| - 1] && 0 < last && w < last then {x} else {})
  {
    BelowMoves(p, x, last, w);
    if p != [] {
      BelowWanted(p, x, w);
      assert p[|p| - 1] in Elements(p);
    }
  }

  lemma BelowMoves(p: seq<int>, x: int, last: int, w: int)
    requires x <= w && x <= last
    ensures var q := Elements(p + [x]);
      && Entered(q, last, w) == Entered(Elements(p), last, w) && Gone(q, last, w) == Gone(Elements(p), last, w)
      && Contracts(q, last, w) == Contracts(Elements(p), last, w)
  {
    assert Elements(p + [x]) == Elements(p) + {x};
  }

  lemma BelowWanted(p: seq<int>, x: int, w: int)
    requires p != [] && Descending(p) && Extends(p, x) && x <= w
    ensures var q := Elements(p + [x]);
      if w < p[|p| - 1] then Wanted(Elements(p), true, w) == {} && Wanted(q, true, w) == {x}
      else Wanted(q, true, w) == Wanted(Elements(p), true, w)
  {
    assert Elements(p + [x]) == Elements(p) + {x};
    var y := p[|p| - 1];
    if w < y {
      assert forall b :: b in Elements(p) ==> b > w;
    } else {
      AddBelow(Elements(p), x, y, w);
    }
  }

  lemma AddBelow(bps: set<int>, x: int, y: int, w: int)
    requires y in bps && x <= y <= w
    ensures Wanted(bps + {x}, true, w) == Wanted(bps, true, w)
  {
  }

  lemma PassedAbove(p: seq<int>, x: int, last: int, w: int)
    requires Extends(p, x) && last < x && Entered(Elements(p), last, w) == {}
    ensures forall i :: 0 <= i < |p| ==> p[i] > w
  {
    forall i | 0 <= i < |p|
      ensures p[i] > w
    {
      assert p[i] in Elements(p) && p[i] !in Entered(Elements(p), last, w);
    }
  }

  /**
   * After the first `i` breakpoints the body is what one poll of just these would leave; in distinct
   * mode the first breakpoint entered settles the outcome for all of them.
   */
  ghost predicate PolledSoFar(b: seq<int>, i: nat, distinct: bool, last: int, w: int, body0: set<int>,
                              body: set<int>, done: bool)
    requires i <= |b|
  {
    if done then
      distinct && body == NextBody(Elements(b), true, last, w, body0) && Entered(Elements(b[..i]), last, w) != {}
    else
      && body == NextBody(Elements(b[..i]), distinct, last, w, body0)
      && (distinct ==> Entered(Elements(b[..i]), last, w) == {})
  }

  function Visited(b: seq<int>, bp: nat, distinct: bool, last: int, w: int, body: set<int>, done: bool): set<int>
    requires bp < |b|
  {
    var x := b[bp];
    if !done && last < x <= w then (if distinct then body - Elements(b) else body) + {x}
    else if w < x <= last then body - {x}
    else if distinct && x <= w && bp > 0 && w < b[bp - 1] && 0 < last && w < last then body + {x}
    else body
  }

  lemma PollStep(b: seq<int>, i: nat, distinct: bool, last: int, w: int, body0: set<int>, body: set<int>, done: bool)
    requires i < |b| && Descending(b) && PolledSoFar(b, i, distinct, last, w, body0, body, done)
    ensures PolledSoFar(b, i + 1, distinct, last, w, body0, Visited(b, i, distinct, last, w, body, done),
                        done || (distinct && last < b[i] <= w))
  {
    var p, x := b[..i], b[i];
    assert b[..i + 1] == p + [x];
    if done {
      var y :| y in Entered(Elements(p), last, w);
      assert y in Entered(Elements(p + [x]), last, w) && y in Elements(b) && last < w;
    } else if !distinct {
      GrowAll(p, x, last, w, body0);
    } else if x > w {
      GrowAbove(p, x, last, w, body0);
    } else if x <= last {
      GrowBelow(p, x, last, w, body0);
    } else {
      PassedAbove(p, x, last, w);
      assert x in Entered(Elements(b), last, w) && x in Entered(Elements(p + [x]), last, w);
      assert Wanted(Elements(b), true, w) == {x};
      assert Gone(Elements(p), last, w) == {};
      assert !Contracts(Elements(p), last, w);
    }
  }

  lemma PollEnds(b: seq<int>, distinct: bool, last: int, w: int, body0: set<int>, body: set<int>, done: bool)
    ensures PolledSoFar(b, 0, distinct, last, w, body0, body0, false)
    ensures PolledSoFar(b, |b|, distinct, last, w, body0, body, done) ==>
      body == NextBody(Elements(b), distinct, last, w, body0)
  {
    assert b[..|b|] == b;
  }

  class Tracker {
    var lastSize: int
    var breakpoints: seq<int>
    var body: set<int>
    const distinct: bool

    constructor (breakpoints: seq<int>, distinct: bool)
      ensures lastSize == 0 && body == {} && this.breakpoints == breakpoints && this.distinct == distinct
    {
      lastSize, body := 0, {};
      this.breakpoints, this.distinct := breakpoints, distinct;
    }

    method Reset()
      modifies this
      ensures lastSize == 0 && body == old(body) && breakpoints == old(breakpoints)
    {
      lastSize := 0;
    }

    /** Takes every breakpoint class off the body. */
    method RemoveAll()
      modifies this
      ensures body == old(body) - Elements(old(breakpoints))
      ensures Descending(old(breakpoints)) ==> breakpoints == old(breakpoints)
      ensures lastSize == old(lastSize)
    {
      if Descending(breakpoints) {
        SortedIsFixed(breakpoints);
      }
      breakpoints := SortDescending(breakpoints);
      var x := 0;
      while x < |breakpoints|
        invariant 0 <= x <= |breakpoints|
        invariant breakpoints == SortDescending(old(breakpoints)) && lastSize == old(lastSize)
        invariant body == old(body) - Elements(breakpoints[..x])
      {
        assert breakpoints[..x + 1] == breakpoints[..x] + [breakpoints[x]];
        if breakpoints[x] in body {
          body := body - {breakpoints[x]};
        }
        x := x + 1;
      }
      assert breakpoints[..x] == breakpoints;
    }

    /** One pass through the polling loop, at the breakpoint with index `bp`. */
    method Visit(bp: nat, w: int, done0: bool) returns (done: bool)
      requires bp < |breakpoints| && Descending(breakpoints) && (done0 ==> distinct)
      modifies this
      ensures lastSize == old(lastSize) && breakpoints == old(breakpoints)
      ensures done == (done0 || (distinct && lastSize < breakpoints[bp] <= w))
      ensures body == Visited(breakpoints, bp, distinct, lastSize, w, old(body), done0)
    {
      done := done0;
      if !done && w >= breakpoints[bp] && lastSize < breakpoints[bp] {
        if distinct {
          RemoveAll();
          done := true;
        }
        body := body + {breakpoints[bp]};
      }
      if w < breakpoints[bp] && lastSize >= breakpoints[bp] {
        body := body - {breakpoints[bp]};
      }
      if distinct && w >= breakpoints[bp] && bp > 0 && w < breakpoints[bp - 1]
         && lastSize > w && lastSize > 0 && breakpoints[bp] !in body {
        body := body + {breakpoints[bp]};
      }
    }

    method Poll(w: int)
      modifies this
      ensures lastSize == w && Elements(breakpoints) == Elements(old(breakpoints))
      ensures body == NextBody(Elements(breakpoints), distinct, old(lastSize), w, old(body))
    {
      breakpoints := SortDescending(breakpoints);
      ghost var b, body0, last := breakpoints, body, lastSize;
      SortKeepsElements(old(breakpoints));
      PollEnds(b, distinct, last, w, body, body, false);
      var done := false;
      var bp := 0;
      while bp < |breakpoints|
        invariant 0 <= bp <= |breakpoints| && breakpoints == b && lastSize == last && (done ==> distinct)
        invariant PolledSoFar(b, bp, distinct, last, w, body0, body, done)
      {
        PollStep(b, bp, distinct, last, w, body0, body, done);
        done := Visit(bp, w, done);
        bp := bp + 1;
      }
      PollEnds(b, distinct, last, w, body0, body, done);
      if lastSize != w {
        lastSize := w;
      }
    }
  }

  // Runs over any sequence of widths.

  /** The classes on the body after polling the widths in order from a fresh tracker. */
  function BodyAfter(bps: set<int>, distinct: bool, ws: seq<int>): set<int> {
    if ws == [] then {}
    else NextBody(bps, distinct, LastSize(ws[..|ws| - 1]), ws[|ws| - 1], BodyAfter(bps, distinct, ws[..|ws| - 1]))
  }

  function LastSize(ws: seq<int>): int {
    if ws == [] then 0 else ws[|ws| - 1]
  }

  ghost predicate Widths(ws: seq<int>) {
    forall i :: 0 <= i < |ws| ==> ws[i] >= 0
  }

  /** One poll takes the right classes of one width to the right classes of the next. */
  lemma PollRefines(bps: set<int>, distinct: bool, last: int, w: int)
    requires last >= 0 && w >= 0 && forall b :: b in bps ==> b > 0
    ensures NextBody(bps, distinct, last, w, Wanted(bps, distinct, last)) == Wanted(bps, distinct, w)
  {
    if distinct && Entered(bps, last, w) == {} {
      if w < last && Contracts(bps, last, w) {
        assert Wanted(bps, true, last) - Gone(bps, last, w) <= Wanted(bps, true, w);
      } else {
        SameWanted(bps, last, w);
        assert Gone(bps, last, w) == {};
      }
    }
  }

  lemma SameWanted(bps: set<int>, last: int, w: int)
    requires Entered(bps, last, w) == {} && (w < last ==> forall b :: b in bps ==> b <= w)
    ensures Wanted(bps, true, last) == Wanted(bps, true, w)
  {
    assert forall b :: b in bps && last < b <= w ==> b in Entered(bps, last, w);
  }

  lemma {:induction false} RunRefines(bps: set<int>, distinct: bool, ws: seq<int>)
    requires Widths(ws) && forall b :: b in bps ==> b > 0
    ensures BodyAfter(bps, distinct, ws) == Wanted(bps, distinct, LastSize(ws))
  {
    if ws != [] {
      var before := ws[..|ws| - 1];
      RunRefines(bps, distinct, before);
      PollRefines(bps, distinct, LastSize(before), ws[|ws| - 1]);
    }
  }

  lemma {:induction false} LargestBelow(bps: set<int>, w: int, b: int) returns (m: int)
    requires b in bps && b <= w
    ensures m in Wanted(bps, true, w)
    decreases w - b
  {
    if c :| c in bps && b < c <= w {
      m := LargestBelow(bps, w, c);
    } else {
      m := b;
    }
  }

  /** The tracker agrees with the width alone after every poll exactly when all breakpoints are positive. */
  lemma AgreesExactlyWhenPositive(bps: set<int>, distinct: bool)
    ensures (forall ws ::
               Widths(ws) && ws != [] ==> BodyAfter(bps, distinct, ws) == Wanted(bps, distinct, LastSize(ws)))
       <==> (forall b :: b in bps ==> b > 0)
  {
    if forall b :: b in bps ==> b > 0 {
      forall ws | Widths(ws)
        ensures BodyAfter(bps, distinct, ws) == Wanted(bps, distinct, LastSize(ws))
      {
        RunRefines(bps, distinct, ws);
      }
    } else {
      var b :| b in bps && b <= 0;
      var m := LargestBelow(bps, 0, b);
      var ws := [0];
      assert ws[..0] == [] && m in Wanted(bps, distinct, 0);
      assert Widths(ws) && BodyAfter(bps, distinct, ws) == NextBody(bps, distinct, 0, 0, {}) == {};
    }
  }

  /**
   * After `resetBreakpoints` the remembered width is 0 but the classes stay. In distinct mode the
   * next poll is right exactly when it enters some breakpoint or there was no class to begin with;
   * otherwise exactly when no class belongs to a breakpoint above the new width.
   */
  lemma PollAfterReset(bps: set<int>, distinct: bool, last: int, w: int)
    requires last >= 0 && w >= 0 && forall b :: b in bps ==> b > 0
    ensures NextBody(bps, distinct, 0, w, Wanted(bps, distinct, last)) == Wanted(bps, distinct, w)
       <==> if distinct then (exists b :: b in bps && b <= w) || (forall b :: b in bps ==> last < b)
            else (forall b :: b in bps && b <= last ==> b <= w)
  {
    var next := NextBody(bps, distinct, 0, w, Wanted(bps, distinct, last));
    assert Gone(bps, 0, w) == {};
    if !distinct {
      if b :| b in bps && w < b <= last {
        assert b in next && b !in Wanted(bps, distinct, w);
      } else {
        assert next == Wanted(bps, distinct, w);
      }
    } else if b :| b in bps && b <= w {
      assert b in Entered(bps, 0, w);
      assert next == Wanted(bps, true, w);
    } else if b :| b in bps && b <= last {
      var m := LargestBelow(bps, last, b);
      assert m in next && m !in Wanted(bps, true, w);
    } else {
      assert next == {} == Wanted(bps, true, w);
    }
  }

  /** A reset at width 500 and a poll at width 300: the class of 480 stays although no breakpoint is reached. */
  lemma ResetLeavesClass()
    ensures var bps := {320, 480};
      && Wanted(bps, true, 500) == {480} && Wanted(bps, true, 300) == {}
      && NextBody(bps, true, 0, 300, {480}) == {480}
  {
    var bps := {320, 480};
    assert 480 in Wanted(bps, true, 500);
    assert Entered(bps, 0, 300) == {} && Gone(bps, 0, 300) == {};
  }
}
