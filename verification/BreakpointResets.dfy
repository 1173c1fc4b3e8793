/** Runs of the width poll with `resetBreakpoints` between the polls. */
module BreakpointResets {
  import opened Breakpoints

  datatype Event = Poll(width: int) | Reset

  ghost predicate IsRun(run: seq<Event>) {
    forall i :: 0 <= i < |run| && run[i].Poll? ==> run[i].width >= 0
  }

  /** The width of the latest poll; 0 before the first. */
  function Width(run: seq<Event>): int {
    if run == [] then 0
    else
      var e := run[|run| - 1];
      if e.Poll? then e.width else Width(run[..|run| - 1])
  }

  predicate EndsInReset(run: seq<Event>) {
    run != [] && run[|run| - 1].Reset?
  }

  /** The width that the tracker remembers: a reset forgets it. */
  function Remembered(run: seq<Event>): int {
    if EndsInReset(run) then 0 else Width(run)
  }

  /** The classes after a run from a fresh tracker. */
  function Body(bps: set<int>, distinct: bool, run: seq<Event>): set<int> {
    if run == [] then {}
    else
      var before, e := run[..|run| - 1], run[|run| - 1];
      match e
      case Reset => Body(bps, distinct, before)
      case Poll(w) => NextBody(bps, distinct, Remembered(before), w, Body(bps, distinct, before))
  }

  predicate Reaches(e: Event, b: int) {
    e.Poll? && e.width >= b
  }

  /** The i-th event is the latest poll that reaches the breakpoint; a reset follows it, and a k-th event polls. */
  ghost predicate ForgottenBetween(run: seq<Event>, b: int, i: nat, k: nat) {
    && i < k < |run| && Reaches(run[i], b) && run[i + 1].Reset? && run[k].Poll?
    && (forall j :: i < j < |run| ==> !Reaches(run[j], b))
  }

  ghost predicate Forgotten(run: seq<Event>, b: int) {
    exists i: nat, k: nat :: ForgottenBetween(run, b, i, k)
  }

  /** The same, event by event. */
  ghost predicate Lost(run: seq<Event>, b: int) {
    if run == [] then false
    else
      var before, e := run[..|run| - 1], run[|run| - 1];
      match e
      case Reset => Lost(before, b)
      case Poll(w) => w < b && (Lost(before, b) || (EndsInReset(before) && Width(before) >= b))
  }

  lemma {:induction false} WidthBounds(run: seq<Event>)
    requires IsRun(run)
    ensures Width(run) >= 0
  {
    if run != [] {
      WidthBounds(run[..|run| - 1]);
    }
  }

  lemma {:induction false} LostIsAbove(run: seq<Event>, b: int)
    requires Lost(run, b)
    ensures Width(run) < b
  {
    if run[|run| - 1].Reset? {
      LostIsAbove(run[..|run| - 1], b);
    }
  }

  /** The latest poll, when its width reaches a positive breakpoint. */
  lemma {:induction false} LatestPoll(run: seq<Event>, b: int) returns (i: nat)
    requires b > 0 && Width(run) >= b
    ensures i < |run| && Reaches(run[i], b) && forall j :: i < j < |run| ==> run[j].Reset?
  {
    if run[|run| - 1].Poll? {
      i := |run| - 1;
    } else {
      i := LatestPoll(run[..|run| - 1], b);
    }
  }

  lemma {:induction false} LostIsForgotten(run: seq<Event>, b: int)
    requires b > 0 && Lost(run, b)
    ensures Forgotten(run, b)
  {
    var n := |run| - 1;
    var before := run[..n];
    if Lost(before, b) {
      LostIsForgotten(before, b);
      var i: nat, k: nat :| ForgottenBetween(before, b, i, k);
      assert ForgottenBetween(run, b, i, k);
    } else {
      var i := LatestPoll(before, b);
      assert ForgottenBetween(run, b, i, n);
    }
  }

  lemma {:induction false} ResetKeepsWidth(run: seq<Event>, i: nat)
    requires i < |run| && run[i].Poll? && forall j :: i < j < |run| ==> run[j].Reset?
    ensures Width(run) == run[i].width
  {
    if i < |run| - 1 {
      ResetKeepsWidth(run[..|run| - 1], i);
    }
  }

  lemma {:induction false} ForgottenIsLost(run: seq<Event>, b: int)
    requires Forgotten(run, b)
    ensures Lost(run, b)
  {
    var i: nat, k: nat :| ForgottenBetween(run, b, i, k);
    var n := |run| - 1;
    var before := run[..n];
    if p :| i < p < n && run[p].Poll? {
      assert ForgottenBetween(before, b, i, p);
      ForgottenIsLost(before, b);
    } else {
      assert k == n;
      ResetKeepsWidth(before, i);
    }
  }

  // One poll, with a breakpoint lost before or not.

  /** The classes that all breakpoints up to the width would have, and those lost. */
  ghost predicate KeepsAll(bps: set<int>, run: seq<Event>, body: set<int>) {
    body == set b | b in bps && (b <= Width(run) || Lost(run, b))
  }

  lemma {:induction false} BodyOfAll(bps: set<int>, run: seq<Event>)
    requires IsRun(run) && forall b :: b in bps ==> b > 0
    ensures KeepsAll(bps, run, Body(bps, false, run))
  {
    if run != [] {
      var before := run[..|run| - 1];
      BodyOfAll(bps, before);
      WidthBounds(before);
      forall b | b in bps && Lost(before, b)
        ensures Width(before) < b
      {
        LostIsAbove(before, b);
      }
    }
  }

  predicate IsSmallest(bps: set<int>, m: int) {
    m in bps && forall b :: b in bps ==> m <= b
  }

  /** Right classes unless the smallest breakpoint is lost; then some class where none is due. */
  ghost predicate KeepsOne(bps: set<int>, m: int, run: seq<Event>, body: set<int>) {
    && body <= bps
    && (Lost(run, m) ==> Width(run) < m && body != {})
    && (!Lost(run, m) ==> body == Wanted(bps, true, Width(run)))
  }

  lemma SomeClass(bps: set<int>, m: int, v: int)
    requires IsSmallest(bps, m) && v >= m
    ensures Wanted(bps, true, v) != {}
  {
    var x := LargestBelow(bps, v, m);
  }

  /** A poll that reaches the smallest breakpoint puts everything right. */
  lemma PollRestores(bps: set<int>, m: int, last: int, w: int, body: set<int>)
    requires IsSmallest(bps, m) && body <= bps && m <= w && last < m
    ensures NextBody(bps, true, last, w, body) == Wanted(bps, true, w)
  {
    assert m in Entered(bps, last, w);
  }

  /** A poll that does not reach it leaves the classes alone when the width before did not either. */
  lemma PollBelow(bps: set<int>, m: int, last: int, w: int, body: set<int>)
    requires IsSmallest(bps, m) && w < m && last < m
    ensures NextBody(bps, true, last, w, body) == body && Wanted(bps, true, w) == {}
  {
    assert Entered(bps, last, w) == {} == Gone(bps, last, w);
  }

  lemma PollOnce(bps: set<int>, m: int, before: seq<Event>, w: int, body: set<int>)
    requires IsRun(before) && w >= 0 && IsSmallest(bps, m) && (forall b :: b in bps ==> b > 0)
    requires KeepsOne(bps, m, before, body)
    ensures KeepsOne(bps, m, before + [Poll(w)], NextBody(bps, true, Remembered(before), w, body))
  {
    var run, v, last := before + [Poll(w)], Width(before), Remembered(before);
    assert run[..|run| - 1] == before;
    WidthBounds(before);
    if last < m {
      if m <= w {
        PollRestores(bps, m, last, w, body);
      } else {
        PollBelow(bps, m, last, w, body);
        if v >= m {
          SomeClass(bps, m, v);
        } else {
          assert Wanted(bps, true, v) == {};
        }
      }
    } else {
      PollRefines(bps, true, v, w);
    }
  }

  lemma {:induction false} BodyOfOne(bps: set<int>, m: int, run: seq<Event>)
    requires IsRun(run) && IsSmallest(bps, m) && forall b :: b in bps ==> b > 0
    ensures KeepsOne(bps, m, run, Body(bps, true, run))
  {
    if run == [] {
      assert Wanted(bps, true, 0) == {};
    } else {
      var before, e := run[..|run| - 1], run[|run| - 1];
      BodyOfOne(bps, m, before);
      if e.Poll? {
        assert run == before + [Poll(e.width)];
        PollOnce(bps, m, before, e.width, Body(bps, true, before));
      }
    }
  }

  lemma {:induction false} NoBreakpoints(distinct: bool, run: seq<Event>)
    ensures Body({}, distinct, run) == {}
  {
    if run != [] {
      NoBreakpoints(distinct, run[..|run| - 1]);
    }
  }

  lemma Member<T>(s: set<T>) returns (x: T)
    requires s != {}
    ensures x in s
  {
    x :| x in s;
  }

  lemma {:induction false} Smallest(bps: set<int>) returns (m: int)
    requires bps != {}
    ensures IsSmallest(bps, m)
  {
    var x := Member(bps);
    var rest := bps - {x};
    assert bps == rest + {x};
    if rest == {} {
      m := x;
    } else {
      var y := Smallest(rest);
      m := if x < y then x else y;
    }
  }

  /**
   * After every run of polls and resets the classes are those of the latest width exactly when no breakpoint,
   * in distinct mode not the smallest one, was last reached by a poll with a reset behind it and a poll since.
   */
  lemma RightExactlyWhen(bps: set<int>, distinct: bool, run: seq<Event>)
    requires IsRun(run) && forall b :: b in bps ==> b > 0
    ensures Body(bps, distinct, run) == Wanted(bps, distinct, Width(run))
       <==> forall b :: b in bps && (distinct ==> IsSmallest(bps, b)) ==> !Forgotten(run, b)
  {
    forall b | b in bps
      ensures Forgotten(run, b) <==> Lost(run, b)
    {
      if Lost(run, b) {
        LostIsForgotten(run, b);
      }
      if Forgotten(run, b) {
        ForgottenIsLost(run, b);
      }
    }
    if distinct {
      RightOnce(bps, run);
    } else {
      BodyOfAll(bps, run);
      LostAreAbove(bps, run);
    }
  }

  lemma LostAreAbove(bps: set<int>, run: seq<Event>)
    requires KeepsAll(bps, run, Body(bps, false, run))
    ensures Body(bps, false, run) == Wanted(bps, false, Width(run)) <==> forall b :: b in bps ==> !Lost(run, b)
  {
    if b :| b in bps && Lost(run, b) {
      LostIsAbove(run, b);
      assert b in Body(bps, false, run) && b !in Wanted(bps, false, Width(run));
    } else {
      assert forall b :: b in bps ==> !Lost(run, b);
      assert Body(bps, false, run) == Wanted(bps, false, Width(run));
    }
  }

  lemma RightOnce(bps: set<int>, run: seq<Event>)
    requires IsRun(run) && forall b :: b in bps ==> b > 0
    ensures Body(bps, true, run) == Wanted(bps, true, Width(run))
       <==> forall b :: b in bps && IsSmallest(bps, b) ==> !Lost(run, b)
  {
    if bps == {} {
      NoBreakpoints(true, run);
    } else {
      var m := Smallest(bps);
      BodyOfOne(bps, m, run);
      assert forall b :: IsSmallest(bps, b) <==> b == m;
      assert Width(run) < m ==> Wanted(bps, true, Width(run)) == {};
    }
  }
}
