/** The debounced function of the layout code, with the browser's pending timers made explicit. */
module Debounce {

  datatype Call = Call(time: int, args: int)

  /** One invocation of the wrapped function and the number of calls made until then. */
  datatype Invocation = Invocation(time: int, args: int, calls: nat)

  datatype State = State(
    pending: seq<int>,          // due times of the `later` timers not yet fired
    timeout: bool,              // the variable holds a timer, not null
    timestamp: int,
    args: int,
    now: int,                   // the clock at the latest event
    calls: seq<Call>,           // history
    log: seq<Invocation>        // history
  )

  datatype Event =
    | Called(time: int, args: int)
    | Fires(time: int, timer: nat)

  const INITIAL := State([], false, 0, 0, 0, [], [])

  /** The clock does not run backwards and no timer fires early; lateness is not bounded. */
  predicate Enabled(s: State, e: Event) {
    && s.now <= e.time
    && (e.Fires? ==> e.timer < |s.pending| && s.pending[e.timer] <= e.time)
  }

  /** Timers are exact: each fires at its due time, before anything later happens. */
  predicate Exact(s: State, e: Event) {
    && Enabled(s, e)
    && (forall k :: 0 <= k < |s.pending| ==> e.time <= s.pending[k])
  }

  function Later(s: State, time: int, wait: nat, immediate: bool): State {
    var last := time - s.timestamp;
    if last < wait then
      s.(timeout := true, pending := s.pending + [time + (wait - last)])
    else
      s.(timeout := false,
         log := if immediate then s.log else s.log + [Invocation(time, s.args, |s.calls|)])
  }

  function Debounced(s: State, time: int, args: int, immediate: bool, wait: nat): State {
    var callNow := immediate && !s.timeout;
    var calls := s.calls + [Call(time, args)];
    s.(args := args, timestamp := time, calls := calls,
       pending := if s.timeout then s.pending else s.pending + [time + wait], timeout := true,
       log := if callNow then s.log + [Invocation(time, args, |calls|)] else s.log)
  }

  function Step(s: State, e: Event, wait: nat, immediate: bool): State
    requires Enabled(s, e)
  {
    match e
    case Called(time, args) => Debounced(s.(now := time), time, args, immediate, wait)
    case Fires(time, k) => Later(s.(pending := s.pending[..k] + s.pending[k + 1..], now := time), time, wait, immediate)
  }

  class Debouncer {
    const wait: nat
    const immediate: bool
    var timeout: bool
    var args: int
    var timestamp: int
    var pending: seq<int>
    ghost var now: int
    ghost var calls: seq<Call>
    ghost var log: seq<Invocation>

    ghost function View(): State
      reads this
    {
      State(pending, timeout, timestamp, args, now, calls, log)
    }

    constructor (wait: nat, immediate: bool)
      ensures this.wait == wait && this.immediate == immediate && View() == INITIAL
    {
      this.wait, this.immediate := wait, immediate;
      timeout, args, timestamp, pending := false, 0, 0, [];
      now, calls, log := 0, [], [];
    }

    method OnCall(time: int, arguments: int)
      requires Enabled(View(), Called(time, arguments))
      modifies this
      ensures View() == Step(old(View()), Called(time, arguments), wait, immediate)
    {
      args := arguments;
      timestamp := time;
      now, calls := time, calls + [Call(time, arguments)];
      var callNow := immediate && !timeout;
      if !timeout {
        pending := pending + [time + wait];
        timeout := true;
      }
      if callNow {
        log := log + [Invocation(time, args, |calls|)];
      }
    }

    method OnTimer(time: int, k: nat)
      requires Enabled(View(), Fires(time, k))
      modifies this
      ensures View() == Step(old(View()), Fires(time, k), wait, immediate)
    {
      pending := pending[..k] + pending[k + 1..];
      now := time;
      var last := time - timestamp;
      if last < wait {
        timeout := true;
        pending := pending + [time + (wait - last)];
      } else {
        timeout := false;
        if !immediate {
          log := log + [Invocation(time, args, |calls|)];
        }
      }
    }
  }

  // What every step keeps, however late the timers are.

  ghost predicate Inv(s: State, wait: nat) {
    && |s.pending| == (if s.timeout then 1 else 0)
    && (s.timeout ==> s.calls != [] && s.pending[0] <= s.timestamp + wait)
    && (s.calls == [] ==> s.log == [])
    && (s.calls != [] ==> s.calls[|s.calls| - 1] == Call(s.timestamp, s.args) && s.timestamp <= s.now)
    && (!s.timeout && s.calls != [] ==> s.timestamp + wait <= s.now)
    && (forall i :: 0 <= i < |s.log| ==> 1 <= s.log[i].calls <= |s.calls| && s.log[i].time <= s.now)
    && (forall i, j :: 0 <= i < j < |s.log| ==> s.log[i].calls < s.log[j].calls)
  }

  /** The numbers of calls after which invocations came; the order of the log allows each only once. */
  function Marks(log: seq<Invocation>): set<nat> {
    if log == [] then {} else Marks(log[..|log| - 1]) + {log[|log| - 1].calls}
  }

  ghost predicate InvokedAfter(s: State, j: nat) {
    j in Marks(s.log)
  }

  lemma {:induction false} MarksAreCalls(log: seq<Invocation>, j: nat)
    ensures j in Marks(log) <==> exists i :: 0 <= i < |log| && log[i].calls == j
  {
    if log != [] {
      var before := log[..|log| - 1];
      MarksAreCalls(before, j);
      if i :| 0 <= i < |before| && before[i].calls == j {
        assert log[i].calls == j;
      }
      if i :| 0 <= i < |log| && log[i].calls == j {
        if i < |before| {
          assert before[i].calls == j;
        }
      }
    }
  }

  /** The silence between two neighbouring calls. */
  function Gap(s: State, j: nat): int
    requires 1 <= j < |s.calls|
  {
    s.calls[j].time - s.calls[j - 1].time
  }

  /** In trailing mode an invocation carries the latest arguments, `wait` or more after the call they came with. */
  ghost predicate TrailingInv(s: State, wait: nat) {
    && Inv(s, wait)
    && (s.calls != [] ==> (s.timeout <==> !InvokedAfter(s, |s.calls|)))
    && (forall i :: 0 <= i < |s.log| ==>
          s.log[i].args == s.calls[s.log[i].calls - 1].args && s.calls[s.log[i].calls - 1].time + wait <= s.log[i].time)
    && (forall j :: 1 <= j < |s.calls| && InvokedAfter(s, j) ==> Gap(s, j) >= wait)
  }

  /** With exact timers it comes at that moment, and after every silence longer than `wait`. */
  ghost predicate ExactInv(s: State, wait: nat) {
    && TrailingInv(s, wait)
    && (forall i :: 0 <= i < |s.log| ==> s.log[i].time == s.calls[s.log[i].calls - 1].time + wait)
    && (forall j :: 1 <= j < |s.calls| && Gap(s, j) > wait ==> InvokedAfter(s, j))
  }

  /** `x` is the invocation of the call that made it, with `wait` of silence before that. */
  ghost predicate IsImmediate(s: State, x: Invocation, wait: nat) {
    && 1 <= x.calls <= |s.calls|
    && x == Invocation(s.calls[x.calls - 1].time, s.calls[x.calls - 1].args, x.calls)
    && (x.calls >= 2 ==> Gap(s, x.calls - 1) >= wait)
  }

  /** In immediate mode an invocation is that of a call which `wait` of silence precedes. */
  ghost predicate ImmediateInv(s: State, wait: nat, exact: bool) {
    && Inv(s, wait)
    && (forall i :: 0 <= i < |s.log| ==> IsImmediate(s, s.log[i], wait))
    && (s.calls != [] ==> InvokedAfter(s, 1))
    && (exact ==> forall j :: 1 <= j < |s.calls| && Gap(s, j) > wait ==> InvokedAfter(s, j + 1))
  }

  lemma MarksGrow(log: seq<Invocation>, x: Invocation)
    ensures Marks(log + [x]) == Marks(log) + {x.calls}
  {
    assert (log + [x])[..|log|] == log;
  }

  lemma MarksBounded(s: State, wait: nat, j: nat)
    requires Inv(s, wait) && InvokedAfter(s, j)
    ensures 1 <= j <= |s.calls|
  {
    MarksAreCalls(s.log, j);
  }

  lemma NotServedYet(s: State, i: nat)
    requires i < |s.log| && !InvokedAfter(s, |s.calls|)
    ensures s.log[i].calls != |s.calls|
  {
    MarksAreCalls(s.log, |s.calls|);
  }

  lemma CallKeepsInv(s: State, time: int, args: int, wait: nat, immediate: bool)
    requires Inv(s, wait) && Enabled(s, Called(time, args))
    ensures Inv(Step(s, Called(time, args), wait, immediate), wait)
  {
  }

  lemma TimerKeepsInv(s: State, time: int, k: nat, wait: nat, immediate: bool)
    requires Inv(s, wait) && Enabled(s, Fires(time, k))
    requires !immediate ==> !InvokedAfter(s, |s.calls|)
    ensures Inv(Step(s, Fires(time, k), wait, immediate), wait)
  {
    forall i | 0 <= i < |s.log| && !immediate
      ensures s.log[i].calls != |s.calls|
    {
      NotServedYet(s, i);
    }
  }

  /** Old calls keep their gaps and invocations; the newest call brings one more gap. */
  lemma CallKeepsTrailing(s: State, time: int, args: int, wait: nat)
    requires TrailingInv(s, wait) && Enabled(s, Called(time, args))
    ensures TrailingInv(Step(s, Called(time, args), wait, false), wait)
  {
    var r := Step(s, Called(time, args), wait, false);
    CallKeepsInv(s, time, args, wait, false);
    if InvokedAfter(s, |r.calls|) {
      MarksBounded(s, wait, |r.calls|);
    }
    forall j | 1 <= j < |r.calls| && InvokedAfter(r, j)
      ensures Gap(r, j) >= wait
    {
      if j < |s.calls| {
        assert Gap(r, j) == Gap(s, j);
      }
    }
  }

  /** The state after a timer: the one timer is gone and comes back, or the function runs. */
  lemma TimerStep(s: State, time: int, k: nat, wait: nat, immediate: bool)
    requires Inv(s, wait) && Enabled(s, Fires(time, k))
    ensures var r := Step(s, Fires(time, k), wait, immediate);
      && s.timeout && k == 0 && s.calls != []
      && r.calls == s.calls && r.timestamp == s.timestamp && r.args == s.args && r.now == time
      && (time - s.timestamp < wait ==> r.timeout && r.pending == [s.timestamp + wait] && r.log == s.log)
      && (time - s.timestamp >= wait ==> !r.timeout && r.pending == [])
      && (time - s.timestamp >= wait ==>
            r.log == if immediate then s.log else s.log + [Invocation(time, s.args, |s.calls|)])
  {
  }

  lemma TimerKeepsTrailing(s: State, time: int, k: nat, wait: nat)
    requires TrailingInv(s, wait) && Enabled(s, Fires(time, k))
    ensures TrailingInv(Step(s, Fires(time, k), wait, false), wait)
  {
    var r := Step(s, Fires(time, k), wait, false);
    TimerStep(s, time, k, wait, false);
    TimerKeepsInv(s, time, k, wait, false);
    if time - s.timestamp >= wait {
      InvocationKeepsTrailing(s, r, wait);
    } else {
      SameGaps(s, r);
    }
  }

  /** The latest call is served; no earlier call's record changes. */
  lemma InvocationKeepsTrailing(s: State, r: State, wait: nat)
    requires TrailingInv(s, wait) && Inv(r, wait) && s.calls != []
    requires r.calls == s.calls && !r.timeout && r.now - s.timestamp >= wait
    requires r.log == s.log + [Invocation(r.now, s.args, |s.calls|)]
    ensures TrailingInv(r, wait)
  {
    MarksGrow(s.log, Invocation(r.now, s.args, |s.calls|));
    SameGaps(s, r);
    LoggedLate(s, r, wait);
  }

  lemma LoggedLate(s: State, r: State, wait: nat)
    requires TrailingInv(s, wait) && s.calls != []
    requires r.calls == s.calls && r.now - s.timestamp >= wait
    requires r.log == s.log + [Invocation(r.now, s.args, |s.calls|)]
    ensures forall i :: 0 <= i < |r.log| ==> 1 <= r.log[i].calls <= |r.calls|
    ensures forall i :: 0 <= i < |r.log| ==>
      r.log[i].args == r.calls[r.log[i].calls - 1].args && r.calls[r.log[i].calls - 1].time + wait <= r.log[i].time
  {
  }

  lemma SameGaps(s: State, r: State)
    requires r.calls == s.calls
    ensures forall j :: 1 <= j < |r.calls| ==> Gap(r, j) == Gap(s, j)
  {
  }

  lemma CallKeepsExact(s: State, time: int, args: int, wait: nat)
    requires ExactInv(s, wait) && Exact(s, Called(time, args))
    ensures ExactInv(Step(s, Called(time, args), wait, false), wait)
  {
    var r := Step(s, Called(time, args), wait, false);
    CallKeepsTrailing(s, time, args, wait);
    forall j | 1 <= j < |r.calls| && Gap(r, j) > wait
      ensures InvokedAfter(r, j)
    {
      if j < |s.calls| {
        assert Gap(r, j) == Gap(s, j);
      }
    }
  }

  lemma TimerKeepsExact(s: State, time: int, k: nat, wait: nat)
    requires ExactInv(s, wait) && Exact(s, Fires(time, k))
    ensures ExactInv(Step(s, Fires(time, k), wait, false), wait)
  {
    var r := Step(s, Fires(time, k), wait, false);
    TimerStep(s, time, k, wait, false);
    TimerKeepsTrailing(s, time, k, wait);
    SameGaps(s, r);
    if time - s.timestamp >= wait {
      assert time == s.pending[0] == s.timestamp + wait;
      InvocationKeepsExact(s, r, wait);
    }
  }

  lemma InvocationKeepsExact(s: State, r: State, wait: nat)
    requires ExactInv(s, wait) && TrailingInv(r, wait) && s.calls != []
    requires r.calls == s.calls && r.now == s.timestamp + wait
    requires r.log == s.log + [Invocation(r.now, s.args, |s.calls|)]
    ensures ExactInv(r, wait)
  {
    MarksGrow(s.log, Invocation(r.now, s.args, |s.calls|));
    SameGaps(s, r);
  }

  lemma CallStep(s: State, time: int, args: int, wait: nat)
    requires Inv(s, wait) && Enabled(s, Called(time, args))
    ensures var r := Step(s, Called(time, args), wait, true);
      && r.calls == s.calls + [Call(time, args)] && r.timeout
      && r.log == if s.timeout then s.log else s.log + [Invocation(time, args, |s.calls| + 1)]
    ensures var r := Step(s, Called(time, args), wait, true);
      && (forall j :: 1 <= j < |s.calls| ==> Gap(r, j) == Gap(s, j))
      && (s.calls != [] ==> Gap(r, |s.calls|) == time - s.timestamp)
      && (s.calls != [] && !s.timeout ==> Gap(r, |s.calls|) >= wait)
  {
  }

  lemma CallKeepsImmediate(s: State, time: int, args: int, wait: nat, exact: bool)
    requires ImmediateInv(s, wait, exact)
    requires if exact then Exact(s, Called(time, args)) else Enabled(s, Called(time, args))
    ensures ImmediateInv(Step(s, Called(time, args), wait, true), wait, exact)
  {
    CallKeepsInv(s, time, args, wait, true);
    CallKeepsLog(s, time, args, wait, exact);
    FirstCallInvokes(s, time, args, wait, exact);
    if exact {
      CallAfterSilence(s, time, args, wait);
    }
  }

  lemma CallKeepsLog(s: State, time: int, args: int, wait: nat, exact: bool)
    requires ImmediateInv(s, wait, exact) && Enabled(s, Called(time, args))
    ensures var r := Step(s, Called(time, args), wait, true);
      forall i :: 0 <= i < |r.log| ==> IsImmediate(r, r.log[i], wait)
  {
    var r := Step(s, Called(time, args), wait, true);
    CallStep(s, time, args, wait);
    forall i | 0 <= i < |r.log|
      ensures IsImmediate(r, r.log[i], wait)
    {
      if i < |s.log| {
        assert IsImmediate(s, s.log[i], wait);
      }
    }
  }

  lemma CallAfterSilence(s: State, time: int, args: int, wait: nat)
    requires ImmediateInv(s, wait, true) && Exact(s, Called(time, args))
    ensures var r := Step(s, Called(time, args), wait, true);
      forall j :: 1 <= j < |r.calls| && Gap(r, j) > wait ==> InvokedAfter(r, j + 1)
  {
    var r := Step(s, Called(time, args), wait, true);
    CallStep(s, time, args, wait);
    MarksGrow(s.log, Invocation(time, args, |s.calls| + 1));
    forall j | 1 <= j < |r.calls| && Gap(r, j) > wait
      ensures InvokedAfter(r, j + 1)
    {
      if j < |s.calls| {
        assert Gap(r, j) == Gap(s, j);
        assert InvokedAfter(s, j + 1);
      } else {
        SilenceEndsTimer(s, time, args, wait);
      }
    }
  }

  lemma SilenceEndsTimer(s: State, time: int, args: int, wait: nat)
    requires Inv(s, wait) && Exact(s, Called(time, args)) && time - s.timestamp > wait
    ensures !s.timeout
  {
  }

  lemma FirstCallInvokes(s: State, time: int, args: int, wait: nat, exact: bool)
    requires ImmediateInv(s, wait, exact) && Enabled(s, Called(time, args))
    ensures InvokedAfter(Step(s, Called(time, args), wait, true), 1)
  {
    CallStep(s, time, args, wait);
    MarksGrow(s.log, Invocation(time, args, |s.calls| + 1));
  }

  lemma TimerKeepsImmediate(s: State, time: int, k: nat, wait: nat, exact: bool)
    requires ImmediateInv(s, wait, exact) && Enabled(s, Fires(time, k))
    ensures ImmediateInv(Step(s, Fires(time, k), wait, true), wait, exact)
  {
    var r := Step(s, Fires(time, k), wait, true);
    TimerKeepsInv(s, time, k, wait, true);
    forall j | 1 <= j < |r.calls|
      ensures Gap(r, j) == Gap(s, j)
    {
    }
  }

  // Runs.

  ghost predicate IsRun(s: State, run: seq<Event>, wait: nat, immediate: bool, exact: bool)
    decreases |run|
  {
    run == [] ||
    (&& (if exact then Exact(s, run[0]) else Enabled(s, run[0]))
     && IsRun(Step(s, run[0], wait, immediate), run[1..], wait, immediate, exact))
  }

  function After(s: State, run: seq<Event>, wait: nat, immediate: bool, ghost exact: bool): State
    requires IsRun(s, run, wait, immediate, exact)
    decreases |run|
  {
    if run == [] then s else After(Step(s, run[0], wait, immediate), run[1..], wait, immediate, exact)
  }

  lemma {:induction false} TrailingRuns(s: State, run: seq<Event>, wait: nat)
    requires TrailingInv(s, wait) && IsRun(s, run, wait, false, false)
    ensures TrailingInv(After(s, run, wait, false, false), wait)
    decreases |run|
  {
    if run != [] {
      match run[0] {
        case Called(time, args) => CallKeepsTrailing(s, time, args, wait);
        case Fires(time, k) => TimerKeepsTrailing(s, time, k, wait);
      }
      TrailingRuns(Step(s, run[0], wait, false), run[1..], wait);
    }
  }

  lemma {:induction false} ExactRuns(s: State, run: seq<Event>, wait: nat)
    requires ExactInv(s, wait) && IsRun(s, run, wait, false, true)
    ensures ExactInv(After(s, run, wait, false, true), wait)
    decreases |run|
  {
    if run != [] {
      match run[0] {
        case Called(time, args) => CallKeepsExact(s, time, args, wait);
        case Fires(time, k) => TimerKeepsExact(s, time, k, wait);
      }
      ExactRuns(Step(s, run[0], wait, false), run[1..], wait);
    }
  }

  lemma {:induction false} ImmediateRuns(s: State, run: seq<Event>, wait: nat, exact: bool)
    requires ImmediateInv(s, wait, exact) && IsRun(s, run, wait, true, exact)
    ensures ImmediateInv(After(s, run, wait, true, exact), wait, exact)
    decreases |run|
  {
    if run != [] {
      match run[0] {
        case Called(time, args) => CallKeepsImmediate(s, time, args, wait, exact);
        case Fires(time, k) => TimerKeepsImmediate(s, time, k, wait, exact);
      }
      ImmediateRuns(Step(s, run[0], wait, true), run[1..], wait, exact);
    }
  }

  /** Trailing mode, any lateness: one timer at most, pending exactly while the last call is unserved. */
  lemma TrailingSafety(run: seq<Event>, wait: nat)
    requires IsRun(INITIAL, run, wait, false, false)
    ensures var s := After(INITIAL, run, wait, false, false);
      && |s.pending| <= 1
      && (|s.pending| == 1 <==> s.calls != [] && forall i :: 0 <= i < |s.log| ==> s.log[i].calls != |s.calls|)
      && (forall i :: 0 <= i < |s.log| ==> 1 <= s.log[i].calls <= |s.calls|)
      && (forall i :: 0 <= i < |s.log| ==>
            && s.log[i].args == s.calls[s.log[i].calls - 1].args
            && s.log[i].time >= s.calls[s.log[i].calls - 1].time + wait)
  {
    TrailingRuns(INITIAL, run, wait);
    var s := After(INITIAL, run, wait, false, false);
    MarksAreCalls(s.log, |s.calls|);
  }

  /**
   * Trailing mode, exact timers. The calls fall into bursts, which silences longer than `wait` end and
   * shorter ones do not; each ended burst has one invocation, with the arguments of its last call and at
   * the time of that call plus `wait`.
   */
  lemma OneInvocationPerBurst(run: seq<Event>, wait: nat, j: nat)
    requires IsRun(INITIAL, run, wait, false, true)
    requires 1 <= j <= |After(INITIAL, run, wait, false, true).calls|
    ensures var s := After(INITIAL, run, wait, false, true);
      && (j < |s.calls| && Gap(s, j) > wait ==> exists i :: 0 <= i < |s.log| && s.log[i].calls == j)
      && (j < |s.calls| && Gap(s, j) < wait ==> forall i :: 0 <= i < |s.log| ==> s.log[i].calls != j)
      && (j == |s.calls| ==> (s.pending == [] <==> exists i :: 0 <= i < |s.log| && s.log[i].calls == j))
      && (forall i, k :: 0 <= i < |s.log| && 0 <= k < |s.log| && s.log[i].calls == j == s.log[k].calls ==> i == k)
      && (forall i :: 0 <= i < |s.log| && s.log[i].calls == j ==>
            s.log[i].time == s.calls[j - 1].time + wait && s.log[i].args == s.calls[j - 1].args)
  {
    ExactRuns(INITIAL, run, wait);
    MarksAreCalls(After(INITIAL, run, wait, false, true).log, j);
  }

  /** Immediate mode, any lateness: `wait` of silence lies before every invocation but the first. */
  lemma SilenceBeforeInvocation(run: seq<Event>, wait: nat, i: nat)
    requires IsRun(INITIAL, run, wait, true, false)
    requires i < |After(INITIAL, run, wait, true, false).log|
    ensures var s := After(INITIAL, run, wait, true, false); var c := s.log[i].calls;
      && 1 <= c <= |s.calls| && s.log[i].time == s.calls[c - 1].time && s.log[i].args == s.calls[c - 1].args
      && (c >= 2 ==> s.calls[c - 1].time - s.calls[c - 2].time >= wait)
  {
    ImmediateRuns(INITIAL, run, wait, false);
  }

  /** Immediate mode, exact timers: the first call invokes, and so does each one after more than `wait` of silence. */
  lemma InvokedAfterSilence(run: seq<Event>, wait: nat, j: nat)
    requires IsRun(INITIAL, run, wait, true, true)
    requires j < |After(INITIAL, run, wait, true, true).calls|
    ensures var s := After(INITIAL, run, wait, true, true);
      j == 0 || Gap(s, j) > wait ==> exists i :: 0 <= i < |s.log| && s.log[i].calls == j + 1
  {
    ImmediateRuns(INITIAL, run, wait, true);
    MarksAreCalls(After(INITIAL, run, wait, true, true).log, j + 1);
  }

  /** The timer that is pending, or the one it sets, is the last: then the function has run, in trailing mode. */
  lemma FiringsServe(s: State, wait: nat, immediate: bool, time: int, k: nat)
    requires Inv(s, wait) && Enabled(s, Fires(time, k))
    ensures var r := Step(s, Fires(time, k), wait, immediate);
      && (r.pending == [] ==> |r.log| == |s.log| + (if immediate then 0 else 1))
      && (r.pending != [] ==> r.log == s.log && r.calls == s.calls && r.timestamp == s.timestamp
                              && r.pending == [s.timestamp + wait])
      && (s.pending == [s.timestamp + wait] ==> r.pending == [])
  {
  }

  /**
   * In both modes, any lateness: once calls stop, no more than two timers fire. The last one leaves no timer
   * behind and in trailing mode invokes the function.
   */
  lemma TwoFiringsServe(run: seq<Event>, wait: nat, immediate: bool, t1: int, t2: int)
    requires IsRun(INITIAL, run, wait, immediate, false)
    requires Enabled(After(INITIAL, run, wait, immediate, false), Fires(t1, 0))
    ensures var s := After(INITIAL, run, wait, immediate, false);
      var r := Step(s, Fires(t1, 0), wait, immediate);
      if r.pending == [] then |r.log| == |s.log| + (if immediate then 0 else 1)
      else Enabled(r, Fires(t2, 0)) ==>
        var q := Step(r, Fires(t2, 0), wait, immediate);
        q.pending == [] && |q.log| == |s.log| + (if immediate then 0 else 1)
  {
    var s := After(INITIAL, run, wait, immediate, false);
    if immediate {
      ImmediateRuns(INITIAL, run, wait, false);
    } else {
      TrailingRuns(INITIAL, run, wait);
    }
    FiringsServe(s, wait, immediate, t1, 0);
    var r := Step(s, Fires(t1, 0), wait, immediate);
    if r.pending != [] && Enabled(r, Fires(t2, 0)) {
      RearmedInv(s, wait, immediate, t1);
      FiringsServe(r, wait, immediate, t2, 0);
    }
  }

  lemma RearmedInv(s: State, wait: nat, immediate: bool, time: int)
    requires Inv(s, wait) && Enabled(s, Fires(time, 0))
    requires Step(s, Fires(time, 0), wait, immediate).pending != []
    ensures Inv(Step(s, Fires(time, 0), wait, immediate), wait)
  {
  }
}
