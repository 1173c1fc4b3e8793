/**
 * The polling scheduler as an asynchronous step system. Every callback of the page is one
 * atomic step; timers and requests complete in any order.
 */
module Scheduler {

  /**
   * A polled task; `cycleTick` is the tick that it is created with, and a payment task is dropped
   * when its request fails.
   */
  datatype Task = Task(id: nat, cycleTime: nat, cycleTick: nat, payment: bool)

  type Timer = nat

  datatype State = State(
    queue: seq<Task>,              // last element on top
    polls: multiset<Task>,         // requests in flight on behalf of a task
    taskless: nat,                 // payment requests in flight without a task
    checkTimers: multiset<Task>,
    runTimers: multiset<Task>,
    execTimers: set<Timer>,
    nextTimer: Timer,
    tick: map<Task, int>,          // ticks that are no longer the first one
    live: multiset<Task>,          // history: one for each start that was not dropped
    idle: multiset<Task>,          // history: one for each `check` that found a negative tick
    tasklessDone: nat              // history: successful payment polls without a task
  )

  const INITIAL := State([], multiset{}, 0, multiset{}, multiset{}, {}, 0, map[], multiset{}, multiset{}, 0)

  function Tick(s: State, t: Task): int {
    if t in s.tick then s.tick[t] else t.cycleTick
  }

  /** `TaskExecuter.execute`: dispatch the newest task, or look again later. */
  function Execute(s: State): State {
    if s.queue != [] then
      var top := |s.queue| - 1;
      s.(queue := s.queue[..top], polls := s.polls + multiset{s.queue[top]})
    else
      s.(execTimers := s.execTimers + {s.nextTimer}, nextTimer := s.nextTimer + 1)
  }

  function AddTask(s: State, t: Task): State {
    s.(queue := s.queue + [t])
  }

  function Run(s: State, t: Task): State {
    AddTask(s.(tick := s.tick[t := t.cycleTime]), t)
  }

  function Check(s: State, t: Task): State {
    if Tick(s, t) < 0 then s.(idle := s.idle + multiset{t})
    else if Tick(s, t) == 0 then s.(tick := s.tick[t := -1], runTimers := s.runTimers + multiset{t})
    else s.(tick := s.tick[t := Tick(s, t) - 1], checkTimers := s.checkTimers + multiset{t})
  }

  function Refresh(s: State, t: Task): State {
    s.(tick := s.tick[t := 0])
  }

  datatype Event =
    | Start(task: Task)                   // `execute` of a task, called by a page
    | Completes(task: Task, ok: bool)
    | TasklessPoll                        // `paymentNotification()` from a change of currency
    | TasklessCompletes(ok: bool)
    | CheckFires(task: Task)
    | RunFires(task: Task)
    | ExecFires(timer: Timer)
    | Refreshed(task: Task)

  /** Only what is in flight can complete and only what is set can fire; a page may start a task any time. */
  ghost predicate Enabled(s: State, e: Event) {
    match e
    case Start(_) => true
    case Completes(t, _) => t in s.polls
    case TasklessPoll => true
    case TasklessCompletes(_) => s.taskless > 0
    case CheckFires(t) => t in s.checkTimers
    case RunFires(t) => t in s.runTimers
    case ExecFires(x) => x in s.execTimers
    case Refreshed(_) => true
  }

  /** The part of a step before `TaskExecuter.execute` runs. */
  function Before(s: State, e: Event): State
    requires Enabled(s, e)
  {
    match e
    case Start(t) => s.(polls := s.polls + multiset{t}, live := s.live + multiset{t})
    case Completes(t, ok) =>
      var r := s.(polls := s.polls - multiset{t});
      if ok || !t.payment then Check(r, t) else r.(live := r.live - multiset{t})
    case TasklessPoll => s.(taskless := s.taskless + 1)
    case TasklessCompletes(ok) =>
      var r := s.(taskless := s.taskless - 1);
      if ok then r.(tasklessDone := r.tasklessDone + 1) else r
    case CheckFires(t) => Check(s.(checkTimers := s.checkTimers - multiset{t}), t)
    case RunFires(t) => Run(s.(runTimers := s.runTimers - multiset{t}), t)
    case ExecFires(x) => s.(execTimers := s.execTimers - {x})
    case Refreshed(t) => Refresh(s, t)
  }

  /** The steps that end in `TaskExecuter.execute`. */
  predicate Executes(e: Event) {
    match e
    case Completes(t, ok) => ok || !t.payment
    case TasklessCompletes(ok) => ok
    case ExecFires(_) => true
    case _ => false
  }

  function Step(s: State, e: Event): State
    requires Enabled(s, e)
  {
    if Executes(e) then Execute(Before(s, e)) else Before(s, e)
  }

  // What every step keeps, however often a task is started.

  /** All places a task can be in. */
  function Places(s: State): multiset<Task> {
    s.polls + s.checkTimers + s.runTimers + multiset(s.queue)
  }

  ghost predicate Inv(s: State) {
    Accounted(s) && Balanced(s, 0) && TimersNumbered(s)
  }

  /** Each start that was not dropped is in one place or has come to rest in `check`. */
  ghost predicate Accounted(s: State) {
    Places(s) + s.idle == s.live
  }

  /** Every start brings one executor and keeps it; a task-less poll adds one more; `running` execute just now. */
  ghost predicate Balanced(s: State, running: nat) {
    |s.polls| + |s.execTimers| + running == |s.live| + s.tasklessDone
  }

  ghost predicate TimersNumbered(s: State) {
    forall x :: x in s.execTimers ==> x < s.nextTimer
  }

  lemma ExecuteKeepsPlaces(r: State)
    ensures Places(Execute(r)) == Places(r)
  {
    if r.queue != [] {
      var top := |r.queue| - 1;
      assert r.queue == r.queue[..top] + [r.queue[top]];
    }
  }

  lemma ExecuteBalances(r: State)
    requires Balanced(r, 1) && TimersNumbered(r)
    ensures Balanced(Execute(r), 0) && TimersNumbered(Execute(r))
  {
  }

  lemma ExecuteRestores(r: State)
    requires Accounted(r) && Balanced(r, 1) && TimersNumbered(r)
    ensures Inv(Execute(r))
  {
    ExecuteKeepsPlaces(r);
    ExecuteBalances(r);
  }

  lemma CheckMovesOn(s: State, t: Task)
    ensures Places(Check(s, t)) + Check(s, t).idle == Places(s) + s.idle + multiset{t}
  {
  }

  /** The starts of a task are all accounted for. */
  lemma StartsOf(s: State, t: Task)
    requires Inv(s)
    ensures s.polls[t] + s.checkTimers[t] + s.runTimers[t] + multiset(s.queue)[t] + s.idle[t] == s.live[t]
  {
    assert (Places(s) + s.idle)[t] == s.live[t];
  }

  lemma TakeOne(m: multiset<Task>, t: Task)
    requires t in m
    ensures m == (m - multiset{t}) + multiset{t} && |m - multiset{t}| == |m| - 1
  {
  }

  lemma CompletesAccounted(s: State, t: Task, ok: bool)
    requires Accounted(s) && t in s.polls
    ensures t in s.live && Accounted(Before(s, Completes(t, ok)))
  {
    TakeOne(s.polls, t);
    var m := s.(polls := s.polls - multiset{t});
    assert Places(m) + m.idle + multiset{t} == Places(s) + s.idle;
    if ok || !t.payment {
      CheckMovesOn(m, t);
    } else {
      assert Places(m) + m.idle == s.live - multiset{t};
    }
  }

  lemma CheckFiresAccounted(s: State, t: Task)
    requires Accounted(s) && t in s.checkTimers
    ensures Accounted(Before(s, CheckFires(t)))
  {
    var m := s.(checkTimers := s.checkTimers - multiset{t});
    TakeOne(s.checkTimers, t);
    assert Places(m) + m.idle + multiset{t} == Places(s) + s.idle;
    CheckMovesOn(m, t);
  }

  lemma RunFiresAccounted(s: State, t: Task)
    requires Accounted(s) && t in s.runTimers
    ensures Accounted(Before(s, RunFires(t)))
  {
    TakeOne(s.runTimers, t);
    assert Places(Before(s, RunFires(t))) == Places(s);
  }

  lemma StartAccounted(s: State, t: Task)
    requires Accounted(s)
    ensures Accounted(Before(s, Start(t)))
  {
    assert Places(Before(s, Start(t))) == Places(s) + multiset{t};
  }

  lemma BeforeAccounted(s: State, e: Event)
    requires Accounted(s) && Enabled(s, e)
    ensures Accounted(Before(s, e))
  {
    match e
    case Start(t) => StartAccounted(s, t);
    case Completes(t, ok) => CompletesAccounted(s, t, ok);
    case CheckFires(t) => CheckFiresAccounted(s, t);
    case RunFires(t) => RunFiresAccounted(s, t);
    case _ =>
  }

  lemma CompletesBalanced(s: State, t: Task, ok: bool)
    requires Balanced(s, 0) && t in s.polls && t in s.live
    ensures Balanced(Before(s, Completes(t, ok)), if ok || !t.payment then 1 else 0)
  {
    TakeOne(s.polls, t);
    TakeOne(s.live, t);
  }

  lemma BeforeBalanced(s: State, e: Event)
    requires Balanced(s, 0) && Enabled(s, e) && (e.Completes? ==> e.task in s.live)
    ensures Balanced(Before(s, e), if Executes(e) then 1 else 0)
  {
    match e
    case Completes(t, ok) => CompletesBalanced(s, t, ok);
    case _ =>
  }

  lemma StepKeepsInv(s: State, e: Event)
    requires Inv(s) && Enabled(s, e)
    ensures Inv(Step(s, e))
  {
    if e.Completes? {
      CompletesAccounted(s, e.task, e.ok);
    }
    BeforeAccounted(s, e);
    BeforeBalanced(s, e);
    BeforeNumbered(s, e);
    if Executes(e) {
      ExecuteRestores(Before(s, e));
    }
  }

  lemma BeforeNumbered(s: State, e: Event)
    requires TimersNumbered(s) && Enabled(s, e)
    ensures TimersNumbered(Before(s, e))
  {
  }

  // Runs.

  ghost predicate IsRun(s: State, run: seq<Event>)
    decreases |run|
  {
    run == [] || (Enabled(s, run[0]) && IsRun(Step(s, run[0]), run[1..]))
  }

  function After(s: State, run: seq<Event>): State
    requires IsRun(s, run)
    decreases |run|
  {
    if run == [] then s else After(Step(s, run[0]), run[1..])
  }

  ghost predicate Reachable(s: State) {
    exists run :: IsRun(INITIAL, run) && After(INITIAL, run) == s
  }

  lemma {:induction false} RunKeepsInv(s: State, run: seq<Event>)
    requires Inv(s) && IsRun(s, run)
    ensures Inv(After(s, run))
    decreases |run|
  {
    if run != [] {
      StepKeepsInv(s, run[0]);
      RunKeepsInv(Step(s, run[0]), run[1..]);
    }
  }

  lemma ReachableInv(s: State)
    requires Reachable(s)
    ensures Inv(s)
  {
    var run :| IsRun(INITIAL, run) && After(INITIAL, run) == s;
    RunKeepsInv(INITIAL, run);
  }

  /** Conservation over all runs, repeated starts included. */
  lemma Conservation(s: State)
    requires Reachable(s)
    ensures forall t :: s.polls[t] + s.checkTimers[t] + s.runTimers[t] + multiset(s.queue)[t] + s.idle[t] == s.live[t]
    ensures |s.polls| + |s.execTimers| - |s.live| == s.tasklessDone
    ensures |s.execTimers| == |s.queue| + |s.checkTimers| + |s.runTimers| + |s.idle| + s.tasklessDone
  {
    ReachableInv(s);
    forall t {
      StartsOf(s, t);
    }
    assert |Places(s) + s.idle| == |s.live|;
  }

  lemma QueueWithinTimers(s: State)
    requires Inv(s)
    ensures |s.queue| + |s.checkTimers| + |s.runTimers| <= |s.execTimers|
  {
    assert |Places(s) + s.idle| == |s.live|;
  }

  // A task in one place at a time.

  function Occurrences(s: State, t: Task): nat {
    s.polls[t] + s.checkTimers[t] + s.runTimers[t] + multiset(s.queue)[t]
  }

  /** `t` is in one place at most, and a negative tick means that its run timer is pending. */
  ghost predicate Single(s: State, t: Task) {
    Occurrences(s, t) <= 1 && (t !in s.runTimers ==> Tick(s, t) >= 0)
  }

  ghost predicate SameFor(s: State, r: State, t: Task) {
    && r.checkTimers[t] == s.checkTimers[t] && r.runTimers[t] == s.runTimers[t]
    && Occurrences(r, t) == Occurrences(s, t) && Tick(r, t) == Tick(s, t) && r.idle[t] == s.idle[t]
  }

  lemma CheckUntouched(s: State, u: Task, t: Task)
    requires u != t
    ensures SameFor(s, Check(s, u), t)
  {
  }

  lemma RequestUntouched(s: State, u: Task, t: Task)
    requires u != t && u in s.polls
    ensures var m := s.(polls := s.polls - multiset{u});
      SameFor(s, m, t) && SameFor(s, m.(live := s.live - multiset{u}), t)
  {
  }

  lemma CheckTimerUntouched(s: State, u: Task, t: Task)
    requires u != t
    ensures SameFor(s, s.(checkTimers := s.checkTimers - multiset{u}), t)
  {
  }

  lemma RunUntouched(s: State, u: Task, t: Task)
    requires u != t
    ensures SameFor(s, Run(s.(runTimers := s.runTimers - multiset{u}), u), t)
  {
  }

  lemma CompletesUntouched(s: State, u: Task, ok: bool, t: Task)
    requires u != t && u in s.polls
    ensures SameFor(s, Before(s, Completes(u, ok)), t)
  {
    RequestUntouched(s, u, t);
    CheckUntouched(s.(polls := s.polls - multiset{u}), u, t);
  }

  lemma CheckFiresUntouched(s: State, u: Task, t: Task)
    requires u != t && u in s.checkTimers
    ensures SameFor(s, Before(s, CheckFires(u)), t)
  {
    CheckTimerUntouched(s, u, t);
    CheckUntouched(s.(checkTimers := s.checkTimers - multiset{u}), u, t);
  }

  lemma StartUntouched(s: State, u: Task, t: Task)
    requires u != t
    ensures SameFor(s, Before(s, Start(u)), t)
  {
  }

  /** A step that is not about `t` leaves its timers and its tick alone and moves it from the queue at most. */
  lemma BeforeUntouched(s: State, e: Event, t: Task)
    requires Enabled(s, e)
    requires e.Start? || e.Completes? || e.CheckFires? || e.RunFires? || e.Refreshed? ==> e.task != t
    ensures SameFor(s, Before(s, e), t)
  {
    match e
    case Start(u) => StartUntouched(s, u, t);
    case Completes(u, ok) => CompletesUntouched(s, u, ok, t);
    case CheckFires(u) => CheckFiresUntouched(s, u, t);
    case RunFires(u) => RunUntouched(s, u, t);
    case _ =>
  }

  lemma Untouched(s: State, e: Event, t: Task)
    requires Enabled(s, e)
    requires e.Start? || e.Completes? || e.CheckFires? || e.RunFires? || e.Refreshed? ==> e.task != t
    ensures SameFor(s, Step(s, e), t)
  {
    BeforeUntouched(s, e, t);
    ExecuteKeepsOccurrences(Before(s, e), t);
  }

  lemma ExecuteKeepsOccurrences(s: State, t: Task)
    ensures Occurrences(Execute(s), t) == Occurrences(s, t)
  {
    ExecuteKeepsPlaces(s);
    assert Occurrences(s, t) == Places(s)[t] == Places(Execute(s))[t] == Occurrences(Execute(s), t);
  }

  lemma CheckKeepsSingle(s: State, t: Task)
    requires Occurrences(s, t) == 0 && Tick(s, t) >= 0
    ensures Single(Check(s, t), t) && Check(s, t).idle == s.idle
  {
  }

  lemma CompletesKeepsSingle(s: State, t: Task, ok: bool)
    requires t in s.polls && Single(s, t)
    ensures var r := Before(s, Completes(t, ok)); Single(r, t) && r.idle == s.idle
  {
    if ok || !t.payment {
      CheckKeepsSingle(s.(polls := s.polls - multiset{t}), t);
    }
  }

  lemma CheckFiresKeepsSingle(s: State, t: Task)
    requires t in s.checkTimers && Single(s, t)
    ensures var r := Before(s, CheckFires(t)); Single(r, t) && r.idle == s.idle
  {
    CheckKeepsSingle(s.(checkTimers := s.checkTimers - multiset{t}), t);
  }

  lemma BeforeKeepsSingle(s: State, e: Event, t: Task)
    requires Enabled(s, e) && Single(s, t) && !(e == Start(t) && Occurrences(s, t) > 0)
    ensures Single(Before(s, e), t) && Before(s, e).idle[t] == s.idle[t]
  {
    if e.TasklessPoll? || e.TasklessCompletes? || e.ExecFires? || e.task != t {
      BeforeUntouched(s, e, t);
    } else if e.Completes? {
      CompletesKeepsSingle(s, t, e.ok);
    } else if e.CheckFires? {
      CheckFiresKeepsSingle(s, t);
    }
  }

  /** From one place at most, only a start of a task that is in a place already leads to two. */
  lemma StepKeepsSingle(s: State, e: Event, t: Task)
    requires Enabled(s, e) && Single(s, t)
    ensures Single(Step(s, e), t) <==> !(e == Start(t) && Occurrences(s, t) > 0)
    ensures Single(Step(s, e), t) ==> Step(s, e).idle[t] == s.idle[t]
  {
    if !(e == Start(t) && Occurrences(s, t) > 0) {
      BeforeKeepsSingle(s, e, t);
      ExecuteKeepsSingle(Before(s, e), t);
    }
  }

  lemma ExecuteKeepsSingle(s: State, t: Task)
    requires Single(s, t)
    ensures Single(Execute(s), t) && Execute(s).idle == s.idle
  {
    ExecuteKeepsOccurrences(s, t);
  }

  /** No step of the run starts `t` while it is in a place. */
  ghost predicate OnceAtATime(s: State, run: seq<Event>, t: Task)
    requires IsRun(s, run)
    decreases |run|
  {
    run == [] || (!(run[0] == Start(t) && Occurrences(s, t) > 0) && OnceAtATime(Step(s, run[0]), run[1..], t))
  }

  /** In no state of the run is `t` in two places. */
  ghost predicate OnePlaceThroughout(s: State, run: seq<Event>, t: Task)
    requires IsRun(s, run)
    decreases |run|
  {
    Occurrences(s, t) <= 1 && (run != [] ==> OnePlaceThroughout(Step(s, run[0]), run[1..], t))
  }

  lemma {:induction false} RunKeepsSingle(s: State, run: seq<Event>, t: Task)
    requires Single(s, t) && IsRun(s, run) && OnceAtATime(s, run, t)
    ensures Single(After(s, run), t) && After(s, run).idle[t] == s.idle[t]
    decreases |run|
  {
    if run != [] {
      StepKeepsSingle(s, run[0], t);
      RunKeepsSingle(Step(s, run[0]), run[1..], t);
    }
  }

  lemma {:induction false} OnePlaceFrom(s: State, run: seq<Event>, t: Task)
    requires Single(s, t) && IsRun(s, run)
    ensures OnePlaceThroughout(s, run, t) <==> OnceAtATime(s, run, t)
    decreases |run|
  {
    if run != [] {
      StepKeepsSingle(s, run[0], t);
      if run[0] == Start(t) && Occurrences(s, t) > 0 {
        assert Occurrences(Step(s, run[0]), t) > 1;
      } else {
        OnePlaceFrom(Step(s, run[0]), run[1..], t);
      }
    }
  }

  /**
   * Over all runs a task is in one place at most, in every state of the run, exactly when no step starts it
   * while it is in a place. It is then in exactly one place while it is live, and never at rest.
   */
  lemma OnePlaceExactlyWhenStartedOnce(run: seq<Event>, t: Task)
    requires IsRun(INITIAL, run)
    ensures OnePlaceThroughout(INITIAL, run, t) <==> OnceAtATime(INITIAL, run, t)
    ensures var s := After(INITIAL, run);
      OnceAtATime(INITIAL, run, t) ==> Single(s, t) && Occurrences(s, t) == s.live[t] && s.idle[t] == 0
  {
    OnePlaceFrom(INITIAL, run, t);
    RunKeepsInv(INITIAL, run);
    StartsOf(After(INITIAL, run), t);
    if OnceAtATime(INITIAL, run, t) {
      RunKeepsSingle(INITIAL, run, t);
    }
  }

  /** The queue does not hold a task twice that is in one place at most. */
  lemma NoDuplicates(s: State, i: nat, j: nat)
    requires i < j < |s.queue| && Single(s, s.queue[i])
    ensures s.queue[i] != s.queue[j]
  {
    TwiceCounts(s.queue, i, j);
  }

  lemma TwiceCounts(q: seq<Task>, i: nat, j: nat)
    requires i < j < |q|
    ensures q[i] == q[j] ==> multiset(q)[q[i]] >= 2
  {
    assert q == q[..j] + [q[j]] + q[j + 1..];
    assert q[i] in q[..j];
  }

  // The empty page starts the menu task twice.

  const MENU := Task(0, 5, 0, false)

  const TWICE := [Start(MENU), Start(MENU), Completes(MENU, true), Completes(MENU, true)]
  const SHARED := [Start(MENU), Start(MENU), Completes(MENU, true), RunFires(MENU), Completes(MENU, true)]

  lemma OneMore(s: State, e: Event, rest: seq<Event>)
    requires Enabled(s, e) && IsRun(Step(s, e), rest)
    ensures IsRun(s, [e] + rest) && After(s, [e] + rest) == After(Step(s, e), rest)
  {
    assert ([e] + rest)[1..] == rest;
  }

  lemma TwoRequests()
    ensures Step(Step(INITIAL, Start(MENU)), Start(MENU))
         == INITIAL.(polls := multiset{MENU, MENU}, live := multiset{MENU, MENU})
  {
  }

  lemma FirstResponse(s: State)
    requires s == INITIAL.(polls := multiset{MENU, MENU}, live := multiset{MENU, MENU})
    ensures Step(s, Completes(MENU, true))
         == s.(polls := multiset{MENU}, tick := map[MENU := -1], runTimers := multiset{MENU},
               execTimers := {0}, nextTimer := 1)
  {
  }

  /**
   * Two requests at once, of which the second finds a negative tick: one start is at rest, an executor is too
   * many, and the task is in one place again.
   */
  lemma StartedTwiceGoesIdle()
    ensures IsRun(INITIAL, TWICE) && !OnceAtATime(INITIAL, TWICE, MENU)
    ensures var s := After(INITIAL, TWICE);
      s.runTimers[MENU] == 1 && s.idle[MENU] == 1 && |s.execTimers| == 2 && Single(s, MENU)
    ensures IsRun(INITIAL, TWICE[..2]) && Occurrences(After(INITIAL, TWICE[..2]), MENU) == 2
  {
    var c := Completes(MENU, true);
    var s1 := Step(INITIAL, Start(MENU));
    var s2 := Step(s1, Start(MENU));
    TwoRequests();
    FirstResponse(s2);
    var s3 := Step(s2, c);
    var s4 := Step(s3, c);
    assert s4 == s3.(polls := multiset{}, idle := multiset{MENU}, execTimers := {0, 1}, nextTimer := 2);
    OneMore(s3, c, []);
    OneMore(s2, c, [c]);
    OneMore(s1, Start(MENU), [c, c]);
    OneMore(INITIAL, Start(MENU), [Start(MENU), c, c]);
    assert TWICE[1..] == [Start(MENU), c, c];
    OneMore(s1, Start(MENU), []);
    OneMore(INITIAL, Start(MENU), [Start(MENU)]);
    assert TWICE[..2] == [Start(MENU), Start(MENU)];
  }

  lemma SharedTick(s: State)
    requires s.polls == s.checkTimers == multiset{MENU} && s.tick == map[MENU := 4]
    ensures Left(Step(s, Completes(MENU, true)), MENU) == Left(s, MENU) - 1
  {
  }

  /** With the run timer between the responses both starts go on, and one counts the tick of the other down. */
  lemma StartedTwiceSharesTick()
    ensures IsRun(INITIAL, SHARED)
    ensures var s := After(INITIAL, SHARED);
      && s.polls[MENU] == 1 && s.checkTimers[MENU] == 1 && s.live[MENU] == 2
      && Enabled(s, Completes(MENU, true)) && Left(Step(s, Completes(MENU, true)), MENU) == Left(s, MENU) - 1
  {
    var c := Completes(MENU, true);
    var s1 := Step(INITIAL, Start(MENU));
    var s2 := Step(s1, Start(MENU));
    TwoRequests();
    FirstResponse(s2);
    var s3 := Step(s2, c);
    var s4 := Step(s3, RunFires(MENU));
    assert s4 == s3.(tick := map[MENU := 5], runTimers := multiset{}, queue := [MENU]);
    var s5 := Step(s4, c);
    assert s5 == s4.(tick := map[MENU := 4], checkTimers := multiset{MENU}, queue := []);
    SharedTick(s5);
    OneMore(s4, c, []);
    OneMore(s3, RunFires(MENU), [c]);
    OneMore(s2, c, [RunFires(MENU), c]);
    OneMore(s1, Start(MENU), [c, RunFires(MENU), c]);
    OneMore(INITIAL, Start(MENU), [Start(MENU), c, RunFires(MENU), c]);
  }

  // No starvation.

  /** Step `e` takes the `i`-th task of the queue, which is `t`, from its top and sends its request. */
  ghost predicate Dispatches(s: State, e: Event, i: nat, t: Task)
    requires Enabled(s, e)
  {
    Executes(e) && var q := Before(s, e).queue; |q| == i + 1 && q[i] == t
  }

  lemma DispatchSends(s: State, e: Event, i: nat, t: Task)
    requires Enabled(s, e) && Dispatches(s, e, i, t)
    ensures t in Step(s, e).polls && |Step(s, e).queue| == i
    ensures Single(s, t) ==> t !in Step(s, e).queue
  {
    if Single(s, t) {
      StepKeepsSingle(s, e, t);
    }
  }

  lemma QueuedStays(s: State, e: Event, i: nat)
    requires Enabled(s, e) && i < |s.queue| && !Dispatches(s, e, i, s.queue[i])
    ensures i < |Step(s, e).queue| && Step(s, e).queue[i] == s.queue[i]
    ensures Step(s, e).execTimers <= s.execTimers
  {
    assert s.queue <= Before(s, e).queue;
  }

  /** The `k`-th step of the run dispatches the `i`-th task of the queue. */
  ghost predicate DispatchedAt(s: State, run: seq<Event>, k: nat, i: nat, t: Task) {
    && k < |run| && IsRun(s, run[..k])
    && Enabled(After(s, run[..k]), run[k]) && Dispatches(After(s, run[..k]), run[k], i, t)
  }

  lemma DispatchedLater(s: State, run: seq<Event>, j: nat, i: nat, t: Task)
    requires run != [] && Enabled(s, run[0]) && DispatchedAt(Step(s, run[0]), run[1..], j, i, t)
    ensures DispatchedAt(s, run, j + 1, i, t)
  {
    assert run[..j + 1][1..] == run[1..][..j];
  }

  /**
   * By the time every `execute` timer that is pending now has fired, some step of the run has
   * dispatched each task that is queued now.
   */
  lemma {:induction false} NoStarvation(s: State, i: nat, run: seq<Event>) returns (k: nat)
    requires Inv(s) && i < |s.queue| && IsRun(s, run)
    requires After(s, run).execTimers !! s.execTimers
    ensures DispatchedAt(s, run, k, i, s.queue[i])
    decreases |run|
  {
    QueueWithinTimers(s);
    assert run != [];
    var e := run[0];
    if Dispatches(s, e, i, s.queue[i]) {
      k := 0;
    } else {
      StepKeepsInv(s, e);
      QueuedStays(s, e, i);
      var j := NoStarvation(Step(s, e), i, run[1..]);
      DispatchedLater(s, run, j, i, s.queue[i]);
      k := j + 1;
    }
  }

  // The countdown from a completed request to the queue.

  function CheckFirings(run: seq<Event>, t: Task): nat {
    if run == [] then 0 else (if run[0] == CheckFires(t) then 1 else 0) + CheckFirings(run[1..], t)
  }

  predicate Waiting(s: State, t: Task) {
    t in s.checkTimers || t in s.runTimers
  }

  /** Check timers still to fire before the run timer of `t` is set. */
  function Left(s: State, t: Task): nat {
    if t in s.checkTimers && Tick(s, t) >= 0 then Tick(s, t) + 1 else 0
  }

  lemma CountdownStep(s: State, e: Event, t: Task)
    requires Single(s, t) && Enabled(s, e) && Waiting(s, t) && e != RunFires(t) && e != Start(t)
    ensures Waiting(Step(s, e), t)
    ensures e != Refreshed(t) ==> Left(s, t) == Left(Step(s, e), t) + if e == CheckFires(t) then 1 else 0
    ensures e == Refreshed(t) ==> Left(Step(s, e), t) <= 1 && Left(Step(s, e), t) <= Left(s, t)
  {
    if e == CheckFires(t) || e == Refreshed(t) {
    } else {
      assert t !in s.polls;
      Untouched(s, e, t);
    }
  }

  lemma {:induction false} Countdown(s: State, run: seq<Event>, t: Task)
    requires Single(s, t) && IsRun(s, run) && OnceAtATime(s, run, t)
    requires Waiting(s, t) && RunFires(t) !in run
    ensures Waiting(After(s, run), t)
    ensures CheckFirings(run, t) + Left(After(s, run), t) <= Left(s, t)
    ensures Refreshed(t) !in run ==> CheckFirings(run, t) + Left(After(s, run), t) == Left(s, t)
    decreases |run|
  {
    if run != [] {
      CountdownStep(s, run[0], t);
      StepKeepsSingle(s, run[0], t);
      Countdown(Step(s, run[0]), run[1..], t);
    }
  }

  /** After a refresh one more check timer fires at most before the run timer. */
  lemma RefreshHastens(s: State, run: seq<Event>, t: Task)
    requires Single(s, t) && Waiting(s, t)
    requires IsRun(Step(s, Refreshed(t)), run) && OnceAtATime(Step(s, Refreshed(t)), run, t) && RunFires(t) !in run
    ensures CheckFirings(run, t) <= 1
  {
    CountdownStep(s, Refreshed(t), t);
    StepKeepsSingle(s, Refreshed(t), t);
    Countdown(Step(s, Refreshed(t)), run, t);
  }

  /**
   * A task whose request completes with tick c is queued again by its run timer, after
   * exactly c check timers when nothing refreshes it and after at most c otherwise.
   */
  lemma CompletionToQueue(s: State, t: Task, ok: bool, run: seq<Event>)
    requires Single(s, t) && Enabled(s, Completes(t, ok)) && (ok || !t.payment)
    requires IsRun(Step(s, Completes(t, ok)), run) && OnceAtATime(Step(s, Completes(t, ok)), run, t)
    requires RunFires(t) !in run && Enabled(After(Step(s, Completes(t, ok)), run), RunFires(t))
    ensures CheckFirings(run, t) <= Tick(s, t)
    ensures Refreshed(t) !in run ==> CheckFirings(run, t) == Tick(s, t)
    ensures var q := Step(After(Step(s, Completes(t, ok)), run), RunFires(t));
      q.queue != [] && q.queue[|q.queue| - 1] == t && Tick(q, t) == t.cycleTime
  {
    CompletionWaits(s, t, ok);
    CountedDown(Step(s, Completes(t, ok)), t, run);
  }

  lemma RunTimerQueues(s: State, t: Task)
    requires t in s.runTimers
    ensures var q := Step(s, RunFires(t)); q.queue == s.queue + [t] && Tick(q, t) == t.cycleTime
  {
  }

  lemma CountedDown(r: State, t: Task, run: seq<Event>)
    requires Single(r, t) && Waiting(r, t) && IsRun(r, run) && OnceAtATime(r, run, t)
    requires RunFires(t) !in run && Enabled(After(r, run), RunFires(t))
    ensures CheckFirings(run, t) <= Left(r, t)
    ensures Refreshed(t) !in run ==> CheckFirings(run, t) == Left(r, t)
    ensures var q := Step(After(r, run), RunFires(t));
      q.queue != [] && q.queue[|q.queue| - 1] == t && Tick(q, t) == t.cycleTime
  {
    RunTimerQueues(After(r, run), t);
    Countdown(r, run, t);
    RunKeepsSingle(r, run, t);
  }

  lemma CompletionWaits(s: State, t: Task, ok: bool)
    requires Single(s, t) && Enabled(s, Completes(t, ok)) && (ok || !t.payment)
    ensures var r := Step(s, Completes(t, ok)); Single(r, t) && Waiting(r, t) && Left(r, t) == Tick(s, t)
  {
    StepKeepsSingle(s, Completes(t, ok), t);
    var m := s.(polls := s.polls - multiset{t});
    assert Waiting(Check(m, t), t) && Left(Check(m, t), t) == Tick(s, t);
  }
}
