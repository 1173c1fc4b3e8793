/** The scheduler's methods on mutable state, each proved against its function on states. */
module TaskExecuter {
  import opened Scheduler

  /**
   * The queue of `TaskExecuter`, the `cycleTick` of every task that has changed it, and what the browser holds
   * for them: requests in flight and timers not yet fired.
   */
  class Page {
    var queue: seq<Task>
    var cycleTick: map<Task, int>
    var polls: multiset<Task>
    var taskless: nat
    var checkTimers: multiset<Task>
    var runTimers: multiset<Task>
    var execTimers: set<Timer>
    var nextTimer: Timer
    ghost var live: multiset<Task>
    ghost var idle: multiset<Task>
    ghost var tasklessDone: nat

    ghost function Now(): State
      reads this
    {
      State(queue, polls, taskless, checkTimers, runTimers, execTimers, nextTimer, cycleTick, live, idle, tasklessDone)
    }

    constructor ()
      ensures Now() == INITIAL
    {
      queue, cycleTick := [], map[];
      polls, checkTimers, runTimers := multiset{}, multiset{}, multiset{};
      taskless, execTimers, nextTimer := 0, {}, 0;
      live, idle, tasklessDone := multiset{}, multiset{}, 0;
    }

    method Execute()
      modifies this
      ensures Now() == Scheduler.Execute(old(Now()))
    {
      if |queue| != 0 {
        var currentJob := queue[|queue| - 1];
        queue := queue[..|queue| - 1];
        polls := polls + multiset{currentJob};
      } else {
        execTimers := execTimers + {nextTimer};
        nextTimer := nextTimer + 1;
      }
    }

    method AddTask(task: Task)
      modifies this
      ensures Now() == Scheduler.AddTask(old(Now()), task)
    {
      queue := queue + [task];
    }

    method Run(task: Task)
      modifies this
      ensures Now() == Scheduler.Run(old(Now()), task)
    {
      cycleTick := cycleTick[task := task.cycleTime];
      AddTask(task);
    }

    function CycleTick(task: Task): int
      reads this
    {
      if task in cycleTick then cycleTick[task] else task.cycleTick
    }

    method Check(task: Task)
      modifies this
      ensures Now() == Scheduler.Check(old(Now()), task)
    {
      var tick := CycleTick(task);
      assert tick == Tick(Now(), task);
      if tick < 0 {
        idle := idle + multiset{task};
        return;
      }
      if tick == 0 {
        cycleTick := cycleTick[task := -1];
        runTimers := runTimers + multiset{task};
        return;
      }
      if tick > 0 {
        cycleTick := cycleTick[task := tick - 1];
        checkTimers := checkTimers + multiset{task};
        return;
      }
    }

    method Refresh(task: Task)
      modifies this
      ensures Now() == Step(old(Now()), Refreshed(task))
    {
      cycleTick := cycleTick[task := 0];
    }

    /** `execute` of a task: its request is sent, started before or not. */
    method OnStart(task: Task)
      modifies this
      ensures Now() == Step(old(Now()), Start(task))
    {
      polls := polls + multiset{task};
      live := live + multiset{task};
    }

    /** The payment request that a change of currency sends on its own. */
    method OnCurrencyChanged()
      modifies this
      ensures Now() == Step(old(Now()), TasklessPoll)
    {
      taskless := taskless + 1;
    }

    /** `success` and `error` of a task's request: only a payment task has an empty `error`. */
    method OnResponse(task: Task, ok: bool)
      requires Enabled(Now(), Completes(task, ok))
      modifies this
      ensures Now() == Step(old(Now()), Completes(task, ok))
    {
      polls := polls - multiset{task};
      if ok || !task.payment {
        Check(task);
        Execute();
      } else {
        live := live - multiset{task};
      }
    }

    /** `success` and `error` of the payment request without a task. */
    method OnTasklessResponse(ok: bool)
      requires Enabled(Now(), TasklessCompletes(ok))
      modifies this
      ensures Now() == Step(old(Now()), TasklessCompletes(ok))
    {
      taskless := taskless - 1;
      if ok {
        tasklessDone := tasklessDone + 1;
        Execute();
      }
    }

    method OnCheckTimer(task: Task)
      requires Enabled(Now(), CheckFires(task))
      modifies this
      ensures Now() == Step(old(Now()), CheckFires(task))
    {
      checkTimers := checkTimers - multiset{task};
      Check(task);
    }

    method OnRunTimer(task: Task)
      requires Enabled(Now(), RunFires(task))
      modifies this
      ensures Now() == Step(old(Now()), RunFires(task))
    {
      runTimers := runTimers - multiset{task};
      Run(task);
    }

    method OnExecuteTimer(timer: Timer)
      requires Enabled(Now(), ExecFires(timer))
      modifies this
      ensures Now() == Step(old(Now()), ExecFires(timer))
    {
      execTimers := execTimers - {timer};
      Execute();
    }
  }
}
