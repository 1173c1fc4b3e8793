/** What a failed request does to the scheduler. */
module RequestErrors {
  import opened Scheduler

  /** A failed request of a payment task leaves queue and timers as they are and the task nowhere. */
  lemma ErrorDropsPayment(s: State, t: Task)
    requires Single(s, t) && t.payment && t in s.polls
    ensures var r := Step(s, Completes(t, false));
      && Occurrences(r, t) == 0 && r.queue == s.queue && r.tick == s.tick
      && r.execTimers == s.execTimers && r.checkTimers == s.checkTimers && r.runTimers == s.runTimers
  {
  }

  /** A task that is nowhere stays nowhere until a page starts it. */
  lemma {:induction false} DroppedStaysAway(s: State, run: seq<Event>, t: Task)
    requires Occurrences(s, t) == 0 && IsRun(s, run) && Start(t) !in run
    ensures Occurrences(After(s, run), t) == 0
    decreases |run|
  {
    if run != [] {
      var e := run[0];
      if e == Refreshed(t) {
        assert Occurrences(Step(s, e), t) == 0;
      } else {
        Untouched(s, e, t);
      }
      DroppedStaysAway(Step(s, e), run[1..], t);
    }
  }

  /** A failed request of any other task goes on like a successful one; a failed task-less one does nothing more. */
  lemma OtherErrors(s: State, t: Task)
    requires t in s.polls && !t.payment
    ensures Step(s, Completes(t, false)) == Step(s, Completes(t, true))
    ensures s.taskless > 0 ==>
      var r := Step(s, TasklessCompletes(false));
      && r.queue == s.queue && r.polls == s.polls && r.tick == s.tick
      && r.execTimers == s.execTimers && r.checkTimers == s.checkTimers && r.runTimers == s.runTimers
  {
  }
}
