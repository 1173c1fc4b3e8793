/** When the payment alarm rings: one channel, deposit or withdrawal, over any sequence of polls. */
module AlarmThrottle {
  import opened Wrappers

  /** What `localStorage` keeps for the channel. */
  datatype State = State(lastRing: Option<int>, stored: Option<int>)

  /** One poll: the count, whether it is of the pending kind, and the clock. */
  datatype Poll = Poll(count: int, pending: bool, now: int)

  const QUIET := 30000

  function Rings(s: State, p: Poll): bool {
    p.count > 0 &&
    if p.pending then s.lastRing.None? || p.now - s.lastRing.value >= QUIET
    else s.stored.None? || s.stored.value < p.count
  }

  function Next(s: State, p: Poll): State {
    State(if p.count <= 0 then None else if p.pending && Rings(s, p) then Some(p.now) else s.lastRing, Some(p.count))
  }

  class Channel {
    var lastRingTime: Option<int>
    var inCache: Option<int>

    ghost function View(): State
      reads this
    {
      State(lastRingTime, inCache)
    }

    constructor ()
      ensures View() == State(None, None)
    {
      lastRingTime, inCache := None, None;
    }

    method RenderPaymentNotification(p: Poll) returns (rung: bool)
      modifies this
      ensures View() == Next(old(View()), p) && rung == Rings(old(View()), p)
    {
      rung := false;
      if p.count > 0 {
        if p.pending {
          if lastRingTime.None? || p.now - lastRingTime.value >= QUIET {
            rung := true;
            lastRingTime := Some(p.now);
          }
        } else {
          if inCache.None? || inCache.value < p.count {
            rung := true;
          }
        }
      } else {
        lastRingTime := None;
      }
      inCache := Some(p.count);
    }
  }

  // Every sequence of polls, from whatever the browser has stored.

  function StateBefore(s: State, polls: seq<Poll>, i: nat): State
    requires i <= |polls|
  {
    if i == 0 then s else Next(StateBefore(s, polls, i - 1), polls[i - 1])
  }

  predicate RingsAt(s: State, polls: seq<Poll>, i: nat)
    requires i < |polls|
  {
    Rings(StateBefore(s, polls, i), polls[i])
  }

  /** No poll in between reports an empty channel. */
  ghost predicate NeverEmpty(polls: seq<Poll>, i: nat, j: nat)
    requires i <= j <= |polls|
  {
    forall k :: i <= k < j ==> polls[k].count > 0
  }

  /** A pending poll j rings before the i-th poll, without an empty poll since. */
  ghost predicate PendingRing(s: State, polls: seq<Poll>, j: nat, i: nat)
    requires i <= |polls|
  {
    j < i && polls[j].pending && RingsAt(s, polls, j) && NeverEmpty(polls, j, i)
  }

  /** The time of such an alarm, or the stored one when there was no empty poll at all. */
  ghost predicate RungAt(s: State, polls: seq<Poll>, i: nat, x: int)
    requires i <= |polls|
  {
    || (s.lastRing == Some(x) && NeverEmpty(polls, 0, i))
    || exists j: nat :: PendingRing(s, polls, j, i) && polls[j].now == x
  }

  /** The i-th poll forgets every alarm when it is empty and may be one itself otherwise. */
  ghost predicate RungBy(s: State, polls: seq<Poll>, i: nat, x: int)
    requires i < |polls|
  {
    && polls[i].count > 0
    && (RungAt(s, polls, i, x) || (polls[i].pending && RingsAt(s, polls, i) && polls[i].now == x))
  }

  lemma RungStep(s: State, polls: seq<Poll>, i: nat, x: int)
    requires i < |polls|
    ensures RungAt(s, polls, i + 1, x) <==> RungBy(s, polls, i, x)
  {
    if j: nat :| PendingRing(s, polls, j, i + 1) && polls[j].now == x {
      assert j < i ==> PendingRing(s, polls, j, i);
      assert polls[i].count > 0;
    }
    if j: nat :| PendingRing(s, polls, j, i) && polls[j].now == x && polls[i].count > 0 {
      assert PendingRing(s, polls, j, i + 1);
    }
    if polls[i].count > 0 && polls[i].pending && RingsAt(s, polls, i) && polls[i].now == x {
      assert PendingRing(s, polls, i, i + 1);
    }
  }

  /** The remembered time is the latest of them, whatever the clock does; without any, none is remembered. */
  lemma {:induction false} RemembersLatest(s: State, polls: seq<Poll>, i: nat)
    requires i <= |polls|
    ensures var last := StateBefore(s, polls, i).lastRing;
      && (last.Some? ==> RungAt(s, polls, i, last.value))
      && (forall x :: RungAt(s, polls, i, x) ==> last.Some? && x <= last.value)
  {
    if i > 0 {
      RemembersLatest(s, polls, i - 1);
      forall x
        ensures RungAt(s, polls, i, x) <==> RungBy(s, polls, i - 1, x)
      {
        RungStep(s, polls, i - 1, x);
      }
    }
  }

  /**
   * A pending poll with a count rings exactly when half a minute has passed since every pending alarm that
   * no empty poll has followed, the stored one included; at once when there is none.
   */
  lemma PendingRingsExactlyWhen(s: State, polls: seq<Poll>, i: nat)
    requires i < |polls| && polls[i].pending && polls[i].count > 0
    ensures RingsAt(s, polls, i) <==> forall x :: RungAt(s, polls, i, x) ==> polls[i].now - x >= 30000
  {
    RemembersLatest(s, polls, i);
  }

  /** So two pending alarms with no empty poll between them are half a minute apart. */
  lemma PendingRingsApart(s: State, polls: seq<Poll>, i: nat, j: nat)
    requires i < j < |polls| && NeverEmpty(polls, i, j)
    requires polls[i].pending && polls[j].pending && RingsAt(s, polls, i) && RingsAt(s, polls, j)
    ensures polls[j].now - polls[i].now >= 30000
  {
    PendingRingsExactlyWhen(s, polls, j);
    assert PendingRing(s, polls, i, j);
    assert RungAt(s, polls, j, polls[i].now);
  }

  /** After an empty poll, or at the start with no time stored, the first pending poll with a count rings at once. */
  lemma PendingRingsAfterEmpty(s: State, polls: seq<Poll>, i: nat)
    requires i < |polls| && polls[i].pending && polls[i].count > 0
    requires if i == 0 then s.lastRing.None? else polls[i - 1].count <= 0
    ensures RingsAt(s, polls, i)
  {
  }

  /** A poll of the other kind rings exactly when it reports more than the one before, or than what is stored. */
  lemma PlainPollRings(s: State, polls: seq<Poll>, i: nat)
    requires i < |polls| && !polls[i].pending && polls[i].count > 0
    ensures RingsAt(s, polls, i) <==>
      if i > 0 then polls[i - 1].count < polls[i].count else s.stored.None? || s.stored.value < polls[i].count
  {
  }
}
