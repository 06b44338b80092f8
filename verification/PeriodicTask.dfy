/**
 The deadline loop of lib/periodic_task.py.  The clock and the task are the environment: each
 turn of the loop comes with the clock readings it sees.
 */
module PeriodicTask {

  /**
   What the environment does in one turn: the clock when the task has finished, the clock at
   the second reading (used only after a missed deadline), and the clock when the sleep is over.
   */
  datatype Turn = Turn(finished: real, resync: real, woken: real)

  /** One turn as the loop saw it: next_tick at the loop head, the start time, and the outcome. */
  datatype Record = Record(head: real, start: real, deadline: real, missed: bool, slept: real, nextHead: real)

  function RunTurn(interval: real, head: real, start: real, t: Turn): Record {
    var deadline := head + interval;
    var delay := deadline - t.finished;
    if delay > 0.0 then Record(head, start, deadline, false, delay, deadline)
    else Record(head, start, deadline, true, 0.0, t.resync)
  }

  /** The records of a whole run that starts when the clock reads t0. */
  function Trace(interval: real, t0: real, turns: seq<Turn>): (rs: seq<Record>)
    ensures |rs| == |turns|
  {
    if turns == [] then []
    else
      var init := Trace(interval, t0, turns[..|turns| - 1]);
      init + [RunTurn(interval, HeadAfter(t0, init), StartAfter(t0, turns[..|turns| - 1]), turns[|turns| - 1])]
  }

  function HeadAfter(t0: real, rs: seq<Record>): real {
    if rs == [] then t0 else rs[|rs| - 1].nextHead
  }

  function StartAfter(t0: real, turns: seq<Turn>): real {
    if turns == [] then t0 else turns[|turns| - 1].woken
  }

  /** The clock never goes back, and a sleep never ends early. */
  ghost predicate ClockOk(interval: real, t0: real, turns: seq<Turn>) {
    forall i :: 0 <= i < |turns| ==>
      var r, t := Trace(interval, t0, turns)[i], turns[i];
      && r.start <= t.finished <= t.resync <= t.woken
      && t.finished + r.slept <= t.woken
  }

  lemma {:induction false} TracePrefix(interval: real, t0: real, turns: seq<Turn>, k: nat)
    requires k <= |turns|
    ensures Trace(interval, t0, turns[..k]) == Trace(interval, t0, turns)[..k]
  {
    if k < |turns| {
      var init := turns[..|turns| - 1];
      TracePrefix(interval, t0, init, k);
      assert init[..k] == turns[..k];
    } else {
      assert turns[..k] == turns;
    }
  }

  /** How turn i is computed from the one before it. */
  lemma {:induction false} TraceAt(interval: real, t0: real, turns: seq<Turn>, i: nat)
    requires i < |turns|
    ensures var rs := Trace(interval, t0, turns);
            var head := if i == 0 then t0 else rs[i - 1].nextHead;
            var start := if i == 0 then t0 else turns[i - 1].woken;
            rs[i] == RunTurn(interval, head, start, turns[i])
  {
    TracePrefix(interval, t0, turns, i + 1);
    TracePrefix(interval, t0, turns, i);
    var upto := turns[..i + 1];
    assert upto[..i] == turns[..i];
    assert Trace(interval, t0, upto)[i] == Trace(interval, t0, turns)[i];
  }

  /**
   One turn by its clock readings: the deadline is an interval after the loop head and is missed
   exactly if the task finishes at or after it; otherwise the turn sleeps until the deadline, which
   is then the next loop head, and after a miss that is the second reading, without a sleep.
   */
  lemma TurnOutcome(interval: real, t0: real, turns: seq<Turn>, i: nat)
    requires i < |turns|
    ensures var rs := Trace(interval, t0, turns);
            var r, t := rs[i], turns[i];
            && r.head == (if i == 0 then t0 else rs[i - 1].nextHead)
            && r.start == (if i == 0 then t0 else turns[i - 1].woken)
            && r.deadline == r.head + interval
            && (r.missed <==> t.finished >= r.deadline)
            && (!r.missed ==> r.slept > 0.0 && t.finished + r.slept == r.deadline == r.nextHead)
            && (r.missed ==> r.slept == 0.0 && r.nextHead == t.resync)
  {
    TraceAt(interval, t0, turns, i);
  }

  /** No turn starts before its loop head, no sleep exceeds the interval, heads are an interval apart. */
  lemma {:induction false} TurnFacts(interval: real, t0: real, turns: seq<Turn>, i: nat)
    requires interval >= 0.0 && ClockOk(interval, t0, turns) && i < |turns|
    ensures var r := Trace(interval, t0, turns)[i];
            && r.head <= r.start
            && 0.0 <= r.slept <= interval
            && r.head + interval <= r.nextHead
            && r.nextHead <= turns[i].woken
            && (i > 0 ==> r.head == Trace(interval, t0, turns)[i - 1].nextHead)
  {
    TraceAt(interval, t0, turns, i);
    if i == 0 {
    } else {
      TurnFacts(interval, t0, turns, i - 1);
    }
  }

  lemma OneMore(n: nat, interval: real)
    ensures (n + 1) as real * interval == n as real * interval + interval
  {}

  /**
   No catch-up burst: counted from any turn j, the turn n later starts at least n intervals
   after j's loop head, whether deadlines were missed in between or not.
   */
  lemma {:induction false} NoBurst(interval: real, t0: real, turns: seq<Turn>, j: nat, n: nat)
    requires interval >= 0.0 && ClockOk(interval, t0, turns) && j + n < |turns|
    ensures var rs := Trace(interval, t0, turns);
            rs[j].head + n as real * interval <= rs[j + n].head <= rs[j + n].start
    decreases n
  {
    hide ClockOk, Trace;
    TurnFacts(interval, t0, turns, j + n);
    if n == 0 {
    } else {
      NoBurst(interval, t0, turns, j, n - 1);
      TurnFacts(interval, t0, turns, j + n - 1);
      OneMore(n - 1, interval);
    }
  }

  /** In particular the k-th start is no earlier than t0 + k * interval. */
  lemma StartsNoEarlierThanSchedule(interval: real, t0: real, turns: seq<Turn>, k: nat)
    requires interval >= 0.0 && ClockOk(interval, t0, turns) && k < |turns|
    ensures t0 + k as real * interval <= Trace(interval, t0, turns)[k].start
  {
    NoBurst(interval, t0, turns, 0, k);
    TraceAt(interval, t0, turns, 0);
  }

  /** Where the k-th deadline is if the schedule never slips. */
  function GridPoint(interval: real, t0: real, k: nat): real {
    t0 + (k + 1) as real * interval
  }

  /** Every missed deadline among the first n turns was resynchronised the moment it was due. */
  ghost predicate NeverLate(interval: real, t0: real, turns: seq<Turn>, n: nat)
    requires n <= |turns|
  {
    forall k :: 0 <= k < n && Trace(interval, t0, turns)[k].missed ==>
      turns[k].resync == Trace(interval, t0, turns)[k].deadline
  }

  /**
   The deadlines of the first n turns lie exactly on the grid exactly when every deadline missed
   before the last of them was resynchronised at the very moment it was due; in particular when
   none was missed.
   */
  lemma {:induction false} OnGridIffNeverLate(interval: real, t0: real, turns: seq<Turn>, n: nat)
    requires n <= |turns|
    ensures (forall k :: 0 <= k < n ==> Trace(interval, t0, turns)[k].deadline == GridPoint(interval, t0, k))
            <==> NeverLate(interval, t0, turns, if n == 0 then 0 else n - 1)
  {
    var rs := Trace(interval, t0, turns);
    if n == 0 {
    } else if n == 1 {
      TraceAt(interval, t0, turns, 0);
    } else {
      OnGridIffNeverLate(interval, t0, turns, n - 1);
      NextDeadline(interval, t0, turns, n - 2);
      assert rs[n - 2].deadline == GridPoint(interval, t0, n - 2) ==>
          (rs[n - 1].deadline == GridPoint(interval, t0, n - 1)
           <==> (rs[n - 2].missed ==> turns[n - 2].resync == rs[n - 2].deadline));
    }
  }

  /** One deadline is an interval after the one before, or after the resynchronisation it forced. */
  lemma NextDeadline(interval: real, t0: real, turns: seq<Turn>, k: nat)
    requires k + 1 < |turns|
    ensures var r, next := Trace(interval, t0, turns)[k], Trace(interval, t0, turns)[k + 1];
            next.deadline == (if r.missed then turns[k].resync else r.deadline) + interval
    ensures GridPoint(interval, t0, k + 1) == GridPoint(interval, t0, k) + interval
  {
    TraceAt(interval, t0, turns, k);
    TraceAt(interval, t0, turns, k + 1);
    OneMore(k + 1, interval);
  }

  /** The same for what the turns leave as the next loop head, where every turn counts. */
  lemma HeadsOnGridIffNeverLate(interval: real, t0: real, turns: seq<Turn>)
    ensures (forall k :: 0 <= k < |turns| ==> Trace(interval, t0, turns)[k].nextHead == GridPoint(interval, t0, k))
            <==> NeverLate(interval, t0, turns, |turns|)
  {
    var rs := Trace(interval, t0, turns);
    forall k | 0 <= k < |turns|
      ensures rs[k].nextHead == if rs[k].missed then turns[k].resync else rs[k].deadline
    {
      TraceAt(interval, t0, turns, k);
    }
    OnGridIffNeverLate(interval, t0, turns, |turns|);
    if forall k :: 0 <= k < |turns| ==> rs[k].nextHead == GridPoint(interval, t0, k) {
      forall k | 0 <= k < |turns|
        ensures rs[k].deadline == GridPoint(interval, t0, k)
      {
        DeadlineFromHead(interval, t0, turns, k);
      }
    }
  }

  lemma DeadlineFromHead(interval: real, t0: real, turns: seq<Turn>, k: nat)
    requires k < |turns|
    requires k > 0 ==> Trace(interval, t0, turns)[k - 1].nextHead == GridPoint(interval, t0, k - 1)
    ensures Trace(interval, t0, turns)[k].deadline == GridPoint(interval, t0, k)
  {
    TraceAt(interval, t0, turns, k);
    OneMore(k, interval);
  }

  /** The loop itself; it ends when the environment has no more turns (shutdown is set). */
  method Loop(interval: real, t0: real, turns: seq<Turn>) returns (records: seq<Record>)
    ensures records == Trace(interval, t0, turns)
  {
    records := [];
    var nextTick, start := t0, t0;
    for i := 0 to |turns|
      invariant records == Trace(interval, t0, turns[..i])
      invariant nextTick == HeadAfter(t0, records)
      invariant start == StartAfter(t0, turns[..i])
    {
      var head, t := nextTick, turns[i];
      nextTick := nextTick + interval;
      var deadline := nextTick;
      var delay := nextTick - t.finished;
      var missed, slept := false, delay;
      if !(delay > 0.0) {
        nextTick := t.resync;
        missed, slept := true, 0.0;
      }
      assert turns[..i + 1][..i] == turns[..i];
      records := records + [Record(head, start, deadline, missed, slept, nextTick)];
      start := t.woken;
    }
    assert turns[..|turns|] == turns;
  }
}
