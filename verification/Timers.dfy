/** Timers and what happens to their queue, as a value: what callbacks do to it, and a whole dispatch pass. */
module Timers {
  import opened Deadlines
  import opened Sequences

  class Timer {
    var pending: bool
    var deadline: Time
    /** The address of the callback function, 0 for none. */
    const callback: int
    /** The address the timer is told apart by. */
    const ptr: int

    constructor (deadline: Time, callback: int, ptr: int)
      ensures !pending && this.deadline == deadline && this.callback == callback && this.ptr == ptr
    {
      pending := false;
      this.deadline := deadline;
      this.callback := callback;
      this.ptr := ptr;
    }
  }

  /** What a callback may do to the queue; the clock readings are inputs. */
  datatype Action =
    | Schedule(timer: Timer, deadline: Time, now: Time)
    | Set(timer: Timer, msecs: int, first: Time, second: Time)
    | Remove(timer: Timer)

  datatype Firing = Firing(timer: Timer, deadline: Time)

  /** The timers that are queued, in order, and the deadlines of all timers there are. */
  datatype Queue = Queue(timers: seq<Timer>, at: map<Timer, Time>)

  /** Of a timer there is not, any time. */
  ghost function DeadlineOf(at: map<Timer, Time>, t: Timer): Time {
    if t in at then at[t] else var d: Time :| true; d
  }

  /** How many timers at the front are not later than `deadline`. */
  ghost function Earlier(ts: seq<Timer>, at: map<Timer, Time>, deadline: Time): (k: nat)
    ensures k <= |ts|
  {
    if ts == [] || Diff(DeadlineOf(at, ts[0]), deadline) > 0 then 0 else 1 + Earlier(ts[1..], at, deadline)
  }

  /** What co_loop_add_timer asks of a timer with that deadline. */
  ghost predicate Accepted(q: Queue, t: Timer, deadline: Time, now: Time) {
    t.callback != 0 && Diff(deadline, now) > -1000 && forall u :: u in q.timers ==> u.ptr != t.ptr
  }

  ghost function Added(q: Queue, t: Timer, now: Time): Queue {
    var deadline := DeadlineOf(q.at, t);
    if Accepted(q, t, deadline, now) then Queue(InsertAt(q.timers, Earlier(q.timers, q.at, deadline), t), q.at) else q
  }

  /** A timer that is not queued may get a new deadline before it is added. */
  ghost function Effect(q: Queue, a: Action): Queue {
    match a
    case Schedule(t, deadline, now) =>
      if t in q.timers then q else Added(Queue(q.timers, q.at[t := deadline]), t, now)
    case Set(t, msecs, first, second) =>
      Added(Queue(Without(q.timers, t), q.at[t := After(first, msecs)]), t, second)
    case Remove(t) => Queue(Without(q.timers, t), q.at)
  }

  /** All actions of a callback, one after the other. */
  ghost function Effects(q: Queue, actions: seq<Action>): Queue
    decreases |actions|
  {
    if actions == [] then q else Effect(Effects(q, actions[..|actions| - 1]), actions[|actions| - 1])
  }

  /** The actions of the n-th firing of a pass. */
  function Entry(script: seq<seq<Action>>, n: nat): seq<Action> {
    if n < |script| then script[n] else []
  }

  /** The first timer leaves the queue, and its callback runs. */
  ghost function Turn(q: Queue, actions: seq<Action>): (r: Queue)
    requires q.timers != []
    ensures actions == [] ==> r == Queue(q.timers[1..], q.at)
  {
    Effects(Queue(q.timers[1..], q.at), actions)
  }

  ghost predicate IsDue(q: Queue, now: Time) {
    q.timers != [] && Diff(DeadlineOf(q.at, q.timers[0]), now) <= 0
  }

  datatype Passed = Passed(queue: Queue, done: seq<Firing>)

  /** A pass from its n-th firing on: as long as the first timer is due, a turn. */
  ghost function Pass(q: Queue, now: Time, script: seq<seq<Action>>, n: nat): Passed
    decreases if n < |script| then |script| - n else 0, |q.timers|
  {
    if !IsDue(q, now) then Passed(q, [])
    else
      var f := Firing(q.timers[0], DeadlineOf(q.at, q.timers[0]));
      var rest := Pass(Turn(q, Entry(script, n)), now, script, n + 1);
      Passed(rest.queue, [f] + rest.done)
  }

  // ---------------------------------------------------------------- laws

  /** Where a timer is after an action, and with which deadline; no other timer is touched. */
  lemma EffectIs(q: Queue, a: Action)
    requires Different(q.timers)
    ensures var t, r := a.timer, Effect(q, a);
      && (forall u :: u in q.at && u != t ==> u in r.at && r.at[u] == q.at[u])
      && (forall u :: u != t ==> (u in r.timers <==> u in q.timers))
      && (a.Remove? ==> t !in r.timers && r.at == q.at)
      && (a.Set? ==> t in r.at && r.at[t] == After(a.first, a.msecs)
                     && (t in r.timers <==> t.callback != 0 && Diff(After(a.first, a.msecs), a.second) > -1000
                                            && forall u :: u in q.timers && u != t ==> u.ptr != t.ptr))
      && (a.Schedule? && t in q.timers ==> r == q)
      && (a.Schedule? && t !in q.timers ==>
            t in r.at && r.at[t] == a.deadline
            && (t in r.timers <==> t.callback != 0 && Diff(a.deadline, a.now) > -1000
                                   && forall u :: u in q.timers ==> u.ptr != t.ptr))
  {
    WithoutContents(q.timers, a.timer);
    match a
    case Schedule(t, deadline, now) =>
      if t !in q.timers { AddedContents(Queue(q.timers, q.at[t := deadline]), t, now); }
    case Set(t, msecs, first, second) =>
      AddedContents(Queue(Without(q.timers, t), q.at[t := After(first, msecs)]), t, second);
    case Remove(_) =>
  }

  lemma AddedContents(q: Queue, t: Timer, now: Time)
    requires t !in q.timers
    ensures t in Added(q, t, now).timers <==> Accepted(q, t, DeadlineOf(q.at, t), now)
    ensures forall u :: u != t ==> (u in Added(q, t, now).timers <==> u in q.timers)
    ensures Added(q, t, now).at == q.at
  {
    if Accepted(q, t, DeadlineOf(q.at, t), now) {
      InsertedContents(q.timers, Earlier(q.timers, q.at, DeadlineOf(q.at, t)), t);
    }
  }

  /** The place of a new timer is before the first one that is later, which is how the code searches for it. */
  lemma {:induction false} EarlierIsFirstLater(ts: seq<Timer>, at: map<Timer, Time>, deadline: Time)
    ensures var k := Earlier(ts, at, deadline);
      && (forall i :: 0 <= i < k ==> Diff(DeadlineOf(at, ts[i]), deadline) <= 0)
      && (k < |ts| ==> Diff(DeadlineOf(at, ts[k]), deadline) > 0)
    decreases |ts|
  {
    if ts != [] && Diff(DeadlineOf(at, ts[0]), deadline) <= 0 { EarlierIsFirstLater(ts[1..], at, deadline); }
  }

  lemma {:induction false} EarlierSame(ts: seq<Timer>, at: map<Timer, Time>, at': map<Timer, Time>, deadline: Time)
    requires forall t :: t in ts ==> DeadlineOf(at, t) == DeadlineOf(at', t)
    ensures Earlier(ts, at, deadline) == Earlier(ts, at', deadline)
    decreases |ts|
  {
    if ts != [] {
      assert ts[0] in ts;
      EarlierSame(ts[1..], at, at', deadline);
    }
  }

  /** A timer that is not before any other goes to the end. */
  lemma AddedLast(q: Queue, t: Timer, now: Time)
    requires Accepted(q, t, DeadlineOf(q.at, t), now)
    requires forall u :: u in q.timers ==> Diff(DeadlineOf(q.at, u), DeadlineOf(q.at, t)) <= 0
    ensures Added(q, t, now) == Queue(q.timers + [t], q.at)
  {
    EarlierIsAll(q.timers, q.at, DeadlineOf(q.at, t));
  }

  lemma {:induction false} EarlierIsAll(ts: seq<Timer>, at: map<Timer, Time>, deadline: Time)
    requires forall u :: u in ts ==> Diff(DeadlineOf(at, u), deadline) <= 0
    ensures Earlier(ts, at, deadline) == |ts|
    decreases |ts|
  {
    if ts != [] {
      assert ts[0] in ts;
      EarlierIsAll(ts[1..], at, deadline);
    }
  }

  /** A timer that its callback sets again is queued at the end of the pass, if that was the last it did. */
  lemma LastSetIsQueued(q: Queue, now: Time, script: seq<seq<Action>>, p: Passed, a: Action)
    requires Different(q.timers) && p == Pass(q, now, script, 0) && 0 < |p.done| <= |script|
    requires var actions := script[|p.done| - 1]; actions != [] && a == actions[|actions| - 1] && a.Set?
    ensures var t, deadline := a.timer, After(a.first, a.msecs);
      && t in p.queue.at && p.queue.at[t] == deadline
      && (t in p.queue.timers <==> t.callback != 0 && Diff(deadline, a.second) > -1000
                                   && forall u :: u in p.queue.timers && u != t ==> u.ptr != t.ptr)
  {
    var last := LastTurn(q, now, script, 0, p);
    var before := LastEffect(Queue(last.timers[1..], last.at), script[|p.done| - 1]);
    EffectIs(before, a);
  }

  lemma LastEffect(q: Queue, actions: seq<Action>) returns (before: Queue)
    requires Different(q.timers) && actions != []
    ensures Different(before.timers) && Effects(q, actions) == Effect(before, actions[|actions| - 1])
  {
    before := Effects(q, actions[..|actions| - 1]);
    EffectsAreDifferent(q, actions[..|actions| - 1]);
  }

  /** The queue before the last turn of a pass that has one. */
  lemma {:induction false} LastTurn(q: Queue, now: Time, script: seq<seq<Action>>, n: nat, p: Passed)
      returns (last: Queue)
    requires Different(q.timers) && p == Pass(q, now, script, n) && p.done != []
    ensures last.timers != [] && Different(last.timers[1..])
    ensures p.queue == Turn(last, Entry(script, n + |p.done| - 1))
    decreases if n < |script| then |script| - n else 0, |q.timers|
  {
    var next := Turn(q, Entry(script, n));
    EffectsAreDifferent(Queue(q.timers[1..], q.at), Entry(script, n));
    var rest := Pass(next, now, script, n + 1);
    if rest.done == [] {
      last := q;
    } else {
      last := LastTurn(next, now, script, n + 1, rest);
    }
  }

  lemma {:induction false} EffectsAreDifferent(q: Queue, actions: seq<Action>)
    requires Different(q.timers)
    ensures Different(Effects(q, actions).timers)
    decreases |actions|
  {
    if actions != [] {
      EffectsAreDifferent(q, actions[..|actions| - 1]);
      EffectIsDifferent(Effects(q, actions[..|actions| - 1]), actions[|actions| - 1]);
    }
  }

  lemma EffectIsDifferent(q: Queue, a: Action)
    requires Different(q.timers)
    ensures Different(Effect(q, a).timers)
  {
    WithoutContents(q.timers, a.timer);
    match a
    case Schedule(t, deadline, now) =>
      if t !in q.timers { AddedIsDifferent(Queue(q.timers, q.at[t := deadline]), t, now); }
    case Set(t, msecs, first, second) =>
      AddedIsDifferent(Queue(Without(q.timers, t), q.at[t := After(first, msecs)]), t, second);
    case Remove(_) =>
  }

  lemma AddedIsDifferent(q: Queue, t: Timer, now: Time)
    requires Different(q.timers)
    ensures Different(Added(q, t, now).timers)
  {
    if Accepted(q, t, DeadlineOf(q.at, t), now) {
      InsertedIsDifferent(q.timers, Earlier(q.timers, q.at, DeadlineOf(q.at, t)), t);
    }
  }

  lemma OneEffect(q: Queue, a: Action)
    ensures Effects(q, [a]) == Effect(q, a)
  {
    assert [a][..0] == [];
    assert Effects(q, []) == q;
  }

  /** A pass of one turn, whose callback does one thing. */
  lemma OneTurn(q: Queue, now: Time, a: Action, r: Queue)
    requires IsDue(q, now) && r == Effect(Queue(q.timers[1..], q.at), a) && !IsDue(r, now)
    ensures Pass(q, now, [[a]], 0) == Passed(r, [Firing(q.timers[0], DeadlineOf(q.at, q.timers[0]))])
  {
    OneEffect(Queue(q.timers[1..], q.at), a);
    assert Pass(r, now, [[a]], 1) == Passed(r, []);
  }

  /** A periodic timer, alone in the queue, is there again after the pass it was due in. */
  lemma PeriodicTimerStays(t: Timer, deadline: Time, msecs: int, now: Time)
    requires t.callback != 0 && ClockTime(now) && Diff(deadline, now) <= 0 && msecs > 0
    ensures Pass(Queue([t], map[t := deadline]), now, [[Set(t, msecs, now, now)]], 0)
         == Passed(Queue([t], map[t := After(now, msecs)]), [Firing(t, deadline)])
  {
    var later := Queue([], map[t := After(now, msecs)]);
    assert [t][1..] == [] && map[t := deadline][t := After(now, msecs)] == later.at;
    AddedLast(later, t, now);
    assert [] + [t] == [t];
    OneTurn(Queue([t], map[t := deadline]), now, Set(t, msecs, now, now), Queue([t], later.at));
  }

  /**
    A pass that leaves an overdue timer. It began at `now`; its only callback took until the next second and
    then set `late` a millisecond back, which puts it behind a timer that is not due.
   */
  lemma PassLeavesOverdue(first: Timer, other: Timer, late: Timer, at: map<Timer, Time>, s: int, now: Time)
    requires first in at && other in at && at[first] == Time(s, 0) && at[other] == Time(s + 1, 0)
    requires late.callback != 0 && late.ptr != other.ptr && now == Time(s, 999999)
    ensures var reading := Time(s + 1, 999);
            var p := Pass(Queue([first, other], at), now, [[Set(late, -1, reading, reading)]], 0);
      && p.done == [Firing(first, at[first])] && p.queue.timers == [other, late]
      && late in p.queue.at && Micros(p.queue.at[late]) <= Micros(now) && Hidden(at[other], p.queue.at[late])
  {
    var reading, at' := Time(s + 1, 999), at[late := Time(s + 1, -1)];
    AddedLast(Queue([other], at'), late, reading);
    assert [first, other][1..] == [other] && [other] + [late] == [other, late];
    OneTurn(Queue([first, other], at), now, Set(late, -1, reading, reading), Queue([other, late], at'));
  }
}
