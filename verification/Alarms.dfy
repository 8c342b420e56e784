/** The alarm table of the serval-dna plugin beside the timer queue. */
module Alarms {
  import opened Deadlines
  import opened Timers
  import opened EventLoop
  import opened Sequences

  /** struct sched_ent: when to run, and by when at the latest, in milliseconds. */
  class Alarm {
    const address: int
    const hasFunction: bool
    var alarm: int
    var deadline: int

    constructor (address: int, hasFunction: bool, alarm: int, deadline: int)
      ensures this.address == address && this.hasFunction == hasFunction
      ensures this.alarm == alarm && this.deadline == deadline
    {
      this.address := address;
      this.hasFunction := hasFunction;
      this.alarm := alarm;
      this.deadline := deadline;
    }
  }

  const DAY := 86400000

  /** The address of serval_timer_cb. */
  const SERVAL_TIMER_CB := 1

  function FromMillis(ms: int): Time {
    Time(Quot(ms, 1000), Rem(ms, 1000) * 1000)
  }

  /** What co_timer_create makes of a deadline that is not in the future of the epoch. */
  function Created(d: Time): Time {
    if d.sec > 0 || d.usec > 0 then d else Time(0, 0)
  }

  /** The moment an alarm asks for, to the microsecond; none before the epoch. */
  predicate IsMoment(d: Time, ms: int) {
    if ms > 0 then Micros(d) == 1000 * ms && 0 <= d.usec < 1000000 else d == Time(0, 0)
  }

  /** It is the deadline that the code computes, and there is no other. */
  lemma MomentIsExact(ms: int)
    ensures forall d :: IsMoment(d, ms) <==> d == Created(FromMillis(ms))
  {
    forall d | IsMoment(d, ms) ensures d == Created(FromMillis(ms)) {
      assert ms > 0 ==> d.sec == ms / 1000;
    }
  }

  /** At most a second late by either clock, and within a day. */
  predicate Timely(alarm: int, deadline: Time, now: int, clock: Time) {
    now - alarm <= 1000 && alarm - now < 86400000 && Diff(deadline, clock) > -1000
  }

  class Plugin {
    const loop: Loop
    /** The time that stands for never; the header that defines it is not part of this model. */
    const never: int
    var timerAlarms: seq<int>

    ghost predicate Valid()
      reads this, loop, loop.known
    {
      && loop.Valid()
      && (Different(timerAlarms))
      && (forall a :: a in timerAlarms <==> a in Pointers())
    }

    /** The addresses the plugin's pending timers carry. */
    ghost function Pointers(): set<int>
      reads this, loop
    {
      set t | t in loop.timers && t.callback == SERVAL_TIMER_CB :: t.ptr
    }

    /** The table, the queue and all deadlines. */
    ghost function Now(): Status
      reads this`timerAlarms, loop`timers, loop`known, loop.known`deadline
    {
      Status(timerAlarms, loop.Snapshot())
    }

    constructor (loop: Loop, never: int)
      requires loop.Valid() && forall t :: t in loop.timers ==> t.callback != SERVAL_TIMER_CB
      ensures Valid() && this.loop == loop && this.never == never && timerAlarms == []
    {
      this.loop := loop;
      this.never := never;
      timerAlarms := [];
    }

    method Find(address: int) returns (k: nat)
      ensures k <= |timerAlarms| && (k < |timerAlarms| <==> address in timerAlarms)
      ensures k < |timerAlarms| ==> timerAlarms[k] == address
      ensures Now() == old(Now()) && (old(Valid()) ==> Valid())
    {
      k := 0;
      while k < |timerAlarms| && timerAlarms[k] != address
        invariant k <= |timerAlarms| && address !in timerAlarms[..k]
      {
        k := k + 1;
      }
    }

    /** _schedule; `now` and `clock` are the readings of gettime_ms and of the loop's clock. */
    method Schedule(alarm: Alarm, now: int, clock: Time) returns (r: int)
      requires Valid()
      modifies this`timerAlarms, alarm`deadline, loop`timers, loop`added, loop`known
      ensures Valid() && loop.known >= old(loop.known) && fresh(loop.known - old(loop.known))
      ensures Stepped(old(Now()), Add(alarm, now, clock), alarm.alarm, Now(), never)
      ensures alarm.deadline ==
        if alarm.hasFunction && alarm.address !in old(timerAlarms) && alarm.alarm != never
           && old(alarm.deadline) < alarm.alarm
        then alarm.alarm else old(alarm.deadline)
      ensures r == 0 || r == -1
      ensures r == 0 <==> IsTaken(old(Now()), alarm, alarm.alarm, now, clock, never)
                          || (alarm.hasFunction && alarm.address !in old(timerAlarms) && alarm.alarm == never)
    {
      ghost var s, ms := Now(), alarm.alarm;
      var k := Find(alarm.address);
      if !alarm.hasFunction || k < |timerAlarms| {
        NeverTaken(s, alarm, ms, now, clock, never);
        return -1;
      }
      r := ScheduleNew(alarm, now, clock);
    }

    /** The rest of _schedule, for an alarm that has a function and is not in the table. */
    method ScheduleNew(alarm: Alarm, now: int, clock: Time) returns (r: int)
      requires Valid() && alarm.hasFunction && alarm.address !in timerAlarms
      modifies this`timerAlarms, alarm`deadline, loop`timers, loop`added, loop`known
      ensures Valid() && loop.known >= old(loop.known) && fresh(loop.known - old(loop.known))
      ensures Stepped(old(Now()), Add(alarm, now, clock), alarm.alarm, Now(), never)
      ensures alarm.deadline == if alarm.alarm != never && old(alarm.deadline) < alarm.alarm then alarm.alarm
                                else old(alarm.deadline)
      ensures r == 0 || r == -1
      ensures r == 0 <==> IsTaken(old(Now()), alarm, alarm.alarm, now, clock, never) || alarm.alarm == never
    {
      if alarm.alarm == never {
        NeverTaken(Now(), alarm, alarm.alarm, now, clock, never);
        return 0;
      }
      Postpone(alarm);
      MomentIsExact(alarm.alarm);
      r := ScheduleTimely(alarm, Created(FromMillis(alarm.alarm)), now, clock);
    }

    /** And for one that asks for a time. */
    method ScheduleTimely(alarm: Alarm, deadline: Time, now: int, clock: Time) returns (r: int)
      requires IsMoment(deadline, alarm.alarm) && forall d :: IsMoment(d, alarm.alarm) ==> d == deadline
      requires Valid() && alarm.hasFunction && alarm.address !in timerAlarms && alarm.alarm != never
      modifies this`timerAlarms, loop`timers, loop`added, loop`known
      ensures Valid() && loop.known >= old(loop.known) && fresh(loop.known - old(loop.known))
      ensures Stepped(old(Now()), Add(alarm, now, clock), alarm.alarm, Now(), never)
      ensures r == 0 || r == -1
      ensures r == 0 <==> IsTaken(old(Now()), alarm, alarm.alarm, now, clock, never)
    {
      ghost var s, ms := Now(), alarm.alarm;
      if !(now - alarm.alarm <= 1000) || !(alarm.alarm - now < DAY) {
        NoStep(s, alarm, ms, deadline, now, clock, s, never);
        return -1;
      }
      var ok;
      ghost var t;
      ok, t := StartAlarm(deadline, alarm.address, clock);
      if !ok {
        NoStep(s, alarm, ms, deadline, now, clock, Now(), never);
        return -1;
      }
      TakenStep(s, alarm, ms, deadline, now, clock, t, Now(), never);
      r := 0;
    }

    /** The latest time to run is not before the time to run. */
    method Postpone(alarm: Alarm)
      requires Valid()
      modifies alarm`deadline
      ensures Valid() && Now() == old(Now())
      ensures alarm.deadline == if old(alarm.deadline) < alarm.alarm then alarm.alarm else old(alarm.deadline)
    {
      if alarm.deadline < alarm.alarm {
        alarm.deadline := alarm.alarm;
      }
    }

    /** Its timer, and its place in the table. */
    method StartAlarm(deadline: Time, address: int, clock: Time) returns (ok: bool, ghost t: Timer)
      requires Valid() && address !in timerAlarms
      modifies this`timerAlarms, loop`timers, loop`added, loop`known
      ensures Valid() && loop.known >= old(loop.known) && fresh(loop.known - old(loop.known))
      ensures ok <==> Diff(deadline, clock) > -1000 && forall t :: t in old(loop.timers) ==> t.ptr != address
      ensures ok ==> timerAlarms == old(timerAlarms) + [address]
                     && NewIn(old(loop.Snapshot()), t, deadline, address, loop.Snapshot())
      ensures !ok ==> timerAlarms == old(timerAlarms) && loop.timers == old(loop.timers)
      ensures Extends(old(loop.Snapshot()).at, loop.Snapshot().at)
    {
      ghost var q := loop.Snapshot();
      ok, t := StartTimer(deadline, address, clock);
      if ok {
        JoinedPointers(q, t, deadline, address, loop.Snapshot());
        Remember(address);
      }
    }

    method Remember(address: int)
      requires loop.Valid() && Different(timerAlarms) && address !in timerAlarms
      requires forall a :: a in Pointers() <==> a in timerAlarms || a == address
      modifies this`timerAlarms
      ensures Valid() && timerAlarms == old(timerAlarms) + [address]
    {
      timerAlarms := timerAlarms + [address];
    }

    method StartTimer(deadline: Time, address: int, clock: Time) returns (ok: bool, ghost t: Timer)
      requires loop.Valid()
      modifies loop`timers, loop`added, loop`known
      ensures loop.Valid() && loop.known >= old(loop.known) && fresh(loop.known - old(loop.known))
      ensures ok <==> Diff(deadline, clock) > -1000 && forall t :: t in old(loop.timers) ==> t.ptr != address
      ensures ok ==> NewIn(old(loop.Snapshot()), t, deadline, address, loop.Snapshot())
      ensures !ok ==> loop.timers == old(loop.timers)
      ensures Extends(old(loop.Snapshot()).at, loop.Snapshot().at)
    {
      ghost var q := loop.Snapshot();
      var timer := loop.NewTimer(deadline, SERVAL_TIMER_CB, address);
      t := timer;
      ghost var more := loop.Snapshot();
      ok := loop.AddTimer(timer, clock);
      if ok {
        EarlierSame(q.timers, q.at, more.at, deadline);
      }
    }

    method Forget(k: nat)
      requires k < |timerAlarms| && Different(timerAlarms)
      modifies this`timerAlarms
      ensures timerAlarms == RemoveAt(old(timerAlarms), k)
      ensures Different(timerAlarms)
      ensures forall a :: a in timerAlarms <==> a in old(timerAlarms) && a != old(timerAlarms[k])
      ensures timerAlarms == Without(old(timerAlarms), old(timerAlarms[k]))
    {
      timerAlarms := RemoveAt(timerAlarms, k);
    }

    /** _unschedule */
    method Unschedule(alarm: Alarm) returns (r: int)
      requires Valid()
      modifies this`timerAlarms, loop`timers, loop`removed, loop.known
      ensures Valid()
      ensures r == if alarm.address in old(timerAlarms) then 0 else -1
      ensures forall a :: a in timerAlarms <==> a in old(timerAlarms) && a != alarm.address
      ensures forall t :: t in loop.timers <==> t in old(loop.timers) && (r == 0 ==> t.ptr != alarm.address)
      ensures Stepped(old(Now()), Cancel(alarm), 0, Now(), never)
    {
      var k := Find(alarm.address);
      if k == |timerAlarms| {
        return -1;
      }
      WithoutPtrContents(loop.timers, alarm.address);
      r := Drop(k, alarm.address);
    }

    method Drop(k: nat, address: int) returns (r: int)
      requires Valid() && k < |timerAlarms| && timerAlarms[k] == address
      modifies this`timerAlarms, loop`timers, loop`removed, loop.known
      ensures Valid() && r == 0 && timerAlarms == Without(old(timerAlarms), address)
      ensures forall a :: a in timerAlarms <==> a in old(timerAlarms) && a != address
      ensures loop.Snapshot() == Queue(WithoutPtr(old(loop.timers), address), old(loop.Snapshot()).at)
    {
      WithoutPtrContents(loop.timers, address);
      PointersWithout(loop.timers, WithoutPtr(loop.timers, address), address);
      Forget(k);
      r := StopTimer(address);
    }

    /** Its timer, which is pending while the alarm is in the table. */
    method StopTimer(address: int) returns (r: int)
      requires loop.Valid()
      modifies loop`timers, loop`removed, loop.known
      ensures loop.Valid() && (r == 0 || r == -1)
      ensures r != 0 ==> forall t :: t in old(loop.timers) ==> t.ptr != address
      ensures loop.Snapshot() == Queue(WithoutPtr(old(loop.timers), address), old(loop.Snapshot()).at)
    {
      var j := loop.FindPtr(address);
      if j == |loop.timers| {
        NoPtr(loop.timers, address);
        return -1;
      }
      PtrIsTimer(loop.timers, j);
      var ok := loop.RemoveTimer(loop.timers[j]);
      r := if ok then 0 else -1;
    }

    /** serval_timer_cb up to the call of the alarm's function, for a timer that has just left the queue. */
    method TimerCallback(timer: Timer) returns (r: int)
      requires loop.Valid()
      requires Different(timerAlarms)
      requires forall a :: a in timerAlarms <==> a in Pointers() || a == timer.ptr
      requires timer.ptr !in Pointers()
      modifies this`timerAlarms
      ensures Valid() && r == 0
      ensures forall a :: a in timerAlarms <==> a in old(timerAlarms) && a != timer.ptr
      ensures timerAlarms == Without(old(timerAlarms), timer.ptr)
    {
      var k := Find(timer.ptr);
      if k == |timerAlarms| {
        return 1;
      }
      Forget(k);
      r := 0;
    }

    /** One turn of the dispatch pass: the first timer leaves the queue, and its callback runs if it is the plugin's. */
    method Dispatch() returns (timer: Timer)
      requires Valid() && |loop.timers| > 0
      modifies this`timerAlarms, loop`timers, loop`removed, loop`fired, loop.known
      ensures Valid() && timer == old(loop.timers[0])
      ensures forall t :: t in loop.timers <==> t in old(loop.timers) && t != timer
      ensures timer.callback == SERVAL_TIMER_CB ==>
        forall a :: a in timerAlarms <==> a in old(timerAlarms) && a != timer.ptr
      ensures timer.callback != SERVAL_TIMER_CB ==> timerAlarms == old(timerAlarms)
      ensures Stepped(old(Now()), Next, 0, Now(), never)
    {
      OthersDiffer(loop.timers, 0);
      timer := loop.TakeFirst();
      assert forall t :: t in loop.timers ==> t.ptr != timer.ptr;
      if timer.callback == SERVAL_TIMER_CB {
        var r := TimerCallback(timer);
      }
    }

    /** What other users of the loop do to their own timers. */
    method Elsewhere(timer: Timer, add: bool, now: Time)
      requires Valid() && timer in loop.known && timer.callback != SERVAL_TIMER_CB
      modifies loop`timers, loop`added, loop`removed, timer`pending
      ensures Valid() && Stepped(old(Now()), Other(timer, add, now), 0, Now(), never)
    {
      var ok;
      if add {
        ok := loop.AddTimer(timer, now);
      } else {
        ok := loop.RemoveTimer(timer);
      }
    }

    /** Any sequence of these steps, and the states between them. */
    method Run(moves: seq<Move>) returns (ghost trace: seq<Status>)
      requires Valid()
      requires forall m :: m in moves && m.Other? ==> m.timer in loop.known && m.timer.callback != SERVAL_TIMER_CB
      modifies this`timerAlarms, loop, loop.known, Alarms(moves)`deadline
      ensures Valid()
      ensures |trace| == |moves| + 1 && trace[0] == old(Now()) && trace[|moves|] == Now()
      ensures AllStepped(trace, moves, old(Times(moves)), never)
    {
      ghost var times := Times(moves);
      trace := [Now()];
      for i := 0 to |moves|
        invariant Valid() && loop.known >= old(loop.known) && fresh(loop.known - old(loop.known))
        invariant |trace| == i + 1 && trace[0] == old(Now()) && trace[i] == Now() && Times(moves) == times
        invariant AllStepped(trace, moves, times, never)
      {
        TimesAre(moves);
        Move(moves[i]);
        StepsMore(trace, moves, times, Now(), never);
        trace := trace + [Now()];
      }
    }

    method Move(m: Move)
      requires Valid() && (m.Other? ==> m.timer in loop.known && m.timer.callback != SERVAL_TIMER_CB)
      modifies this`timerAlarms, loop, loop.known, Alarms([m])`deadline
      ensures Valid() && loop.known >= old(loop.known) && fresh(loop.known - old(loop.known))
      ensures Stepped(old(Now()), m, old(MsOf(m)), Now(), never)
    {
      match m
      case Add(alarm, now, clock) => var r := Schedule(alarm, now, clock);
      case Cancel(alarm) => var r := Unschedule(alarm);
      case Next => if |loop.timers| > 0 { var t := Dispatch(); }
      case Other(timer, add, now) => Elsewhere(timer, add, now);
    }
  }

  datatype Status = Status(alarms: seq<int>, queue: Queue)

  ghost predicate Extends(at: map<Timer, Time>, at': map<Timer, Time>) {
    forall t :: t in at ==> t in at' && at'[t] == at[t]
  }

  /** A timer that was not there before is in the queue, at the place of its deadline. */
  ghost predicate NewIn(q: Queue, t: Timer, deadline: Time, address: int, q': Queue) {
    && t !in q.at && t.callback == SERVAL_TIMER_CB && t.ptr == address && t in q'.at && q'.at[t] == deadline
    && q'.timers == InsertAt(q.timers, Earlier(q.timers, q.at, deadline), t)
  }

  ghost function WithoutPtr(ts: seq<Timer>, ptr: int): seq<Timer> {
    if ts == [] then [] else (if ts[0].ptr == ptr then [] else [ts[0]]) + WithoutPtr(ts[1..], ptr)
  }

  /** An alarm is scheduled when it has a function, is not in the table, and asks for a timely moment. */
  ghost predicate Taken(s: Status, alarm: Alarm, ms: int, deadline: Time, now: int, clock: Time, never: int) {
    && alarm.hasFunction && alarm.address !in s.alarms && ms != never && Timely(ms, deadline, now, clock)
    && forall t :: t in s.queue.timers ==> t.ptr != alarm.address
  }

  ghost predicate IsTaken(s: Status, alarm: Alarm, ms: int, now: int, clock: Time, never: int) {
    exists deadline :: IsMoment(deadline, ms) && Taken(s, alarm, ms, deadline, now, clock, never)
  }

  /** The alarm is in the table, and a new timer in the queue, which goes off at its moment. */
  ghost predicate Joined(s: Status, alarm: Alarm, deadline: Time, t: Timer, s': Status) {
    s'.alarms == s.alarms + [alarm.address] && t in s'.queue.at && NewIn(s.queue, t, deadline, alarm.address, s'.queue)
  }

  /** The time that an alarm asks for. */
  ghost function MsOf(m: Move): int
    reads Alarms([m])`alarm
  {
    assert m in [m];
    if m.Add? then m.alarm.alarm else 0
  }

  /** What a step does to the table and to the queue. */
  ghost predicate Stepped(s: Status, m: Move, ms: int, s': Status, never: int) {
    match m
    case Add(alarm, now, clock) =>
      && Extends(s.queue.at, s'.queue.at)
      && if IsTaken(s, alarm, ms, now, clock, never)
         then exists deadline, t :: t in s'.queue.at && IsMoment(deadline, ms) && Joined(s, alarm, deadline, t, s')
         else s'.alarms == s.alarms && s'.queue.timers == s.queue.timers
    case Cancel(alarm) =>
      && s'.alarms == Without(s.alarms, alarm.address) && s'.queue.at == s.queue.at
      && s'.queue.timers ==
         if alarm.address in s.alarms then WithoutPtr(s.queue.timers, alarm.address) else s.queue.timers
    case Next =>
      if s.queue.timers == [] then s' == s
      else
        var first := s.queue.timers[0];
        s' == Status(if first.callback == SERVAL_TIMER_CB then Without(s.alarms, first.ptr) else s.alarms,
                     Queue(s.queue.timers[1..], s.queue.at))
    case Other(timer, add, now) =>
      s' == Status(s.alarms, if add then Added(s.queue, timer, now)
                             else Queue(Without(s.queue.timers, timer), s.queue.at))
  }

  ghost function Times(moves: seq<Move>): (times: seq<int>)
    reads Alarms(moves)`alarm
    ensures |times| == |moves|
  {
    if moves == [] then [] else
      assert moves[0] in moves && Alarms([moves[0]]) <= Alarms(moves) && Alarms(moves[1..]) <= Alarms(moves);
      [MsOf(moves[0])] + Times(moves[1..])
  }

  lemma {:induction false} TimesAre(moves: seq<Move>)
    ensures forall i :: 0 <= i < |moves| ==> Times(moves)[i] == MsOf(moves[i])
    decreases |moves|
  {
    if moves != [] { TimesAre(moves[1..]); }
  }

  /** Each state comes from the one before it by the step between them. */
  ghost predicate AllStepped(trace: seq<Status>, moves: seq<Move>, times: seq<int>, never: int) {
    |times| == |moves| && 0 < |trace| <= |moves| + 1
    && forall i :: 0 <= i < |trace| - 1 ==> Stepped(trace[i], moves[i], times[i], trace[i + 1], never)
  }

  lemma StepsMore(trace: seq<Status>, moves: seq<Move>, times: seq<int>, next: Status, never: int)
    requires AllStepped(trace, moves, times, never) && |trace| <= |moves|
    requires Stepped(trace[|trace| - 1], moves[|trace| - 1], times[|trace| - 1], next, never)
    ensures AllStepped(trace + [next], moves, times, never)
  {
    var more := trace + [next];
    forall i | 0 <= i < |more| - 1 ensures Stepped(more[i], moves[i], times[i], more[i + 1], never) {
      assert i < |trace| - 1 ==> Stepped(trace[i], moves[i], times[i], trace[i + 1], never);
    }
  }

  lemma TakenStep(s: Status, alarm: Alarm, ms: int, deadline: Time, now: int, clock: Time, t: Timer, s': Status,
                  never: int)
    requires IsMoment(deadline, ms) && Taken(s, alarm, ms, deadline, now, clock, never)
    requires Extends(s.queue.at, s'.queue.at) && Joined(s, alarm, deadline, t, s')
    ensures Stepped(s, Add(alarm, now, clock), ms, s', never) && IsTaken(s, alarm, ms, now, clock, never)
  {
  }

  lemma NeverTaken(s: Status, alarm: Alarm, ms: int, now: int, clock: Time, never: int)
    requires !alarm.hasFunction || alarm.address in s.alarms || ms == never
    ensures Stepped(s, Add(alarm, now, clock), ms, s, never) && !IsTaken(s, alarm, ms, now, clock, never)
  {
  }

  /** An alarm that is not taken leaves table and queue as they were. */
  lemma NoStep(s: Status, alarm: Alarm, ms: int, deadline: Time, now: int, clock: Time, s': Status, never: int)
    requires forall d :: IsMoment(d, ms) ==> d == deadline
    requires !Taken(s, alarm, ms, deadline, now, clock, never)
    requires Extends(s.queue.at, s'.queue.at) && s'.alarms == s.alarms && s'.queue.timers == s.queue.timers
    ensures Stepped(s, Add(alarm, now, clock), ms, s', never) && !IsTaken(s, alarm, ms, now, clock, never)
  {
  }

  /** The first timer with a pointer is the only one. */
  lemma PtrIsTimer(ts: seq<Timer>, k: nat)
    requires k < |ts| && Distinct(ts)
    ensures WithoutPtr(ts, ts[k].ptr) == Without(ts, ts[k]) == RemoveAt(ts, k)
  {
    TakenOut(ts, k);
    forall i | 0 <= i < |ts| && i != k ensures ts[i].ptr != ts[k].ptr {
      assert i < k ==> TellApart(ts, i, k);
      assert k < i ==> TellApart(ts, k, i);
    }
    OnePtr(ts, k);
  }

  lemma {:induction false} OnePtr(ts: seq<Timer>, k: nat)
    requires k < |ts| && forall i :: 0 <= i < |ts| && i != k ==> ts[i].ptr != ts[k].ptr
    ensures WithoutPtr(ts, ts[k].ptr) == RemoveAt(ts, k)
    decreases |ts|
  {
    if k == 0 {
      NoPtr(ts[1..], ts[0].ptr);
    } else {
      OnePtr(ts[1..], k - 1);
      assert RemoveAt(ts, k) == [ts[0]] + RemoveAt(ts[1..], k - 1);
    }
  }

  lemma {:induction false} NoPtr(ts: seq<Timer>, ptr: int)
    requires forall i :: 0 <= i < |ts| ==> ts[i].ptr != ptr
    ensures WithoutPtr(ts, ptr) == ts
    decreases |ts|
  {
    if ts != [] { NoPtr(ts[1..], ptr); }
  }

  lemma {:induction false} WithoutPtrContents(ts: seq<Timer>, ptr: int)
    ensures forall t :: t in WithoutPtr(ts, ptr) <==> t in ts && t.ptr != ptr
    decreases |ts|
  {
    if ts != [] {
      WithoutPtrContents(ts[1..], ptr);
      assert ts == [ts[0]] + ts[1..];
    }
  }

  lemma PointersWithout(ts: seq<Timer>, less: seq<Timer>, ptr: int)
    requires forall t :: t in less <==> t in ts && t.ptr != ptr
    ensures (set u | u in less && u.callback == SERVAL_TIMER_CB :: u.ptr)
         == (set u | u in ts && u.callback == SERVAL_TIMER_CB :: u.ptr) - {ptr}
  {
  }

  /** The pointers of the plugin's timers, and one more. */
  lemma JoinedPointers(q: Queue, t: Timer, deadline: Time, address: int, q': Queue)
    requires NewIn(q, t, deadline, address, q')
    ensures (set u | u in q'.timers && u.callback == SERVAL_TIMER_CB :: u.ptr)
         == (set u | u in q.timers && u.callback == SERVAL_TIMER_CB :: u.ptr) + {address}
  {
    InsertedContents(q.timers, Earlier(q.timers, q.at, deadline), t);
    assert t in q'.timers;
  }

  datatype Move =
    | Add(alarm: Alarm, now: int, clock: Time)
    | Cancel(alarm: Alarm)
    | Next
    | Other(timer: Timer, add: bool, reading: Time)

  function Alarms(moves: seq<Move>): set<Alarm> {
    set m | m in moves && m.Add? :: m.alarm
  }
}
