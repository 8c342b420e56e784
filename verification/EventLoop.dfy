/** The timer queue of src/loop.c. */
module EventLoop {
  import opened Deadlines
  import opened Sequences
  import opened Timers

  ghost predicate Sorted(ts: seq<Timer>)
    reads ts`deadline
  {
    forall i, j :: 0 <= i < j < |ts| ==> InOrder(ts, i, j)
  }

  ghost predicate InOrder(ts: seq<Timer>, i: int, j: int)
    requires 0 <= i < j < |ts|
    reads ts`deadline
  {
    Diff(ts[i].deadline, ts[j].deadline) <= 0
  }

  ghost predicate Distinct(ts: seq<Timer>) {
    forall i, j :: 0 <= i < j < |ts| ==> TellApart(ts, i, j)
  }

  ghost predicate TellApart(ts: seq<Timer>, i: int, j: int)
    requires 0 <= i < j < |ts|
  {
    ts[i].ptr != ts[j].ptr
  }

  /** Position `k` is the first whose deadline is later than `deadline`, or the end. */
  ghost predicate FirstLater(ts: seq<Timer>, k: nat, deadline: Time)
    reads ts
  {
    && k <= |ts| && (forall i :: 0 <= i < k ==> Diff(ts[i].deadline, deadline) <= 0)
    && (k < |ts| ==> Diff(ts[k].deadline, deadline) > 0)
  }

  class Loop {
    var timers: seq<Timer>
    /** All timers that exist. */
    ghost var known: set<Timer>
    /** How often each timer was queued, taken out again, and fired. */
    ghost var added: multiset<Timer>
    ghost var removed: multiset<Timer>
    ghost var fired: multiset<Timer>
    /** The latest clock reading that a delay was counted from, in microseconds. */
    ghost var latest: int

    ghost predicate Valid()
      reads this, known
    {
      && (forall t :: t in timers ==> t in known)
      && (forall t :: t in known ==> (t.pending <==> t in timers))
      && Sorted(timers) && Distinct(timers)
      && added == removed + fired + multiset(timers)
    }

    /** The queue and all deadlines. */
    ghost function Snapshot(): Queue
      reads this`timers, this`known, known`deadline
    {
      Queue(timers, map t | t in known :: t.deadline)
    }

    constructor ()
      ensures Valid() && timers == [] && known == {}
    {
      timers, known, added, removed, fired, latest := [], {}, multiset{}, multiset{}, multiset{}, 0;
    }

    /** A timer that was just made. */
    ghost method Register(timer: Timer)
      requires Valid() && !timer.pending && timer !in known
      modifies this`known
      ensures Valid() && known == old(known) + {timer}
      ensures Snapshot() == Queue(old(timers), old(Snapshot()).at[timer := timer.deadline])
    {
      known := known + {timer};
    }

    method NewTimer(deadline: Time, callback: int, ptr: int) returns (timer: Timer)
      requires Valid()
      modifies this`known
      ensures Valid() && known == old(known) + {timer} && fresh(timer)
      ensures !timer.pending && timer.deadline == deadline && timer.callback == callback && timer.ptr == ptr
      ensures Snapshot() == Queue(old(timers), old(Snapshot()).at[timer := deadline])
    {
      timer := new Timer(deadline, callback, ptr);
      Register(timer);
    }

    /** The first position whose deadline is later, which co_list_parse stops at. */
    method FindLater(deadline: Time) returns (k: nat)
      ensures FirstLater(timers, k, deadline)
    {
      k := 0;
      while k < |timers| && Diff(timers[k].deadline, deadline) <= 0
        invariant k <= |timers|
        invariant forall i :: 0 <= i < k ==> Diff(timers[i].deadline, deadline) <= 0
      {
        k := k + 1;
      }
    }

    method FindPtr(ptr: int) returns (k: nat)
      ensures k <= |timers|
      ensures forall i :: 0 <= i < k ==> timers[i].ptr != ptr
      ensures k < |timers| ==> timers[k].ptr == ptr
      ensures Snapshot() == old(Snapshot()) && (old(Valid()) ==> Valid())
    {
      k := 0;
      while k < |timers| && timers[k].ptr != ptr
        invariant k <= |timers|
        invariant forall i :: 0 <= i < k ==> timers[i].ptr != ptr
      {
        k := k + 1;
      }
    }

    /** co_loop_add_timer */
    method AddTimer(timer: Timer, now: Time) returns (ok: bool)
      requires Valid() && timer in known
      modifies this`timers, this`added, timer`pending
      ensures Valid()
      ensures ok <==> !old(timer.pending) && timer.callback != 0 && Diff(timer.deadline, now) > -1000
                      && forall t :: t in old(timers) ==> t.ptr != timer.ptr
      ensures ok ==> forall t :: t in timers <==> t in old(timers) || t == timer
      ensures ok ==> timer.pending && added == old(added) + multiset{timer}
      ensures !ok ==> timers == old(timers) && added == old(added) && timer.pending == old(timer.pending)
      ensures Snapshot() == Added(old(Snapshot()), timer, now)
    {
      if timer.pending {
        return false;
      }
      if timer.callback == 0 || !(Diff(timer.deadline, now) > -1000) {
        return false;
      }
      var same := FindPtr(timer.ptr);
      if same < |timers| {
        return false;
      }
      Place(timer);
      ok := true;
    }

    /** In chronological order. */
    method Place(timer: Timer)
      requires Valid() && timer in known && !timer.pending
      requires forall t :: t in timers ==> t.ptr != timer.ptr
      modifies this`timers, this`added, timer`pending
      ensures Valid() && timer.pending && added == old(added) + multiset{timer}
      ensures forall t :: t in timers <==> t in old(timers) || t == timer
      ensures var q := old(Snapshot());
        Snapshot() == Queue(InsertAt(q.timers, Earlier(q.timers, q.at, timer.deadline), timer), q.at)
    {
      var k := FindLater(timer.deadline);
      LaterIsBehindEarlier(timers, k, Snapshot().at, timer.deadline);
      Insert(timer, k);
    }

    method Insert(timer: Timer, k: nat)
      requires Valid() && timer in known && !timer.pending
      requires forall t :: t in timers ==> t.ptr != timer.ptr
      requires FirstLater(timers, k, timer.deadline)
      modifies this`timers, this`added, timer`pending
      ensures Valid() && timer.pending && timers == InsertAt(old(timers), k, timer)
      ensures forall t :: t in timers <==> t in old(timers) || t == timer
      ensures added == old(added) + multiset{timer}
    {
      InsertKeepsOrder(timers, k, timer);
      InsertedContents(timers, k, timer);
      timers := InsertAt(timers, k, timer);
      added := added + multiset{timer};
      timer.pending := true;
    }

    /** co_loop_remove_timer */
    method RemoveTimer(timer: Timer) returns (ok: bool)
      requires Valid() && timer in known
      modifies this`timers, this`removed, timer`pending
      ensures Valid() && !timer.pending
      ensures ok <==> old(timer.pending)
      ensures forall t :: t in timers <==> t in old(timers) && t != timer
      ensures removed == if ok then old(removed) + multiset{timer} else old(removed)
      ensures !ok ==> timers == old(timers)
      ensures Snapshot() == Queue(Without(old(timers), timer), old(Snapshot()).at)
    {
      if !timer.pending {
        return false;
      }
      var k := FindPtr(timer.ptr);
      if k == |timers| {
        return false;
      }
      OnlyOnePtr(timers, k, timer);
      TakenOut(timers, k);
      Extract(timer, k);
      ok := true;
    }

    method Extract(timer: Timer, k: nat)
      requires Valid() && timer in known && timer.pending && k < |timers| && timers[k] == timer
      modifies this`timers, this`removed, timer`pending
      ensures Valid() && !timer.pending && timers == RemoveAt(old(timers), k)
      ensures forall t :: t in timers <==> t in old(timers) && t != timer
      ensures removed == old(removed) + multiset{timer}
    {
      RemoveKeepsOrder(timers, k);
      RemovedTimer(timers, k);
      timers := RemoveAt(timers, k);
      removed := removed + multiset{timer};
      timer.pending := false;
    }

    method Restamp(timer: Timer, deadline: Time)
      requires Valid() && timer in known && !timer.pending
      modifies timer`deadline
      ensures Valid() && timer.deadline == deadline
      ensures Snapshot() == Queue(timers, old(Snapshot()).at[timer := deadline])
    {
      timer.deadline := deadline;
    }

    /** The first step of co_loop_set_timer. */
    method TakeOut(timer: Timer)
      requires Valid() && timer in known
      modifies this`timers, this`removed, timer`pending
      ensures Valid() && !timer.pending
      ensures forall t :: t in timers <==> t in old(timers) && t != timer
      ensures Snapshot() == Queue(Without(old(timers), timer), old(Snapshot()).at)
    {
      if timer.pending {
        var gone := RemoveTimer(timer);
      }
    }

    /** co_loop_set_timer, which reads the clock twice. When it succeeds is in Timers.EffectIs. */
    method SetTimer(timer: Timer, msecs: int, first: Time, second: Time) returns (ok: bool)
      requires Valid() && timer in known
      modifies this`timers, this`added, this`removed, this`latest, timer`pending, timer`deadline
      ensures Valid() && timer.deadline == After(first, msecs) && (ok <==> timer.pending)
      ensures latest == if Micros(first) > old(latest) then Micros(first) else old(latest)
      ensures forall t :: t != timer ==> (t in timers <==> t in old(timers))
      ensures Snapshot() == Effect(old(Snapshot()), Set(timer, msecs, first, second))
    {
      latest := if Micros(first) > latest then Micros(first) else latest;
      ok := Reset(timer, After(first, msecs), second);
    }

    method Reset(timer: Timer, deadline: Time, now: Time) returns (ok: bool)
      requires Valid() && timer in known
      modifies this`timers, this`added, this`removed, timer`pending, timer`deadline
      ensures Valid() && timer.deadline == deadline && (ok <==> timer.pending)
      ensures forall t :: t != timer ==> (t in timers <==> t in old(timers))
      ensures Snapshot() == Added(Queue(Without(old(timers), timer), old(Snapshot()).at[timer := deadline]), timer, now)
    {
      TakeOut(timer);
      ok := AddAt(timer, deadline, now);
    }

    /** A timer that is not queued gets a deadline and is added. */
    method AddAt(timer: Timer, deadline: Time, now: Time) returns (ok: bool)
      requires Valid() && timer in known && !timer.pending
      modifies this`timers, this`added, timer`pending, timer`deadline
      ensures Valid() && timer.deadline == deadline && (ok <==> timer.pending)
      ensures ok <==> timer.callback != 0 && Diff(deadline, now) > -1000
                      && forall t :: t in old(timers) ==> t.ptr != timer.ptr
      ensures forall t :: t != timer ==> (t in timers <==> t in old(timers))
      ensures Snapshot() == Added(Queue(old(timers), old(Snapshot()).at[timer := deadline]), timer, now)
    {
      Restamp(timer, deadline);
      ok := AddTimer(timer, now);
    }

    // ---------------------------------------------------------------- callbacks and the dispatch pass

    /**
      Only deadlines that can be set. Negative microseconds come from a negative delay, so they lie a
      millisecond or more before the clock reading it was counted from.
     */
    ghost predicate InRange()
      reads this, known
    {
      forall t :: t in known ==> Settable(t.deadline, latest)
    }

    ghost predicate Possible(a: Action)
      reads this`known
    {
      a.timer in known
      && (a.Schedule? ==> DeadlineTime(a.deadline))
      && (a.Set? ==> ClockTime(a.first))
    }

    ghost predicate AllPossible(actions: seq<Action>)
      reads this`known
    {
      forall i :: 0 <= i < |actions| ==> Possible(actions[i])
    }

    ghost predicate ScriptPossible(script: seq<seq<Action>>)
      reads this`known
    {
      forall n :: 0 <= n < |script| ==> AllPossible(script[n])
    }

    /** One action of a callback. A timer that is not queued may get a new deadline first. */
    method Act(a: Action)
      requires Valid() && InRange() && Possible(a)
      modifies this`timers, this`added, this`removed, this`latest, a.timer
      ensures Valid() && InRange()
      ensures forall t :: t != a.timer ==> (t in timers <==> t in old(timers))
      ensures a.timer in timers ==>
        (a.timer in old(timers) && a.timer.deadline == old(a.timer.deadline))
        || (!a.Remove? && a.timer.deadline == NewDeadline(a))
      ensures Snapshot() == Effect(old(Snapshot()), a)
    {
      match a
      case Schedule(timer, deadline, now) =>
        if timer.pending {
          var ok := AddTimer(timer, now);
        } else {
          var ok := AddAt(timer, deadline, now);
        }
      case Set(timer, msecs, first, second) =>
        AfterIsExact(first, msecs);
        var ok := SetTimer(timer, msecs, first, second);
      case Remove(timer) =>
        var ok := RemoveTimer(timer);
    }

    ghost function Due(now: Time): set<Timer>
      reads this, known
    {
      set t | t in known && t in timers && Diff(t.deadline, now) <= 0
    }

    /** All actions of one callback. */
    method Callback(actions: seq<Action>, now: Time)
      requires Valid() && InRange() && AllPossible(actions)
      modifies this`timers, this`added, this`removed, this`latest, known
      ensures Valid() && InRange()
      ensures |actions| == 0 ==> timers == old(timers)
      ensures AllLater(actions, now) ==> Due(now) <= old(Due(now))
      ensures Snapshot() == Effects(old(Snapshot()), actions)
    {
      ghost var start := Snapshot();
      for i := 0 to |actions|
        invariant Valid() && InRange() && (i == 0 ==> timers == old(timers))
        invariant AllLater(actions, now) ==> Due(now) <= old(Due(now))
        invariant Snapshot() == Effects(start, actions[..i])
      {
        Act(actions[i]);
        OneMoreEffect(start, actions, i);
      }
      assert actions[..|actions|] == actions;
    }

    /** The first timer leaves the queue to be fired. */
    method TakeFirst() returns (timer: Timer)
      requires Valid() && |timers| > 0
      modifies this`timers, this`removed, this`fired, timers`pending
      ensures Valid() && timer == old(timers[0]) && timers == old(timers[1..])
      ensures forall t :: t in timers <==> t in old(timers) && t != timer
      ensures fired == old(fired) + multiset{timer} && removed == old(removed)
      ensures Snapshot() == Queue(old(timers[1..]), old(Snapshot()).at)
    {
      timer := timers[0];
      FirstOut(timers);
      ghost var before := removed;
      var ok := RemoveTimer(timer);
      Reassign(added, removed, before, fired, multiset(timers), timer);
      removed := before;
      fired := fired + multiset{timer};
    }

    /** One turn of the pass, after the firings `done`: the first timer leaves the queue and its callback runs. */
    method Fire(now: Time, actions: seq<Action>, ghost start: Queue, ghost script: seq<seq<Action>>,
                ghost done: seq<Firing>) returns (f: Firing)
      requires Valid() && InRange() && ClockTime(now) && AllPossible(actions)
      requires |timers| > 0 && Diff(timers[0].deadline, now) <= 0
      requires ComesTo(start, now, script, done, Snapshot()) && actions == Entry(script, |done|)
      modifies this`timers, this`added, this`removed, this`fired, this`latest, known
      ensures Valid() && InRange()
      ensures f.timer == old(timers[0]) && Micros(f.deadline) < Micros(now) + 1000
      ensures fired == old(fired) + multiset{f.timer}
      ensures |actions| == 0 ==> |timers| < |old(timers)|
      ensures AllLater(actions, now) ==> |Due(now)| < |old(Due(now))|
      ensures f.deadline == old(timers[0].deadline) && Snapshot() == Turn(old(Snapshot()), actions)
      ensures ComesTo(start, now, script, done + [f], Snapshot())
    {
      ghost var q := Snapshot();
      NotEarly(timers[0].deadline, now);
      ghost var due := Due(now);
      var timer := TakeFirst();
      f := Firing(timer, timer.deadline);
      assert Due(now) <= due - {timer};
      Callback(actions, now);
      if AllLater(actions, now) { Fewer(Due(now), due, timer); }
      ComesToNext(start, now, script, done, q, f);
    }

    /**
      _co_loop_process_timers. The n-th callback of the pass does what the n-th entry of
      `script` says; nothing is assumed about it but that its clock readings are clock readings.
     */
    method ProcessTimers(now: Time, script: seq<seq<Action>>) returns (done: seq<Firing>)
      requires Valid() && InRange() && ClockTime(now)
      requires ScriptPossible(script)
      modifies this`timers, this`added, this`removed, this`fired, this`latest, known
      ensures Valid() && InRange()
      ensures forall t :: t in timers ==> Micros(t.deadline) > Micros(now) || Hidden(timers[0].deadline, t.deadline)
      ensures latest <= Micros(now) ==> forall t :: t in timers ==> Micros(t.deadline) > Micros(now)
      ensures InTime(done, now)
      ensures fired == old(fired) + multiset(Fired(done))
      ensures AllLaterIn(script, now) ==> |done| <= |old(Due(now))|
      ensures done == [] <==> old(timers) == [] || old(Diff(timers[0].deadline, now)) > 0
      ensures done == [] ==> timers == old(timers) && forall t :: t in known ==> t.deadline == old(t.deadline)
      ensures Passed(Snapshot(), done) == Pass(old(Snapshot()), now, script, 0)
    {
      done := [];
      if |timers| > 0 && Diff(timers[0].deadline, now) <= 0 {
        done := FireDue(now, script);
      }
      LeftOver(timers, latest, now);
    }

    /** Where the loop of the pass that began at `start` stands after these firings. */
    ghost predicate Going(done: seq<Firing>, now: Time, script: seq<seq<Action>>, start: Queue, due: nat,
                          before: multiset<Timer>)
      reads this, known
    {
      && Valid() && InRange() && InTime(done, now) && fired == before + multiset(Fired(done))
      && (AllLaterIn(script, now) ==> |done| + |Due(now)| <= due)
      && ComesTo(start, now, script, done, Snapshot())
    }

    /** Its loop, when there is something to fire. */
    method FireDue(now: Time, script: seq<seq<Action>>) returns (done: seq<Firing>)
      requires Valid() && InRange() && ClockTime(now) && |timers| > 0 && Diff(timers[0].deadline, now) <= 0
      requires ScriptPossible(script)
      modifies this`timers, this`added, this`removed, this`fired, this`latest, known
      ensures Valid() && InRange() && |done| > 0
      ensures |timers| > 0 ==> Diff(timers[0].deadline, now) > 0
      ensures InTime(done, now)
      ensures fired == old(fired) + multiset(Fired(done))
      ensures AllLaterIn(script, now) ==> |done| <= |old(Due(now))|
      ensures Passed(Snapshot(), done) == Pass(old(Snapshot()), now, script, 0)
    {
      ghost var start, due, before := Snapshot(), |Due(now)|, fired;
      ComesToStart(start, now, script);
      done := [];
      while |timers| > 0 && Diff(timers[0].deadline, now) <= 0
        invariant Going(done, now, script, start, due, before)
        invariant |done| == 0 ==> |timers| > 0 && Diff(timers[0].deadline, now) <= 0
        decreases if |done| < |script| then |script| - |done| else 0, |timers|
      {
        done := FireNext(now, script, done, start, due, before);
      }
      ComesToEnd(start, now, script, done, Snapshot());
    }

    method FireNext(now: Time, script: seq<seq<Action>>, done: seq<Firing>, ghost start: Queue, ghost due: nat,
                    ghost before: multiset<Timer>) returns (done': seq<Firing>)
      requires Going(done, now, script, start, due, before) && ClockTime(now) && ScriptPossible(script)
      requires |timers| > 0 && Diff(timers[0].deadline, now) <= 0
      modifies this`timers, this`added, this`removed, this`fired, this`latest, known
      ensures Going(done', now, script, start, due, before) && |done'| == |done| + 1
      ensures |done| >= |script| ==> |timers| < |old(timers)|
    {
      var f := Fire(now, if |done| < |script| then script[|done|] else [], start, script, done);
      FiredOneMore(done, f, now);
      done' := done + [f];
    }
  }

  /** A deadline that can be set when delays were counted from no later than `latest`. */
  predicate Settable(deadline: Time, latest: int) {
    SettableTime(deadline) && (deadline.usec < 0 ==> Micros(deadline) + 1000 <= latest)
  }

  /** A sorted queue whose first deadline is not due: what is due in it hides, and only from an old `now`. */
  lemma LeftOver(ts: seq<Timer>, latest: int, now: Time)
    requires Sorted(ts) && ClockTime(now) && (forall t :: t in ts ==> Settable(t.deadline, latest))
    requires |ts| > 0 ==> Diff(ts[0].deadline, now) > 0
    ensures forall t :: t in ts ==> Micros(t.deadline) > Micros(now) || Hidden(ts[0].deadline, t.deadline)
    ensures latest <= Micros(now) ==> forall t :: t in ts ==> Micros(t.deadline) > Micros(now)
  {
    forall k | 0 <= k < |ts|
      ensures Micros(ts[k].deadline) > Micros(now) || Hidden(ts[0].deadline, ts[k].deadline)
      ensures latest <= Micros(now) ==> Micros(ts[k].deadline) > Micros(now)
    {
      var x, y := ts[0].deadline, ts[k].deadline;
      assert k > 0 ==> InOrder(ts, 0, k);
      NotDueIsLater(x, now);
      if k > 0 && Micros(y) <= Micros(now) { OnlyHidden(x, y, now); }
    }
  }

  lemma {:induction false} LaterIsBehindEarlier(ts: seq<Timer>, k: nat, at: map<Timer, Time>, deadline: Time)
    requires FirstLater(ts, k, deadline) && forall t :: t in ts ==> DeadlineOf(at, t) == t.deadline
    ensures k == Earlier(ts, at, deadline)
    decreases |ts|
  {
    if k > 0 {
      assert FirstLater(ts[1..], k - 1, deadline);
      LaterIsBehindEarlier(ts[1..], k - 1, at, deadline);
    }
  }

  lemma TakenOut(ts: seq<Timer>, k: nat)
    requires k < |ts| && Distinct(ts)
    ensures Without(ts, ts[k]) == RemoveAt(ts, k)
  {
    var j := IndexOf(ts, ts[k]);
    assert j < k ==> TellApart(ts, j, k);
    assert k < j ==> TellApart(ts, k, j);
  }

  lemma FirstOut(ts: seq<Timer>)
    requires ts != []
    ensures Without(ts, ts[0]) == ts[1..]
  {
  }

  lemma OneMoreEffect(q: Queue, actions: seq<Action>, i: nat)
    requires i < |actions|
    ensures Effects(q, actions[..i + 1]) == Effect(Effects(q, actions[..i]), actions[i])
  {
    assert actions[..i + 1][..i] == actions[..i];
  }

  /** After the firings `done` the pass stands at `q`. */
  ghost predicate ComesTo(start: Queue, now: Time, script: seq<seq<Action>>, done: seq<Firing>, q: Queue) {
    var rest := Pass(q, now, script, |done|);
    Pass(start, now, script, 0) == Passed(rest.queue, done + rest.done)
  }

  lemma ComesToStart(start: Queue, now: Time, script: seq<seq<Action>>)
    ensures ComesTo(start, now, script, [], start)
  {
    var p := Pass(start, now, script, 0);
    assert [] + p.done == p.done;
  }

  lemma ComesToEnd(start: Queue, now: Time, script: seq<seq<Action>>, done: seq<Firing>, q: Queue)
    requires ComesTo(start, now, script, done, q) && !IsDue(q, now)
    ensures Pass(start, now, script, 0) == Passed(q, done)
  {
    assert done + [] == done;
  }

  lemma ComesToNext(start: Queue, now: Time, script: seq<seq<Action>>, done: seq<Firing>, q: Queue, f: Firing)
    requires ComesTo(start, now, script, done, q) && IsDue(q, now)
    requires f == Firing(q.timers[0], DeadlineOf(q.at, q.timers[0]))
    ensures ComesTo(start, now, script, done + [f], Turn(q, Entry(script, |done|)))
  {
    var n := |done|;
    var rest := PassTurns(q, now, script, n);
    Reassociate(done, [f], rest.done);
    assert |done + [f]| == n + 1;
  }

  lemma PassTurns(q: Queue, now: Time, script: seq<seq<Action>>, n: nat) returns (rest: Passed)
    requires IsDue(q, now)
    ensures rest == Pass(Turn(q, Entry(script, n)), now, script, n + 1)
    ensures Pass(q, now, script, n)
         == Passed(rest.queue, [Firing(q.timers[0], DeadlineOf(q.at, q.timers[0]))] + rest.done)
  {
    rest := Pass(Turn(q, Entry(script, n)), now, script, n + 1);
  }

  /** No timer was fired a millisecond early. */
  ghost predicate InTime(done: seq<Firing>, now: Time) {
    forall n :: 0 <= n < |done| ==> Micros(done[n].deadline) < Micros(now) + 1000
  }

  lemma FiredOneMore(done: seq<Firing>, f: Firing, now: Time)
    ensures InTime(done, now) && Micros(f.deadline) < Micros(now) + 1000 ==> InTime(done + [f], now)
    ensures multiset(Fired(done + [f])) == multiset(Fired(done)) + multiset{f.timer}
  {
    assert (done + [f])[..|done|] == done;
  }

  lemma Reassign<T>(added: multiset<T>, removed: multiset<T>, before: multiset<T>, fired: multiset<T>,
                    queued: multiset<T>, x: T)
    requires added == removed + fired + queued && removed == before + multiset{x}
    ensures added == before + (fired + multiset{x}) + queued
  {
  }

  lemma Fewer<T>(s: set<T>, t: set<T>, x: T)
    requires s <= t - {x} && x in t
    ensures |s| < |t|
  {
    Fits(s, t - {x});
  }

  lemma {:induction false} Fits<T>(s: set<T>, t: set<T>)
    requires s <= t
    ensures |s| <= |t|
  {
    if x :| x in s { Fits(s - {x}, t - {x}); }
  }

  /** The deadline a timer has when the action queues it. */
  function NewDeadline(a: Action): Time
    requires !a.Remove?
  {
    if a.Schedule? then a.deadline else After(a.first, a.msecs)
  }

  /** The action queues nothing before one millisecond after `now`. */
  predicate Later(a: Action, now: Time) {
    a.Remove? || Diff(NewDeadline(a), now) >= 1
  }

  ghost predicate AllLater(actions: seq<Action>, now: Time) {
    forall i :: 0 <= i < |actions| ==> Later(actions[i], now)
  }

  ghost predicate AllLaterIn(script: seq<seq<Action>>, now: Time) {
    forall n :: 0 <= n < |script| ==> AllLater(script[n], now)
  }

  function Fired(done: seq<Firing>): seq<Timer> {
    if done == [] then [] else Fired(done[..|done| - 1]) + [done[|done| - 1].timer]
  }

  lemma InsertKeepsOrder(ts: seq<Timer>, k: nat, t: Timer)
    requires Sorted(ts) && Distinct(ts) && FirstLater(ts, k, t.deadline)
    requires forall u :: u in ts ==> u.ptr != t.ptr
    ensures Sorted(InsertAt(ts, k, t)) && Distinct(InsertAt(ts, k, t))
  {
    var more := InsertAt(ts, k, t);
    forall i, j | 0 <= i < j < |more| ensures InOrder(more, i, j) && TellApart(more, i, j) {
      var i', j' := if i < k then i else i - 1, if j < k then j else j - 1;
      if i == k {
        assert ts[j'] in ts;
        NewIsNotAfter(ts, k, t.deadline, j');
      } else if j == k {
        assert ts[i'] in ts;
      } else {
        assert InOrder(ts, i', j') && TellApart(ts, i', j');
      }
    }
  }

  /** The new deadline is not after those it is put in front of. */
  lemma NewIsNotAfter(ts: seq<Timer>, k: nat, deadline: Time, j: nat)
    requires Sorted(ts) && FirstLater(ts, k, deadline) && k <= j < |ts|
    ensures Diff(deadline, ts[j].deadline) <= 0
  {
    if j == k {
      DiffIsAntisymmetric(deadline, ts[k].deadline);
    } else {
      assert InOrder(ts, k, j);
      StrictlyBeforeIsEnough(ts[k].deadline, deadline, ts[j].deadline);
    }
  }

  lemma RemoveKeepsOrder(ts: seq<Timer>, k: nat)
    requires k < |ts| && Sorted(ts) && Distinct(ts)
    ensures Sorted(RemoveAt(ts, k)) && Distinct(RemoveAt(ts, k))
  {
    var less := RemoveAt(ts, k);
    forall i, j | 0 <= i < j < |less| ensures InOrder(less, i, j) && TellApart(less, i, j) {
      var i', j' := if i < k then i else i + 1, if j < k then j else j + 1;
      assert InOrder(ts, i', j') && TellApart(ts, i', j');
    }
  }

  lemma RemovedTimer(ts: seq<Timer>, k: nat)
    requires k < |ts| && Distinct(ts)
    ensures multiset(ts) == multiset(RemoveAt(ts, k)) + multiset{ts[k]}
    ensures forall t :: t in RemoveAt(ts, k) <==> t in ts && t != ts[k]
  {
    forall i, j | 0 <= i < j < |ts| ensures ts[i] != ts[j] {
      assert TellApart(ts, i, j);
    }
    RemovedContents(ts, k);
  }

  lemma OnlyOnePtr(ts: seq<Timer>, k: nat, t: Timer)
    requires k < |ts| && Distinct(ts) && t in ts && ts[k].ptr == t.ptr
    ensures ts[k] == t
  {
    var j :| 0 <= j < |ts| && ts[j] == t;
    assert j < k ==> TellApart(ts, j, k);
    assert k < j ==> TellApart(ts, k, j);
  }

  lemma OthersDiffer(ts: seq<Timer>, k: nat)
    requires k < |ts| && Distinct(ts)
    ensures forall t :: t in ts && t != ts[k] ==> t.ptr != ts[k].ptr
  {
    forall t | t in ts && t.ptr == ts[k].ptr ensures t == ts[k] {
      OnlyOnePtr(ts, k, t);
    }
  }
}
