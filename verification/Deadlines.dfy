/** Times and the millisecond difference of src/loop.c, which truncates. */
module Deadlines {
  datatype Time = Time(sec: int, usec: int)

  const SECOND := 1000000

  /** The operators / and % of C. */
  function Quot(a: int, b: int): int
    requires b > 0
  {
    if a >= 0 then a / b else -((-a) / b)
  }

  function Rem(a: int, b: int): int
    requires b > 0
  {
    a - b * Quot(a, b)
  }

  /** _co_loop_tv_diff */
  function Diff(x: Time, y: Time): int {
    (x.sec - y.sec) * 1000 + Quot(x.usec - y.usec, 1000)
  }

  /** The exact time in microseconds. */
  function Micros(t: Time): int {
    t.sec * SECOND + t.usec
  }

  /** What the clock returns. */
  predicate ClockTime(t: Time) {
    0 <= t.usec < SECOND
  }

  /** What co_loop_set_timer can leave for a delay that is not negative. */
  predicate DeadlineTime(t: Time) {
    0 <= t.usec <= SECOND
  }

  /** What it can leave for any delay. */
  predicate SettableTime(t: Time) {
    -999000 <= t.usec <= SECOND
  }

  /** co_loop_set_timer, with `now` the first reading of the clock. */
  function After(now: Time, msecs: int): Time {
    var sec, usec := now.sec + Quot(msecs, 1000), now.usec + Rem(msecs, 1000) * 1000;
    if usec > SECOND then Time(sec + 1, Rem(usec, SECOND)) else Time(sec, usec)
  }

  // ---------------------------------------------------------------- the order that is not transitive

  lemma QuotBounds(a: int, b: int)
    ensures Quot(a, 1000) + Quot(b, 1000) - 1 <= Quot(a + b, 1000) <= Quot(a, 1000) + Quot(b, 1000) + 1
  {
  }

  lemma DiffIsAntisymmetric(x: Time, y: Time)
    ensures Diff(x, y) == -Diff(y, x)
  {
  }

  /** "Equal" is not transitive, and neither is "not later". */
  lemma EqualIsNotTransitive(z: Time) returns (x: Time, y: Time)
    ensures Diff(x, y) == 0 && Diff(y, z) == 0 && Diff(x, z) == 1
    ensures z.usec <= SECOND - 1200 && DeadlineTime(z) ==> DeadlineTime(x) && DeadlineTime(y)
  {
    x, y := Time(z.sec, z.usec + 1200), Time(z.sec, z.usec + 600);
  }

  /** What the queue needs instead: a time strictly before x is not after what x is not after. */
  lemma StrictlyBeforeIsEnough(x: Time, n: Time, y: Time)
    requires Diff(x, n) >= 1
    ensures Diff(n, y) <= Diff(x, y)
  {
    QuotBounds(x.usec - n.usec, n.usec - y.usec);
  }

  // ---------------------------------------------------------------- exact microseconds

  lemma NotEarly(deadline: Time, now: Time)
    requires SettableTime(deadline) && ClockTime(now) && Diff(deadline, now) <= 0
    ensures Micros(deadline) < Micros(now) + 1000
  {
  }

  lemma NotDueIsLater(deadline: Time, now: Time)
    requires SettableTime(deadline) && ClockTime(now) && Diff(deadline, now) >= 1
    ensures Micros(deadline) > Micros(now)
  {
  }

  /** At `now`, `x` is not due, `y` may stand behind it in the queue, and `y` is overdue. */
  predicate Overlooked(x: Time, y: Time, now: Time) {
    ClockTime(now) && Diff(x, now) >= 1 && Diff(x, y) <= 0 && Micros(y) <= Micros(now)
  }

  /** In the same second, `y` has negative microseconds and `x` less than 1000 more. */
  predicate Hidden(x: Time, y: Time) {
    x.sec == y.sec && y.usec < 0 && 0 < x.usec - y.usec < 1000
  }

  /** A deadline can be overlooked behind another exactly when it is hidden by it. */
  lemma OverlookedIffHidden(x: Time, y: Time)
    requires SettableTime(x) && SettableTime(y)
    ensures (exists now :: Overlooked(x, y, now)) <==> Hidden(x, y)
  {
    forall now | Overlooked(x, y, now) ensures Hidden(x, y) {
      OnlyHidden(x, y, now);
    }
    if Hidden(x, y) {
      assert Overlooked(x, y, Time(y.sec - 1, y.usec + SECOND));
    }
  }

  lemma OnlyHidden(x: Time, y: Time, now: Time)
    requires SettableTime(x) && SettableTime(y) && Overlooked(x, y, now)
    ensures Hidden(x, y)
  {
    NotDueIsLater(x, now);
  }

  /** Behind deadlines that a delay of at least zero gives, hiding takes less than 1000 microseconds below zero. */
  lemma HiddenBehindDeadlines(y: Time)
    requires SettableTime(y)
    ensures (exists x :: DeadlineTime(x) && Hidden(x, y)) <==> -1000 < y.usec < 0
  {
    if -1000 < y.usec < 0 { assert Hidden(Time(y.sec, 0), y); }
  }

  /** Behind any deadline that can be set, it takes microseconds below zero. */
  lemma HiddenBehindAny(y: Time)
    requires SettableTime(y)
    ensures (exists x :: SettableTime(x) && Hidden(x, y)) <==> y.usec < 0
  {
    if y.usec < 0 { assert Hidden(Time(y.sec, y.usec + 1), y); }
  }

  /** The deadline is exactly the delay after the clock; its microseconds stay in range exactly for these delays. */
  lemma AfterIsExact(now: Time, msecs: int)
    requires ClockTime(now)
    ensures Micros(After(now, msecs)) == Micros(now) + 1000 * msecs
    ensures SettableTime(After(now, msecs))
    ensures DeadlineTime(After(now, msecs)) <==> now.usec + Rem(msecs, 1000) * 1000 >= 0
    ensures msecs >= 0 ==> DeadlineTime(After(now, msecs))
    ensures After(now, msecs).usec == 1000000 <==> now.usec + Rem(msecs, 1000) * 1000 == 1000000
  {
  }

  /** Exactly these deadlines can be set: from any clock reading, and with a delay that is not negative. */
  lemma SettableIsReachable(t: Time)
    ensures SettableTime(t) <==> exists now, msecs :: ClockTime(now) && After(now, msecs) == t
    ensures DeadlineTime(t) <==> exists now, msecs :: ClockTime(now) && msecs >= 0 && After(now, msecs) == t
  {
    forall now, msecs | ClockTime(now) && After(now, msecs) == t
      ensures SettableTime(t) && (msecs >= 0 ==> DeadlineTime(t)) {
      AfterIsExact(now, msecs);
    }
    if SettableTime(t) {
      var msecs := if t.usec == SECOND then 1 else if t.usec < 0 then Quot(t.usec - 999, 1000) else 0;
      assert ClockTime(Time(t.sec, t.usec - 1000 * msecs)) && After(Time(t.sec, t.usec - 1000 * msecs), msecs) == t;
    }
  }

  /** For a caller of co_loop_set_timer: which delays can be overlooked, behind which deadlines. */
  lemma DelaysThatCanHide(first: Time, msecs: int)
    requires ClockTime(first)
    ensures var usec := first.usec + Rem(msecs, 1000) * 1000;
      && ((exists x :: DeadlineTime(x) && Hidden(x, After(first, msecs))) <==> -1000 < usec < 0)
      && ((exists x :: SettableTime(x) && Hidden(x, After(first, msecs))) <==> usec < 0)
  {
    AfterIsExact(first, msecs);
    HiddenBehindDeadlines(After(first, msecs));
    HiddenBehindAny(After(first, msecs));
  }

  /** And then only by a pass whose `now` was read before the delay was counted from. */
  lemma OverlookedNeedsEarlierNow(x: Time, first: Time, msecs: int, now: Time)
    requires SettableTime(x) && ClockTime(first) && Overlooked(x, After(first, msecs), now)
    ensures Micros(now) < Micros(first)
  {
    AfterIsExact(first, msecs);
    OnlyHidden(x, After(first, msecs), now);
    NotDueIsLater(x, now);
  }
}
