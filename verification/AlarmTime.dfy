/**
  The timing of an alarm: a 32-bit tick counter and a 32-bit deadline with one rollover flag stand for
  unbounded time.
 */
module AlarmTime {
  import opened Hal

  datatype Option<T> = None | Some(value: T)

  function Add32(a: U32, b: int): U32 {
    (a + b) % WORD
  }

  /** The fields of an alarm that `alt_alarm_start` and `alt_tick` keep time with. */
  datatype Timer = Timer(time: U32, rollover: bool)

  /** `alt_alarm_start`, at counter value `current`. */
  function StartTimer(nticks: U32, current: U32): Timer {
    var time := Add32(nticks, current + 1);
    Timer(time, time < current)
  }

  /** What `alt_tick` does to the flag before it looks at the deadline. */
  function ClearRollover(t: Timer, counter: U32): Timer {
    if t.rollover && counter == 0 then Timer(t.time, false) else t
  }

  predicate Due(t: Timer, counter: U32) {
    t.time <= counter && !t.rollover
  }

  /** What `alt_tick` does after a callback has asked for another call `period` ticks later. */
  function Rearm(t: Timer, counter: U32, period: U32): Timer {
    var time := Add32(t.time, period);
    Timer(time, t.rollover || time < counter)
  }

  /** The absolute tick, after `now`, at which the next visits of `alt_tick` will find a timer due. */
  function Expiry(t: Timer, now: nat): (r: nat)
    ensures r > now
  {
    var counter := now % WORD;
    var turn := now - counter;
    if t.rollover || (t.time <= counter && counter == WORD - 1) then turn + WORD + t.time
    else if t.time <= counter then now + 1
    else turn + t.time
  }

  /** The expiry is the one that the 32-bit deadline names. */
  predicate OnTime(t: Timer, now: nat) {
    Expiry(t, now) % WORD == t.time
  }

  /** The counter goes up by one, or it starts a new turn. */
  lemma CounterStep(now: nat)
    ensures
      var counter, counter' := now % WORD, (now + 1) % WORD;
      if counter == WORD - 1 then counter' == 0 && now + 1 == (now - counter) + WORD
      else counter' == counter + 1 && now + 1 - counter' == now - counter
  {
  }

  lemma RemainderInTurn(now: nat, turns: nat, x: U32)
    ensures (now - now % WORD + turns * WORD + x) % WORD == x
  {
  }

  /** Every visit finds the timer due exactly at its expiry, and otherwise leaves the expiry alone. */
  lemma ExpiryAtTick(t: Timer, now: nat)
    ensures
      var counter := (now + 1) % WORD;
      var t' := ClearRollover(t, counter);
      && (Due(t', counter) <==> Expiry(t, now) == now + 1)
      && (Due(t', counter) && OnTime(t, now) ==> t' == Timer(counter, false))
      && (!Due(t', counter) ==> Expiry(t', now + 1) == Expiry(t, now))
  {
    CounterStep(now);
    RemainderInTurn(now, 0, t.time);
    RemainderInTurn(now, 1, t.time);
  }

  /** The starts that are timed right: a delay short of the whole turn, or a start just before the wrap. */
  predicate TimedRight(start: nat, nticks: U32) {
    nticks < WORD - 1 || start % WORD == WORD - 1
  }

  lemma StartExpiry(nticks: U32, now: nat)
    ensures
      var t := StartTimer(nticks, now % WORD);
      && Expiry(t, now) == (if TimedRight(now, nticks) then now + nticks + 1 else now + 1)
      && (OnTime(t, now) <==> TimedRight(now, nticks))
  {
  }

  lemma RearmExpiry(now: nat, period: U32)
    requires period > 0
    ensures
      var t := Rearm(Timer(now % WORD, false), now % WORD, period);
      Expiry(t, now) == now + period && OnTime(t, now)
  {
  }

  // ---------- The life of one alarm ----------

  /** An alarm is off, or it is in the list; its callback has been called `calls` times since it was started. */
  datatype Alarm = Off(calls: nat) | Armed(timer: Timer, calls: nat)

  /** The visit of `alt_tick` to one alarm; `period(j)` is what the callback returns when called the j-th time. */
  function TickAlarm(a: Alarm, counter: U32, period: nat -> U32): (r: (Alarm, bool)) {
    match a
    case Off(_) => (a, false)
    case Armed(timer, calls) =>
      var t := ClearRollover(timer, counter);
      if Due(t, counter) then
        (if period(calls) == 0 then Off(calls + 1) else Armed(Rearm(t, counter, period(calls)), calls + 1), true)
      else
        (Armed(t, calls), false)
  }

  /** The alarm `k` ticks after it was started at absolute time `start`. */
  function AlarmAfter(start: nat, nticks: U32, period: nat -> U32, k: nat): Alarm {
    if k == 0 then Armed(StartTimer(nticks, start % WORD), 0)
    else TickAlarm(AlarmAfter(start, nticks, period, k - 1), (start + k) % WORD, period).0
  }

  /** Whether its callback is called at the `k`-th tick after the start. */
  predicate FiresAt(start: nat, nticks: U32, period: nat -> U32, k: nat)
    requires k > 0
  {
    TickAlarm(AlarmAfter(start, nticks, period, k - 1), (start + k) % WORD, period).1
  }

  /** When the callback should be called for the j-th time, in unbounded time. */
  function CallTime(start: nat, nticks: U32, period: nat -> U32, j: nat): Option<nat> {
    if j == 0 then Some(start + nticks + 1)
    else
      match CallTime(start, nticks, period, j - 1)
      case None => None
      case Some(t) => if period(j - 1) == 0 then None else Some(t + period(j - 1))
  }

  lemma {:induction false} CallTimesIncrease(start: nat, nticks: U32, period: nat -> U32, i: nat, j: nat)
    requires i < j && CallTime(start, nticks, period, j).Some?
    ensures CallTime(start, nticks, period, i).Some?
    ensures CallTime(start, nticks, period, i).value < CallTime(start, nticks, period, j).value
  {
    if i < j - 1 {
      CallTimesIncrease(start, nticks, period, i, j - 1);
    }
  }

  /** The concrete alarm at absolute time `now` waits for call `j` of the ideal one, or both are finished. */
  ghost predicate InStep(a: Alarm, start: nat, nticks: U32, period: nat -> U32, now: nat, j: nat) {
    && (j > 0 ==> CallTime(start, nticks, period, j - 1).Some?)
    && (j > 0 ==> CallTime(start, nticks, period, j - 1).value <= now)
    && a.calls == j
    && match CallTime(start, nticks, period, j)
       case None => a.Off?
       case Some(deadline) => a.Armed? && Expiry(a.timer, now) == deadline && OnTime(a.timer, now)
  }

  lemma StepInStep(a: Alarm, start: nat, nticks: U32, period: nat -> U32, now: nat, j: nat) returns (j': nat)
    requires InStep(a, start, nticks, period, now, j)
    ensures
      var (a', fired) := TickAlarm(a, (now + 1) % WORD, period);
      && InStep(a', start, nticks, period, now + 1, j')
      && (fired <==> CallTime(start, nticks, period, j) == Some(now + 1))
  {
    hide Expiry, Due, Rearm;
    j' := j;
    match CallTime(start, nticks, period, j) {
      case None =>
      case Some(deadline) =>
        ExpiryAtTick(a.timer, now);
        if deadline == now + 1 {
          j' := j + 1;
          if period(j) > 0 {
            RearmExpiry(now + 1, period(j));
          }
        }
    }
  }

  lemma {:induction false} AlarmInStep(start: nat, nticks: U32, period: nat -> U32, k: nat) returns (j: nat)
    requires TimedRight(start, nticks)
    ensures InStep(AlarmAfter(start, nticks, period, k), start, nticks, period, start + k, j)
  {
    if k == 0 {
      j := 0;
      StartExpiry(nticks, start);
    } else {
      j := AlarmInStep(start, nticks, period, k - 1);
      j := StepInStep(AlarmAfter(start, nticks, period, k - 1), start, nticks, period, start + k - 1, j);
    }
  }

  /** Nothing but call `j` can be scheduled for the tick after `now`. */
  lemma OnlyTheNextCall(a: Alarm, start: nat, nticks: U32, period: nat -> U32, now: nat, j: nat, i: nat)
    requires InStep(a, start, nticks, period, now, j)
    requires CallTime(start, nticks, period, i) == Some(now + 1)
    ensures i == j
  {
    if i < j {
      if i < j - 1 {
        CallTimesIncrease(start, nticks, period, i, j - 1);
      }
    } else if i > j {
      CallTimesIncrease(start, nticks, period, j, i);
    }
  }

  lemma CallsFollowFirst(start: nat, nticks: U32, period: nat -> U32, j: nat)
    requires CallTime(start, nticks, period, j).Some?
    ensures CallTime(start, nticks, period, j).value >= start + nticks + 1
  {
    if j > 0 {
      CallTimesIncrease(start, nticks, period, 0, j);
    }
  }

  ghost predicate ScheduledAt(start: nat, nticks: U32, period: nat -> U32, now: nat) {
    exists j: nat :: CallTime(start, nticks, period, j) == Some(now)
  }

  /** The callback is called at tick `k` exactly if a call is scheduled for then. */
  ghost predicate ExactAt(start: nat, nticks: U32, period: nat -> U32, k: nat)
    requires k > 0
  {
    FiresAt(start, nticks, period, k) <==> ScheduledAt(start, nticks, period, start + k)
  }

  /**
    Over any number of turns of the counter, the callback of an alarm is called exactly at its ideal times: first
    `nticks + 1` ticks after the start, then each time as many ticks later as it asked for, until it asks for none.
   */
  lemma CallsAreExact(start: nat, nticks: U32, period: nat -> U32, k: nat)
    requires TimedRight(start, nticks) && k > 0
    ensures ExactAt(start, nticks, period, k)
  {
    hide TickAlarm, CallTime, InStep, TimedRight, AlarmAfter;
    var a := AlarmAfter(start, nticks, period, k - 1);
    var j := AlarmInStep(start, nticks, period, k - 1);
    var _ := StepInStep(a, start, nticks, period, start + k - 1, j);
    if i: nat :| CallTime(start, nticks, period, i) == Some(start + k) {
      OnlyTheNextCall(a, start, nticks, period, start + k - 1, j, i);
    }
  }

  /** The first call comes `nticks + 1` ticks after the start, so not before `nticks` whole ticks have gone by. */
  lemma FirstCall(start: nat, nticks: U32, period: nat -> U32, k: nat)
    requires TimedRight(start, nticks) && 0 < k <= nticks + 1
    ensures FiresAt(start, nticks, period, k) <==> k == nticks + 1
  {
    CallsAreExact(start, nticks, period, k);
    if j: nat :| CallTime(start, nticks, period, j) == Some(start + k) {
      CallsFollowFirst(start, nticks, period, j);
    }
    assert CallTime(start, nticks, period, 0) == Some(start + nticks + 1);
  }

  lemma CallNumber(start: nat, nticks: U32, period: nat -> U32, k: nat)
    requires TimedRight(start, nticks) && k > 0 && FiresAt(start, nticks, period, k)
    ensures CallTime(start, nticks, period, AlarmAfter(start, nticks, period, k - 1).calls) == Some(start + k)
  {
    hide TickAlarm, CallTime, Expiry, OnTime, TimedRight, AlarmAfter;
    var j := AlarmInStep(start, nticks, period, k - 1);
    var _ := StepInStep(AlarmAfter(start, nticks, period, k - 1), start, nticks, period, start + k - 1, j);
  }

  /** After a call at tick `k` the next one comes as many ticks later as it asked for, or never if it asked for none. */
  lemma NextCall(start: nat, nticks: U32, period: nat -> U32, k: nat, m: nat)
    requires TimedRight(start, nticks) && 0 < k < m && FiresAt(start, nticks, period, k)
    ensures
      var p := period(AlarmAfter(start, nticks, period, k - 1).calls);
      if p == 0 then !FiresAt(start, nticks, period, m)
      else m <= k + p ==> (FiresAt(start, nticks, period, m) <==> m == k + p)
  {
    hide FiresAt, TimedRight, AlarmAfter;
    CallNumber(start, nticks, period, k);
    var j := AlarmAfter(start, nticks, period, k - 1).calls;
    CallsAreExact(start, nticks, period, m);
    assert period(j) > 0 ==> CallTime(start, nticks, period, j + 1) == Some(start + k + period(j));
    if i: nat :| CallTime(start, nticks, period, i) == Some(start + m) {
      if i < j {
        CallTimesIncrease(start, nticks, period, i, j);
      } else if i > j + 1 {
        CallTimesIncrease(start, nticks, period, j + 1, i);
      }
    }
  }

  /** A delay of a whole turn, asked for at any other moment, is cut short to one tick. */
  lemma WholeTurnFiresAtOnce(start: nat, nticks: U32, period: nat -> U32)
    requires !TimedRight(start, nticks)
    ensures FiresAt(start, nticks, period, 1) && !ExactAt(start, nticks, period, 1)
  {
    StartExpiry(nticks, start);
    ExpiryAtTick(StartTimer(nticks, start % WORD), start);
    assert AlarmAfter(start, nticks, period, 0) == Armed(StartTimer(nticks, start % WORD), 0);
    if j: nat :| CallTime(start, nticks, period, j) == Some(start + 1) {
      CallsFollowFirst(start, nticks, period, j);
    }
  }

  /** The exact condition: an alarm keeps its ideal times if and only if its start was timed right. */
  lemma ExactIffTimedRight(start: nat, nticks: U32, period: nat -> U32)
    ensures (forall k: nat | k > 0 :: ExactAt(start, nticks, period, k)) <==> TimedRight(start, nticks)
  {
    if TimedRight(start, nticks) {
      forall k: nat | k > 0 ensures ExactAt(start, nticks, period, k) {
        CallsAreExact(start, nticks, period, k);
      }
    } else {
      WholeTurnFiresAtOnce(start, nticks, period);
    }
  }

  /** How many calls are scheduled for the first `k` ticks. */
  ghost function CallsBy(start: nat, nticks: U32, period: nat -> U32, k: nat): nat {
    if k == 0 then 0
    else CallsBy(start, nticks, period, k - 1) + if ScheduledAt(start, nticks, period, start + k) then 1 else 0
  }

  lemma {:induction false} CallsCounted(start: nat, nticks: U32, period: nat -> U32, k: nat)
    requires TimedRight(start, nticks)
    ensures AlarmAfter(start, nticks, period, k).calls == CallsBy(start, nticks, period, k)
  {
    if k == 0 {
    } else {
      CallsCounted(start, nticks, period, k - 1);
      CallsAreExact(start, nticks, period, k);
      assert FiresAt(start, nticks, period, k) <==> ScheduledAt(start, nticks, period, start + k);
    }
  }
}
