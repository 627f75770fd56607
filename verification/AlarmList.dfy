/**
  The list of registered alarms: an intrusive circular doubly linked list that `alt_tick` walks and edits in
  place. The list head is a node like the others, whose alarm fields are never looked at.
 */
module AlarmList {
  import opened AlarmTime
  import opened Hal

  /** An alarm and its links. The callback is modelled by what it returns: `period(j)` when called the j-th time. */
  class Node {
    var next: Node
    var previous: Node
    var time: U32
    var rollover: bool
    var period: nat -> U32
    var calls: nat

    /** A node outside any list points to itself. */
    constructor ()
      ensures Alone()
    {
      next, previous := this, this;
      time, rollover, period, calls := 0, false, _ => 0, 0;
    }

    predicate Alone()
      reads this`next, this`previous
    {
      next == this && previous == this
    }

    function Timing(): Timer
      reads this`time, this`rollover
    {
      Timer(time, rollover)
    }

    /** A registered alarm as the timing model sees it. */
    function State(): (r: Snapshot)
      reads this`time, this`rollover, this`calls, this`period
      ensures r.alarm.Armed?
    {
      Snapshot(Armed(Timing(), calls), period)
    }
  }

  datatype Snapshot = Snapshot(alarm: Alarm, period: nat -> U32) {
    /** What one visit of `alt_tick` makes of the alarm. */
    function Visit(counter: U32): Alarm {
      TickAlarm(alarm, counter, period).0
    }
  }

  /**
    A visit has taken an alarm from one state to the next: its callback has been called if it was due, and it has
    the new timing, or it has been unlinked and points to itself.
   */
  ghost predicate IsVisit(before: Snapshot, after: Snapshot, alone: bool, counter: U32)
    requires after.alarm.Armed?
  {
    var result := before.Visit(counter);
    && after.alarm.calls == result.calls && after.period == before.period
    && (if result.Off? then alone else after.alarm == result)
  }

  // ---------- The ring ----------

  /** The nodes of a ring, beginning after the head; the head is the neighbour of the first and the last. */
  function At(head: Node, s: seq<Node>, i: int): Node {
    if 0 <= i < |s| then s[i] else head
  }

  ghost predicate Distinct(head: Node, s: seq<Node>) {
    head !in s && forall i, j :: 0 <= i < j < |s| ==> s[i] != s[j]
  }

  /** Node `i` and the one before it point at each other. */
  ghost predicate LinkedAt(head: Node, s: seq<Node>, i: int)
    reads head`next, head`previous, s`next, s`previous
  {
    At(head, s, i - 1).next == At(head, s, i) && At(head, s, i).previous == At(head, s, i - 1)
  }

  /** The links run through the head and the nodes of `s` in both directions. */
  ghost predicate Linked(head: Node, s: seq<Node>)
    reads head`next, head`previous, s`next, s`previous
  {
    && Distinct(head, s)
    && forall i :: 0 <= i <= |s| ==> LinkedAt(head, s, i)
  }

  /** From the head the links lead to node `k`, from there back to the first node, and round again. */
  ghost predicate Trapped(head: Node, s: seq<Node>, k: nat)
    reads head`next, s`next
  {
    && k < |s| && head.next == s[k] && s[k].next == s[0]
    && forall i :: 0 <= i < k ==> s[i].next == s[i + 1]
  }

  /** The nodes that a walk along `next`, like that of `alt_tick`, comes to one after the other. */
  ghost predicate IsWalk(head: Node, walk: seq<Node>)
    reads head`next, walk`next
  {
    && (walk != [] ==> walk[0] == head.next)
    && forall i :: 0 < i < |walk| ==> walk[i] == walk[i - 1].next
  }

  lemma {:induction false} TrappedStep(head: Node, s: seq<Node>, k: nat, walk: seq<Node>, i: nat) returns (j: nat)
    requires Trapped(head, s, k) && IsWalk(head, walk) && i < |walk|
    ensures j <= k && walk[i] == s[j]
  {
    if i == 0 {
      j := k;
    } else {
      var j' := TrappedStep(head, s, k, walk, i - 1);
      j := if j' == k then 0 else j' + 1;
    }
  }

  /** However long it is, no walk along the links ever comes to the head. */
  lemma TrappedForEver(head: Node, s: seq<Node>, k: nat, walk: seq<Node>)
    requires head !in s && Trapped(head, s, k) && IsWalk(head, walk)
    ensures head !in walk
  {
    if i :| 0 <= i < |walk| && walk[i] == head {
      var j := TrappedStep(head, s, k, walk, i);
    }
  }

  /** So there is no list any more. */
  lemma TrappedIsNotLinked(head: Node, s: seq<Node>, k: nat, t: seq<Node>)
    requires head !in s && Trapped(head, s, k)
    ensures !Linked(head, t)
  {
    if Linked(head, t) {
      var walk := t + [head];
      assert LinkedAt(head, t, 0);
      assert walk[0] == head.next;
      forall i | 0 < i < |walk| ensures walk[i] == walk[i - 1].next {
        assert LinkedAt(head, t, i);
      }
      TrappedForEver(head, s, k, walk);
    }
  }

  /** `alt_llist_insert`: right exactly for an entry that is not in the list yet. */
  method Insert(head: Node, entry: Node, ghost s: seq<Node>)
    requires Linked(head, s) && entry != head
    modifies head`next, head`previous, s`previous, entry`next, entry`previous
    ensures entry !in s ==> Linked(head, [entry] + s)
    ensures forall k: nat :: k < |s| && entry == s[k] ==> Trapped(head, s, k)
  {
    assert LinkedAt(head, s, 0);
    entry.previous := head;
    entry.next := head.next;
    head.next.previous := entry;
    head.next := entry;
    if entry !in s {
      ghost var t := [entry] + s;
      forall i | 0 <= i <= |t|
        ensures LinkedAt(head, t, i)
      {
        if i >= 1 {
          assert old(LinkedAt(head, s, i - 1));
          assert At(head, t, i) == At(head, s, i - 1);
          assert i >= 2 ==> At(head, t, i - 1) == At(head, s, i - 2);
        }
      }
    }
    forall k: nat | k < |s| && entry == s[k] ensures Trapped(head, s, k) {
      forall i | 0 <= i < k ensures s[i].next == s[i + 1] {
        assert old(LinkedAt(head, s, i + 1));
      }
    }
  }

  function Without<T>(s: seq<T>, k: nat): seq<T> {
    if k < |s| then s[..k] + s[k + 1..] else s
  }

  lemma WithoutAt(head: Node, s: seq<Node>, k: nat, i: int)
    requires k < |s| && -1 <= i < |s|
    ensures At(head, Without(s, k), i) == At(head, s, if i < k then i else i + 1)
  {
  }

  lemma WithoutIsDistinct(head: Node, s: seq<Node>, k: nat)
    requires Distinct(head, s) && k < |s|
    ensures Distinct(head, Without(s, k)) && s[k] != head && s[k] !in Without(s, k)
  {
  }

  /** Everything but element `k` is still there. */
  lemma WithoutKeeps<T>(s: seq<T>, k: nat, x: T)
    requires k < |s| ==> x != s[k]
    ensures x in Without(s, k) <==> x in s
  {
    if k < |s| {
      assert s == s[..k] + [s[k]] + s[k + 1..];
    }
  }

  /** The links run past node `k`, which still points into the list. */
  ghost predicate Bypassed(head: Node, s: seq<Node>, k: nat)
    reads head`next, head`previous, s`next, s`previous
  {
    && (forall i :: 0 <= i <= |s| && i != k && i != k + 1 ==> LinkedAt(head, s, i))
    && At(head, s, k - 1).next == At(head, s, k + 1) && At(head, s, k + 1).previous == At(head, s, k - 1)
  }

  lemma BypassedIsLinked(head: Node, s: seq<Node>, k: nat)
    requires Distinct(head, s) && k < |s| && Bypassed(head, s, k)
    ensures Linked(head, Without(s, k))
  {
    var t := Without(s, k);
    WithoutIsDistinct(head, s, k);
    forall i | 0 <= i <= |t| ensures LinkedAt(head, t, i) {
      WithoutAt(head, s, k, i);
      WithoutAt(head, s, k, i - 1);
      if i != k {
        assert LinkedAt(head, s, if i < k then i else i + 1);
      }
    }
  }

  /** The first half of `alt_llist_remove`. */
  method Bypass(entry: Node, ghost head: Node, ghost s: seq<Node>, ghost k: nat)
    requires Linked(head, s)
    requires if k < |s| then entry == s[k] else entry.Alone() && entry != head && entry !in s
    modifies head`next, head`previous, s`next, s`previous, entry`next, entry`previous
    ensures k < |s| ==> Bypassed(head, s, k)
    ensures k >= |s| ==> unchanged(head) && unchanged(s) && unchanged(entry)
  {
    assert k < |s| ==> LinkedAt(head, s, k) && LinkedAt(head, s, k + 1);
    entry.next.previous := entry.previous;
    entry.previous.next := entry.next;
    if k < |s| {
      forall i | 0 <= i <= |s| && i != k && i != k + 1 ensures LinkedAt(head, s, i) {
        assert old(LinkedAt(head, s, i));
      }
    }
  }

  /** `alt_llist_remove`: of node `k` of a list, or, beyond its end, of a node outside it that points to itself. */
  method Remove(entry: Node, ghost head: Node, ghost s: seq<Node>, ghost k: nat)
    requires Linked(head, s)
    requires if k < |s| then entry == s[k] else entry.Alone() && entry != head && entry !in s
    modifies head`next, head`previous, s`next, s`previous, entry`next, entry`previous
    ensures Linked(head, Without(s, k)) && entry.Alone()
    ensures k >= |s| ==> unchanged(head) && unchanged(s) && unchanged(entry)
  {
    Bypass(entry, head, s, k);
    if k < |s| {
      BypassedIsLinked(head, s, k);
      WithoutIsDistinct(head, s, k);
    }
    entry.previous := entry;
    entry.next := entry;
  }

  // ---------- What a walk of `alt_tick` leaves in the list ----------

  ghost function States(s: seq<Node>): (r: seq<Snapshot>)
    reads s
    ensures |r| == |s| && forall j :: 0 <= j < |s| ==> r[j] == s[j].State()
  {
    seq(|s|, j requires 0 <= j < |s| reads s => s[j].State())
  }

  /** The nodes that a visit leaves in the list, in their order; `was` are the states it finds them in. */
  function Survivors(s: seq<Node>, was: seq<Snapshot>, counter: U32): (r: seq<Node>)
    requires |s| == |was|
    ensures |r| <= |s|
  {
    if s == [] then []
    else
      var n := |s| - 1;
      var rest := Survivors(s[..n], was[..n], counter);
      if was[n].Visit(counter).Off? then rest else rest + [s[n]]
  }

  lemma {:induction false} SurvivorsAreNodes(s: seq<Node>, was: seq<Snapshot>, counter: U32, k: nat) returns (j: nat)
    requires |s| == |was| && k < |Survivors(s, was, counter)|
    ensures j < |s| && Survivors(s, was, counter)[k] == s[j] && !was[j].Visit(counter).Off?
  {
    var n := |s| - 1;
    var rest := Survivors(s[..n], was[..n], counter);
    if k < |rest| {
      j := SurvivorsAreNodes(s[..n], was[..n], counter, k);
    } else {
      j := n;
    }
  }

  lemma {:induction false} SurvivesExactly(s: seq<Node>, was: seq<Snapshot>, counter: U32, j: nat)
    requires |s| == |was| && j < |s| && forall i, k :: 0 <= i < k < |s| ==> s[i] != s[k]
    ensures s[j] in Survivors(s, was, counter) <==> !was[j].Visit(counter).Off?
  {
    var n := |s| - 1;
    var rest := Survivors(s[..n], was[..n], counter);
    if j < n {
      SurvivesExactly(s[..n], was[..n], counter, j);
    } else if k :| 0 <= k < |rest| && rest[k] == s[j] {
      var i := SurvivorsAreNodes(s[..n], was[..n], counter, k);
    }
  }

  lemma NoNewSurvivors(s: seq<Node>, was: seq<Snapshot>, counter: U32, a: Node)
    requires |s| == |was| && a !in s
    ensures a !in Survivors(s, was, counter)
  {
    if k :| 0 <= k < |Survivors(s, was, counter)| && Survivors(s, was, counter)[k] == a {
      var i := SurvivorsAreNodes(s, was, counter, k);
    }
  }

  /** The nodes before place `i` have been visited once since they were in the given states, the others not. */
  ghost predicate VisitedUpTo(s: seq<Node>, was: seq<Snapshot>, counter: U32, i: nat)
    requires |s| == |was|
    reads s
  {
    && (forall j :: 0 <= j < |s| && j < i ==> IsVisit(was[j], s[j].State(), s[j].Alone(), counter))
    && (forall j :: i <= j < |s| ==> s[j].State() == was[j])
  }

  /** The list when the nodes before `i` have been visited. */
  ghost function Rest(s: seq<Node>, was: seq<Snapshot>, counter: U32, i: nat): seq<Node>
    requires |s| == |was| && i <= |s|
  {
    Survivors(s[..i], was[..i], counter) + s[i..]
  }

  lemma SurvivorsStep(s: seq<Node>, was: seq<Snapshot>, counter: U32, i: nat)
    requires |s| == |was| && i < |s|
    ensures
      var left := Survivors(s[..i], was[..i], counter);
      Survivors(s[..i + 1], was[..i + 1], counter) == if was[i].Visit(counter).Off? then left else left + [s[i]]
  {
    assert s[..i + 1][..i] == s[..i] && was[..i + 1][..i] == was[..i];
  }

  /** Two ways to go past the first element of `right`: leave it out, or hand it over to `left`. */
  lemma PassOne<T>(left: seq<T>, right: seq<T>)
    requires right != []
    ensures (left + right)[|left|] == right[0]
    ensures left + right[1..] == Without(left + right, |left|)
    ensures left + [right[0]] + right[1..] == left + right
  {
    assert right == [right[0]] + right[1..];
  }

  lemma RestStep(head: Node, s: seq<Node>, was: seq<Snapshot>, counter: U32, i: nat)
    requires |s| == |was| && i < |s|
    ensures
      var k := |Survivors(s[..i], was[..i], counter)|;
      var r := Rest(s, was, counter, i);
      && k < |r| && r[k] == s[i]
      && At(head, r, k + 1) == At(head, s, i + 1)
      && Rest(s, was, counter, i + 1) == if was[i].Visit(counter).Off? then Without(r, k) else r
  {
    SurvivorsStep(s, was, counter, i);
    PassOne(Survivors(s[..i], was[..i], counter), s[i..]);
    assert s[i..][1..] == s[i + 1..];
  }

  lemma RestAtEnd(s: seq<Node>, was: seq<Snapshot>, counter: U32)
    requires |s| == |was|
    ensures Rest(s, was, counter, |s|) == Survivors(s, was, counter)
  {
    assert s[..|s|] == s && was[..|s|] == was;
  }

  lemma RestIsPart(s: seq<Node>, was: seq<Snapshot>, counter: U32, i: nat)
    requires |s| == |was| && i <= |s|
    ensures forall k :: 0 <= k < |Rest(s, was, counter, i)| ==> Rest(s, was, counter, i)[k] in s
  {
    var left := Survivors(s[..i], was[..i], counter);
    forall k | 0 <= k < |left| ensures left[k] in s {
      var j := SurvivorsAreNodes(s[..i], was[..i], counter, k);
    }
  }

  /** Nodes that have been removed are not in what is left of the list. */
  lemma RemovedIsGone(head: Node, s: seq<Node>, was: seq<Snapshot>, counter: U32, i: nat, j: nat)
    requires |s| == |was| && j < i <= |s| && Distinct(head, s) && was[j].Visit(counter).Off?
    ensures s[j] !in Rest(s, was, counter, i)
  {
    SurvivesExactly(s[..i], was[..i], counter, j);
    assert s[..i][j] == s[j];
  }

  // ---------- The calls ----------

  /** What can happen to the wheel: the two calls of the application and the timer interrupt. */
  datatype Call = StartAlarm(alarm: Node, delay: U32, period: nat -> U32) | StopAlarm(alarm: Node) | TimerTick {
    predicate Names(a: Node) {
      !TimerTick? && alarm == a
    }
  }

  /** What a call at tick `now` makes of one alarm; without a clock no alarm is started. */
  function Effect(call: Call, a: Node, now: nat, clock: bool, s: Snapshot): Snapshot {
    match call
    case TimerTick => Snapshot(s.Visit((now + 1) % WORD), s.period)
    case StartAlarm(b, delay, period) =>
      if a == b && clock then Snapshot(Armed(StartTimer(delay, now % WORD), 0), period) else s
    case StopAlarm(b) =>
      if a == b then Snapshot(Off(s.alarm.calls), s.period) else s
  }

  function Ticks(calls: seq<Call>): nat {
    if calls == [] then 0
    else Ticks(calls[..|calls| - 1]) + if calls[|calls| - 1].TimerTick? then 1 else 0
  }

  /** One alarm after a list of calls that begins at tick `now`. */
  function After(calls: seq<Call>, a: Node, now: nat, clock: bool, s: Snapshot): Snapshot {
    if calls == [] then s
    else
      var before := calls[..|calls| - 1];
      Effect(calls[|calls| - 1], a, now + Ticks(before), clock, After(before, a, now, clock, s))
  }

  function Effects(call: Call, now: nat, clock: bool, model: Node -> Snapshot): Node -> Snapshot {
    (a: Node) => Effect(call, a, now, clock, model(a))
  }

  function AllAfter(calls: seq<Call>, now: nat, clock: bool, init: Node -> Snapshot): Node -> Snapshot {
    (a: Node) => After(calls, a, now, clock, init(a))
  }

  /** The alarms that a list of calls names are in `nodes`. */
  ghost predicate NamesOnly(calls: seq<Call>, nodes: set<Node>) {
    forall i :: 0 <= i < |calls| && !calls[i].TimerTick? ==> calls[i].alarm in nodes
  }

  /** No alarm is started while it is registered. */
  ghost predicate Legal(calls: seq<Call>, now: nat, clock: bool, init: Node -> Snapshot) {
    forall i :: 0 <= i < |calls| && calls[i].StartAlarm? ==>
      After(calls[..i], calls[i].alarm, now, clock, init(calls[i].alarm)).alarm.Off?
  }

  /** Calls that concern other alarms leave an alarm to its own timing. */
  lemma {:induction false} OthersDoNotMatter(calls: seq<Call>, a: Node, start: nat, delay: U32, period: nat -> U32,
      k: nat)
    requires forall i :: 0 <= i < |calls| ==> !calls[i].Names(a)
    ensures After(calls, a, start + k, true, Snapshot(AlarmAfter(start, delay, period, k), period))
         == Snapshot(AlarmAfter(start, delay, period, k + Ticks(calls)), period)
  {
    if calls == [] {
    } else {
      OthersDoNotMatter(calls[..|calls| - 1], a, start, delay, period, k);
    }
  }

  class Wheel {
    const head: Node
    var nticks: U32
    var tickRate: U32
    /** The registered alarms, first in the list first, and the ticks since power-on. */
    ghost var order: seq<Node>
    ghost var now: nat

    ghost predicate Valid()
      reads this, head, order
    {
      Linked(head, order) && nticks == now % WORD
    }

    constructor (tickRate: U32)
      ensures Valid() && order == [] && fresh(head) && this.tickRate == tickRate && now == 0
    {
      head := new Node();
      nticks, this.tickRate, order, now := 0, tickRate, [], 0;
      new;
    }

    method SetDeadline(alarm: Node, delay: U32)
      requires nticks == now % WORD
      modifies alarm`time, alarm`rollover
      ensures alarm.Timing() == StartTimer(delay, nticks)
      ensures TimedRight(now, delay) ==> Expiry(alarm.Timing(), now) == now + delay + 1 && OnTime(alarm.Timing(), now)
    {
      var current := nticks;
      alarm.time := (delay + current + 1) % WORD;
      if alarm.time < current {
        alarm.rollover := true;
      } else {
        alarm.rollover := false;
      }
      StartExpiry(delay, now);
    }

    /** `alt_alarm_start`. The list survives it exactly if the alarm is not registered already. */
    method AlarmStart(alarm: Node?, delay: U32, period: nat -> U32) returns (status: Status)
      requires Valid() && alarm != head
      modifies this`order, head`next, head`previous, order`previous, alarm
      ensures status == if tickRate == 0 then NotSupported else if alarm == null then Invalid else Ok
      ensures status != Ok ==> order == old(order) && unchanged(head) && unchanged(old(order))
      ensures status != Ok && alarm != null ==> unchanged(alarm)
      ensures status == Ok ==>
                && alarm.calls == 0 && alarm.period == period
                && alarm.Timing() == StartTimer(delay, nticks)
                && (TimedRight(now, delay) ==>
                      Expiry(alarm.Timing(), now) == now + delay + 1 && OnTime(alarm.Timing(), now))
      ensures status == Ok && alarm !in old(order) ==> order == [alarm] + old(order)
      ensures status == Ok ==>
                forall k: nat :: k < |old(order)| && alarm == old(order)[k] ==> Trapped(head, old(order), k)
      ensures Valid() <==> status != Ok || alarm !in old(order)
    {
      if tickRate == 0 {
        return NotSupported;
      }
      if alarm == null {
        return Invalid;
      }
      alarm.period := period;
      alarm.calls := 0;
      SetDeadline(alarm, delay);
      Insert(head, alarm, order);
      if alarm in order {
        ghost var k := Position(order, alarm);
        TrappedIsNotLinked(head, order, k, order);
      } else {
        order := [alarm] + order;
      }
      return Ok;
    }

    /** `alt_alarm_stop`: of a registered alarm, or of one that has been removed before. */
    method AlarmStop(alarm: Node)
      requires Valid() && alarm != head && (alarm in order || alarm.Alone())
      modifies this`order, head`next, head`previous, order`next, order`previous, alarm`next, alarm`previous
      ensures Valid() && alarm.Alone()
      ensures order == Without(old(order), Position(old(order), alarm))
      ensures alarm !in old(order) ==> unchanged(head) && unchanged(old(order)) && unchanged(alarm)
    {
      ghost var k := Position(order, alarm);
      Remove(alarm, head, order, k);
      order := Without(order, k);
    }

    /** The callback has asked for another call `period` ticks later. */
    method Reschedule(alarm: Node, period: U32)
      modifies alarm`time, alarm`rollover
      ensures alarm.Timing() == Rearm(old(alarm.Timing()), nticks, period)
    {
      alarm.time := (alarm.time + period) % WORD;
      if alarm.time < nticks {
        alarm.rollover := true;
      }
    }

    /** The body of the loop of `alt_tick`, for the alarm at place `k` of the list. */
    method VisitAlarm(alarm: Node, ghost k: nat)
      requires Valid() && k < |order| && alarm == order[k]
      modifies this`order, alarm, head`next, head`previous, order`next, order`previous
      ensures Valid() && IsVisit(old(alarm.State()), alarm.State(), alarm.Alone(), nticks)
      ensures order == if old(alarm.State()).Visit(nticks).Off? then Without(old(order), k) else old(order)
    {
      if alarm.rollover && nticks == 0 {
        alarm.rollover := false;
      }
      if alarm.time <= nticks && !alarm.rollover {
        var nextCallback := alarm.period(alarm.calls);
        alarm.calls := alarm.calls + 1;
        if nextCallback == 0 {
          Remove(alarm, head, order, k);
          order := Without(order, k);
        } else {
          Reschedule(alarm, nextCallback);
        }
      }
    }

    /** The next alarm to visit is in the list, and its link leads to the one after it. */
    lemma LinkToNext(s: seq<Node>, was: seq<Snapshot>, i: nat, k: nat)
      requires Valid() && |s| == |was| && i < |s|
      requires order == Rest(s, was, nticks, i) && k == |Survivors(s[..i], was[..i], nticks)|
      ensures k < |order| && order[k] == s[i] && s[i].next == At(head, s, i + 1)
      ensures Rest(s, was, nticks, i + 1) == if was[i].Visit(nticks).Off? then Without(order, k) else order
    {
      RestStep(head, s, was, nticks, i);
      assert LinkedAt(head, order, k + 1);
    }

    /** One iteration of the loop of `alt_tick`: the successor is read before the visit may unlink the node. */
    method VisitAndStep(alarm: Node, ghost s: seq<Node>, ghost was: seq<Snapshot>, ghost i: nat) returns (next: Node)
      requires Valid() && Distinct(head, s) && |s| == |was| && i < |s|
      requires alarm == s[i] && alarm.State() == was[i] && order == Rest(s, was, nticks, i)
      modifies this`order, alarm, head`next, head`previous, order`next, order`previous
      ensures Valid() && next == At(head, s, i + 1) && order == Rest(s, was, nticks, i + 1)
      ensures IsVisit(was[i], alarm.State(), alarm.Alone(), nticks)
    {
      ghost var k := |Survivors(s[..i], was[..i], nticks)|;
      LinkToNext(s, was, i, k);
      next := alarm.next;
      VisitAlarm(alarm, k);
    }

    method Advance(alarm: Node, ghost s: seq<Node>, ghost was: seq<Snapshot>, ghost i: nat) returns (next: Node)
      requires Valid() && Distinct(head, s) && |s| == |was| && i < |s|
      requires alarm == s[i] && order == Rest(s, was, nticks, i) && VisitedUpTo(s, was, nticks, i)
      modifies this`order, alarm, head`next, head`previous, s`next, s`previous
      ensures Valid() && next == At(head, s, i + 1) && order == Rest(s, was, nticks, i + 1)
      ensures VisitedUpTo(s, was, nticks, i + 1)
    {
      RestIsPart(s, was, nticks, i);
      next := VisitAndStep(alarm, s, was, i);
      forall j | 0 <= j < i ensures IsVisit(was[j], s[j].State(), s[j].Alone(), nticks) {
        if was[j].Visit(nticks).Off? {
          RemovedIsGone(head, s, was, nticks, i, j);
        }
      }
    }

    /** The loop of `alt_tick`. */
    method VisitAll()
      requires Valid()
      modifies this`order, head`next, head`previous, order
      ensures Valid() && order == Survivors(old(order), old(States(order)), nticks)
      ensures VisitedUpTo(old(order), old(States(order)), nticks, |old(order)|)
    {
      ghost var s, was := order, States(order);
      assert LinkedAt(head, s, 0);
      var alarm := head.next;
      ghost var i := 0;
      while alarm != head
        invariant Valid() && i <= |s| && alarm == At(head, s, i)
        invariant order == Rest(s, was, nticks, i)
        invariant VisitedUpTo(s, was, nticks, i)
        decreases |s| - i
      {
        alarm := Advance(alarm, s, was, i);
        i := i + 1;
      }
      RestAtEnd(s, was, nticks);
    }

    /**
      `alt_tick`: every registered alarm is visited exactly once, those whose callback asks for no further call
      leave the list, and the others stay in it in their order.
     */
    method Tick()
      requires Valid()
      modifies this`nticks, this`now, this`order, head`next, head`previous, order
      ensures Valid() && now == old(now) + 1
      ensures order == Survivors(old(order), old(States(order)), nticks)
      ensures VisitedUpTo(old(order), old(States(order)), nticks, |old(order)|)
    {
      nticks := (nticks + 1) % WORD;
      now := now + 1;
      VisitAll();
    }

    // ---------- Every alarm goes its own way ----------

    /** An alarm is in the list with the state the timing model gives it, or it has left the list. */
    ghost predicate Agrees(a: Node, s: Snapshot)
      reads this`order, a
    {
      && a.calls == s.alarm.calls && a.period == s.period
      && match s.alarm
         case Off(_) => a !in order && a.Alone()
         case Armed(timer, _) => a in order && a.Timing() == timer
    }

    /** The alarms of a set, among them all the registered ones, are as a model says. */
    ghost predicate AllAgree(nodes: set<Node>, model: Node -> Snapshot)
      reads this`order, nodes
    {
      && head !in nodes && (forall i :: 0 <= i < |order| ==> order[i] in nodes)
      && forall a :: a in nodes ==> Agrees(a, model(a))
    }

    method PerformStart(b: Node, delay: U32, period: nat -> U32, ghost nodes: set<Node>, ghost model: Node -> Snapshot)
      requires Valid() && AllAgree(nodes, model) && b in nodes && model(b).alarm.Off?
      modifies this`order, head`next, head`previous, nodes
      ensures Valid() && AllAgree(nodes, Effects(StartAlarm(b, delay, period), now, tickRate != 0, model))
    {
      ghost var s := order;
      assert forall a :: a in nodes ==> Agrees(a, model(a));
      var status := AlarmStart(b, delay, period);
      forall a | a in nodes ensures Agrees(a, Effect(StartAlarm(b, delay, period), a, now, tickRate != 0, model(a))) {
        assert old(Agrees(a, model(a)));
      }
    }

    method PerformStop(b: Node, ghost nodes: set<Node>, ghost model: Node -> Snapshot)
      requires Valid() && AllAgree(nodes, model) && b in nodes
      modifies this`order, head`next, head`previous, nodes
      ensures Valid() && AllAgree(nodes, Effects(StopAlarm(b), now, tickRate != 0, model))
    {
      ghost var s := order;
      ghost var k := Position(s, b);
      assert Agrees(b, model(b));
      AlarmStop(b);
      forall a | a in nodes && a != b ensures Agrees(a, model(a)) {
        assert old(Agrees(a, model(a)));
        WithoutKeeps(s, k, a);
      }
      assert b !in order by {
        if k < |s| {
          WithoutIsDistinct(head, s, k);
        }
      }
    }

    lemma TickedAgrees(a: Node, s: seq<Node>, was: seq<Snapshot>, m: Snapshot, j: nat)
      requires Distinct(head, s) && |s| == |was| && j < |s| && s[j] == a && was[j] == m
      requires order == Survivors(s, was, nticks) && VisitedUpTo(s, was, nticks, |s|)
      ensures Agrees(a, Snapshot(m.Visit(nticks), m.period))
    {
      SurvivesExactly(s, was, nticks, j);
    }

    /** One tick of the wheel is one tick of the timing model for every alarm. */
    method PerformTick(ghost nodes: set<Node>, ghost model: Node -> Snapshot)
      requires Valid() && AllAgree(nodes, model)
      modifies this`nticks, this`now, this`order, head`next, head`previous, nodes
      ensures Valid() && now == old(now) + 1
      ensures AllAgree(nodes, Effects(TimerTick, old(now), tickRate != 0, model))
    {
      ghost var s, was := order, States(order);
      Tick();
      forall a | a in nodes ensures Agrees(a, Effect(TimerTick, a, old(now), tickRate != 0, model(a))) {
        assert old(Agrees(a, model(a)));
        if a in s {
          TickedAgrees(a, s, was, model(a), Position(s, a));
        } else {
          NoNewSurvivors(s, was, nticks, a);
        }
      }
      RestAtEnd(s, was, nticks);
      RestIsPart(s, was, nticks, |s|);
    }

    method Perform(call: Call, ghost nodes: set<Node>, ghost model: Node -> Snapshot)
      requires Valid() && AllAgree(nodes, model)
      requires !call.TimerTick? ==> call.alarm in nodes
      requires call.StartAlarm? ==> model(call.alarm).alarm.Off?
      modifies this`nticks, this`now, this`order, head`next, head`previous, nodes
      ensures Valid() && now == old(now) + Ticks([call])
      ensures AllAgree(nodes, Effects(call, old(now), tickRate != 0, model))
    {
      assert [call][..0] == [];
      match call {
        case TimerTick => PerformTick(nodes, model);
        case StartAlarm(b, delay, period) => PerformStart(b, delay, period, nodes, model);
        case StopAlarm(b) => PerformStop(b, nodes, model);
      }
    }

    /**
      Over any sequence of starts, stops and ticks of any alarms, in which no alarm is started while it is registered,
      every alarm goes through the states that the timing model gives it, as if it were alone.
     */
    method Run(calls: seq<Call>, ghost nodes: set<Node>, ghost init: Node -> Snapshot)
      requires Valid() && AllAgree(nodes, init) && NamesOnly(calls, nodes)
      requires Legal(calls, now, tickRate != 0, init)
      modifies this`nticks, this`now, this`order, head`next, head`previous, nodes
      ensures Valid() && now == old(now) + Ticks(calls)
      ensures AllAgree(nodes, AllAfter(calls, old(now), tickRate != 0, init))
    {
      hide AllAgree, Agrees, Linked, Effect, After, Legal;
      ghost var start, clock := now, tickRate != 0;
      NoCallYet(start, clock, init, nodes);
      for k := 0 to |calls|
        invariant Valid() && now == start + Ticks(calls[..k])
        invariant AllAgree(nodes, AllAfter(calls[..k], start, clock, init))
      {
        ghost var model := AllAfter(calls[..k], start, clock, init);
        LegalNow(calls, k, start, clock, init);
        Perform(calls[k], nodes, model);
        OneMoreCall(calls, k, start, clock, init, nodes);
      }
      assert calls[..|calls|] == calls;
    }

    lemma NoCallYet(start: nat, clock: bool, init: Node -> Snapshot, nodes: set<Node>)
      requires AllAgree(nodes, init)
      ensures AllAgree(nodes, AllAfter([], start, clock, init))
    {
    }

    lemma LegalNow(calls: seq<Call>, k: nat, start: nat, clock: bool, init: Node -> Snapshot)
      requires Legal(calls, start, clock, init) && k < |calls|
      ensures calls[k].StartAlarm? ==> AllAfter(calls[..k], start, clock, init)(calls[k].alarm).alarm.Off?
    {
    }

    lemma OneMoreCall(calls: seq<Call>, k: nat, start: nat, clock: bool, init: Node -> Snapshot, nodes: set<Node>)
      requires k < |calls|
      requires
        var model := AllAfter(calls[..k], start, clock, init);
        AllAgree(nodes, Effects(calls[k], start + Ticks(calls[..k]), clock, model))
      ensures AllAgree(nodes, AllAfter(calls[..k + 1], start, clock, init))
      ensures Ticks(calls[..k + 1]) == Ticks(calls[..k]) + Ticks([calls[k]])
    {
      assert calls[..k + 1][..k] == calls[..k] && [calls[k]][..0] == [];
      forall a | a in nodes ensures Agrees(a, AllAfter(calls[..k + 1], start, clock, init)(a)) {
        var model := AllAfter(calls[..k], start, clock, init);
        assert Agrees(a, Effects(calls[k], start + Ticks(calls[..k]), clock, model)(a));
      }
    }

    lemma StartedModel(a: Node, delay: U32, period: nat -> U32, calls: seq<Call>, start: nat, init: Node -> Snapshot)
      requires forall i :: 0 <= i < |calls| ==> !calls[i].Names(a)
      ensures AllAfter(calls, start, true, Effects(StartAlarm(a, delay, period), start, true, init))(a)
           == Snapshot(AlarmAfter(start, delay, period, Ticks(calls)), period)
    {
      hide After;
      var first := Snapshot(AlarmAfter(start, delay, period, 0), period);
      assert AlarmAfter(start, delay, period, 0) == Armed(StartTimer(delay, start % WORD), 0);
      assert Effect(StartAlarm(a, delay, period), a, start, true, init(a)) == first;
      assert Effects(StartAlarm(a, delay, period), start, true, init)(a) == first;
      OthersDoNotMatter(calls, a, start, delay, period, 0);
      assert start + 0 == start;
    }

    /**
      An alarm that is started, and then left alone while others are started and stopped around it: after any number
      of ticks its callback has been called exactly as often as calls were scheduled by then, in unbounded time.
     */
    method StartAndRun(a: Node, delay: U32, period: nat -> U32, calls: seq<Call>,
        ghost nodes: set<Node>, ghost init: Node -> Snapshot)
      requires Valid() && tickRate != 0 && AllAgree(nodes, init) && a in nodes && init(a).alarm.Off?
      requires NamesOnly(calls, nodes) && forall i :: 0 <= i < |calls| ==> !calls[i].Names(a)
      requires Legal(calls, now, true, Effects(StartAlarm(a, delay, period), now, true, init))
      modifies this`nticks, this`now, this`order, head`next, head`previous, nodes
      ensures Valid() && now == old(now) + Ticks(calls)
      ensures Agrees(a, Snapshot(AlarmAfter(old(now), delay, period, Ticks(calls)), period))
      ensures TimedRight(old(now), delay) ==> a.calls == CallsBy(old(now), delay, period, Ticks(calls))
    {
      hide Linked, Effect, After, Legal;
      ghost var start := now;
      PerformStart(a, delay, period, nodes, init);
      ghost var model := Effects(StartAlarm(a, delay, period), start, true, init);
      Run(calls, nodes, model);
      StartedModel(a, delay, period, calls, start, init);
      assert Agrees(a, AllAfter(calls, start, true, model)(a));
      if TimedRight(start, delay) {
        CallsCounted(start, delay, period, Ticks(calls));
      }
    }
  }

  ghost function Position(s: seq<Node>, a: Node): (k: nat)
    ensures if a in s then k < |s| && s[k] == a else k == |s|
  {
    if a in s then var k: nat :| k < |s| && s[k] == a; k else |s|
  }
}
