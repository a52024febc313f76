/** The timer list of mpoll.c. Times are seconds and microseconds; the list is a sequence, head first. */
module TimerQueue {
  import opened Options

  const MILLION := 1_000_000

  datatype Time = Time(sec: int, usec: int) {
    /** The order the code compares in: seconds first. */
    predicate Less(t: Time) {
      sec < t.sec || (sec == t.sec && usec < t.usec)
    }

    /** The moment this time denotes, in microseconds. */
    function Real(): int {
      sec * MILLION + usec
    }

    /** A timer's microseconds may be left at exactly one million. */
    predicate Loose() {
      0 <= usec <= MILLION
    }
  }

  /** `id` stands for the timer's address; ids are given out in the order timers are started. */
  datatype Timer = Timer(at: Time, id: nat, callback: int)

  /** The order of the list: by seconds and microseconds, and among equals in start order. */
  predicate Before(a: Timer, b: Timer) {
    a.at.Less(b.at) || (a.at == b.at && a.id < b.id)
  }

  ghost predicate Ordered(ts: seq<Timer>) {
    && (forall i :: 0 <= i < |ts| ==> ts[i].at.Loose())
    && (forall i, j :: 0 <= i < j < |ts| ==> Before(ts[i], ts[j]))
  }

  // ---------------------------------------------------------------- order against real time

  lemma LessIsNotLater(a: Time, b: Time)
    requires a.Loose() && b.Loose() && a.Less(b)
    ensures a.Real() <= b.Real()
    ensures a.Real() == b.Real() <==> a.sec + 1 == b.sec && a.usec == MILLION && b.usec == 0
  {
  }

  /** The list is sorted by real deadline. */
  lemma OrderedByDeadline(ts: seq<Timer>, i: nat, j: nat)
    requires Ordered(ts) && i <= j < |ts|
    ensures ts[i].at.Real() <= ts[j].at.Real()
  {
    if i < j && ts[i].at.Less(ts[j].at) {
      LessIsNotLater(ts[i].at, ts[j].at);
    }
  }

  /** Timers with the same deadline stand in start order, unless the one started later has its microseconds
      at one million and the other at zero. */
  lemma TiesInStartOrderIff(ts: seq<Timer>, i: nat, j: nat)
    requires Ordered(ts) && i < |ts| && j < |ts|
    requires ts[i].at.Real() == ts[j].at.Real() && ts[i].id < ts[j].id
    ensures i < j <==> !(ts[j].at.usec == MILLION && ts[i].at.usec == 0)
  {
    if i < j {
      if ts[i].at.Less(ts[j].at) {
        LessIsNotLater(ts[i].at, ts[j].at);
      }
    } else {
      assert Before(ts[j], ts[i]);
      LessIsNotLater(ts[j].at, ts[i].at);
    }
  }

  /** The position of a new timer: after all those that are not later. */
  function Position(ts: seq<Timer>, t: Time): (k: nat)
    ensures k <= |ts|
    ensures forall i :: 0 <= i < k ==> !t.Less(ts[i].at)
    ensures k < |ts| ==> t.Less(ts[k].at)
  {
    if ts == [] || t.Less(ts[0].at) then 0 else 1 + Position(ts[1..], t)
  }

  lemma InsertedAmong(ts: seq<Timer>, n: Timer, i: nat)
    requires Ordered(ts) && i < |ts| && ts[i].id < n.id
    ensures i < Position(ts, n.at) ==> Before(ts[i], n)
    ensures Position(ts, n.at) <= i ==> Before(n, ts[i])
  {
    hide Position;
    var k := Position(ts, n.at);
    if k < i {
      assert Before(ts[k], ts[i]);
    }
  }

  lemma InsertOrdered(ts: seq<Timer>, n: Timer)
    requires Ordered(ts) && n.at.Loose() && Identified(ts, n.id)
    ensures var k := Position(ts, n.at);
      Ordered(ts[..k] + [n] + ts[k..])
  {
    hide Position, Before;
    var k := Position(ts, n.at);
    var r := ts[..k] + [n] + ts[k..];
    forall i, j | 0 <= i < j < |r|
      ensures Before(r[i], r[j])
    {
      if i == k {
        InsertedAmong(ts, n, j - 1);
      } else if j == k {
        InsertedAmong(ts, n, i);
      } else {
        assert Before(ts[if i < k then i else i - 1], ts[if j < k then j else j - 1]);
      }
    }
  }

  /** Ids are distinct, and below those of timers still to be started. */
  ghost predicate Identified(ts: seq<Timer>, started: nat) {
    && (forall i :: 0 <= i < |ts| ==> ts[i].id < started)
    && (forall i, j :: 0 <= i < j < |ts| ==> ts[i].id != ts[j].id)
  }

  lemma InsertIdentified(ts: seq<Timer>, n: Timer, k: nat)
    requires Identified(ts, n.id) && k <= |ts|
    ensures Identified(ts[..k] + [n] + ts[k..], n.id + 1)
  {
    var r := ts[..k] + [n] + ts[k..];
    assert forall i :: 0 <= i < |r| ==> r[i] == if i < k then ts[i] else if i == k then n else ts[i - 1];
  }

  lemma RemoveIdentified(ts: seq<Timer>, i: nat, started: nat)
    requires Identified(ts, started) && i < |ts|
    ensures Identified(ts[..i] + ts[i + 1..], started)
  {
  }

  lemma RemoveOrdered(ts: seq<Timer>, i: nat)
    requires Ordered(ts) && i < |ts|
    ensures Ordered(ts[..i] + ts[i + 1..])
  {
  }

  // ---------------------------------------------------------------- the queue

  class Queue {
    var now: Time
    var timers: seq<Timer>
    var started: nat
    var fired: seq<Timer>

    ghost predicate Valid()
      reads this
    {
      && 0 <= now.usec < MILLION
      && Ordered(timers)
      && Identified(timers, started)
    }

    constructor (now: Time)
      requires 0 <= now.usec < MILLION
      ensures Valid() && timers == [] && fired == [] && started == 0 && this.now == now
    {
      this.now, timers, started, fired := now, [], 0, [];
    }

    /** Walks to the first later timer and inserts before it, or at the end. */
    method Insert(n: Timer)
      requires Valid() && n.at.Loose() && n.id == started
      modifies this`timers, this`started
      ensures Valid() && started == old(started) + 1
      ensures var k := Position(old(timers), n.at); timers == old(timers)[..k] + [n] + old(timers)[k..]
    {
      hide Position, Ordered, Identified;
      var walk := 0;
      while walk < |timers| && !n.at.Less(timers[walk].at)
        invariant walk <= |timers|
        invariant forall i :: 0 <= i < walk ==> !n.at.Less(timers[i].at)
      {
        walk := walk + 1;
      }
      PositionIs(timers, n.at, walk);
      InsertOrdered(timers, n);
      InsertIdentified(timers, n, walk);
      timers := timers[..walk] + [n] + timers[walk..];
      started := started + 1;
    }

    /** Starts a timer a number of microseconds from now. Its deadline is exact, whatever its form. */
    method StartMicroseconds(usec: nat, callback: int) returns (t: Timer)
      requires Valid()
      modifies this`timers, this`started
      ensures Valid() && t.id == old(started) && started == t.id + 1 && t.callback == callback
      ensures t.at.Real() == now.Real() + usec && !t.at.Less(now)
      ensures t.at.usec == MILLION <==> now.usec + usec > 0 && (now.usec + usec) % MILLION == 0
      ensures var k := Position(old(timers), t.at); timers == old(timers)[..k] + [t] + old(timers)[k..]
    {
      var at := Time(now.sec, now.usec + usec);
      while at.usec > MILLION
        invariant at.usec >= 0 && at.Real() == now.Real() + usec
        invariant at.usec > 0 || now.usec + usec == 0
        invariant !at.Less(now)
        invariant at.usec % MILLION == (now.usec + usec) % MILLION
        decreases at.usec
      {
        at := Time(at.sec + 1, at.usec - MILLION);
      }
      t := Timer(at, started, callback);
      Insert(t);
    }

    method StartSeconds(sec: int, callback: int) returns (t: Timer)
      requires Valid()
      modifies this`timers, this`started
      ensures Valid() && t.id == old(started) && started == t.id + 1 && t.callback == callback
      ensures t.at.Real() == now.Real() + sec * MILLION && t.at.usec < MILLION
      ensures sec >= 0 ==> !t.at.Less(now)
      ensures var k := Position(old(timers), t.at); timers == old(timers)[..k] + [t] + old(timers)[k..]
    {
      t := Timer(Time(now.sec + sec, now.usec), started, callback);
      Insert(t);
    }

    /** Stops a timer if it is still in the list, and nothing else. */
    method Stop(id: nat)
      requires Valid()
      modifies this`timers
      ensures Valid()
      ensures (forall i :: 0 <= i < |old(timers)| ==> old(timers)[i].id != id) ==> timers == old(timers)
      ensures forall i :: 0 <= i < |old(timers)| && old(timers)[i].id == id ==>
        timers == old(timers)[..i] + old(timers)[i + 1..]
    {
      var walk := 0;
      while walk < |timers|
        invariant walk <= |timers| && timers == old(timers)
        invariant forall i :: 0 <= i < walk ==> timers[i].id != id
      {
        if timers[walk].id == id {
          RemoveOrdered(timers, walk);
          timers := timers[..walk] + timers[walk + 1..];
          return;
        }
        walk := walk + 1;
      }
    }

    /** The time until the first deadline, or zero when it has passed. */
    method Next() returns (delta: Time)
      requires Valid() && timers != []
      ensures var left := timers[0].at.Real() - now.Real();
        delta.Real() == if left < 0 then 0 else left
      ensures delta.Loose()
    {
      assert timers[0].at.Loose();
      delta := Time(timers[0].at.sec - now.sec, timers[0].at.usec - now.usec);
      while delta.usec < 0
        invariant delta.Real() == timers[0].at.Real() - now.Real() && -MILLION < delta.usec <= MILLION
      {
        delta := Time(delta.sec - 1, delta.usec + MILLION);
      }
      if delta.sec < 0 {
        delta := Time(0, 0);
      }
    }

    /** The first `k` of the timers have been fired, in order, and the others remain. */
    ghost predicate Expired(was: seq<Timer>, k: int, before: seq<Timer>)
      reads this
    {
      && 0 <= k <= |was|
      && fired == before + was[..k] && timers == was[k..]
      && (forall i :: 0 <= i < k ==> was[i].at.Less(now) && was[i].at.Real() <= now.Real())
      && (forall i :: k <= i < |was| ==> !was[i].at.Less(now) && now.Real() <= was[i].at.Real())
    }

    /** Fires due timers from the head of the list, for callbacks that add no timers. Every timer is either
        fired, in order, or still in the list; none fired has its deadline after now, and none left has it
        before now. */
    method Expire()
      requires Valid()
      modifies this`timers, this`fired
      ensures Valid()
      ensures exists k :: Expired(old(timers), k, old(fired))
    {
      hide Ordered, Identified;
      ghost var k := 0;
      while timers != [] && timers[0].at.Less(now)
        invariant Valid() && 0 <= k <= |old(timers)|
        invariant fired == old(fired) + old(timers)[..k] && timers == old(timers)[k..]
        invariant forall i :: 0 <= i < k ==> old(timers)[i].at.Less(now) && old(timers)[i].at.Real() <= now.Real()
        decreases |timers|
      {
        HeadRemoved(timers, started);
        LessIsNotLater(timers[0].at, now);
        assert timers[0] == old(timers)[k] && old(timers)[..k] + [old(timers)[k]] == old(timers)[..k + 1];
        fired := fired + [timers[0]];
        timers := timers[1..];
        k := k + 1;
      }
      RestIsNotDue(timers, now);
      forall i | k <= i < |old(timers)|
        ensures !old(timers)[i].at.Less(now) && now.Real() <= old(timers)[i].at.Real()
      {
        assert old(timers)[i] == timers[i - k];
      }
      assert Expired(old(timers), k, old(fired));
    }
  }

  lemma HeadRemoved(ts: seq<Timer>, started: nat)
    requires Ordered(ts) && Identified(ts, started) && ts != []
    ensures Ordered(ts[1..]) && Identified(ts[1..], started) && ts[0].at.Loose()
  {
  }

  lemma RestIsNotDue(ts: seq<Timer>, now: Time)
    requires Ordered(ts) && 0 <= now.usec < MILLION && (ts != [] ==> !ts[0].at.Less(now))
    ensures forall i :: 0 <= i < |ts| ==> !ts[i].at.Less(now) && now.Real() <= ts[i].at.Real()
  {
    forall i | 0 <= i < |ts|
      ensures !ts[i].at.Less(now) && now.Real() <= ts[i].at.Real()
    {
      assert i > 0 ==> Before(ts[0], ts[i]);
      OrderedByDeadline(ts, 0, i);
      NotLessIsNotEarlier(ts[0].at, now);
    }
  }

  // ---------------------------------------------------------------- whole runs

  datatype Op = Microseconds(usec: nat) | Seconds(sec: nat) | Cancel(id: nat) | Clock(now: Time) | ExpireDue

  /** The clock does not go back. */
  predicate Forward(ops: seq<Op>, now: Time)
    decreases |ops|
  {
    ops == [] ||
    if ops[0].Clock? then
      0 <= ops[0].now.usec < MILLION && now.Real() <= ops[0].now.Real() && Forward(ops[1..], ops[0].now)
    else Forward(ops[1..], now)
  }

  /** The clock after the operations. */
  function ClockAfter(ops: seq<Op>, now: Time): Time {
    if ops == [] then now
    else if ops[|ops| - 1].Clock? then ops[|ops| - 1].now
    else ClockAfter(ops[..|ops| - 1], now)
  }

  /** The clock at the last expiry. */
  function LastExpiry(ops: seq<Op>, now: Time): Option<Time> {
    if ops == [] then None
    else if ops[|ops| - 1] == ExpireDue then Some(ClockAfter(ops[..|ops| - 1], now))
    else LastExpiry(ops[..|ops| - 1], now)
  }

  /** The deadline of the timer that an operation starts: the clock and the delay. */
  function Delays(op: Op, clock: int): seq<int> {
    match op
    case Microseconds(usec) => [clock + usec]
    case Seconds(sec) => [clock + sec * MILLION]
    case _ => []
  }

  /** The deadlines of the timers in the order they are started. */
  function Deadlines(ops: seq<Op>, now: Time): seq<int> {
    if ops == [] then [] else
      var n := |ops| - 1;
      Deadlines(ops[..n], now) + Delays(ops[n], ClockAfter(ops[..n], now).Real())
  }

  /** The timer of an id, if it is in the list. */
  function WithId(ts: seq<Timer>, id: nat): seq<Timer> {
    if ts == [] then [] else if ts[0].id == id then [ts[0]] else WithId(ts[1..], id)
  }

  lemma {:induction false} FindId(ts: seq<Timer>, id: nat) returns (k: nat)
    ensures k <= |ts| && forall i :: 0 <= i < k ==> ts[i].id != id
    ensures if k < |ts| then ts[k].id == id && WithId(ts, id) == [ts[k]] else WithId(ts, id) == []
  {
    k := 0;
    if ts != [] && ts[0].id != id {
      k := FindId(ts[1..], id);
      k := k + 1;
    }
  }

  lemma RemovedApart(ts: seq<Timer>, k: nat)
    requires k < |ts|
    ensures multiset(ts) == multiset(ts[..k] + ts[k + 1..]) + multiset([ts[k]])
  {
    assert ts == ts[..k] + [ts[k]] + ts[k + 1..];
  }

  lemma StoppedApart(was: seq<Timer>, now: seq<Timer>, id: nat)
    requires (forall i :: 0 <= i < |was| ==> was[i].id != id) ==> now == was
    requires forall i :: 0 <= i < |was| && was[i].id == id ==> now == was[..i] + was[i + 1..]
    ensures multiset(was) == multiset(now) + multiset(WithId(was, id))
    ensures forall t :: t in WithId(was, id) ==> t.id == id
    ensures now == was || exists i :: 0 <= i < |was| && now == was[..i] + was[i + 1..]
  {
    var k := FindId(was, id);
    if k < |was| {
      RemovedApart(was, k);
      assert now == was[..k] + was[k + 1..];
    }
  }

  /** A timer that has fired stands before one started afterwards, even if both have the same deadline. */
  lemma FiredBeforeStarted(f: Timer, t: Timer, now: Time)
    requires f.at.Loose() && t.at.Loose() && 0 <= now.usec < MILLION
    requires f.at.Less(now) && now.Real() <= t.at.Real() && f.id < t.id
    ensures Before(f, t)
  {
    if t.at.Less(now) {
      LessIsNotLater(t.at, now);
    }
  }

  /** What has fired is all before the clock. */
  ghost predicate Past(fired: seq<Timer>, now: Time) {
    forall i :: 0 <= i < |fired| ==> fired[i].at.Less(now)
  }

  lemma PastLater(fired: seq<Timer>, now: Time, later: Time)
    requires Past(fired, now) && 0 <= now.usec < MILLION && 0 <= later.usec < MILLION && now.Real() <= later.Real()
    ensures Past(fired, later)
  {
  }

  lemma FiredIds(fired: seq<Timer>, was: seq<Timer>, started: nat)
    requires Identified(fired + was, started)
    ensures forall i :: 0 <= i < |fired| ==> fired[i].id < started
  {
    assert forall i :: 0 <= i < |fired| ==> fired[i] == (fired + was)[i];
  }

  lemma StartedBehind(fired: seq<Timer>, was: seq<Timer>, now: Time, k: nat, t: Timer)
    requires Ordered(fired + was) && Past(fired, now) && 0 <= now.usec < MILLION
    requires Identified(fired + was, t.id) && now.Real() <= t.at.Real()
    requires k == Position(was, t.at) && Ordered(was[..k] + [t] + was[k..])
    ensures Ordered(fired + (was[..k] + [t] + was[k..]))
    ensures Identified(fired + (was[..k] + [t] + was[k..]), t.id + 1)
  {
    hide Position, Before, Identified;
    var all, next := fired + was, was[..k] + [t] + was[k..];
    var r := fired + next;
    var m := |fired| + k;
    assert r == all[..m] + [t] + all[m..];
    InsertIdentified(all, t, m);
    FiredIds(fired, was, t.id);
    forall i | 0 <= i < |r| ensures r[i].at.Loose() {
      assert r[i] == if i < |fired| then all[i] else next[i - |fired|];
    }
    forall i, j | 0 <= i < j < |r|
      ensures Before(r[i], r[j])
    {
      if i >= |fired| {
        assert r[i] == next[i - |fired|] && r[j] == next[j - |fired|];
      } else if j == m {
        assert fired[i] == all[i] && r[j] == next[k] == t;
        FiredBeforeStarted(fired[i], t, now);
      } else {
        assert r[i] == all[i] && r[j] == all[if j < m then j else j - 1];
      }
    }
  }

  lemma StoppedInside(fired: seq<Timer>, was: seq<Timer>, now: seq<Timer>, started: nat)
    requires Ordered(fired + was) && Identified(fired + was, started)
    requires now == was || exists i :: 0 <= i < |was| && now == was[..i] + was[i + 1..]
    ensures Ordered(fired + now) && Identified(fired + now, started)
  {
    hide Ordered, Identified;
    if now != was {
      var i :| 0 <= i < |was| && now == was[..i] + was[i + 1..];
      RemoveOrdered(fired + was, |fired| + i);
      RemoveIdentified(fired + was, |fired| + i, started);
      assert (fired + was)[..|fired| + i] + (fired + was)[|fired| + i + 1..] == fired + now;
    }
  }

  /** Those that have fired are the timers before the clock of the last expiry, in the order the code compares in. */
  ghost predicate Divided(fired: seq<Timer>, left: seq<Timer>, at: Option<Time>) {
    && (forall t :: t in fired ==> at.Some? && t.at.Less(at.value))
    && (forall t :: t in left ==> at.Some? ==> !t.at.Less(at.value))
  }

  /** A time in proper form that is not after the clock. */
  predicate NotAfter(at: Option<Time>, now: Time) {
    at.Some? ==> 0 <= at.value.usec < MILLION && at.value.Real() <= now.Real()
  }

  lemma LaterIsNotLess(t: Time, at: Time, now: Time)
    requires 0 <= at.usec < MILLION && 0 <= now.usec < MILLION && at.Real() <= now.Real()
    ensures !t.Less(now) ==> !t.Less(at)
    ensures t.Less(at) ==> t.Less(now)
  {
  }

  /** The timers as they were started: numbered in that order, with these deadlines. */
  ghost predicate AsStarted(started: seq<Timer>, deadlines: seq<int>) {
    |started| == |deadlines| && forall i :: 0 <= i < |started| ==> started[i].id == i && started[i].at.Real() == deadlines[i]
  }

  /** One expiry, of which nothing fired before was later. */
  lemma MoreFired(q: Queue, was: seq<Timer>, k: int, before: seq<Timer>, at: Option<Time>)
    requires q.Expired(was, k, before) && Divided(before, was, at) && Past(before, q.now)
    requires NotAfter(at, q.now) && 0 <= q.now.usec < MILLION
    ensures q.fired + q.timers == before + was
    ensures multiset(q.fired) + multiset(q.timers) == multiset(before) + multiset(was)
    ensures Divided(q.fired, q.timers, Some(q.now)) && Past(q.fired, q.now)
  {
    SplitAt(before, was, k);
    forall t | t in q.fired ensures t.at.Less(q.now) {
      var i :| 0 <= i < |q.fired| && q.fired[i] == t;
      assert t == if i < |before| then before[i] else was[i - |before|];
    }
    forall t | t in q.timers ensures !t.at.Less(q.now) {
      var i :| 0 <= i < |q.timers| && q.timers[i] == t;
      assert t == was[k + i];
    }
  }

  lemma SplitAt(before: seq<Timer>, was: seq<Timer>, k: nat)
    requires k <= |was|
    ensures before + was[..k] + was[k..] == before + was
    ensures multiset(before + was[..k]) + multiset(was[k..]) == multiset(before) + multiset(was)
  {
    assert was == was[..k] + was[k..];
  }

  /** What a run keeps. `first` is the clock at its beginning, `now` that after `ops`. */
  ghost predicate Kept(fired: seq<Timer>, stopped: seq<Timer>, left: seq<Timer>, started: seq<Timer>,
                       ops: seq<Op>, first: Time, now: Time) {
    && now == ClockAfter(ops, first) && 0 <= now.usec < MILLION
    && AsStarted(started, Deadlines(ops, first))
    && multiset(started) == multiset(fired) + multiset(stopped) + multiset(left)
    && (forall t :: t in stopped ==> Cancel(t.id) in ops)
    && Ordered(fired + left) && Identified(fired + left, |started|) && Past(fired, now)
    && var at := LastExpiry(ops, first); Divided(fired, left, at) && NotAfter(at, now)
  }

  lemma KeptAtFirst(now: Time)
    requires 0 <= now.usec < MILLION
    ensures Kept([], [], [], [], [], now, now)
  {
    var none: seq<Timer> := [];
    assert none + none == none;
  }

  lemma ClockMore(ops: seq<Op>, op: Op, first: Time)
    ensures ClockAfter(ops + [op], first) == if op.Clock? then op.now else ClockAfter(ops, first)
  {
    var all := ops + [op];
    assert all[..|all| - 1] == ops;
  }

  lemma ExpiryMore(ops: seq<Op>, op: Op, first: Time)
    ensures LastExpiry(ops + [op], first) ==
      if op == ExpireDue then Some(ClockAfter(ops, first)) else LastExpiry(ops, first)
  {
    hide ClockAfter;
    var all := ops + [op];
    assert all[..|all| - 1] == ops;
  }

  lemma DeadlinesMore(ops: seq<Op>, op: Op, first: Time)
    ensures var clock := ClockAfter(ops, first).Real();
      Deadlines(ops + [op], first) == Deadlines(ops, first) + Delays(op, clock)
    ensures !op.Microseconds? && !op.Seconds? ==> Deadlines(ops + [op], first) == Deadlines(ops, first)
  {
    hide ClockAfter;
    var all := ops + [op];
    assert all[..|all| - 1] == ops;
    assert Deadlines(ops, first) + [] == Deadlines(ops, first);
  }

  lemma InMore(ops: seq<Op>, op: Op)
    ensures forall o :: o in ops ==> o in ops + [op]
    ensures op in ops + [op]
  {
  }

  /** What one more operation adds to the account. */
  lemma OneMore(ops: seq<Op>, op: Op, first: Time)
    ensures ClockAfter(ops + [op], first) == if op.Clock? then op.now else ClockAfter(ops, first)
    ensures LastExpiry(ops + [op], first) ==
      if op == ExpireDue then Some(ClockAfter(ops, first)) else LastExpiry(ops, first)
    ensures var clock := ClockAfter(ops, first).Real();
      Deadlines(ops + [op], first) == Deadlines(ops, first) + Delays(op, clock)
    ensures !op.Microseconds? && !op.Seconds? ==> Deadlines(ops + [op], first) == Deadlines(ops, first)
    ensures forall o :: o in ops ==> o in ops + [op]
    ensures op in ops + [op]
  {
    hide ClockAfter, LastExpiry, Deadlines, Delays;
    ClockMore(ops, op, first);
    ExpiryMore(ops, op, first);
    DeadlinesMore(ops, op, first);
    InMore(ops, op);
  }

  lemma KeptWhenStarted(fired: seq<Timer>, stopped: seq<Timer>, left: seq<Timer>, started: seq<Timer>,
                        ops: seq<Op>, first: Time, now: Time, op: Op, t: Timer, next: seq<Timer>)
    requires Kept(fired, stopped, left, started, ops, first, now)
    requires op.Microseconds? || op.Seconds?
    requires t.at.Real() == now.Real() + if op.Seconds? then op.sec * MILLION else op.usec
    requires t.id == |started| && multiset(next) == multiset(left) + multiset([t])
    requires Ordered(fired + next) && Identified(fired + next, t.id + 1)
    requires now.Real() <= t.at.Real() && !t.at.Less(now)
    ensures Kept(fired, stopped, next, started + [t], ops + [op], first, now)
  {
    hide Ordered, Identified, Past, ClockAfter, LastExpiry, Deadlines, Divided;
    OneMore(ops, op, first);
    var at := LastExpiry(ops, first);
    if at.Some? {
      LaterIsNotLess(t.at, at.value, now);
    }
    DividedStarted(fired, left, at, t, next);
    assert multiset(started + [t]) == multiset(started) + multiset([t]);
  }

  lemma DividedStarted(fired: seq<Timer>, left: seq<Timer>, at: Option<Time>, t: Timer, next: seq<Timer>)
    requires Divided(fired, left, at) && (at.Some? ==> !t.at.Less(at.value))
    requires multiset(next) == multiset(left) + multiset([t])
    ensures Divided(fired, next, at)
  {
    forall u | u in next ensures u == t || u in left {
      assert u in multiset(next);
    }
  }

  /** A new timer in its place behind what has fired. */
  lemma InItsPlace(fired: seq<Timer>, stopped: seq<Timer>, left: seq<Timer>, started: seq<Timer>,
                   ops: seq<Op>, first: Time, now: Time, t: Timer, k: nat)
    requires Kept(fired, stopped, left, started, ops, first, now)
    requires t.id == |started| && now.Real() <= t.at.Real()
    requires k == Position(left, t.at) && Ordered(left[..k] + [t] + left[k..])
    ensures var next := left[..k] + [t] + left[k..];
      && multiset(next) == multiset(left) + multiset([t])
      && Ordered(fired + next) && Identified(fired + next, t.id + 1)
  {
    hide Ordered, Identified, Past, Position, Divided, ClockAfter, LastExpiry, Deadlines;
    StartedBehind(fired, left, now, k, t);
    StartedApart(left, k, t);
  }

  lemma KeptWhenStopped(fired: seq<Timer>, stopped: seq<Timer>, left: seq<Timer>, started: seq<Timer>,
                        ops: seq<Op>, first: Time, now: Time, id: nat, found: seq<Timer>, after: seq<Timer>)
    requires Kept(fired, stopped, left, started, ops, first, now)
    requires multiset(left) == multiset(after) + multiset(found) && forall t :: t in found ==> t.id == id
    requires Ordered(fired + after) && Identified(fired + after, |started|)
    ensures Kept(fired, stopped + found, after, started, ops + [Cancel(id)], first, now)
  {
    hide Ordered, Identified, Past, Divided, ClockAfter, LastExpiry, Deadlines, AsStarted;
    OneMore(ops, Cancel(id), first);
    DividedStopped(fired, left, found, after, LastExpiry(ops, first));
    assert multiset(stopped + found) == multiset(stopped) + multiset(found);
  }

  lemma DividedStopped(fired: seq<Timer>, left: seq<Timer>, found: seq<Timer>, after: seq<Timer>, at: Option<Time>)
    requires Divided(fired, left, at) && multiset(left) == multiset(after) + multiset(found)
    ensures Divided(fired, after, at)
  {
    forall u | u in after ensures u in left {
      assert u in multiset(left);
    }
  }

  lemma KeptWhenLater(fired: seq<Timer>, stopped: seq<Timer>, left: seq<Timer>, started: seq<Timer>,
                      ops: seq<Op>, first: Time, now: Time, later: Time)
    requires Kept(fired, stopped, left, started, ops, first, now)
    requires 0 <= later.usec < MILLION && now.Real() <= later.Real()
    ensures Kept(fired, stopped, left, started, ops + [Clock(later)], first, later)
  {
    hide Ordered, Identified, Past, Divided, ClockAfter, LastExpiry, Deadlines, AsStarted;
    OneMore(ops, Clock(later), first);
    PastLater(fired, now, later);
  }

  lemma KeptWhenExpired(q: Queue, stopped: seq<Timer>, started: seq<Timer>, ops: seq<Op>, first: Time,
                        was: seq<Timer>, k: int, before: seq<Timer>)
    requires Kept(before, stopped, was, started, ops, first, q.now) && q.Expired(was, k, before)
    ensures Kept(q.fired, stopped, q.timers, started, ops + [ExpireDue], first, q.now)
  {
    hide Ordered, Identified, Past, Divided, ClockAfter, LastExpiry, Deadlines, AsStarted;
    OneMore(ops, ExpireDue, first);
    MoreFired(q, was, k, before, LastExpiry(ops, first));
    SumsMove(multiset(before), multiset(stopped), multiset(was), multiset(q.fired), multiset(q.timers));
  }

  lemma SumsMove(a: multiset<Timer>, b: multiset<Timer>, c: multiset<Timer>, d: multiset<Timer>, e: multiset<Timer>)
    requires d + e == a + c
    ensures d + b + e == a + b + c
  {
    forall t: Timer ensures (d + b + e)[t] == (a + b + c)[t] {
      assert (d + e)[t] == (a + c)[t];
    }
  }

  lemma KeptMeans(fired: seq<Timer>, stopped: seq<Timer>, left: seq<Timer>, started: seq<Timer>,
                  ops: seq<Op>, first: Time, now: Time)
    requires Kept(fired, stopped, left, started, ops, first, now)
    ensures AsStarted(started, Deadlines(ops, first))
    ensures multiset(started) == multiset(fired) + multiset(stopped) + multiset(left)
    ensures forall t :: t in stopped ==> Cancel(t.id) in ops
    ensures Ordered(fired + left) && Identified(fired + left, |started|)
    ensures Divided(fired, left, LastExpiry(ops, first))
  {
  }

  /** Over every run in which the clock does not go back: every timer started is at the end in exactly one of the timers
      fired, those stopped, which have been cancelled, and those left. Those fired are the ones due at the last expiry,
      and they have fired in the order of the list: by deadline, even over different expiries, and with the same
      deadline as TiesInStartOrderIff says. */
  method Run(now: Time, ops: seq<Op>)
    returns (fired: seq<Timer>, stopped: seq<Timer>, left: seq<Timer>, started: seq<Timer>)
    requires 0 <= now.usec < MILLION && Forward(ops, now)
    ensures AsStarted(started, Deadlines(ops, now))
    ensures multiset(started) == multiset(fired) + multiset(stopped) + multiset(left)
    ensures forall t :: t in stopped ==> Cancel(t.id) in ops
    ensures Ordered(fired + left) && Identified(fired + left, |started|)
    ensures Divided(fired, left, LastExpiry(ops, now))
  {
    hide Kept, Ordered, Identified, Position, WithId, AsStarted, Deadlines, LastExpiry, ClockAfter, Divided;
    var q := new Queue(now);
    stopped, started := [], [];
    KeptAtFirst(now);
    var i := 0;
    while i < |ops|
      invariant i <= |ops| && fresh(q) && q.Valid() && Forward(ops[i..], q.now) && q.started == |started|
      invariant Kept(q.fired, stopped, q.timers, started, ops[..i], now, q.now)
    {
      assert ops[i..][0] == ops[i] && ops[i..][1..] == ops[i + 1..] && ops[..i + 1] == ops[..i] + [ops[i]];
      ghost var was, before := q.timers, q.fired;
      match ops[i] {
        case Microseconds(usec) =>
          var t := q.StartMicroseconds(usec, 0);
          InItsPlace(before, stopped, was, started, ops[..i], now, q.now, t, Position(was, t.at));
          KeptWhenStarted(before, stopped, was, started, ops[..i], now, q.now, ops[i], t, q.timers);
          started := started + [t];
        case Seconds(sec) =>
          var t := q.StartSeconds(sec, 0);
          InItsPlace(before, stopped, was, started, ops[..i], now, q.now, t, Position(was, t.at));
          KeptWhenStarted(before, stopped, was, started, ops[..i], now, q.now, ops[i], t, q.timers);
          started := started + [t];
        case Cancel(id) =>
          var found := WithId(q.timers, id);
          q.Stop(id);
          StoppedApart(was, q.timers, id);
          KeptMeans(before, stopped, was, started, ops[..i], now, q.now);
          StoppedInside(before, was, q.timers, |started|);
          KeptWhenStopped(before, stopped, was, started, ops[..i], now, q.now, id, found, q.timers);
          stopped := stopped + found;
        case Clock(later) =>
          KeptWhenLater(before, stopped, was, started, ops[..i], now, q.now, later);
          q.now := later;
        case ExpireDue =>
          q.Expire();
          ghost var k :| q.Expired(was, k, before);
          KeptWhenExpired(q, stopped, started, ops[..i], now, was, k, before);
      }
      i := i + 1;
    }
    assert ops[..i] == ops;
    fired, left := q.fired, q.timers;
    KeptMeans(fired, stopped, left, started, ops, now, q.now);
  }

  lemma StartedApart(was: seq<Timer>, k: nat, t: Timer)
    requires k <= |was|
    ensures multiset(was[..k] + [t] + was[k..]) == multiset(was) + multiset([t])
  {
    assert was == was[..k] + was[k..];
  }

  lemma PositionIs(ts: seq<Timer>, t: Time, k: nat)
    requires k <= |ts| && (forall i :: 0 <= i < k ==> !t.Less(ts[i].at)) && (k < |ts| ==> t.Less(ts[k].at))
    ensures Position(ts, t) == k
  {
  }

  lemma NotLessIsNotEarlier(a: Time, now: Time)
    requires a.Loose() && 0 <= now.usec < MILLION && !a.Less(now)
    ensures now.Real() <= a.Real()
  {
  }

  /** At 5.0 seconds, a timer of one second and then one of 1000000 microseconds: both are due at 6.0, but the
      second stands first. */
  method TieOutOfOrder() returns (first: Timer, second: Timer, list: seq<Timer>)
    ensures first.at.Real() == second.at.Real() && first.id < second.id && list == [second, first]
  {
    var q := new Queue(Time(5, 0));
    first := q.StartSeconds(1, 1);
    second := q.StartMicroseconds(MILLION, 2);
    list := q.timers;
  }
}
