/** EpollTimer of timer/src/epoll_timer.cpp: a min-heap with lazy deletion through the map of active
    timers, and one kernel timer armed for the earliest deadline. The priority queue is a multiset
    whose top is some entry of least expiry; the kernel timer is the deadline it was last armed for;
    the clock is a parameter. */
module EpollTimer {
  import opened EpollSpec
  import opened Options
  import Bits
  import Lists

  ghost predicate Least(heap: multiset<Entry>, e: Entry) {
    e in heap && forall x :: x in heap ==> e.expiry <= x.expiry
  }

  lemma {:induction false} LeastExists(heap: multiset<Entry>)
    requires |heap| > 0
    ensures exists e :: Least(heap, e)
  {
    var x :| x in heap;
    var rest := heap - multiset{x};
    assert forall y :: y in heap ==> y == x || y in rest;
    if |rest| == 0 {
      assert Least(heap, x);
    } else {
      LeastExists(rest);
      var e :| Least(rest, e);
      if e.expiry <= x.expiry { assert Least(heap, e); } else { assert Least(heap, x); }
    }
  }

  /** Heap ids are distinct; every active timer has its own entry, as is, in the heap. */
  ghost predicate Matched(heap: multiset<Entry>, active: map<TimerId, Entry>, nextId: TimerId) {
    && nextId >= 1
    && (forall e :: e in heap ==> heap[e] == 1 && 1 <= e.id < nextId)
    && (forall e, x :: e in heap && x in heap && e.id == x.id ==> e == x)
    && (forall id :: id in active ==> active[id].id == id && active[id] in heap)
  }

  lemma PopStale(heap: multiset<Entry>, active: map<TimerId, Entry>, nextId: TimerId, e: Entry)
    requires Matched(heap, active, nextId) && e in heap && (e.id !in active || active[e.id].expiry != e.expiry)
    ensures e.id !in active && Matched(heap - multiset{e}, active, nextId)
  {
  }

  lemma PopLive(heap: multiset<Entry>, active: map<TimerId, Entry>, nextId: TimerId, e: Entry)
    requires Matched(heap, active, nextId) && e in heap && e.id in active
    ensures active[e.id] == e && Matched(heap - multiset{e}, active - {e.id}, nextId)
  {
  }

  lemma DropActive(heap: multiset<Entry>, active: map<TimerId, Entry>, nextId: TimerId, id: TimerId)
    requires Matched(heap, active, nextId)
    ensures Matched(heap, active - {id}, nextId)
  {
  }

  /** Adding an entry under an id that neither the heap nor the map uses. */
  lemma PushEntry(heap: multiset<Entry>, active: map<TimerId, Entry>, nextId: TimerId, e: Entry)
    requires Matched(heap, active, nextId) && 1 <= e.id
    requires forall x :: x in heap ==> x.id != e.id
    ensures Matched(heap + multiset{e}, active[e.id := e], if e.id < nextId then nextId else e.id + 1)
  {
  }

  lemma PushNew(heap: multiset<Entry>, active: map<TimerId, Entry>, nextId: TimerId, e: Entry)
    requires Matched(heap, active, nextId) && e.id == nextId
    ensures Matched(heap + multiset{e}, active[e.id := e], nextId + 1)
  {
    PushEntry(heap, active, nextId, e);
  }

  /** `x` comes before the whole heap. */
  ghost predicate Before(x: int, heap: multiset<Entry>) {
    forall e :: e in heap ==> x < e.expiry
  }

  lemma BeforeTop(x: int, heap: multiset<Entry>, t: Entry)
    requires Least(heap, t)
    ensures Before(x, heap) <==> x < t.expiry
  {
  }

  /** The kernel timer is armed for the top of the heap, live or stale, if that is a time the kernel
      accepts; the time 0 disarms it. */
  ghost predicate ArmedFor(heap: multiset<Entry>, armed: Option<int>) {
    forall e :: Least(heap, e) ==>
      (e.expiry > 0 ==> armed == Some(e.expiry)) && (e.expiry == 0 ==> armed == None)
  }

  /** The kernel is never armed for a time that it refuses or that disarms it. */
  predicate KernelTime(armed: Option<int>) {
    armed.Some? ==> armed.value > 0
  }

  /** What a schedule call for time `x` makes of the armed deadline: it arms for the earliest entry
      only, 0 disarms, and a negative time is refused. */
  ghost function ArmedAfter(armed: Option<int>, x: int, heap: multiset<Entry>): Option<int> {
    if !Before(x, heap) || x < 0 then armed else if x == 0 then None else Some(x)
  }

  lemma StaysArmed(heap: multiset<Entry>, t: Entry, e: Entry, armed: Option<int>)
    requires Least(heap, t) && t.expiry <= e.expiry && ArmedFor(heap, armed)
    ensures ArmedFor(heap + multiset{e}, armed)
  {
  }

  lemma NowArmed(heap: multiset<Entry>, e: Entry, armed: Option<int>)
    requires Before(e.expiry, heap) || Least(heap, e)
    requires (e.expiry > 0 ==> armed == Some(e.expiry)) && (e.expiry == 0 ==> armed == None)
    ensures ArmedFor(heap + multiset{e}, armed) && (e in heap ==> ArmedFor(heap, armed))
  {
  }

  lemma NothingToArm(heap: multiset<Entry>, armed: Option<int>)
    requires |heap| == 0
    ensures ArmedFor(heap, armed) && forall x: int :: Before(x, heap)
  {
    assert heap == multiset{};
  }

  /** What is still due in the heap, stale entries included. */
  ghost function Overdue(heap: multiset<Entry>, now: int): set<Entry> {
    set e | e in heap && e.expiry <= now
  }

  class EpollTimer {
    var heap: multiset<Entry>
    var active: map<TimerId, Entry>
    var nextId: TimerId
    /** The deadline the kernel timer was last armed for. */
    var armed: Option<int>
    var fired: nat
    var cancelled: nat
    var rearms: nat

    function State(): Model
      reads this
    {
      Model(nextId, active, fired, cancelled)
    }

    ghost predicate Consistent()
      reads this
    {
      Matched(heap, active, nextId) && KernelTime(armed)
    }

    ghost predicate Armed()
      reads this
    {
      ArmedFor(heap, armed)
    }

    ghost predicate Valid()
      reads this
    {
      Consistent() && Armed()
    }

    constructor ()
      ensures Valid() && State() == Model(1, map[], 0, 0) && heap == multiset{} && armed == None
    {
      heap, active, nextId, armed := multiset{}, map[], 1, None;
      fired, cancelled, rearms := 0, 0, 0;
    }

    /** An unspecified one among the earliest. */
    method Top() returns (e: Entry)
      requires |heap| > 0
      ensures Least(heap, e)
    {
      LeastExists(heap);
      e :| e in heap && forall x :: x in heap ==> e.expiry <= x.expiry;
    }

    /** Set the kernel timer: 0 disarms it, a negative time is refused (an exception). */
    method Rearm(expiry: int) returns (ok: bool)
      modifies this`armed, this`rearms
      ensures ok == (expiry >= 0)
      ensures armed == (if expiry > 0 then Some(expiry) else if expiry == 0 then None else old(armed))
      ensures rearms == old(rearms) + (if ok then 1 else 0)
    {
      if expiry < 0 {
        return false;
      }
      armed := if expiry == 0 then None else Some(expiry);
      rearms := rearms + 1;
      ok := true;
    }

    /** The common part of the two schedule calls. The timer is in place even when arming the kernel
        timer throws and the caller gets no id. */
    method ScheduleAt(expiry: int, interval: int) returns (id: Option<TimerId>)
      requires Consistent()
      modifies this`heap, this`active, this`nextId, this`armed, this`rearms
      ensures Consistent() && (old(Armed()) ==> Armed())
      ensures State() == Add(old(State()), expiry, interval)
      ensures heap == old(heap) + multiset{Entry(old(nextId), expiry, interval)}
      ensures id.Some? ==> id.value == old(nextId)
      ensures id == None <==> expiry < 0 && Before(expiry, old(heap))
      ensures armed == ArmedAfter(old(armed), expiry, old(heap))
      ensures rearms == old(rearms) + (if expiry >= 0 && Before(expiry, old(heap)) then 1 else 0)
    {
      hide Matched;
      hide Least;
      hide ArmedFor;
      hide Before;
      var e := Entry(nextId, expiry, interval);
      nextId := nextId + 1;
      PushNew(heap, active, nextId - 1, e);
      var needRearm := true;
      if |heap| > 0 {
        var t := Top();
        needRearm := expiry < t.expiry;
        BeforeTop(expiry, heap, t);
        if !needRearm && Armed() { StaysArmed(heap, t, e, armed); }
      } else {
        NothingToArm(heap, armed);
      }
      active := active[e.id := e];
      heap := heap + multiset{e};
      if needRearm {
        var ok := Rearm(expiry);
        NowArmed(old(heap), e, armed);
        if !ok {
          return None;
        }
      }
      id := Some(e.id);
    }

    method Schedule(clock: int, delay: int) returns (id: Option<TimerId>)
      requires Consistent()
      modifies this`heap, this`active, this`nextId, this`armed, this`rearms
      ensures Consistent() && (old(Armed()) ==> Armed())
      ensures State() == Apply(old(State()), EpollSpec.Schedule(clock, delay))
      ensures heap == old(heap) + multiset{Entry(old(nextId), clock + delay, 0)}
      ensures id.Some? ==> id.value == old(nextId)
      ensures id == None <==> clock + delay < 0 && Before(clock + delay, old(heap))
      ensures armed == ArmedAfter(old(armed), clock + delay, old(heap))
      ensures rearms == old(rearms) + (if clock + delay >= 0 && Before(clock + delay, old(heap)) then 1 else 0)
    {
      hide Matched;
      hide ArmedFor;
      hide Before;
      id := ScheduleAt(clock + delay, 0);
    }

    method SchedulePeriodic(clock: int, interval: int) returns (id: Option<TimerId>)
      requires Consistent()
      modifies this`heap, this`active, this`nextId, this`armed, this`rearms
      ensures Consistent() && (old(Armed()) ==> Armed())
      ensures State() == Apply(old(State()), EpollSpec.SchedulePeriodic(clock, interval))
      ensures heap == old(heap) + multiset{Entry(old(nextId), clock + interval, interval)}
      ensures id.Some? ==> id.value == old(nextId)
      ensures id == None <==> clock + interval < 0 && Before(clock + interval, old(heap))
      ensures armed == ArmedAfter(old(armed), clock + interval, old(heap))
      ensures rearms == old(rearms) + (if clock + interval >= 0 && Before(clock + interval, old(heap)) then 1 else 0)
    {
      hide Matched;
      hide ArmedFor;
      hide Before;
      id := ScheduleAt(clock + interval, interval);
    }

    /** True exactly for a live timer; its heap entry stays behind, stale. */
    method Cancel(id: TimerId) returns (found: bool)
      requires Consistent()
      modifies this`active, this`cancelled
      ensures Consistent() && (old(Armed()) ==> Armed())
      ensures found == (id in old(active)) && State() == Apply(old(State()), EpollSpec.Cancel(id))
    {
      hide Matched;
      hide ArmedFor;
      if id !in active {
        return false;
      }
      DropActive(heap, active, nextId, id);
      active := active - {id};
      cancelled := cancelled + 1;
      found := true;
    }

    /** A callback: any calls. It catches what they throw. */
    method RunCallback(actions: seq<Action>, now: int)
      requires Consistent()
      modifies this`heap, this`active, this`nextId, this`armed, this`rearms, this`cancelled
      ensures Consistent() && State() == ApplyAll(old(State()), actions)
      ensures AllLater(actions, now) ==> Overdue(heap, now) == Overdue(old(heap), now)
      ensures nextId >= old(nextId) && forall e :: e in heap && e !in old(heap) ==> e.id >= old(nextId)
    {
      hide Matched;
      hide ArmedFor;
      hide Overdue;
      hide Before;
      for i := 0 to |actions|
        invariant Consistent() && State() == ApplyAll(old(State()), actions[..i])
        invariant AllLater(actions, now) ==> Overdue(heap, now) == Overdue(old(heap), now)
        invariant nextId >= old(nextId) && forall e :: e in heap && e !in old(heap) ==> e.id >= old(nextId)
      {
        assert actions[..i + 1][..i] == actions[..i];
        assert actions[i] in actions;
        match actions[i] {
          case Schedule(clock, delay) =>
            OverdueAfter(heap, Entry(nextId, clock + delay, 0), now);
            var _ := Schedule(clock, delay);
          case SchedulePeriodic(clock, interval) =>
            OverdueAfter(heap, Entry(nextId, clock + interval, interval), now);
            var _ := SchedulePeriodic(clock, interval);
          case Cancel(c) => var _ := Cancel(c);
        }
      }
      assert actions[..|actions|] == actions;
    }

    /** Skip the intervals that have passed. */
    method CatchUp(expiry: int, interval: int, now: int) returns (next: int)
      requires interval > 0 && expiry <= now
      ensures next == NextExpiry(expiry, interval, now)
    {
      next := expiry + interval;
      ghost var k := 1;
      while next <= now
        invariant k >= 1 && next == expiry + k * interval
        invariant k == 1 || next - interval <= now
        decreases now - next
      {
        next := next + interval;
        assert expiry + (k + 1) * interval == expiry + k * interval + interval;
        k := k + 1;
      }
      StopsAtNext(expiry, interval, now, k);
    }

    /** Fire the live entry on top of the heap. */
    method FireTop(e: Entry, now: int, react: Reaction)
      requires Consistent() && e in heap && e.id in active && active[e.id].expiry == e.expiry <= now
      modifies this
      ensures Consistent() && State() == Fire(old(State()), e.id, now, react)
      ensures LaterReactions(react, now) ==>
                e in Overdue(old(heap), now) && Overdue(heap, now) == Overdue(old(heap), now) - {e}
    {
      hide Matched;
      hide ApplyAll;
      hide NextExpiry;
      TopFacts(heap, active, nextId, e, now);
      PopLive(heap, active, nextId, e);
      heap := heap - multiset{e};
      active := active - {e.id};
      ghost var popped, issued := heap, nextId;
      RunCallback(react(e.id), now);
      forall x | x in heap
        ensures x.id != e.id
      {
        if x !in popped { assert x.id >= issued; }
      }
      FinishFired(e, now);
    }

    /** Count the firing and put a periodic timer back, past the intervals it has missed. */
    method FinishFired(e: Entry, now: int)
      requires Consistent() && 1 <= e.id < nextId && e.expiry <= now
      requires forall x :: x in heap ==> x.id != e.id
      modifies this`heap, this`active, this`fired
      ensures Consistent() && State() == Finish(old(State()), e, now)
      ensures Overdue(heap, now) == Overdue(old(heap), now)
    {
      hide Matched;
      hide NextExpiry;
      fired := fired + 1;
      if e.interval > 0 {
        var next := CatchUp(e.expiry, e.interval, now);
        NextExpiryIsLeast(e.expiry, e.interval, now, 1);
        var again := e.(expiry := next);
        PushEntry(heap, active, nextId, again);
        active := active[e.id := again];
        heap := heap + multiset{again};
      }
    }

    /** The firing loop of the drain, stopped after `fuel` firings: callbacks that keep scheduling
        timers already due keep it going for ever, those that schedule for later never do. */
    method FireDue(now: int, react: Reaction, fuel: nat) returns (count: nat, done: bool, ghost order: seq<TimerId>)
      requires Consistent()
      modifies this
      ensures Consistent() && count == |order| <= fuel
      ensures State() == FireAll(old(State()), order, now, react) && Firing(old(State()), order, now, react)
      ensures done ==> Drain(old(State()), order, now, react)
      ensures !done ==> count == fuel && exists id :: Turn(State(), id, now)
      ensures LaterReactions(react, now) && fuel >= |Overdue(old(heap), now)| ==> done
      ensures order == [] ==> armed == old(armed)
    {
      hide Matched;
      hide Least;
      hide Fire;
      hide FireAll;
      hide Firing;
      hide Turn;
      hide Overdue;
      hide KernelTime;
      count, order := 0, [];
      NoneFired(old(State()), now, react);
      while |heap| > 0
        invariant Consistent() && count == |order| <= fuel
        invariant State() == FireAll(old(State()), order, now, react) && Firing(old(State()), order, now, react)
        invariant LaterReactions(react, now) ==> count + |Overdue(heap, now)| <= |Overdue(old(heap), now)|
        invariant order == [] ==> armed == old(armed)
        decreases fuel - count, |heap|
      {
        var e := Top();
        LeastFacts(heap, e, now);
        if e.id !in active || active[e.id].expiry != e.expiry {
          PopStale(heap, active, nextId, e);
          heap := heap - multiset{e};
          continue;
        }
        if e.expiry > now {
          NothingDue(heap, active, nextId, e, now);
          done := true;
          return;
        }
        TopTurn(heap, active, nextId, e, now, State());
        if count == fuel {
          done := false;
          return;
        }
        FiredNext(old(State()), order, e.id, now, react);
        FireTop(e, now, react);
        order := order + [e.id];
        count := count + 1;
      }
      EmptyHeap(heap, active, nextId);
      done := true;
    }

    /** The re-arming loop of the drain: drop stale entries, then arm for the next live one. */
    method ArmNext() returns (ok: bool)
      requires Consistent()
      modifies this`heap, this`armed, this`rearms
      ensures Valid()
      ensures forall e :: e in heap ==> e in old(heap)
      ensures ok <==> forall id :: id in active ==> active[id].expiry >= 0
      ensures rearms == old(rearms) + (if ok && active != map[] then 1 else 0)
      ensures heap == multiset{} ==> armed == old(armed)
    {
      hide Matched;
      hide Least;
      hide ArmedFor;
      hide Overdue;
      while |heap| > 0
        invariant Consistent() && rearms == old(rearms) && armed == old(armed) && forall e :: e in heap ==> e in old(heap)
        decreases |heap|
      {
        var e := Top();
        LeastFacts(heap, e, 0);
        if e.id !in active || active[e.id].expiry != e.expiry {
          PopStale(heap, active, nextId, e);
          heap := heap - multiset{e};
          continue;
        }
        EarliestLive(heap, active, nextId, e);
        assert active != map[] by { assert e.id in active; }
        ok := Rearm(e.expiry);
        NowArmed(heap, e, armed);
        return;
      }
      EmptyHeap(heap, active, nextId);
      NothingToArm(heap, armed);
      ok := true;
    }

    /** A drain at time `now`: fires the due timers as Drain says, then arms for the next deadline.
        The clock does not run below 0, so arming never throws. */
    method DrainExpired(now: int, react: Reaction, fuel: nat)
        returns (count: nat, done: bool, ghost order: seq<TimerId>)
      requires Consistent() && now >= 0
      modifies this
      ensures Consistent() && count == |order| <= fuel
      ensures State() == FireAll(old(State()), order, now, react) && Firing(old(State()), order, now, react)
      ensures WellFormed(old(State()))
      ensures done ==> Valid() && Drain(old(State()), order, now, react)
      ensures !done ==> count == fuel && exists id :: Turn(State(), id, now)
      ensures LaterReactions(react, now) && fuel >= |Overdue(old(heap), now)| ==> done
      ensures done && order == [] && heap == multiset{} ==> armed == old(armed)
    {
      hide Matched;
      hide FireAll;
      hide Firing;
      hide Turn;
      StateWellFormed(this);
      count, done, order := FireDue(now, react, fuel);
      if done {
        var ok := ArmNext();
        assert ok;
      }
    }

    /** One turn of the event loop; `ready` says whether the wait reported the kernel timer, which
        goes off once and is then disarmed. */
    method RunOnce(ready: bool, now: int, react: Reaction, fuel: nat)
        returns (count: nat, done: bool, ghost order: seq<TimerId>)
      requires Valid() && now >= 0
      modifies this
      ensures Consistent() && count == |order| <= fuel
      ensures State() == FireAll(old(State()), order, now, react) && Firing(old(State()), order, now, react)
      ensures done ==> Valid() && (ready ==> Drain(old(State()), order, now, react))
      ensures !done ==> count == fuel && exists id :: Turn(State(), id, now)
      ensures !ready ==> done && order == [] && State() == old(State()) && heap == old(heap) && armed == old(armed)
      ensures LaterReactions(react, now) && fuel >= |Overdue(old(heap), now)| ==> done
      ensures ready && done && order == [] && heap == multiset{} ==> armed == None
    {
      hide Drain;
      hide Turn;
      if !ready {
        return 0, true, [];
      }
      armed := None;
      count, done, order := DrainExpired(now, react, fuel);
    }
  }

  lemma StateWellFormed(t: EpollTimer)
    requires t.Consistent()
    ensures WellFormed(t.State())
  {
  }

  /** The kernel timer is armed, and for no later than any live timer expires. */
  ghost predicate InTime(active: map<TimerId, Entry>, armed: Option<int>) {
    forall id :: id in active ==> armed.Some? && armed.value <= active[id].expiry
  }

  /** No lost deadline, and when: the kernel timer is armed for the top `e` of the heap if and only if
      that lies after the clock's origin. Then it goes off in time for every live timer, even if the
      top is stale. If the top is live, only then. */
  lemma ArmedIff(heap: multiset<Entry>, active: map<TimerId, Entry>, nextId: TimerId, armed: Option<int>, e: Entry)
    requires Matched(heap, active, nextId) && ArmedFor(heap, armed) && KernelTime(armed) && Least(heap, e)
    ensures armed == Some(e.expiry) <==> e.expiry > 0
    ensures e.expiry > 0 ==> InTime(active, armed)
    ensures e.id in active ==> (e.expiry > 0 <==> InTime(active, armed))
  {
    if e.id in active { PopLive(heap, active, nextId, e); }
    forall id | id in active
      ensures e.expiry <= active[id].expiry
    {
      assert active[id] in heap;
    }
  }

  lemma ArmedInTime(heap: multiset<Entry>, active: map<TimerId, Entry>, nextId: TimerId, armed: Option<int>)
    requires Matched(heap, active, nextId) && ArmedFor(heap, armed) && KernelTime(armed) && Before(0, heap)
    ensures InTime(active, armed)
  {
    if |heap| == 0 {
      EmptyHeap(heap, active, nextId);
    } else {
      LeastExists(heap);
      var e :| Least(heap, e);
      ArmedIff(heap, active, nextId, armed, e);
    }
  }

  /** Every time up to the origin loses a deadline: 0 disarms the kernel timer, a negative one is
      refused with its entry left on top of the heap, and while it is there no call for a later time
      arms the kernel timer. */
  method DeadlineLost(x: int) returns (t: EpollTimer, id: TimerId)
    requires x <= 0
    ensures fresh(t) && t.Valid() && t.heap == multiset{Entry(1, x, 0), Entry(id, 15, 0)}
    ensures 1 in t.active && id in t.active && t.active[id] == Entry(id, 15, 0) && t.armed == None
  {
    hide Matched;
    hide ArmedFor;
    t := new EpollTimer();
    var first := t.Schedule(5, x - 5);
    assert Entry(1, x, 0) in t.heap;
    var second := t.Schedule(5, 10);
    id := second.value;
  }

  lemma EarliestLive(heap: multiset<Entry>, active: map<TimerId, Entry>, nextId: TimerId, e: Entry)
    requires Matched(heap, active, nextId) && Least(heap, e) && e.id in active
    ensures e.expiry >= 0 <==> forall id :: id in active ==> active[id].expiry >= 0
  {
    PopLive(heap, active, nextId, e);
  }

  lemma OverdueAfter(heap: multiset<Entry>, e: Entry, now: int)
    ensures e.expiry > now ==> Overdue(heap + multiset{e}, now) == Overdue(heap, now)
  {
  }

  lemma LeastFacts(heap: multiset<Entry>, e: Entry, now: int)
    requires Least(heap, e)
    ensures e in heap && |heap - multiset{e}| == |heap| - 1
    ensures |Overdue(heap - multiset{e}, now)| <= |Overdue(heap, now)|
    ensures e.expiry <= now ==> |Overdue(heap, now) - {e}| == |Overdue(heap, now)| - 1
  {
    Lists.SmallerSet(Overdue(heap - multiset{e}, now), Overdue(heap, now));
  }

  lemma TopFacts(heap: multiset<Entry>, active: map<TimerId, Entry>, nextId: TimerId, e: Entry, now: int)
    requires Matched(heap, active, nextId) && e in heap && e.expiry <= now
    ensures 1 <= e.id < nextId && Overdue(heap - multiset{e}, now) == Overdue(heap, now) - {e}
    ensures forall x :: x in heap - multiset{e} ==> x.id != e.id
  {
  }

  lemma NothingDue(heap: multiset<Entry>, active: map<TimerId, Entry>, nextId: TimerId, e: Entry, now: int)
    requires Matched(heap, active, nextId) && Least(heap, e) && e.expiry > now
    ensures forall id :: id in active ==> active[id].expiry > now
  {
  }

  lemma EmptyHeap(heap: multiset<Entry>, active: map<TimerId, Entry>, nextId: TimerId)
    requires Matched(heap, active, nextId) && |heap| == 0
    ensures active == map[]
  {
    assert heap == multiset{};
  }

  lemma TopTurn(heap: multiset<Entry>, active: map<TimerId, Entry>, nextId: TimerId, e: Entry, now: int, m: Model)
    requires Matched(heap, active, nextId) && Least(heap, e) && e.id in active && e.expiry <= now && m.live == active
    ensures Turn(m, e.id, now)
  {
    PopLive(heap, active, nextId, e);
  }

  lemma NoneFired(m: Model, now: int, react: Reaction)
    ensures FireAll(m, [], now, react) == m && Firing(m, [], now, react)
  {
  }

  lemma FiredNext(m: Model, order: seq<TimerId>, id: TimerId, now: int, react: Reaction)
    requires Firing(m, order, now, react) && Turn(FireAll(m, order, now, react), id, now)
    ensures Firing(m, order + [id], now, react)
    ensures FireAll(m, order + [id], now, react) == Fire(FireAll(m, order, now, react), id, now, react)
  {
    hide Turn;
    hide Fire;
    var order' := order + [id];
    assert order'[..|order|] == order;
    forall k | 0 <= k < |order'|
      ensures Turn(FireAll(m, order'[..k], now, react), order'[k], now)
    {
      if k < |order| { assert order'[..k] == order[..k]; }
    }
  }

  lemma StopsAtNext(expiry: int, interval: int, now: int, k: int)
    requires interval > 0 && expiry <= now && k >= 1
    requires expiry + k * interval > now && (k == 1 || expiry + k * interval - interval <= now)
    ensures expiry + k * interval == NextExpiry(expiry, interval, now)
  {
    NextExpiryIsLeast(expiry, interval, now, k);
    if k > 1 {
      assert (now - expiry) - (k - 1) * interval >= 0;
      assert now - expiry == interval * (k - 1) + (now - expiry - (k - 1) * interval);
      Bits.DivModUnique(now - expiry, interval, k - 1, now - expiry - (k - 1) * interval);
    }
  }

  // ---- a drain that does not end --------------------------------------------------------------

  /** Every callback schedules a timer that is due at once. */
  function Again(now: int): Reaction {
    _ => [EpollSpec.Schedule(now, 0)]
  }

  ghost predicate SomeDue(m: Model, now: int) {
    exists id :: id in m.live && m.live[id].expiry <= now
  }

  lemma {:induction false} EarliestOf(live: map<TimerId, Entry>, ids: set<TimerId>) returns (id: TimerId)
    requires ids != {} && ids <= live.Keys
    ensures id in ids && forall j :: j in ids ==> live[id].expiry <= live[j].expiry
    decreases ids
  {
    id :| id in ids;
    if ids != {id} {
      var other := EarliestOf(live, ids - {id});
      if live[other].expiry < live[id].expiry { id := other; }
    }
  }

  lemma AgainDue(m: Model, id: TimerId, now: int)
    requires WellFormed(m) && id in m.live
    ensures WellFormed(Fire(m, id, now, Again(now))) && SomeDue(Fire(m, id, now, Again(now)), now)
  {
    FireIsFired(m, id, now, Again(now));
    hide NextExpiry;
    var b := m.(live := m.live - {id});
    var acts := Again(now)(id);
    assert acts[..0] == [];
    assert ApplyAll(b, acts) == Add(b, now, 0);
    assert Fire(m, id, now, Again(now)).live[m.nextId].expiry == now;
  }

  /** A drain need not end: with such callbacks there are firings of any length, each in turn, after
      which a timer is still due. */
  lemma {:induction false} EndlessDrain(m: Model, now: int, n: nat) returns (order: seq<TimerId>)
    requires WellFormed(m) && SomeDue(m, now)
    ensures |order| == n && Firing(m, order, now, Again(now))
    ensures var m' := FireAll(m, order, now, Again(now)); WellFormed(m') && SomeDue(m', now)
  {
    hide Fire;
    hide WellFormed;
    if n == 0 {
      order := [];
    } else {
      order := EndlessDrain(m, now, n - 1);
      var m' := FireAll(m, order, now, Again(now));
      var id := EarliestOf(m'.live, m'.live.Keys);
      assert Turn(m', id, now);
      FiredNext(m, order, id, now, Again(now));
      AgainDue(m', id, now);
      order := order + [id];
    }
  }
}
