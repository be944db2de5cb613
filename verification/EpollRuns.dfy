/** Whole runs of an EpollTimer: any sequence of calls and turns of the event loop. A timer that
    nobody cancels fires exactly when one of its expiries has come up since the last drain. */
module EpollRuns {
  import opened EpollSpec
  import opened Options
  import opened EpollTimer
  import Bits

  datatype Event = Call(action: Action) | Idle | Drained(now: int, order: seq<TimerId>, react: Reaction)

  const Start := Model(1, map[], 0, 0)

  function Step(m: Model, e: Event): Model {
    match e
    case Call(a) => Apply(m, a)
    case Idle => m
    case Drained(now, order, react) => FireAll(m, order, now, react)
  }

  ghost predicate LegalStep(m: Model, e: Event) {
    e.Drained? ==> Drain(m, e.order, e.now, e.react)
  }

  function After(m: Model, es: seq<Event>): Model {
    if es == [] then m else Step(After(m, es[..|es| - 1]), es[|es| - 1])
  }

  ghost predicate Legal(m: Model, es: seq<Event>) {
    forall k :: 0 <= k < |es| ==> LegalStep(After(m, es[..k]), es[k])
  }

  lemma Extend(m: Model, es: seq<Event>, e: Event)
    requires Legal(m, es) && LegalStep(After(m, es), e)
    ensures Legal(m, es + [e]) && After(m, es + [e]) == Step(After(m, es), e)
  {
    assert (es + [e])[..|es|] == es;
    assert forall k :: 0 <= k < |es| ==> (es + [e])[..k] == es[..k];
  }

  /** The latest clock reading of a drain among events `from` to `to - 1`. With a clock that never
      goes back it is that of the last one. */
  function Latest(es: seq<Event>, from: nat, to: nat): Option<int>
    requires from <= to <= |es|
  {
    if from == to then None
    else
      var before := Latest(es, from, to - 1);
      if es[to - 1].Drained? then Some(Later(before, es[to - 1].now)) else before
  }

  function Later(h: Option<int>, now: int): int {
    if h.Some? && h.value > now then h.value else now
  }

  /** With such a clock, and no drain after `last`. */
  lemma {:induction false} LatestIsLast(es: seq<Event>, from: nat, last: nat, to: nat)
    requires from <= last < to <= |es| && es[last].Drained?
    requires forall i :: last < i < to ==> !es[i].Drained?
    requires forall i, j :: from <= i < j < to && es[i].Drained? && es[j].Drained? ==> es[i].now <= es[j].now
    ensures Latest(es, from, to) == Some(es[last].now)
  {
    if last < to - 1 { LatestIsLast(es, from, last, to - 1); } else { LatestIsBelow(es, from, last, es[last].now); }
  }

  lemma {:induction false} LatestIsBelow(es: seq<Event>, from: nat, to: nat, now: int)
    requires from <= to <= |es| && forall i :: from <= i < to && es[i].Drained? ==> es[i].now <= now
    ensures Latest(es, from, to).Some? ==> Latest(es, from, to).value <= now
  {
    if from < to { LatestIsBelow(es, from, to - 1, now); }
  }

  // ---- one timer through a run ----------------------------------------------------------------

  /** The times at which a timer is meant to fire. */
  function Occurrence(t: Entry, k: nat): int {
    t.expiry + k * t.interval
  }

  /** One of them has come up since the reading `h`. */
  ghost predicate ComesUp(t: Entry, h: Option<int>, now: int) {
    exists k: nat :: (k == 0 || t.interval > 0) && Occurrence(t, k) <= now && (h.Some? ==> Occurrence(t, k) > h.value)
  }

  ghost predicate Spares(e: Event, id: TimerId) {
    match e
    case Call(a) => a != Cancel(id)
    case Idle => true
    case Drained(_, order, react) => forall i :: i in order && Cancel(id) in react(i) ==> i == id
  }

  ghost predicate NotCancelled(es: seq<Event>, id: TimerId, from: nat, to: nat) {
    to <= |es| && forall k :: from <= k < to ==> Spares(es[k], id)
  }

  /** `t` has been fired up to the reading `h`. */
  predicate Passed(t: Entry, h: Option<int>) {
    h.Some? && t.expiry <= h.value
  }

  function Current(t: Entry, h: Option<int>): Entry
    requires Passed(t, h) ==> t.interval > 0
  {
    if Passed(t, h) then EpollSpec.After(t, h.value) else t
  }

  /** The state of a timer that nobody cancels: gone if it was a one-shot and has passed, otherwise at
      its least occurrence after `h`. */
  ghost predicate OnCourse(t: Entry, live: map<TimerId, Entry>, id: TimerId, h: Option<int>) {
    if Passed(t, h) && t.interval <= 0 then id !in live else id in live && live[id] == Current(t, h)
  }

  lemma CurrentIsLeast(t: Entry, h: Option<int>, k: nat)
    requires Passed(t, h) ==> t.interval > 0
    ensures h.Some? ==> Current(t, h).expiry > h.value
    ensures (k == 0 || t.interval > 0) && (h.Some? ==> Occurrence(t, k) > h.value) ==> Current(t, h).expiry <= Occurrence(t, k)
    ensures Current(t, h).id == t.id && Current(t, h).interval == t.interval
  {
    hide NextExpiry;
    if Passed(t, h) {
      NextExpiryIsLeast(t.expiry, t.interval, h.value, k);
    } else if t.interval > 0 {
      assert k * t.interval >= 0;
    }
  }

  lemma CurrentOccurs(t: Entry, h: Option<int>) returns (k: nat)
    requires Passed(t, h) ==> t.interval > 0
    ensures (k == 0 || t.interval > 0) && Current(t, h).expiry == Occurrence(t, k)
  {
    k := 0;
    if Passed(t, h) {
      NextExpiryIsLeast(t.expiry, t.interval, h.value, 0);
      k := NextOccurs(t.expiry, t.interval, h.value);
    }
  }

  lemma NextOccurs(expiry: int, interval: int, now: int) returns (k: nat)
    requires interval > 0 && expiry <= now
    ensures NextExpiry(expiry, interval, now) == expiry + k * interval
  {
    if expiry + interval > now { return 1; }
    k := (now - expiry) / interval + 1;
  }

  /** Being due and coming up are the same. */
  lemma DueIffComesUp(t: Entry, h: Option<int>, now: int)
    requires Passed(t, h) ==> t.interval > 0
    ensures Current(t, h).expiry <= now <==> ComesUp(t, h, now)
  {
    hide Occurrence;
    hide Current;
    CurrentIsLeast(t, h, 0);
    if Current(t, h).expiry <= now {
      var k := CurrentOccurs(t, h);
      assert Occurrence(t, k) <= now;
    }
    if ComesUp(t, h, now) {
      var k: nat :| (k == 0 || t.interval > 0) && Occurrence(t, k) <= now && (h.Some? ==> Occurrence(t, k) > h.value);
      CurrentIsLeast(t, h, k);
    }
  }

  /** Two entries of the same timer that are each the least after the same reading are the same. */
  lemma SameCurrent(t: Entry, h: Option<int>, now: int)
    requires Passed(t, h) ==> t.interval > 0
    ensures var x := Current(t, h);
            if x.expiry <= now then
              x.interval > 0 ==> EpollSpec.After(x, now) == Current(t, Some(Later(h, now)))
            else !(Passed(t, Some(Later(h, now))) && t.interval <= 0) && x == Current(t, Some(Later(h, now)))
  {
    var x, h' := Current(t, h), Some(Later(h, now));
    CurrentIsLeast(t, h, 0);
    if x.expiry > now {
      if Passed(t, h') && t.interval > 0 {
        var k := CurrentOccurs(t, h);
        var k' := CurrentOccurs(t, h');
        CurrentIsLeast(t, h', k);
        CurrentIsLeast(t, h, k');
      }
    } else if x.interval > 0 {
      var k := CurrentOccurs(t, h);
      var j := NextOccurs(x.expiry, x.interval, now);
      assert (k + j) * t.interval == k * t.interval + j * t.interval;
      CurrentIsLeast(t, h', k + j);
      var k' := CurrentOccurs(t, h');
      StepsAhead(t, k, k', now);
      NextExpiryIsLeast(x.expiry, x.interval, now, k' - k);
    }
  }

  lemma StepsAhead(t: Entry, k: nat, k': nat, now: int)
    requires t.interval > 0 && Occurrence(t, k) <= now < Occurrence(t, k')
    ensures k' > k && Occurrence(t, k') == Occurrence(t, k) + (k' - k) * t.interval
  {
    assert (k' - k) * t.interval == k' * t.interval - k * t.interval;
  }

  lemma SpareFate(m: Model, e: Event, id: TimerId)
    requires WellFormed(m) && LegalStep(m, e) && e.Drained? && Spares(e, id) && id in m.live
    ensures id in e.order <==> m.live[id].expiry <= e.now
    ensures var live := Step(m, e).live;
            if m.live[id].expiry > e.now then id in live && live[id] == m.live[id]
            else if m.live[id].interval > 0 then id in live && live[id] == EpollSpec.After(m.live[id], e.now)
            else id !in live
  {
    hide FireAll;
    hide Drain;
    hide NextExpiry;
    DrainIsExact(m, e.order, e.now, e.react);
    if m.live[id].expiry <= e.now {
      assert id in e.order;
      var p :| 0 <= p < |e.order| && e.order[p] == id;
      assert Settled(m, Step(m, e), e.order, p, e.now, e.react);
      assert forall i :: p + 1 <= i < |e.order| ==> e.order[i] in e.order && e.order[i] != id;
    } else {
      assert Waiting(m, Step(m, e), id, e.order, e.react);
      assert forall i :: 0 <= i < |e.order| ==> e.order[i] in e.order;
    }
  }

  lemma CourseStep(m: Model, e: Event, id: TimerId, t: Entry, h: Option<int>)
    requires WellFormed(m) && LegalStep(m, e) && Spares(e, id) && id < m.nextId && OnCourse(t, m.live, id, h)
    ensures OnCourse(t, Step(m, e).live, id, if e.Drained? then Some(Later(h, e.now)) else h)
  {
    hide FireAll;
    hide LegalStep;
    hide NextExpiry;
    hide EpollSpec.After;
    match e
    case Call(a) => ApplyEvolves(m, a);
    case Idle =>
    case Drained(now, order, react) =>
      if Passed(t, h) && t.interval <= 0 {
        GoneStep(m, e, id);
      } else {
        SpareFate(m, e, id);
        SameCurrent(t, h, now);
        CurrentIsLeast(t, h, 0);
      }
  }

  /** Ids are not reused: an issued timer that is not live does not come back and does not fire. */
  lemma GoneStep(m: Model, e: Event, id: TimerId)
    requires WellFormed(m) && LegalStep(m, e) && e.Drained? && id < m.nextId && id !in m.live
    ensures id !in Step(m, e).live && id !in e.order
  {
    hide FireAll;
    FiringProgress(m, e.order, e.now, e.react, |e.order|);
    assert e.order[..|e.order|] == e.order;
  }

  lemma StepKeeps(m: Model, e: Event)
    requires WellFormed(m) && LegalStep(m, e)
    ensures WellFormed(Step(m, e)) && Step(m, e).nextId >= m.nextId
  {
    hide FireAll;
    match e
    case Call(a) => ApplyEvolves(m, a);
    case Idle =>
    case Drained(now, order, react) =>
      FiringProgress(m, order, now, react, |order|);
      assert order[..|order|] == order;
  }

  lemma StepOf(m: Model, es: seq<Event>, k: nat)
    requires Legal(m, es) && k < |es|
    ensures LegalStep(After(m, es[..k]), es[k]) && After(m, es[..k + 1]) == Step(After(m, es[..k]), es[k])
  {
    hide Step;
    assert es[..k + 1][..k] == es[..k];
  }

  lemma {:induction false} CourseRun(m: Model, es: seq<Event>, id: TimerId, t: Entry, from: nat, k: nat)
    requires WellFormed(m) && Legal(m, es) && from <= k <= |es| && NotCancelled(es, id, from, k)
    requires WellFormed(After(m, es[..from])) && id in After(m, es[..from]).live && t == After(m, es[..from]).live[id]
    ensures WellFormed(After(m, es[..k])) && id < After(m, es[..k]).nextId
    ensures OnCourse(t, After(m, es[..k]).live, id, Latest(es, from, k))
  {
    hide Step;
    hide After;
    hide Legal;
    hide LegalStep;
    hide WellFormed;
    hide OnCourse;
    if k == from {
      CourseStarts(After(m, es[..from]), id);
    } else {
      CourseRun(m, es, id, t, from, k - 1);
      StepOf(m, es, k - 1);
      StepKeeps(After(m, es[..k - 1]), es[k - 1]);
      CourseStep(After(m, es[..k - 1]), es[k - 1], id, t, Latest(es, from, k - 1));
    }
  }

  lemma CourseStarts(m: Model, id: TimerId)
    requires WellFormed(m) && id in m.live
    ensures id < m.nextId && OnCourse(m.live[id], m.live, id, None)
  {
  }

  lemma {:induction false} RunKeeps(m: Model, es: seq<Event>, k: nat)
    requires WellFormed(m) && Legal(m, es) && k <= |es|
    ensures WellFormed(After(m, es[..k]))
  {
    hide Step;
    hide LegalStep;
    hide WellFormed;
    if k > 0 {
      RunKeeps(m, es, k - 1);
      assert es[..k][..k - 1] == es[..k - 1];
      StepKeeps(After(m, es[..k - 1]), es[k - 1]);
    } else {
      assert es[..0] == [];
    }
  }

  /** Exact firing, for every run: a timer that is live after `from` events, and that nobody cancels
      up to event `k`, is fired by event `k`, a drain, if and only if one of its occurrences (its
      expiry, or for a periodic timer a whole number of intervals later) lies after every reading of
      the drains in between and not after this one. So it is never early or doubled, is caught up
      once however many occurrences were missed, and is never lost. */
  lemma ExactFiring(m: Model, es: seq<Event>, id: TimerId, from: nat, k: nat)
    requires WellFormed(m) && Legal(m, es) && from <= k < |es| && es[k].Drained?
    requires id in After(m, es[..from]).live && NotCancelled(es, id, from, k + 1)
    ensures id in es[k].order <==> ComesUp(After(m, es[..from]).live[id], Latest(es, from, k), es[k].now)
  {
    hide Step;
    hide WellFormed;
    hide ComesUp;
    hide Current;
    var t, h, now := After(m, es[..from]).live[id], Latest(es, from, k), After(m, es[..k]);
    RunKeeps(m, es, from);
    CourseRun(m, es, id, t, from, k);
    assert LegalStep(now, es[k]);
    hide LegalStep;
    if Passed(t, h) && t.interval <= 0 {
      GoneStep(now, es[k], id);
      NeverAgain(t, h, es[k].now);
    } else {
      SpareFate(now, es[k], id);
      DueIffComesUp(t, h, es[k].now);
    }
  }

  lemma NeverAgain(t: Entry, h: Option<int>, now: int)
    requires Passed(t, h) && t.interval <= 0
    ensures !ComesUp(t, h, now)
  {
    assert Occurrence(t, 0) == t.expiry;
  }

  /** What `schedule` promises: a timer asked for at reading `clock`, that nobody cancels, fires in a
      drain exactly if `clock + delay` has come up by then and no drain since had reached it. */
  lemma ScheduledFiring(m: Model, es: seq<Event>, j: nat, k: nat, clock: int, delay: int)
    requires WellFormed(m) && Legal(m, es) && j < k < |es| && es[k].Drained?
    requires es[j] == Call(Schedule(clock, delay)) && NotCancelled(es, After(m, es[..j]).nextId, j + 1, k + 1)
    ensures After(m, es[..j]).nextId in es[k].order <==>
            clock + delay <= es[k].now && forall i :: j < i < k && es[i].Drained? ==> es[i].now < clock + delay
  {
    hide Legal;
    hide NotCancelled;
    hide WellFormed;
    var id := After(m, es[..j]).nextId;
    assert es[..j + 1][..j] == es[..j];
    ExactFiring(m, es, id, j + 1, k);
    var t := Entry(id, clock + delay, 0);
    assert Occurrence(t, 0) == t.expiry;
    LatestBelow(es, j + 1, k, clock + delay);
  }

  lemma {:induction false} LatestBelow(es: seq<Event>, from: nat, to: nat, x: int)
    requires from <= to <= |es|
    ensures (Latest(es, from, to).Some? ==> Latest(es, from, to).value < x) <==>
            forall i :: from <= i < to && es[i].Drained? ==> es[i].now < x
  {
    if from < to { LatestBelow(es, from, to - 1, x); }
  }

  // ---- what the statistics count --------------------------------------------------------------

  /** How many of the calls, made one after the other from `m`, cancel a timer that is live. */
  function Cancels(m: Model, actions: seq<Action>): nat {
    if actions == [] then 0
    else
      var before, last := actions[..|actions| - 1], actions[|actions| - 1];
      Cancels(m, before) + (if last.Cancel? && last.id in ApplyAll(m, before).live then 1 else 0)
  }

  /** How many of the calls are schedules. */
  function Schedules(actions: seq<Action>): nat {
    if actions == [] then 0
    else Schedules(actions[..|actions| - 1]) + (if actions[|actions| - 1].Cancel? then 0 else 1)
  }

  function DrainSchedules(order: seq<TimerId>, react: Reaction): nat {
    if order == [] then 0
    else DrainSchedules(order[..|order| - 1], react) + Schedules(react(order[|order| - 1]))
  }

  function StepSchedules(e: Event): nat {
    match e
    case Call(a) => Schedules([a])
    case Idle => 0
    case Drained(_, order, react) => DrainSchedules(order, react)
  }

  function ScheduledIn(es: seq<Event>): nat {
    if es == [] then 0 else ScheduledIn(es[..|es| - 1]) + StepSchedules(es[|es| - 1])
  }

  function DrainCancels(m: Model, order: seq<TimerId>, now: int, react: Reaction): nat {
    if order == [] then 0
    else
      var before, id := FireAll(m, order[..|order| - 1], now, react), order[|order| - 1];
      DrainCancels(m, order[..|order| - 1], now, react) + Cancels(before.(live := before.live - {id}), react(id))
  }

  function StepCancels(m: Model, e: Event): nat {
    match e
    case Call(a) => Cancels(m, [a])
    case Idle => 0
    case Drained(now, order, react) => DrainCancels(m, order, now, react)
  }

  function CancelledIn(m: Model, es: seq<Event>): nat {
    if es == [] then 0
    else CancelledIn(m, es[..|es| - 1]) + StepCancels(After(m, es[..|es| - 1]), es[|es| - 1])
  }

  function FiredIn(es: seq<Event>): nat {
    if es == [] then 0
    else FiredIn(es[..|es| - 1]) + (if es[|es| - 1].Drained? then |es[|es| - 1].order| else 0)
  }

  lemma {:induction false} ActionsCounted(m: Model, actions: seq<Action>)
    ensures ApplyAll(m, actions).cancelled == m.cancelled + Cancels(m, actions)
    ensures ApplyAll(m, actions).fired == m.fired && ApplyAll(m, actions).nextId == m.nextId + Schedules(actions)
  {
    if actions != [] { ActionsCounted(m, actions[..|actions| - 1]); }
  }

  lemma OneAction(m: Model, a: Action)
    ensures ApplyAll(m, [a]) == Apply(m, a)
  {
    assert [a][..0] == [];
  }

  lemma {:induction false} FiresCounted(m: Model, order: seq<TimerId>, now: int, react: Reaction, k: nat)
    requires Firing(m, order, now, react) && k <= |order|
    ensures var m' := FireAll(m, order[..k], now, react);
            && m'.cancelled == m.cancelled + DrainCancels(m, order[..k], now, react) && m'.fired == m.fired + k
            && m'.nextId == m.nextId + DrainSchedules(order[..k], react)
  {
    hide ApplyAll;
    hide Cancels;
    hide Schedules;
    hide NextExpiry;
    if k > 0 {
      FiresCounted(m, order, now, react, k - 1);
      assert order[..k][..k - 1] == order[..k - 1];
      var before, id := FireAll(m, order[..k - 1], now, react), order[k - 1];
      assert Turn(before, id, now);
      ActionsCounted(before.(live := before.live - {id}), react(id));
    }
  }

  lemma StepCounted(m: Model, e: Event)
    requires LegalStep(m, e)
    ensures Step(m, e).cancelled == m.cancelled + StepCancels(m, e)
    ensures Step(m, e).fired == m.fired + (if e.Drained? then |e.order| else 0)
    ensures Step(m, e).nextId == m.nextId + StepSchedules(e)
  {
    hide FireAll;
    hide Cancels;
    hide Schedules;
    hide Apply;
    match e
    case Call(a) =>
      ActionsCounted(m, [a]);
      OneAction(m, a);
    case Idle =>
    case Drained(now, order, react) =>
      FiresCounted(m, order, now, react, |order|);
      assert order[..|order|] == order;
  }

  /** In every run from a new timer `cancelled` counts the cancel calls that found a live timer, and
      `fired` the callbacks run; ids are 1, 2, 3, ... in the order of the schedule calls. */
  lemma {:induction false} Counters(es: seq<Event>, k: nat)
    requires Legal(Start, es) && k <= |es|
    ensures After(Start, es[..k]).cancelled == CancelledIn(Start, es[..k])
    ensures After(Start, es[..k]).fired == FiredIn(es[..k])
    ensures After(Start, es[..k]).nextId == 1 + ScheduledIn(es[..k])
  {
    hide Step;
    hide LegalStep;
    hide StepCancels;
    hide StepSchedules;
    if k > 0 {
      Counters(es, k - 1);
      assert es[..k][..k - 1] == es[..k - 1];
      StepCounted(After(Start, es[..k - 1]), es[k - 1]);
    }
  }

  // ---- the class runs like this ---------------------------------------------------------------

  /** A call from outside, or a turn of the event loop at clock reading `now`, in which the kernel
      timer is reported or not and the callbacks react so. */
  datatype Op = Make(action: Action) | Loop(ready: bool, now: nat, react: Reaction)

  ghost predicate Follows(es: seq<Event>, ops: seq<Op>) {
    |es| <= |ops| && forall k :: 0 <= k < |es| ==> Fits(es[k], ops[k])
  }

  ghost predicate Fits(e: Event, op: Op) {
    match op
    case Make(a) => e == Call(a)
    case Loop(ready, now, react) => if ready then e.Drained? && e.now == now && e.react == react else e == Idle
  }

  lemma ExtendFollows(es: seq<Event>, e: Event, ops: seq<Op>)
    requires Follows(es, ops) && |es| < |ops| && Fits(e, ops[|es|])
    ensures Follows(es + [e], ops)
  {
    assert forall k :: 0 <= k < |es| ==> (es + [e])[k] == es[k];
  }

  lemma NoEvents(ops: seq<Op>)
    ensures Follows([], ops) && Legal(Start, []) && After(Start, []) == Start
  {
  }

  /** Any sequence of calls and turns on a new timer is a legal run, so ExactFiring speaks about it. A
      turn in which a drain does not end within `fuel` firings is where it stops. */
  method Run(ops: seq<Op>, fuel: nat) returns (t: EpollTimer, done: bool, ghost es: seq<Event>)
    ensures Follows(es, ops) && Legal(Start, es)
    ensures done ==> |es| == |ops| && t.Valid() && t.State() == After(Start, es)
    ensures !done ==> |es| < |ops| && ops[|es|].Loop?
    ensures !done ==> exists order :: |order| == fuel && Firing(After(Start, es), order, ops[|es|].now, ops[|es|].react)
  {
    hide Matched;
    hide ArmedFor;
    hide Legal;
    hide After;
    hide Follows;
    hide Drain;
    hide Firing;
    hide Apply;
    hide FireAll;
    t := new EpollTimer();
    es := [];
    NoEvents(ops);
    for i := 0 to |ops|
      invariant t.Valid() && |es| == i && fresh(t)
      invariant Follows(es, ops) && Legal(Start, es) && t.State() == After(Start, es)
    {
      ghost var e;
      match ops[i] {
        case Make(a) =>
          e := Call(a);
          match a {
            case Schedule(clock, delay) => var _ := t.Schedule(clock, delay);
            case SchedulePeriodic(clock, interval) => var _ := t.SchedulePeriodic(clock, interval);
            case Cancel(id) => var _ := t.Cancel(id);
          }
        case Loop(ready, now, react) =>
          var _, ended, order := t.RunOnce(ready, now, react, fuel);
          if !ended {
            done := false;
            return;
          }
          e := if ready then Drained(now, order, react) else Idle;
      }
      Extend(Start, es, e);
      ExtendFollows(es, e, ops);
      es := es + [e];
    }
    done := true;
  }
}
