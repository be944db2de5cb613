/** What a tick-driven timer service promises, with no wheel in sight: a map from timer id to
    expiry and interval, in which the tick that moves time to `t` fires exactly the timers whose
    expiry is `t`. The theorems at the end are about every run of this service; TimerWheel.dfy
    proves that every operation of the hierarchical wheel is a step of it. */
module TimerSpec {
  import Bits
  import Lists

  type TimerId = nat

  /** `interval == 0` is a one-shot timer. */
  datatype Timer = Timer(expiry: nat, interval: nat)

  /** What a caller, or a callback, may ask for. */
  datatype Action = Schedule(delay: nat) | SchedulePeriodic(interval: nat) | Cancel(id: TimerId)

  /** What each timer's callback does when it is fired in one tick. A timer fires at most once per
      tick, so quantifying over reactions covers every callback behaviour. */
  type Reaction = TimerId -> seq<Action>

  datatype Model = Model(
    now: nat, nextId: TimerId, pending: map<TimerId, Timer>,
    inserted: nat, fired: nat, cancelled: nat, retired: nat)

  const Start := Model(0, 1, map[], 0, 0, 0, 0)

  function AtLeastOne(n: nat): nat {
    if n == 0 then 1 else n
  }

  function Add(m: Model, t: Timer): Model {
    m.(nextId := m.nextId + 1, pending := m.pending[m.nextId := t], inserted := m.inserted + 1)
  }

  function Apply(m: Model, a: Action): Model {
    match a
    case Schedule(d) => Add(m, Timer(m.now + AtLeastOne(d), 0))
    case SchedulePeriodic(n) => Add(m, Timer(m.now + AtLeastOne(n), AtLeastOne(n)))
    case Cancel(id) =>
      if id in m.pending then m.(pending := m.pending - {id}, cancelled := m.cancelled + 1) else m
  }

  function ApplyAll(m: Model, actions: seq<Action>): Model {
    if actions == [] then m
    else Apply(ApplyAll(m, actions[..|actions| - 1]), actions[|actions| - 1])
  }

  /** The timer leaves the pending set before its callback runs. */
  function Begin(m: Model, id: TimerId): Model {
    m.(pending := m.pending - {id})
  }

  /** After the callback: count the firing and re-arm a periodic timer from the current tick. */
  function Finish(m: Model, id: TimerId, t: Timer): Model {
    if t.interval == 0 then m.(fired := m.fired + 1, retired := m.retired + 1)
    else m.(fired := m.fired + 1, pending := m.pending[id := Timer(m.now + t.interval, t.interval)])
  }

  function Fire(m: Model, id: TimerId, react: Reaction): Model {
    if id !in m.pending then m
    else Finish(ApplyAll(Begin(m, id), react(id)), id, m.pending[id])
  }

  function FireAll(m: Model, order: seq<TimerId>, react: Reaction): Model {
    if order == [] then m
    else Fire(FireAll(m, order[..|order| - 1], react), order[|order| - 1], react)
  }

  function Due(m: Model): set<TimerId> {
    set id | id in m.pending && m.pending[id].expiry == m.now + 1
  }

  /** No callback cancels a timer whose turn in the same tick is still to come. (Its own id, and
      those fired before it, it may cancel.) */
  predicate SafeOrder(order: seq<TimerId>, react: Reaction) {
    forall i, j :: 0 <= i < j < |order| ==> Cancel(order[j]) !in react(order[i])
  }

  /** A promise that does not depend on the order: no callback cancels another due timer. */
  ghost predicate SafeReactions(m: Model, react: Reaction) {
    forall i, c :: i in Due(m) && c in Due(m) && Cancel(c) in react(i) ==> c == i
  }

  lemma SafeAnyway(m: Model, order: seq<TimerId>, react: Reaction)
    requires FiringOrder(m, order) && SafeReactions(m, react)
    ensures SafeOrder(order, react)
  {
  }

  /** The firing order of a tick: exactly the due timers, each once. */
  ghost predicate FiringOrder(m: Model, order: seq<TimerId>) {
    && Lists.Distinct(order)
    && (forall i :: 0 <= i < |order| ==> order[i] in Due(m))
    && (forall id :: id in Due(m) ==> id in order)
  }

  function TickTo(m: Model, order: seq<TimerId>, react: Reaction): Model {
    FireAll(m.(now := m.now + 1), order, react)
  }

  // ---- runs -----------------------------------------------------------------------------------

  datatype Event = Do(action: Action) | Tick(order: seq<TimerId>, react: Reaction)

  function Step(m: Model, e: Event): Model {
    match e
    case Do(a) => Apply(m, a)
    case Tick(order, react) => TickTo(m, order, react)
  }

  ghost predicate LegalStep(m: Model, e: Event) {
    e.Tick? ==> FiringOrder(m, e.order) && SafeOrder(e.order, e.react)
  }

  function After(m: Model, es: seq<Event>): Model {
    if es == [] then m else Step(After(m, es[..|es| - 1]), es[|es| - 1])
  }

  ghost predicate Legal(m: Model, es: seq<Event>) {
    forall k :: 0 <= k < |es| ==> LegalStep(After(m, es[..k]), es[k])
  }

  lemma Extend(m: Model, es: seq<Event>, e: Event)
    requires Legal(m, es) && LegalStep(After(m, es), e)
    ensures Legal(m, es + [e]) && After(m, es + [e]) == Step(After(m, es), e)
  {
    assert (es + [e])[..|es|] == es;
    assert forall k :: 0 <= k < |es| ==> (es + [e])[..k] == es[..k];
  }

  /** Time at which event `k`, a tick, fires its timers. */
  function TimeOf(m: Model, es: seq<Event>, k: nat): nat
    requires k < |es|
  {
    After(m, es[..k]).now + 1
  }

  /** Ids are fresh, everything pending lies in the future, and every timer ever inserted has been
      cancelled, has fired its only shot, or is pending. */
  ghost predicate WellFormed(m: Model) {
    && m.nextId >= 1
    && (forall id :: id in m.pending ==> 1 <= id < m.nextId && m.pending[id].expiry > m.now)
    && m.inserted == m.cancelled + m.retired + |m.pending|
  }

  // ---- one step -------------------------------------------------------------------------------

  lemma RemoveSize<K, V>(p: map<K, V>, k: K)
    requires k in p
    ensures |p - {k}| == |p| - 1
  {
    assert (p - {k}).Keys == p.Keys - {k};
  }

  lemma AddSize<K, V>(p: map<K, V>, k: K, v: V)
    requires k !in p
    ensures |p[k := v]| == |p| + 1
  {
    assert p[k := v].Keys == p.Keys + {k};
  }

  ghost predicate FreshIds(m: Model) {
    m.nextId >= 1 && forall id :: id in m.pending ==> 1 <= id < m.nextId
  }

  /** What a batch of actions does to the pending timers: those in `gone` go, the others stay, and
      what is new has a new id and an expiry in the future. */
  ghost predicate Evolves(m: Model, m': Model, gone: iset<TimerId>) {
    && m'.now == m.now && m'.nextId >= m.nextId
    && (forall id :: id in m'.pending && id in m.pending ==> m'.pending[id] == m.pending[id])
    && (forall id :: id in m'.pending && id !in m.pending ==> id >= m.nextId && m'.pending[id].expiry > m.now)
    && (forall id :: id in m.pending ==> (id in m'.pending <==> id !in gone))
  }

  ghost function CancelledBy(actions: seq<Action>): iset<TimerId> {
    iset id | Cancel(id) in actions
  }

  lemma ApplyEvolves(m: Model, a: Action)
    requires FreshIds(m)
    ensures FreshIds(Apply(m, a)) && Evolves(m, Apply(m, a), CancelledBy([a]))
  {
  }

  lemma EvolvesTrans(m: Model, m1: Model, m2: Model, g1: iset<TimerId>, g2: iset<TimerId>)
    requires FreshIds(m) && Evolves(m, m1, g1) && Evolves(m1, m2, g2)
    ensures Evolves(m, m2, g1 + g2)
  {
  }

  lemma {:induction false} ApplyAllEvolves(m: Model, actions: seq<Action>)
    requires FreshIds(m)
    ensures FreshIds(ApplyAll(m, actions)) && Evolves(m, ApplyAll(m, actions), CancelledBy(actions))
  {
    if actions != [] {
      var init, last := actions[..|actions| - 1], actions[|actions| - 1];
      ApplyAllEvolves(m, init);
      ApplyEvolves(ApplyAll(m, init), last);
      EvolvesTrans(m, ApplyAll(m, init), ApplyAll(m, actions), CancelledBy(init), CancelledBy([last]));
      assert actions == init + [last];
      assert CancelledBy(init) + CancelledBy([last]) == CancelledBy(actions);
    }
  }

  /** What firing one timer does to it and to every other timer. */
  ghost predicate Fired(m: Model, m': Model, id: TimerId, react: Reaction)
    requires id in m.pending
  {
    && m'.now == m.now && m'.nextId >= m.nextId
    && (forall j :: j in m'.pending && j in m.pending && j != id ==> m'.pending[j] == m.pending[j])
    && (forall j :: j in m'.pending && j !in m.pending ==> j >= m.nextId && m'.pending[j].expiry > m.now)
    && (forall j :: j in m.pending && j != id ==> (j in m'.pending <==> Cancel(j) !in react(id)))
    && (if m.pending[id].interval == 0 then id !in m'.pending
        else id in m'.pending && m'.pending[id] == Timer(m.now + m.pending[id].interval, m.pending[id].interval))
  }

  lemma FireIsFired(m: Model, id: TimerId, react: Reaction)
    requires FreshIds(m) && id in m.pending
    ensures FreshIds(Fire(m, id, react)) && Fired(m, Fire(m, id, react), id, react)
  {
    ApplyAllEvolves(Begin(m, id), react(id));
    hide ApplyAll;
  }

  /** Whatever is pending after firing `order[..k]` is either still waiting to be fired in this
      tick, untouched, or lies strictly in the future: re-arming never catches up with the tick. */
  ghost predicate PartlyFired(m: Model, m': Model, order: seq<TimerId>, k: nat)
    requires k <= |order|
  {
    && m'.now == m.now + 1 && m'.nextId >= m.nextId
    && (forall j :: k <= j < |order| ==>
          order[j] in m'.pending && order[j] in m.pending && m'.pending[order[j]] == m.pending[order[j]])
    && (forall id :: id in m'.pending && id !in order[k..] ==> m'.pending[id].expiry > m'.now)
  }

  lemma PartlyFiredStep(m: Model, m1: Model, m2: Model, order: seq<TimerId>, react: Reaction, k: nat)
    requires FiringOrder(m, order) && SafeOrder(order, react) && k < |order|
    requires PartlyFired(m, m1, order, k) && Fired(m1, m2, order[k], react)
    ensures PartlyFired(m, m2, order, k + 1)
  {
    hide Due;
    assert order[k..] == [order[k]] + order[k + 1..];
  }

  lemma {:induction false} FireAllFires(m: Model, order: seq<TimerId>, react: Reaction, k: nat)
    requires WellFormed(m) && FiringOrder(m, order) && SafeOrder(order, react) && k <= |order|
    ensures FreshIds(FireAll(m.(now := m.now + 1), order[..k], react))
    ensures PartlyFired(m, FireAll(m.(now := m.now + 1), order[..k], react), order, k)
  {
    if k == 0 {
      assert order[..0] == [] && order[0..] == order;
      assert forall id :: id in Due(m) ==> id in order;
    } else {
      FireAllFires(m, order, react, k - 1);
      assert order[..k][..k - 1] == order[..k - 1];
      var before := FireAll(m.(now := m.now + 1), order[..k - 1], react);
      FireIsFired(before, order[k - 1], react);
      hide Fire;
      PartlyFiredStep(m, before, Fire(before, order[k - 1], react), order, react, k - 1);
    }
  }

  lemma NoneFired(m: Model, order: seq<TimerId>, react: Reaction)
    ensures FireAll(m, order[..0], react) == m
  {
  }

  /** Turn `k` of a tick: the timer is pending as it was, and firing it does what Fired says. */
  lemma NextTurn(m: Model, order: seq<TimerId>, react: Reaction, k: nat)
    requires WellFormed(m) && FiringOrder(m, order) && SafeOrder(order, react) && k < |order|
    ensures var m1 := FireAll(m.(now := m.now + 1), order[..k], react);
            var m2 := FireAll(m.(now := m.now + 1), order[..k + 1], react);
            && FreshIds(m1) && m1.now == m.now + 1 && m1.nextId >= m.nextId > order[k]
            && order[k] in m.pending && order[k] in m1.pending && m1.pending[order[k]] == m.pending[order[k]]
            && Fired(m1, m2, order[k], react)
  {
    hide Fire;
    hide Fired;
    hide SafeOrder;
    hide FiringOrder;
    FireAllFires(m, order, react, k);
    assert order[..k + 1][..k] == order[..k];
    FireIsFired(FireAll(m.(now := m.now + 1), order[..k], react), order[k], react);
  }

  lemma InPrefix(order: seq<TimerId>, k: nat, id: TimerId)
    requires k < |order|
    ensures id in order[..k + 1] <==> id in order[..k] || id == order[k]
  {
    assert order[..k + 1] == order[..k] + [order[k]];
  }

  // ---- counting -------------------------------------------------------------------------------

  /** `open` is 1 between Begin and Finish, when the timer being fired is in no group. */
  ghost predicate Balanced(m: Model, open: nat) {
    m.inserted == m.cancelled + m.retired + |m.pending| + open
  }

  lemma ApplyBalanced(m: Model, a: Action, open: nat)
    requires FreshIds(m) && Balanced(m, open)
    ensures Balanced(Apply(m, a), open)
  {
    match a
    case Schedule(d) => AddSize(m.pending, m.nextId, Timer(m.now + AtLeastOne(d), 0));
    case SchedulePeriodic(n) => AddSize(m.pending, m.nextId, Timer(m.now + AtLeastOne(n), AtLeastOne(n)));
    case Cancel(id) => if id in m.pending { RemoveSize(m.pending, id); }
  }

  lemma {:induction false} ApplyAllBalanced(m: Model, actions: seq<Action>, open: nat)
    requires FreshIds(m) && Balanced(m, open)
    ensures Balanced(ApplyAll(m, actions), open)
  {
    if actions != [] {
      var init, last := actions[..|actions| - 1], actions[|actions| - 1];
      ApplyAllBalanced(m, init, open);
      ApplyAllEvolves(m, init);
      ApplyBalanced(ApplyAll(m, init), last, open);
    }
  }

  lemma FireBalanced(m: Model, id: TimerId, react: Reaction)
    requires FreshIds(m) && Balanced(m, 0) && id in m.pending
    ensures Balanced(Fire(m, id, react), 0)
  {
    var b := Begin(m, id);
    RemoveSize(m.pending, id);
    ApplyAllBalanced(b, react(id), 1);
    ApplyAllEvolves(b, react(id));
    hide ApplyAll;
    var c := ApplyAll(b, react(id));
    var t := m.pending[id];
    if t.interval != 0 {
      AddSize(c.pending, id, Timer(c.now + t.interval, t.interval));
    }
  }

  lemma {:induction false} FireAllBalanced(m: Model, order: seq<TimerId>, react: Reaction, k: nat)
    requires WellFormed(m) && FiringOrder(m, order) && SafeOrder(order, react) && k <= |order|
    ensures Balanced(FireAll(m.(now := m.now + 1), order[..k], react), 0)
  {
    if k > 0 {
      FireAllBalanced(m, order, react, k - 1);
      FireAllFires(m, order, react, k - 1);
      assert order[..k][..k - 1] == order[..k - 1];
      FireBalanced(FireAll(m.(now := m.now + 1), order[..k - 1], react), order[k - 1], react);
      hide Fire;
    }
  }

  lemma TickKeeps(m: Model, order: seq<TimerId>, react: Reaction)
    requires WellFormed(m) && FiringOrder(m, order) && SafeOrder(order, react)
    ensures WellFormed(TickTo(m, order, react)) && TickTo(m, order, react).nextId >= m.nextId
    ensures TickTo(m, order, react).now == m.now + 1
  {
    hide FireAll;
    FireAllFires(m, order, react, |order|);
    FireAllBalanced(m, order, react, |order|);
    hide FiringOrder;
    hide SafeOrder;
    assert order[..|order|] == order && order[|order|..] == [];
  }

  /** Every step keeps the service well formed: in particular nothing is ever overdue, and the
      counters balance. */
  lemma StepKeeps(m: Model, e: Event)
    requires WellFormed(m) && LegalStep(m, e)
    ensures WellFormed(Step(m, e)) && Step(m, e).nextId >= m.nextId && Step(m, e).now >= m.now
  {
    match e
    case Do(a) =>
      ApplyEvolves(m, a);
      ApplyBalanced(m, a, 0);
    case Tick(order, react) => TickKeeps(m, order, react);
  }

  lemma {:induction false} RunKeeps(m: Model, es: seq<Event>, k: nat)
    requires WellFormed(m) && Legal(m, es) && k <= |es|
    ensures WellFormed(After(m, es[..k])) && After(m, es[..k]).nextId >= m.nextId
  {
    if k > 0 {
      RunKeeps(m, es, k - 1);
      assert es[..k][..k - 1] == es[..k - 1];
      StepKeeps(After(m, es[..k - 1]), es[k - 1]);
    } else {
      assert es[..0] == [];
    }
  }

  // ---- one timer through a run ----------------------------------------------------------------

  /** None of the events `from` to `to - 1` cancels `id`: neither a caller nor another timer's
      callback. (Its own callback may try, since that has no effect.) */
  ghost predicate NotCancelled(es: seq<Event>, id: TimerId, from: nat, to: nat) {
    to <= |es| && forall k :: from <= k < to ==> Spares(es[k], id)
  }

  ghost predicate Spares(e: Event, id: TimerId) {
    match e
    case Do(a) => a != Cancel(id)
    case Tick(order, react) => forall i :: i in order && Cancel(id) in react(i) ==> i == id
  }

  /** The times at which a timer set for `t.expiry` is meant to fire. */
  predicate FiresAt(t: Timer, time: nat) {
    time == t.expiry || (t.interval > 0 && time > t.expiry && (time - t.expiry) % t.interval == 0)
  }

  /** The state of a never-cancelled timer at time `now`: its next firing time, if it has one. */
  ghost predicate OnCourse(t: Timer, p: map<TimerId, Timer>, id: TimerId, now: nat) {
    if now < t.expiry then id in p && p[id] == t
    else if t.interval == 0 then id !in p
    else
      && id in p && p[id].interval == t.interval
      && now < p[id].expiry <= now + t.interval
      && (p[id].expiry - t.expiry) % t.interval == 0
  }

  /** A timer being fired leaves its course at its own turn and keeps it at every other turn. */
  lemma {:induction false} TurnOf(m: Model, order: seq<TimerId>, react: Reaction, id: TimerId, k: nat)
    requires WellFormed(m) && FiringOrder(m, order) && SafeOrder(order, react) && k <= |order|
    requires Spares(Tick(order, react), id) && id < m.nextId
    ensures var m' := FireAll(m.(now := m.now + 1), order[..k], react);
            if id in order[..k] && id in m.pending then
              if m.pending[id].interval == 0 then id !in m'.pending
              else id in m'.pending && m'.pending[id] == Timer(m.now + 1 + m.pending[id].interval, m.pending[id].interval)
            else (id in m'.pending <==> id in m.pending) && (id in m.pending ==> m'.pending[id] == m.pending[id])
  {
    hide FireAll;
    hide WellFormed;
    hide FiringOrder;
    hide SafeOrder;
    hide Spares;
    if k == 0 {
      NoneFired(m.(now := m.now + 1), order, react);
    } else {
      TurnOf(m, order, react, id, k - 1);
      NextTurn(m, order, react, k - 1);
      InPrefix(order, k - 1, id);
      SparedBy(order, react, id, k - 1);
    }
  }

  lemma SparedBy(order: seq<TimerId>, react: Reaction, id: TimerId, k: nat)
    requires Spares(Tick(order, react), id) && k < |order|
    ensures Cancel(id) in react(order[k]) ==> order[k] == id
  {
    assert order[k] in order;
  }

  lemma NextMultiple(e: nat, e0: nat, n: nat)
    requires n > 0 && e0 <= e && (e - e0) % n == 0
    ensures (e + n - e0) % n == 0
  {
    Bits.DivModUnique(e + n - e0, n, (e - e0) / n + 1, 0);
  }

  /** Between two consecutive firing times there is no other. */
  lemma NoneBetween(e: nat, e0: nat, n: nat, time: nat)
    requires n > 0 && e0 <= e && (e - e0) % n == 0 && e0 <= time && e - n < time <= e
    ensures (time - e0) % n == 0 <==> time == e
  {
    if (time - e0) % n == 0 && time != e {
      Bits.SmallMultiple(n, (e - e0) / n - (time - e0) / n, e - time);
    }
  }

  /** A timer on course is due exactly at its firing times. */
  lemma CourseDue(m: Model, e: Event, id: TimerId, t: Timer)
    requires LegalStep(m, e) && e.Tick? && OnCourse(t, m.pending, id, m.now)
    ensures id in e.order <==> FiresAt(t, m.now + 1)
  {
    if m.now >= t.expiry && t.interval > 0 {
      NoneBetween(m.pending[id].expiry, t.expiry, t.interval, m.now + 1);
    }
  }

  lemma CourseTick(m: Model, order: seq<TimerId>, react: Reaction, id: TimerId, t: Timer)
    requires WellFormed(m) && LegalStep(m, Tick(order, react)) && Spares(Tick(order, react), id) && id < m.nextId
    requires OnCourse(t, m.pending, id, m.now)
    ensures OnCourse(t, TickTo(m, order, react).pending, id, m.now + 1)
  {
    hide FireAll;
    hide SafeOrder;
    hide Spares;
    TurnOf(m, order, react, id, |order|);
    assert order[..|order|] == order;
    hide WellFormed;
    if m.now >= t.expiry && t.interval > 0 {
      NextMultiple(m.pending[id].expiry, t.expiry, t.interval);
    } else if m.now + 1 == t.expiry && t.interval > 0 {
      NextMultiple(t.expiry, t.expiry, t.interval);
    }
  }

  lemma CourseStep(m: Model, e: Event, id: TimerId, t: Timer)
    requires WellFormed(m) && LegalStep(m, e) && Spares(e, id) && id < m.nextId
    requires OnCourse(t, m.pending, id, m.now)
    ensures OnCourse(t, Step(m, e).pending, id, Step(m, e).now)
  {
    hide TickTo;
    match e
    case Do(a) => ApplyEvolves(m, a);
    case Tick(order, react) =>
      CourseTick(m, order, react, id, t);
      TickKeeps(m, order, react);
  }

  lemma StepOf(m: Model, es: seq<Event>, k: nat)
    requires Legal(m, es) && k < |es|
    ensures LegalStep(After(m, es[..k]), es[k]) && After(m, es[..k + 1]) == Step(After(m, es[..k]), es[k])
  {
    hide Step;
    assert es[..k + 1][..k] == es[..k];
  }

  lemma {:induction false} CourseRun(m: Model, es: seq<Event>, id: TimerId, t: Timer, from: nat, k: nat)
    requires WellFormed(m) && Legal(m, es) && from <= k <= |es| && NotCancelled(es, id, from, k)
    requires After(m, es[..from]).nextId > id && OnCourse(t, After(m, es[..from]).pending, id, After(m, es[..from]).now)
    ensures After(m, es[..k]).nextId > id && OnCourse(t, After(m, es[..k]).pending, id, After(m, es[..k]).now)
  {
    hide Step;
    hide After;
    hide Legal;
    hide LegalStep;
    hide WellFormed;
    hide OnCourse;
    if k > from {
      CourseRun(m, es, id, t, from, k - 1);
      RunKeeps(m, es, k - 1);
      StepOf(m, es, k - 1);
      StepKeeps(After(m, es[..k - 1]), es[k - 1]);
      CourseStep(After(m, es[..k - 1]), es[k - 1], id, t);
    }
  }

  /** Exact firing, for every run: a timer that is pending after `from` events, and that nobody
      cancels before event `k`, is fired by event `k`, a tick to time `u`, if and only if `u` is its
      expiry or, when it is periodic, a later multiple of its interval after it. So it is never
      early, late, doubled or lost. */
  lemma ExactFiring(m: Model, es: seq<Event>, id: TimerId, from: nat, k: nat)
    requires WellFormed(m) && Legal(m, es) && from <= k < |es| && es[k].Tick?
    requires id in After(m, es[..from]).pending && NotCancelled(es, id, from, k)
    ensures id in es[k].order <==> FiresAt(After(m, es[..from]).pending[id], TimeOf(m, es, k))
  {
    var t := After(m, es[..from]).pending[id];
    RunKeeps(m, es, from);
    CourseRun(m, es, id, t, from, k);
    CourseDue(After(m, es[..k]), es[k], id, t);
  }

  /** A timer issued by event `k` runs from then on. */
  lemma IssuedFiring(es: seq<Event>, k: nat, j: nat, t: Timer)
    requires Legal(Start, es) && k < j < |es| && es[j].Tick? && es[k].Do?
    requires Apply(After(Start, es[..k]), es[k].action) == Add(After(Start, es[..k]), t)
    requires NotCancelled(es, After(Start, es[..k]).nextId, k + 1, j)
    ensures TimeOf(Start, es, j) > After(Start, es[..k]).now
    ensures After(Start, es[..k]).nextId in es[j].order <==> FiresAt(t, TimeOf(Start, es, j))
  {
    hide FiresAt;
    hide Legal;
    hide Apply;
    hide NotCancelled;
    var before := After(Start, es[..k]);
    assert es[..k + 1][..k] == es[..k];
    assert After(Start, es[..k + 1]) == Step(before, es[k]);
    StartsWell();
    hide WellFormed;
    hide TickTo;
    ExactFiring(Start, es, before.nextId, k + 1, j);
    TimeMovesOn(es, k, j);
  }

  /** What `schedule(delay)` promises, in any run from the start: a timer issued at time `t0`, and not
      cancelled before, fires in the tick to `u` exactly if `u` is `t0 + delay`, and for a delay of 0
      exactly in the next tick. */
  lemma ScheduledFiring(es: seq<Event>, k: nat, j: nat, delay: nat)
    requires Legal(Start, es) && k < j < |es| && es[j].Tick? && es[k] == Do(Schedule(delay))
    requires NotCancelled(es, After(Start, es[..k]).nextId, k + 1, j)
    ensures delay >= 1 ==>
              (After(Start, es[..k]).nextId in es[j].order <==>
               TimeOf(Start, es, j) == After(Start, es[..k]).now + delay)
    ensures delay == 0 ==>
              (After(Start, es[..k]).nextId in es[j].order <==>
               TimeOf(Start, es, j) == After(Start, es[..k]).now + 1)
  {
    hide After;
    IssuedFiring(es, k, j, Timer(After(Start, es[..k]).now + AtLeastOne(delay), 0));
  }

  /** What `schedule_periodic(n)` promises: until it is cancelled, a timer issued at time `t0` fires
      in the tick to `u` exactly if `u` is a multiple of `n` ticks after `t0`; with `n == 0`, in every
      tick. */
  lemma PeriodicFiring(es: seq<Event>, k: nat, j: nat, n: nat)
    requires Legal(Start, es) && k < j < |es| && es[j].Tick? && es[k] == Do(SchedulePeriodic(n))
    requires NotCancelled(es, After(Start, es[..k]).nextId, k + 1, j)
    ensures TimeOf(Start, es, j) > After(Start, es[..k]).now
    ensures n >= 1 ==>
              (After(Start, es[..k]).nextId in es[j].order <==>
               (TimeOf(Start, es, j) - After(Start, es[..k]).now) % n == 0)
    ensures n == 0 ==> After(Start, es[..k]).nextId in es[j].order
  {
    hide After;
    hide FiresAt;
    var t0, p := After(Start, es[..k]).now, AtLeastOne(n);
    IssuedFiring(es, k, j, Timer(t0 + p, p));
    PeriodFrom(t0, p, TimeOf(Start, es, j));
  }

  lemma {:induction false} TimeMovesOn(es: seq<Event>, k: nat, j: nat)
    requires Legal(Start, es) && k <= j <= |es|
    ensures After(Start, es[..k]).now <= After(Start, es[..j]).now
  {
    hide Step;
    hide LegalStep;
    hide WellFormed;
    if k < j {
      TimeMovesOn(es, k, j - 1);
      StartsWell();
      RunKeeps(Start, es, j - 1);
      assert es[..j][..j - 1] == es[..j - 1];
      StepKeeps(After(Start, es[..j - 1]), es[j - 1]);
    }
  }

  lemma StartsWell()
    ensures WellFormed(Start)
  {
  }

  /** A first expiry one period after the start: the firing times are the multiples of the period. */
  lemma PeriodFrom(t0: nat, n: nat, u: nat)
    requires n > 0 && u > t0
    ensures FiresAt(Timer(t0 + n, n), u) <==> (u - t0) % n == 0
  {
    if u < t0 + n {
      Bits.DivModUnique(u - t0, n, 0, u - t0);
    } else {
      var q, r := (u - t0 - n) / n, (u - t0 - n) % n;
      Bits.DivModUnique(u - t0, n, q + 1, r);
    }
  }

  lemma GoneStep(m: Model, e: Event, id: TimerId)
    requires WellFormed(m) && LegalStep(m, e) && id < m.nextId && id !in m.pending
    ensures id !in Step(m, e).pending
    ensures e.Tick? ==> id !in e.order
  {
    match e
    case Do(a) => ApplyEvolves(m, a);
    case Tick(order, react) => GoneDuringTick(m, order, react, id, |order|); assert order[..|order|] == order;
  }

  lemma {:induction false} GoneDuringTick(m: Model, order: seq<TimerId>, react: Reaction, id: TimerId, k: nat)
    requires WellFormed(m) && FiringOrder(m, order) && SafeOrder(order, react) && k <= |order|
    requires id < m.nextId && id !in m.pending
    ensures id !in FireAll(m.(now := m.now + 1), order[..k], react).pending
  {
    hide FireAll;
    hide WellFormed;
    hide FiringOrder;
    hide SafeOrder;
    if k == 0 {
      NoneFired(m.(now := m.now + 1), order, react);
    } else {
      GoneDuringTick(m, order, react, id, k - 1);
      NextTurn(m, order, react, k - 1);
    }
  }

  /** A timer that has been issued and is no longer pending (cancelled, or a one-shot that fired)
      never comes back and is never fired again, whatever the rest of the run does. */
  lemma {:induction false} GoneForGood(m: Model, es: seq<Event>, id: TimerId, from: nat, k: nat)
    requires WellFormed(m) && Legal(m, es) && from <= k <= |es|
    requires id < After(m, es[..from]).nextId && id !in After(m, es[..from]).pending
    ensures id < After(m, es[..k]).nextId && id !in After(m, es[..k]).pending
    ensures k < |es| && es[k].Tick? ==> id !in es[k].order
  {
    hide Step;
    hide WellFormed;
    hide LegalStep;
    if k > from {
      GoneForGood(m, es, id, from, k - 1);
      GoneNext(m, es, id, k - 1);
    }
    if k < |es| { GoneNext(m, es, id, k); }
  }

  lemma GoneNext(m: Model, es: seq<Event>, id: TimerId, k: nat)
    requires WellFormed(m) && Legal(m, es) && k < |es| && id < After(m, es[..k]).nextId && id !in After(m, es[..k]).pending
    ensures id < After(m, es[..k + 1]).nextId && id !in After(m, es[..k + 1]).pending
    ensures es[k].Tick? ==> id !in es[k].order
  {
    hide Step;
    hide WellFormed;
    hide LegalStep;
    hide After;
    hide Legal;
    RunKeeps(m, es, k);
    StepOf(m, es, k);
    StepKeeps(After(m, es[..k]), es[k]);
    GoneStep(After(m, es[..k]), es[k], id);
  }

  /** A cancel by a callback works at once: whatever fires in the rest of the tick, the timer is
      not pending any more. */
  lemma {:induction false} CancelDuringTick(m: Model, order: seq<TimerId>, react: Reaction, id: TimerId, i: nat, k: nat)
    requires WellFormed(m) && FiringOrder(m, order) && SafeOrder(order, react) && i < k <= |order|
    requires id < m.nextId && order[i] != id && Cancel(id) in react(order[i])
    ensures id !in FireAll(m.(now := m.now + 1), order[..k], react).pending
  {
    hide FireAll;
    hide WellFormed;
    hide FiringOrder;
    hide SafeOrder;
    if k > i + 1 { CancelDuringTick(m, order, react, id, i, k - 1); }
    NextTurn(m, order, react, k - 1);
  }

  /** The other half of ExactFiring: once a caller, or another timer's callback, has cancelled an
      issued timer, it is never pending and never fired again. */
  lemma CancelledForGood(m: Model, es: seq<Event>, id: TimerId, k: nat, j: nat)
    requires WellFormed(m) && Legal(m, es) && k < j <= |es| && id < After(m, es[..k]).nextId && !Spares(es[k], id)
    ensures id !in After(m, es[..j]).pending
    ensures j < |es| && es[j].Tick? ==> id !in es[j].order
  {
    hide Step;
    hide WellFormed;
    hide LegalStep;
    RunKeeps(m, es, k);
    assert es[..k + 1][..k] == es[..k];
    CancelStep(After(m, es[..k]), es[k], id);
    StepKeeps(After(m, es[..k]), es[k]);
    GoneForGood(m, es, id, k + 1, j);
  }

  lemma CancelStep(m: Model, e: Event, id: TimerId)
    requires WellFormed(m) && LegalStep(m, e) && id < m.nextId && !Spares(e, id)
    ensures id !in Step(m, e).pending
  {
    hide FireAll;
    hide WellFormed;
    hide FiringOrder;
    hide SafeOrder;
    match e
    case Do(a) =>
    case Tick(order, react) =>
      var c :| c in order && Cancel(id) in react(c) && c != id;
      var i :| 0 <= i < |order| && order[i] == c;
      CancelDuringTick(m, order, react, id, i, |order|);
      assert order[..|order|] == order;
  }

  // ---- timers issued inside a callback --------------------------------------------------------

  /** The service when the callback of `order[i]` is about to make its call number `a`. */
  function MidCallback(m: Model, order: seq<TimerId>, react: Reaction, i: nat, a: nat): Model
    requires i < |order| && a <= |react(order[i])|
  {
    ApplyAll(Begin(FireAll(m.(now := m.now + 1), order[..i], react), order[i]), react(order[i])[..a])
  }

  /** Neither the rest of that callback nor a later one of the same tick cancels `id`. */
  ghost predicate SparedAfter(order: seq<TimerId>, react: Reaction, i: nat, a: nat, id: TimerId)
    requires i < |order|
  {
    && (forall c :: a < c < |react(order[i])| ==> react(order[i])[c] != Cancel(id))
    && (forall k :: i < k < |order| ==> Cancel(id) !in react(order[k]))
  }

  ghost predicate Has(m: Model, id: TimerId, t: Timer) {
    id in m.pending && m.pending[id] == t && id < m.nextId
  }

  lemma InsideFresh(m: Model, order: seq<TimerId>, react: Reaction, i: nat, a: nat)
    requires WellFormed(m) && FiringOrder(m, order) && SafeOrder(order, react) && i < |order| && a <= |react(order[i])|
    ensures var b := MidCallback(m, order, react, i, a);
            FreshIds(b) && b.now == m.now + 1 && b.nextId >= m.nextId && order[i] < m.nextId
  {
    hide FireAll;
    hide ApplyAll;
    FireAllFires(m, order, react, i);
    ApplyAllEvolves(Begin(FireAll(m.(now := m.now + 1), order[..i], react), order[i]), react(order[i])[..a]);
    assert order[i] in Due(m);
  }

  /** The new timer is there for the rest of the callback. */
  lemma {:induction false} KeptInside(m: Model, order: seq<TimerId>, react: Reaction, i: nat, a: nat, t: Timer, c: nat)
    requires WellFormed(m) && FiringOrder(m, order) && SafeOrder(order, react)
    requires i < |order| && a < c <= |react(order[i])|
    requires var b := MidCallback(m, order, react, i, a);
             Apply(b, react(order[i])[a]) == Add(b, t) && SparedAfter(order, react, i, a, b.nextId)
    ensures Has(MidCallback(m, order, react, i, c), MidCallback(m, order, react, i, a).nextId, t)
  {
    hide MidCallback;
    hide FiringOrder;
    hide SafeOrder;
    hide WellFormed;
    hide Apply;
    var acts := react(order[i]);
    NextCall(m, order, react, i, c - 1);
    if c > a + 1 {
      KeptInside(m, order, react, i, a, t, c - 1);
      InsideFresh(m, order, react, i, c - 1);
      ApplyEvolves(MidCallback(m, order, react, i, c - 1), acts[c - 1]);
    }
  }

  lemma NextCall(m: Model, order: seq<TimerId>, react: Reaction, i: nat, a: nat)
    requires i < |order| && a < |react(order[i])|
    ensures MidCallback(m, order, react, i, a + 1) == Apply(MidCallback(m, order, react, i, a), react(order[i])[a])
  {
    hide FireAll;
    hide Apply;
    var acts := react(order[i]);
    assert acts[..a + 1][..a] == acts[..a];
  }

  lemma KeptToTheEnd(m: Model, order: seq<TimerId>, react: Reaction, i: nat, a: nat, t: Timer)
    requires WellFormed(m) && FiringOrder(m, order) && SafeOrder(order, react)
    requires i < |order| && a < |react(order[i])|
    requires var b := MidCallback(m, order, react, i, a);
             Apply(b, react(order[i])[a]) == Add(b, t) && SparedAfter(order, react, i, a, b.nextId)
    ensures Has(FireAll(m.(now := m.now + 1), order[..i + 1], react), MidCallback(m, order, react, i, a).nextId, t)
  {
    hide MidCallback;
    hide FireAll;
    hide Apply;
    hide SafeOrder;
    hide FiringOrder;
    hide SparedAfter;
    hide WellFormed;
    InsideFresh(m, order, react, i, a);
    KeptInside(m, order, react, i, a, t, |react(order[i])|);
    CallbackEnds(m, order, react, i);
  }

  lemma CallbackEnds(m: Model, order: seq<TimerId>, react: Reaction, i: nat)
    requires WellFormed(m) && FiringOrder(m, order) && SafeOrder(order, react) && i < |order|
    ensures FireAll(m.(now := m.now + 1), order[..i + 1], react) ==
            Finish(MidCallback(m, order, react, i, |react(order[i])|), order[i], m.pending[order[i]])
  {
    hide ApplyAll;
    hide Finish;
    hide WellFormed;
    var acts := react(order[i]);
    NextTurn(m, order, react, i);
    hide SafeOrder;
    hide Fired;
    assert order[..i + 1][..i] == order[..i];
    assert acts[..|acts|] == acts;
  }

  /** ... and for the rest of the tick. */
  lemma {:induction false} KeptInTick(m: Model, order: seq<TimerId>, react: Reaction, i: nat, a: nat, t: Timer, k: nat)
    requires WellFormed(m) && FiringOrder(m, order) && SafeOrder(order, react)
    requires i < k <= |order| && a < |react(order[i])|
    requires var b := MidCallback(m, order, react, i, a);
             Apply(b, react(order[i])[a]) == Add(b, t) && SparedAfter(order, react, i, a, b.nextId)
    ensures Has(FireAll(m.(now := m.now + 1), order[..k], react), MidCallback(m, order, react, i, a).nextId, t)
  {
    hide MidCallback;
    hide FireAll;
    hide WellFormed;
    hide SafeOrder;
    hide FiringOrder;
    hide Apply;
    if k == i + 1 {
      KeptToTheEnd(m, order, react, i, a, t);
    } else {
      KeptInTick(m, order, react, i, a, t, k - 1);
      InsideFresh(m, order, react, i, a);
      NextTurn(m, order, react, k - 1);
    }
  }

  lemma OldIds(m: Model, order: seq<TimerId>, k: nat)
    requires WellFormed(m) && FiringOrder(m, order) && k < |order|
    ensures order[k] < m.nextId && order[k] in m.pending
  {
    assert order[k] in Due(m);
  }

  lemma TickIssues(m: Model, order: seq<TimerId>, react: Reaction, i: nat, a: nat, t: Timer)
    requires WellFormed(m) && FiringOrder(m, order) && SafeOrder(order, react)
    requires i < |order| && a < |react(order[i])|
    requires var b := MidCallback(m, order, react, i, a);
             Apply(b, react(order[i])[a]) == Add(b, t) && SparedAfter(order, react, i, a, b.nextId)
    ensures var id := MidCallback(m, order, react, i, a).nextId;
            id !in order && Has(TickTo(m, order, react), id, t)
    ensures MidCallback(m, order, react, i, a).now == m.now + 1
  {
    hide FireAll;
    hide Apply;
    hide SafeOrder;
    hide SparedAfter;
    InsideFresh(m, order, react, i, a);
    KeptInTick(m, order, react, i, a, t, |order|);
    hide MidCallback;
    assert order[..|order|] == order;
    forall p | 0 <= p < |order|
      ensures order[p] != MidCallback(m, order, react, i, a).nextId
    {
      OldIds(m, order, p);
    }
  }

  /** A timer issued inside a callback of the tick `k`: it does not fire in that tick, and after it,
      while nobody cancels it, exactly at the times of `t`. */
  lemma CallbackIssues(es: seq<Event>, k: nat, i: nat, a: nat, j: nat, t: Timer)
    requires Legal(Start, es) && k < j < |es| && es[j].Tick? && es[k].Tick?
    requires i < |es[k].order| && a < |es[k].react(es[k].order[i])|
    requires var b := MidCallback(After(Start, es[..k]), es[k].order, es[k].react, i, a);
             && Apply(b, es[k].react(es[k].order[i])[a]) == Add(b, t)
             && SparedAfter(es[k].order, es[k].react, i, a, b.nextId) && NotCancelled(es, b.nextId, k + 1, j)
    ensures var id := MidCallback(After(Start, es[..k]), es[k].order, es[k].react, i, a).nextId;
            id !in es[k].order && (id in es[j].order <==> FiresAt(t, TimeOf(Start, es, j)))
    ensures MidCallback(After(Start, es[..k]), es[k].order, es[k].react, i, a).now == TimeOf(Start, es, k)
    ensures TimeOf(Start, es, k) < TimeOf(Start, es, j)
  {
    hide FiresAt;
    hide MidCallback;
    hide Apply;
    hide TickTo;
    hide WellFormed;
    hide SparedAfter;
    hide NotCancelled;
    hide FiringOrder;
    hide SafeOrder;
    var m := After(Start, es[..k]);
    StartsWell();
    RunKeeps(Start, es, k);
    assert LegalStep(m, es[k]);
    TickIssues(m, es[k].order, es[k].react, i, a, t);
    StepTime(m, es[k]);
    assert es[..k + 1][..k] == es[..k];
    assert After(Start, es[..k + 1]) == Step(m, es[k]);
    ExactFiring(Start, es, MidCallback(m, es[k].order, es[k].react, i, a).nextId, k + 1, j);
    TimeMovesOn(es, k + 1, j);
  }

  lemma StepTime(m: Model, e: Event)
    requires WellFormed(m) && LegalStep(m, e) && e.Tick?
    ensures Step(m, e).now == m.now + 1
  {
    TickKeeps(m, e.order, e.react);
  }

  /** `schedule(delay)` called by a callback in the tick to `u`: not in that tick, and then exactly in
      the tick to `u + delay`, or to `u + 1` for a delay of 0. */
  lemma CallbackFiring(es: seq<Event>, k: nat, i: nat, a: nat, j: nat, delay: nat)
    requires Legal(Start, es) && k < j < |es| && es[j].Tick? && es[k].Tick?
    requires i < |es[k].order| && a < |es[k].react(es[k].order[i])|
    requires es[k].react(es[k].order[i])[a] == Schedule(delay)
    requires var id := MidCallback(After(Start, es[..k]), es[k].order, es[k].react, i, a).nextId;
             SparedAfter(es[k].order, es[k].react, i, a, id) && NotCancelled(es, id, k + 1, j)
    ensures var id := MidCallback(After(Start, es[..k]), es[k].order, es[k].react, i, a).nextId;
            && id !in es[k].order
            && (delay >= 1 ==> (id in es[j].order <==> TimeOf(Start, es, j) == TimeOf(Start, es, k) + delay))
            && (delay == 0 ==> (id in es[j].order <==> TimeOf(Start, es, j) == TimeOf(Start, es, k) + 1))
  {
    hide MidCallback;
    hide After;
    var b := MidCallback(After(Start, es[..k]), es[k].order, es[k].react, i, a);
    CallbackIssues(es, k, i, a, j, Timer(b.now + AtLeastOne(delay), 0));
  }

  /** `schedule_periodic(n)` called by a callback in the tick to `u`: exactly in the later ticks that
      are a multiple of `n` after `u`; with `n == 0`, in every later tick. */
  lemma CallbackPeriodic(es: seq<Event>, k: nat, i: nat, a: nat, j: nat, n: nat)
    requires Legal(Start, es) && k < j < |es| && es[j].Tick? && es[k].Tick?
    requires i < |es[k].order| && a < |es[k].react(es[k].order[i])|
    requires es[k].react(es[k].order[i])[a] == SchedulePeriodic(n)
    requires var id := MidCallback(After(Start, es[..k]), es[k].order, es[k].react, i, a).nextId;
             SparedAfter(es[k].order, es[k].react, i, a, id) && NotCancelled(es, id, k + 1, j)
    ensures TimeOf(Start, es, k) < TimeOf(Start, es, j)
    ensures var id := MidCallback(After(Start, es[..k]), es[k].order, es[k].react, i, a).nextId;
            && id !in es[k].order
            && (n >= 1 ==> (id in es[j].order <==> (TimeOf(Start, es, j) - TimeOf(Start, es, k)) % n == 0))
            && (n == 0 ==> id in es[j].order)
  {
    hide MidCallback;
    hide After;
    hide FiresAt;
    var b := MidCallback(After(Start, es[..k]), es[k].order, es[k].react, i, a);
    CallbackIssues(es, k, i, a, j, Timer(b.now + AtLeastOne(n), AtLeastOne(n)));
    PeriodFrom(b.now, AtLeastOne(n), TimeOf(Start, es, j));
  }

  /** Conservation over every run from an empty service: each timer ever inserted has been
      cancelled, has fired its only shot, or is still pending, and nothing pending is overdue. */
  lemma Conservation(es: seq<Event>)
    requires Legal(Start, es)
    ensures var m := After(Start, es);
            && m.inserted == m.cancelled + m.retired + |m.pending|
            && forall id :: id in m.pending ==> m.pending[id].expiry > m.now
  {
    RunKeeps(Start, es, |es|);
    assert es[..|es|] == es;
  }
}
