/** What draining a set of live timers means, with no heap in sight: fire the live timer with the
    least expiry until none is due, where each callback may schedule and cancel. */
module EpollSpec {
  import Bits

  type TimerId = nat

  datatype Entry = Entry(id: TimerId, expiry: int, interval: int)

  /** Calls into the timer, with the clock reading each schedule takes. */
  datatype Action =
    | Schedule(clock: int, delay: int)
    | SchedulePeriodic(clock: int, interval: int)
    | Cancel(id: TimerId)

  type Reaction = TimerId -> seq<Action>

  datatype Model = Model(nextId: TimerId, live: map<TimerId, Entry>, fired: nat, cancelled: nat)

  function Add(m: Model, expiry: int, interval: int): Model {
    m.(nextId := m.nextId + 1, live := m.live[m.nextId := Entry(m.nextId, expiry, interval)])
  }

  function Apply(m: Model, a: Action): Model {
    match a
    case Schedule(clock, delay) => Add(m, clock + delay, 0)
    case SchedulePeriodic(clock, interval) => Add(m, clock + interval, interval)
    case Cancel(id) => if id in m.live then m.(live := m.live - {id}, cancelled := m.cancelled + 1) else m
  }

  function ApplyAll(m: Model, actions: seq<Action>): Model {
    if actions == [] then m
    else Apply(ApplyAll(m, actions[..|actions| - 1]), actions[|actions| - 1])
  }

  /** The first of `expiry + interval`, `expiry + 2 * interval`, ... that lies after `now`. */
  function NextExpiry(expiry: int, interval: int, now: int): int
    requires interval > 0
  {
    if expiry + interval > now then expiry + interval
    else expiry + ((now - expiry) / interval + 1) * interval
  }

  function Finish(m: Model, e: Entry, now: int): Model {
    var m' := m.(fired := m.fired + 1);
    if e.interval > 0 then m'.(live := m'.live[e.id := e.(expiry := NextExpiry(e.expiry, e.interval, now))])
    else m'
  }

  function Fire(m: Model, id: TimerId, now: int, react: Reaction): Model {
    if id !in m.live then m
    else Finish(ApplyAll(m.(live := m.live - {id}), react(id)), m.live[id], now)
  }

  function FireAll(m: Model, order: seq<TimerId>, now: int, react: Reaction): Model {
    if order == [] then m
    else Fire(FireAll(m, order[..|order| - 1], now, react), order[|order| - 1], now, react)
  }

  /** The turn of `id`: it is live, due, and nothing live is due earlier. */
  ghost predicate Turn(m: Model, id: TimerId, now: int) {
    && id in m.live && m.live[id].expiry <= now
    && forall j :: j in m.live ==> m.live[id].expiry <= m.live[j].expiry
  }

  ghost predicate Firing(m: Model, order: seq<TimerId>, now: int, react: Reaction) {
    forall k :: 0 <= k < |order| ==> Turn(FireAll(m, order[..k], now, react), order[k], now)
  }

  /** A complete drain: every firing is in turn, and at the end nothing is due. */
  ghost predicate Drain(m: Model, order: seq<TimerId>, now: int, react: Reaction) {
    && Firing(m, order, now, react)
    && forall id :: id in FireAll(m, order, now, react).live ==> FireAll(m, order, now, react).live[id].expiry > now
  }

  /** A callback's new timers expire after the drain's reading of the clock. */
  predicate Later(a: Action, now: int) {
    match a
    case Schedule(clock, delay) => clock + delay > now
    case SchedulePeriodic(clock, interval) => clock + interval > now
    case Cancel(_) => true
  }

  ghost predicate AllLater(actions: seq<Action>, now: int) {
    forall a :: a in actions ==> Later(a, now)
  }

  ghost predicate LaterReactions(react: Reaction, now: int) {
    forall id: TimerId :: AllLater(react(id), now)
  }

  ghost predicate WellFormed(m: Model) {
    m.nextId >= 1 && forall id :: id in m.live ==> 1 <= id < m.nextId && m.live[id].id == id
  }

  // ---- catching up ----------------------------------------------------------------------------

  /** The next expiry keeps the phase, lies after `now`, and is the least that does. */
  lemma NextExpiryIsLeast(expiry: int, interval: int, now: int, k: int)
    requires interval > 0 && expiry <= now
    ensures NextExpiry(expiry, interval, now) > now
    ensures (NextExpiry(expiry, interval, now) - expiry) % interval == 0
    ensures k >= 1 && expiry + k * interval > now ==> NextExpiry(expiry, interval, now) <= expiry + k * interval
  {
    var q, r := (now - expiry) / interval, (now - expiry) % interval;
    assert now - expiry == interval * q + r;
    if expiry + interval > now {
      Bits.DivModUnique(interval, interval, 1, 0);
      if k >= 1 { Bits.MultipleGrows(interval, k); assert interval * k == k * interval; }
    } else {
      assert (q + 1) * interval == interval * q + interval;
      Bits.DivModUnique((q + 1) * interval, interval, q + 1, 0);
      if 1 <= k < q { Bits.ScaledApart(k, q, interval, 0); }
      if k > q + 1 { Bits.ScaledApart(q + 1, k, interval, 0); }
    }
  }

  // ---- what one firing does -------------------------------------------------------------------

  /** The timers of `gone` disappear, the others stay as they are, and what is new has a new id. */
  ghost predicate Evolves(m: Model, m': Model, gone: iset<TimerId>) {
    && m'.nextId >= m.nextId
    && (forall id :: id in m.live ==> (id in m'.live <==> id !in gone))
    && (forall id :: id in m'.live && id in m.live ==> m'.live[id] == m.live[id])
    && (forall id :: id in m'.live && id !in m.live ==> id >= m.nextId)
  }

  ghost function CancelledBy(actions: seq<Action>): iset<TimerId> {
    iset id | Cancel(id) in actions
  }

  lemma ApplyEvolves(m: Model, a: Action)
    requires WellFormed(m)
    ensures WellFormed(Apply(m, a)) && Evolves(m, Apply(m, a), CancelledBy([a]))
  {
  }

  lemma EvolvesTrans(m: Model, m1: Model, m2: Model, g1: iset<TimerId>, g2: iset<TimerId>)
    requires WellFormed(m) && Evolves(m, m1, g1) && Evolves(m1, m2, g2)
    ensures Evolves(m, m2, g1 + g2)
  {
  }

  /** A callback cancels exactly the timers it names, among those live when it began. */
  lemma {:induction false} ApplyAllEvolves(m: Model, actions: seq<Action>)
    requires WellFormed(m)
    ensures WellFormed(ApplyAll(m, actions)) && Evolves(m, ApplyAll(m, actions), CancelledBy(actions))
  {
    if actions != [] {
      var init, last := actions[..|actions| - 1], actions[|actions| - 1];
      ApplyAllEvolves(m, init);
      ApplyEvolves(ApplyAll(m, init), last);
      EvolvesTrans(m, ApplyAll(m, init), ApplyAll(m, actions), CancelledBy(init), CancelledBy([last]));
      assert actions == init + [last];
      assert CancelledBy(init) + CancelledBy([last]) == CancelledBy(actions);
    }
  }

  /** New timers of a callback that only schedules for later lie in the future. */
  lemma {:induction false} ApplyAllLater(m: Model, actions: seq<Action>, now: int)
    requires WellFormed(m) && AllLater(actions, now)
    ensures var m' := ApplyAll(m, actions);
            forall id :: id in m'.live && id !in m.live ==> m'.live[id].expiry > now
  {
    if actions != [] {
      var init := actions[..|actions| - 1];
      ApplyAllLater(m, init, now);
      ApplyAllEvolves(m, init);
      assert Later(actions[|actions| - 1], now);
    }
  }

  /** What a fired timer becomes: nothing, or itself at its next expiry. */
  function After(e: Entry, now: int): Entry
    requires e.interval > 0
  {
    e.(expiry := NextExpiry(e.expiry, e.interval, now))
  }

  /** One firing: the timer itself moves to its next expiry or goes (its own callback cannot cancel
      it); of the others, exactly those that the callback cancels go. */
  ghost predicate Fired(m: Model, m': Model, id: TimerId, now: int, react: Reaction)
    requires id in m.live
  {
    && m'.nextId >= m.nextId
    && (forall j :: j in m.live && j != id ==> (j in m'.live <==> Cancel(j) !in react(id)))
    && (forall j :: j in m'.live && j in m.live && j != id ==> m'.live[j] == m.live[j])
    && (forall j :: j in m'.live && j !in m.live ==> j >= m.nextId)
    && (id in m'.live <==> m.live[id].interval > 0)
    && (id in m'.live ==> m'.live[id] == After(m.live[id], now))
  }

  lemma FireIsFired(m: Model, id: TimerId, now: int, react: Reaction)
    requires WellFormed(m) && id in m.live
    ensures WellFormed(Fire(m, id, now, react)) && Fired(m, Fire(m, id, now, react), id, now, react)
  {
    ApplyAllEvolves(m.(live := m.live - {id}), react(id));
    hide ApplyAll;
    hide NextExpiry;
  }

  // ---- what a drain does to each timer --------------------------------------------------------

  /** A callback fired at turn `p` or later cancels `id`. */
  ghost predicate CancelledFrom(id: TimerId, order: seq<TimerId>, react: Reaction, p: nat) {
    exists i :: p <= i < |order| && Cancel(id) in react(order[i])
  }

  /** A callback cancels `id` before the turn of `id` has come. */
  ghost predicate CancelledFirst(id: TimerId, order: seq<TimerId>, react: Reaction) {
    exists i :: 0 <= i < |order| && Cancel(id) in react(order[i]) && id !in order[..i + 1]
  }

  /** The fate of a timer that has not fired: it goes if and only if it is cancelled. */
  ghost predicate Waiting(m: Model, m': Model, id: TimerId, order: seq<TimerId>, react: Reaction)
    requires id in m.live
  {
    && (id in m'.live <==> !CancelledFrom(id, order, react, 0))
    && (id in m'.live ==> m'.live[id] == m.live[id])
  }

  /** The fate of a timer fired at turn `p`: a one-shot timer is gone; a periodic one is live at its
      next expiry, unless a callback fired after it cancels it. */
  ghost predicate Settled(m: Model, m': Model, order: seq<TimerId>, p: nat, now: int, react: Reaction)
    requires p < |order| && order[p] in m.live
  {
    var id := order[p];
    && (id in m'.live <==> m.live[id].interval > 0 && !CancelledFrom(id, order, react, p + 1))
    && (id in m'.live ==> m'.live[id] == After(m.live[id], now))
  }

  /** What the firings so far have made of the timers that were live at the start. */
  ghost predicate Progress(m: Model, m': Model, order: seq<TimerId>, now: int, react: Reaction) {
    && m'.nextId >= m.nextId
    && (forall id :: id in m'.live && m'.live[id].expiry <= now ==> id !in order)
    && (forall id :: id in m'.live && id !in m.live ==> id >= m.nextId)
    && (forall id :: id in m.live && id !in order ==> Waiting(m, m', id, order, react))
    && (forall p :: 0 <= p < |order| ==> order[p] < m'.nextId && (order[p] in m.live || order[p] >= m.nextId))
    && (forall p :: 0 <= p < |order| && order[p] in m.live ==>
          m.live[order[p]].expiry <= now && Settled(m, m', order, p, now, react))
  }

  lemma CancelledNext(id: TimerId, order: seq<TimerId>, next: TimerId, react: Reaction, p: nat)
    requires p <= |order|
    ensures CancelledFrom(id, order + [next], react, p) <==> CancelledFrom(id, order, react, p) || Cancel(id) in react(next)
  {
    var order' := order + [next];
    assert order'[|order|] == next;
    if CancelledFrom(id, order, react, p) {
      var i :| p <= i < |order| && Cancel(id) in react(order[i]);
      assert order'[i] == order[i];
    }
    if CancelledFrom(id, order', react, p) {
      var i :| p <= i < |order'| && Cancel(id) in react(order'[i]);
      assert i < |order| ==> order[i] == order'[i];
    }
  }

  lemma WaitingStep(m: Model, m1: Model, m2: Model, order: seq<TimerId>, id: TimerId, now: int, react: Reaction, j: TimerId)
    requires WellFormed(m) && Progress(m, m1, order, now, react) && id in m1.live && Fired(m1, m2, id, now, react)
    requires j in m.live && j !in order && j != id
    ensures Waiting(m, m2, j, order + [id], react)
  {
    hide CancelledFrom;
    CancelledNext(j, order, id, react, 0);
    assert Waiting(m, m1, j, order, react);
  }

  lemma SettledStep(m: Model, m1: Model, m2: Model, order: seq<TimerId>, id: TimerId, now: int, react: Reaction, p: nat)
    requires WellFormed(m) && Progress(m, m1, order, now, react) && id in m1.live && Fired(m1, m2, id, now, react)
    requires p < |order| && order[p] in m.live && order[p] != id
    ensures Settled(m, m2, order + [id], p, now, react)
  {
    hide CancelledFrom;
    hide NextExpiry;
    CancelledNext(order[p], order, id, react, p + 1);
    assert Settled(m, m1, order, p, now, react);
  }

  lemma FiredSettled(m: Model, m1: Model, m2: Model, order: seq<TimerId>, id: TimerId, now: int, react: Reaction)
    requires WellFormed(m) && Progress(m, m1, order, now, react) && Turn(m1, id, now) && Fired(m1, m2, id, now, react)
    requires id in m.live
    ensures m.live[id].expiry <= now && Settled(m, m2, order + [id], |order|, now, react)
  {
    hide NextExpiry;
    assert id !in order;
    assert Waiting(m, m1, id, order, react);
  }

  /** Each timer fires once: what has fired is no longer due. */
  lemma DueNotFired(m: Model, m1: Model, m2: Model, order: seq<TimerId>, id: TimerId, now: int, react: Reaction)
    requires Progress(m, m1, order, now, react) && Turn(m1, id, now) && Fired(m1, m2, id, now, react)
    ensures forall j :: j in m2.live && m2.live[j].expiry <= now ==> j !in order + [id]
  {
    if m1.live[id].interval > 0 { NextExpiryIsLeast(m1.live[id].expiry, m1.live[id].interval, now, 1); }
    hide NextExpiry;
    hide Settled;
    hide Waiting;
  }

  lemma ProgressStep(m: Model, m1: Model, m2: Model, order: seq<TimerId>, id: TimerId, now: int, react: Reaction)
    requires WellFormed(m) && WellFormed(m1) && Progress(m, m1, order, now, react)
    requires Turn(m1, id, now) && Fired(m1, m2, id, now, react)
    ensures Progress(m, m2, order + [id], now, react)
  {
    hide Settled;
    hide Waiting;
    hide NextExpiry;
    var order' := order + [id];
    DueNotFired(m, m1, m2, order, id, now, react);
    forall j | j in m.live && j !in order'
      ensures Waiting(m, m2, j, order', react)
    {
      assert id == order'[|order|];
      assert forall i :: 0 <= i < |order| ==> order'[i] == order[i];
      WaitingStep(m, m1, m2, order, id, now, react, j);
    }
    forall p | 0 <= p < |order'| && order'[p] in m.live
      ensures m.live[order'[p]].expiry <= now && Settled(m, m2, order', p, now, react)
    {
      if p < |order| {
        assert id !in order;
        SettledStep(m, m1, m2, order, id, now, react, p);
      } else {
        FiredSettled(m, m1, m2, order, id, now, react);
      }
    }
  }

  lemma NoProgress(m: Model, now: int, react: Reaction)
    ensures Progress(m, m, [], now, react)
  {
  }

  lemma {:induction false} FiringProgress(m: Model, order: seq<TimerId>, now: int, react: Reaction, k: nat)
    requires WellFormed(m) && Firing(m, order, now, react) && k <= |order|
    ensures WellFormed(FireAll(m, order[..k], now, react))
    ensures Progress(m, FireAll(m, order[..k], now, react), order[..k], now, react)
  {
    hide Progress;
    hide Fired;
    hide Fire;
    hide WellFormed;
    if k == 0 {
      NoProgress(m, now, react);
      assert order[..0] == [];
    } else {
      FiringProgress(m, order, now, react, k - 1);
      assert order[..k][..k - 1] == order[..k - 1];
      assert order[..k] == order[..k - 1] + [order[k - 1]];
      var before := FireAll(m, order[..k - 1], now, react);
      assert Turn(before, order[k - 1], now);
      FireIsFired(before, order[k - 1], now, react);
      ProgressStep(m, before, Fire(before, order[k - 1], now, react), order[..k - 1], order[k - 1], now, react);
    }
  }

  // ---- a whole drain --------------------------------------------------------------------------

  /** A timer whose turn comes later was not cancelled by the callbacks before, and was live, as it
      was at the start, at each of their turns. */
  lemma InTurn(m: Model, order: seq<TimerId>, now: int, react: Reaction, i: nat, j: nat)
    requires WellFormed(m) && Firing(m, order, now, react) && i < j < |order|
    ensures order[i] != order[j]
    ensures order[j] in m.live ==> Cancel(order[j]) !in react(order[i])
    ensures order[i] in m.live && order[j] in m.live ==> m.live[order[i]].expiry <= m.live[order[j]].expiry
  {
    hide FireAll;
    hide Settled;
    FiringProgress(m, order, now, react, i);
    FiringProgress(m, order, now, react, j);
    var a, b := FireAll(m, order[..i], now, react), FireAll(m, order[..j], now, react);
    assert Turn(a, order[i], now) && Turn(b, order[j], now);
    assert order[..j][i] == order[i];
    if order[j] in m.live {
      assert Waiting(m, b, order[j], order[..j], react);
      assert forall k :: 0 <= k < i ==> order[..i][k] == order[..j][k];
      assert Waiting(m, a, order[j], order[..i], react);
      if order[i] in m.live { assert Waiting(m, a, order[i], order[..i], react); }
    }
  }

  /** With nothing left that is due, a due timer was cancelled if it has not fired. */
  lemma DueFires(m: Model, order: seq<TimerId>, now: int, react: Reaction, id: TimerId)
    requires WellFormed(m) && Drain(m, order, now, react) && id in m.live && m.live[id].expiry <= now
    ensures id in order <==> !CancelledFirst(id, order, react)
  {
    hide FireAll;
    hide Settled;
    FiringProgress(m, order, now, react, |order|);
    assert order[..|order|] == order;
    if id !in order {
      assert Waiting(m, FireAll(m, order, now, react), id, order, react);
      var i :| 0 <= i < |order| && Cancel(id) in react(order[i]);
      assert id !in order[..i + 1];
    } else if CancelledFirst(id, order, react) {
      var i :| 0 <= i < |order| && Cancel(id) in react(order[i]) && id !in order[..i + 1];
      var p :| 0 <= p < |order| && order[p] == id;
      InTurn(m, order, now, react, i, p);
    }
  }

  /** Exactness of a complete drain, whatever the callbacks do. No timer fires twice, and those live
      at the start fire in order of expiry, and only if due. A timer that was due fires if and only
      if no callback cancels it before its turn, so no id fires after it was cancelled. A fired
      timer is gone if one-shot; if periodic it ends live, at its least expiry after `now`, unless a
      callback fired after it cancels it. A timer that was not due is untouched, unless cancelled. */
  lemma DrainIsExact(m: Model, order: seq<TimerId>, now: int, react: Reaction)
    requires WellFormed(m) && Drain(m, order, now, react)
    ensures forall i :: 0 <= i < |order| && order[i] in m.live ==> m.live[order[i]].expiry <= now
    ensures forall i, j :: 0 <= i < j < |order| ==> order[i] != order[j]
    ensures forall i, j :: 0 <= i < j < |order| && order[i] in m.live && order[j] in m.live ==>
              m.live[order[i]].expiry <= m.live[order[j]].expiry
    ensures forall i, j :: 0 <= i < j < |order| && order[j] in m.live ==> Cancel(order[j]) !in react(order[i])
    ensures forall id :: id in m.live && m.live[id].expiry <= now ==>
              (id in order <==> !CancelledFirst(id, order, react))
    ensures var m' := FireAll(m, order, now, react);
            && (forall p :: 0 <= p < |order| && order[p] in m.live ==> Settled(m, m', order, p, now, react))
            && (forall id :: id in m.live && m.live[id].expiry > now ==> Waiting(m, m', id, order, react))
  {
    hide FireAll;
    hide Settled;
    hide CancelledFirst;
    FiringProgress(m, order, now, react, |order|);
    assert order[..|order|] == order;
    forall i, j | 0 <= i < j < |order|
      ensures order[i] != order[j] && (order[j] in m.live ==> Cancel(order[j]) !in react(order[i]))
      ensures order[i] in m.live && order[j] in m.live ==> m.live[order[i]].expiry <= m.live[order[j]].expiry
    {
      InTurn(m, order, now, react, i, j);
    }
    forall id | id in m.live && m.live[id].expiry <= now
      ensures id in order <==> !CancelledFirst(id, order, react)
    {
      DueFires(m, order, now, react, id);
    }
  }

  /** When callbacks schedule only for later, nothing but what was live and due at the start fires. */
  lemma {:induction false} OnlyDueFire(m: Model, order: seq<TimerId>, now: int, react: Reaction, k: nat)
    requires WellFormed(m) && LaterReactions(react, now) && Firing(m, order, now, react) && k <= |order|
    ensures forall id :: id in FireAll(m, order[..k], now, react).live && id !in m.live ==>
              FireAll(m, order[..k], now, react).live[id].expiry > now
    ensures forall i :: 0 <= i < k ==> order[i] in m.live && m.live[order[i]].expiry <= now
  {
    hide Progress;
    hide Fire;
    if k == 0 {
      assert order[..0] == [];
    } else {
      OnlyDueFire(m, order, now, react, k - 1);
      assert order[..k][..k - 1] == order[..k - 1];
      var id, before := order[k - 1], FireAll(m, order[..k - 1], now, react);
      assert Turn(before, id, now);
      FiringProgress(m, order, now, react, k - 1);
      FireLater(before, id, now, react);
      FireIsFired(before, id, now, react);
      StillAsWas(m, before, order[..k - 1], id, now, react);
    }
  }

  lemma StillAsWas(m: Model, m': Model, order: seq<TimerId>, id: TimerId, now: int, react: Reaction)
    requires Progress(m, m', order, now, react) && id in m.live && Turn(m', id, now)
    ensures m.live[id].expiry <= now
  {
    assert id !in order;
    assert Waiting(m, m', id, order, react);
  }

  lemma FireLater(m: Model, id: TimerId, now: int, react: Reaction)
    requires WellFormed(m) && LaterReactions(react, now) && Turn(m, id, now)
    ensures var m' := Fire(m, id, now, react);
            forall j :: j in m'.live && (j !in m.live || j == id) ==> m'.live[j].expiry > now
  {
    ApplyAllLater(m.(live := m.live - {id}), react(id), now);
    ApplyAllEvolves(m.(live := m.live - {id}), react(id));
    if m.live[id].interval > 0 { NextExpiryIsLeast(m.live[id].expiry, m.live[id].interval, now, 1); }
    hide ApplyAll;
    hide NextExpiry;
  }
}
