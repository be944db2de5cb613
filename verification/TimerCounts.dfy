/** What the statistics of the timer wheel count, over every run. */
module TimerCounts {
  import opened TimerSpec

  /** How many of the calls are schedules. */
  function Schedules(actions: seq<Action>): nat {
    if actions == [] then 0
    else Schedules(actions[..|actions| - 1]) + (if actions[|actions| - 1].Cancel? then 0 else 1)
  }

  /** How many of the calls, made one after the other from `m`, cancel a timer that is pending. */
  function Cancels(m: Model, actions: seq<Action>): nat {
    if actions == [] then 0
    else
      var before, last := actions[..|actions| - 1], actions[|actions| - 1];
      Cancels(m, before) + (if last.Cancel? && last.id in ApplyAll(m, before).pending then 1 else 0)
  }

  function TickSchedules(order: seq<TimerId>, react: Reaction): nat {
    if order == [] then 0
    else TickSchedules(order[..|order| - 1], react) + Schedules(react(order[|order| - 1]))
  }

  function TickCancels(m: Model, order: seq<TimerId>, react: Reaction): nat {
    if order == [] then 0
    else
      var before, id := order[..|order| - 1], order[|order| - 1];
      TickCancels(m, before, react) + Cancels(Begin(FireAll(m, before, react), id), react(id))
  }

  function StepSchedules(e: Event): nat {
    match e
    case Do(a) => Schedules([a])
    case Tick(order, react) => TickSchedules(order, react)
  }

  function StepCancels(m: Model, e: Event): nat {
    match e
    case Do(a) => Cancels(m, [a])
    case Tick(order, react) => TickCancels(m.(now := m.now + 1), order, react)
  }

  function StepFires(e: Event): nat {
    match e
    case Do(_) => 0
    case Tick(order, _) => |order|
  }

  /** Schedule calls made in a run, by callers and by callbacks. */
  function ScheduledIn(es: seq<Event>): nat {
    if es == [] then 0 else ScheduledIn(es[..|es| - 1]) + StepSchedules(es[|es| - 1])
  }

  /** Cancel calls that found their timer. */
  function CancelledIn(m: Model, es: seq<Event>): nat {
    if es == [] then 0
    else CancelledIn(m, es[..|es| - 1]) + StepCancels(After(m, es[..|es| - 1]), es[|es| - 1])
  }

  /** Callbacks run: the lengths of the firing orders. */
  function FiredIn(es: seq<Event>): nat {
    if es == [] then 0 else FiredIn(es[..|es| - 1]) + StepFires(es[|es| - 1])
  }

  ghost predicate Counted(m: Model, m': Model, schedules: nat, cancels: nat, fires: nat) {
    && m'.inserted == m.inserted + schedules && m'.nextId == m.nextId + schedules
    && m'.cancelled == m.cancelled + cancels
    && m'.fired == m.fired + fires
  }

  lemma {:induction false} ActionsCounted(m: Model, actions: seq<Action>)
    ensures Counted(m, ApplyAll(m, actions), Schedules(actions), Cancels(m, actions), 0)
  {
    if actions != [] { ActionsCounted(m, actions[..|actions| - 1]); }
  }

  lemma OneAction(m: Model, a: Action)
    ensures ApplyAll(m, [a]) == Apply(m, a)
  {
    assert [a][..0] == [];
  }

  lemma FireCounted(m: Model, id: TimerId, react: Reaction)
    requires id in m.pending
    ensures Counted(m, Fire(m, id, react), Schedules(react(id)), Cancels(Begin(m, id), react(id)), 1)
  {
    hide ApplyAll;
    hide Schedules;
    hide Cancels;
    ActionsCounted(Begin(m, id), react(id));
  }

  lemma {:induction false} FiresCounted(m: Model, order: seq<TimerId>, react: Reaction, k: nat)
    requires WellFormed(m) && FiringOrder(m, order) && SafeOrder(order, react) && k <= |order|
    ensures var m' := m.(now := m.now + 1);
            Counted(m', FireAll(m', order[..k], react), TickSchedules(order[..k], react), TickCancels(m', order[..k], react), k)
  {
    hide Fire;
    hide WellFormed;
    hide FiringOrder;
    hide SafeOrder;
    hide Schedules;
    hide Cancels;
    if k > 0 {
      FiresCounted(m, order, react, k - 1);
      NextTurn(m, order, react, k - 1);
      assert order[..k][..k - 1] == order[..k - 1];
      FireCounted(FireAll(m.(now := m.now + 1), order[..k - 1], react), order[k - 1], react);
    }
  }

  lemma StepCounted(m: Model, e: Event)
    requires WellFormed(m) && LegalStep(m, e)
    ensures Counted(m, Step(m, e), StepSchedules(e), StepCancels(m, e), StepFires(e))
  {
    hide FireAll;
    hide Apply;
    hide WellFormed;
    hide Schedules;
    hide Cancels;
    match e
    case Do(a) =>
      ActionsCounted(m, [a]);
      OneAction(m, a);
    case Tick(order, react) =>
      FiresCounted(m, order, react, |order|);
      assert order[..|order|] == order;
  }

  /** In every run from an empty wheel: `inserted` counts the schedule calls, `cancelled` the cancel
      calls that found a pending timer, and `fired` the callbacks run; ids are 1, 2, 3, ... in the order
      of the schedule calls. */
  lemma {:induction false} Counters(es: seq<Event>, k: nat)
    requires Legal(Start, es) && k <= |es|
    ensures var m := After(Start, es[..k]);
            && m.inserted == ScheduledIn(es[..k]) && m.nextId == 1 + ScheduledIn(es[..k])
            && m.cancelled == CancelledIn(Start, es[..k])
            && m.fired == FiredIn(es[..k])
  {
    hide Step;
    hide WellFormed;
    hide LegalStep;
    hide StepSchedules;
    hide StepCancels;
    hide StepFires;
    if k > 0 {
      Counters(es, k - 1);
      assert es[..k][..k - 1] == es[..k - 1];
      StartsWell();
      RunKeeps(Start, es, k - 1);
      StepCounted(After(Start, es[..k - 1]), es[k - 1]);
    }
  }
}
