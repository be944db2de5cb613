/** The hierarchical timer wheel of timer/include/timer_wheel.hpp. Each operation works on the four
    rows of slot lists and on the id index, and is proved to be the corresponding step of the
    service in TimerSpec.dfy. */
module TimerWheel {
  import opened TimerSpec
  import opened WheelLayout
  import opened UnsafeTick
  import opened TimerCounts
  import opened WheelOrder
  import Bits

  /** Delays and intervals that the four levels can represent without a second lap. */
  predicate Narrow(a: Action) {
    match a
    case Schedule(d) => d < SPAN
    case SchedulePeriodic(n) => n < SPAN
    case Cancel(_) => true
  }

  predicate InSpan(pending: map<TimerId, Timer>, now: nat) {
    forall id :: id in pending ==> pending[id].expiry < now + SPAN && pending[id].interval < SPAN
  }

  /** Everything that is not being fired lies in the future. */
  ghost predicate Ahead(pending: map<TimerId, Timer>, loose: set<TimerId>, now: nat) {
    forall id :: id in pending && id !in loose ==> pending[id].expiry > now
  }

  ghost predicate NarrowReactions(order: seq<TimerId>, react: Reaction) {
    forall i, a :: 0 <= i < |order| && a in react(order[i]) ==> Narrow(a)
  }

  ghost predicate Ticks(es: seq<Event>, reacts: nat -> Reaction) {
    forall k :: 0 <= k < |es| ==> es[k].Tick? && es[k].react == reacts(k)
  }

  /** Cascades done, still to come and due now are paid for by `done` insertions and firings. */
  ghost predicate PaidFor(within: bool, pending: map<TimerId, Timer>, now: nat, ls: Levels, cascades: nat, done: nat, due: nat) {
    within ==> InSpan(pending, now) && Shape(ls) && cascades + Potential(ls) + due <= 3 * done
  }

  lemma PutPaid(within: bool, pending: map<TimerId, Timer>, now: nat, ls: Levels, cascades: nat, done: nat, e: Entry)
    requires PaidFor(within, pending, now, ls, cascades, done, 0) && Shape(ls) && now <= e.expiry
    ensures Inside(ls, Place(e.expiry, now))
    ensures PaidFor(within && e.expiry < now + SPAN && e.interval < SPAN, pending[e.id := Timer(e.expiry, e.interval)],
                    now, Put(ls, Place(e.expiry, now), e), cascades, done + 1, 0)
  {
    hide Potential;
    hide Place;
    hide Put;
    PutPotential(ls, e, now);
  }

  class TimerWheel {
    var levels: Levels
    var index: map<TimerId, Loc>
    var jiffies: nat
    var nextId: TimerId
    var inserted: nat
    var fired: nat
    var cancelled: nat
    var cascades: nat

    /** The service state this wheel stands for. */
    ghost var m: Model
    /** Timers swapped out of their slot by the sweep or the firing in progress. */
    ghost var loose: set<TimerId>
    /** Every delay and interval asked for so far is below the span. */
    ghost var withinSpan: bool

    ghost predicate Agrees()
      reads this
    {
      && m.now == jiffies && m.nextId == nextId
      && m.inserted == inserted && m.fired == fired && m.cancelled == cancelled
      && FreshIds(m)
    }

    /** Amortised cost: cascades done and still to come are paid for by insertions and firings. */
    ghost predicate Paid(due: nat)
      reads this
    {
      PaidFor(withinSpan, m.pending, m.now, levels, cascades, inserted + fired, due)
    }

    /** What holds whenever client code runs, including inside a callback. */
    ghost predicate Ready()
      reads this
    {
      && Agrees() && Paid(0)
      && Stored(levels, index, m.pending, jiffies, 3, loose)
      && loose <= m.pending.Keys && Ahead(m.pending, loose, jiffies)
    }

    ghost predicate Valid()
      reads this
    {
      Ready() && loose == {} && WellFormed(m)
    }

    constructor ()
      ensures Valid() && m == Start && withinSpan && cascades == 0
    {
      var row0: seq<Slot> := seq(L0_SLOTS, i => []);
      var row: seq<Slot> := seq(L1_SLOTS, i => []);
      levels := [row0, row, row, row];
      index, jiffies, nextId := map[], 0, 1;
      inserted, fired, cancelled, cascades := 0, 0, 0, 0;
      m, loose, withinSpan := Start, {}, true;
      new;
      EmptyCount(row);
      assert levels[1] == row && levels[2] == row && levels[3] == row;
    }

    /** Number of pending timers. */
    method Pending() returns (n: nat)
      requires Valid()
      ensures n == |m.pending|
    {
      n := |index|;
      assert |index| == |index.Keys| && |m.pending| == |m.pending.Keys|;
    }

    method Insert(e: Entry)
      requires Shape(levels) && jiffies <= e.expiry
      modifies this`levels, this`index
      ensures Inside(old(levels), Place(e.expiry, jiffies))
      ensures levels == Put(old(levels), Place(e.expiry, jiffies), e)
      ensures index == old(index)[e.id := Place(e.expiry, jiffies)]
    {
      var remaining := e.expiry - jiffies;
      SlotBits(e.expiry);
      if remaining < L0_SLOTS {
        var slot := Bits.And(e.expiry, L0_SLOTS - 1);
        levels := levels[0 := levels[0][slot := levels[0][slot] + [e]]];
        index := index[e.id := Loc(0, slot)];
      } else if remaining < L0_SLOTS * L1_SLOTS {
        var slot := Bits.And(Bits.Shr(e.expiry, 8), L1_SLOTS - 1);
        levels := levels[1 := levels[1][slot := levels[1][slot] + [e]]];
        index := index[e.id := Loc(1, slot)];
      } else if remaining < L0_SLOTS * L1_SLOTS * L2_SLOTS {
        var slot := Bits.And(Bits.Shr(e.expiry, 14), L2_SLOTS - 1);
        levels := levels[2 := levels[2][slot := levels[2][slot] + [e]]];
        index := index[e.id := Loc(2, slot)];
      } else {
        var slot := Bits.And(Bits.Shr(e.expiry, 20), L3_SLOTS - 1);
        levels := levels[3 := levels[3][slot := levels[3][slot] + [e]]];
        index := index[e.id := Loc(3, slot)];
      }
    }

    /** The common part of the two schedule calls. */
    method ScheduleEntry(ticks: nat, interval: nat) returns (id: TimerId)
      requires Ready() && ticks >= 1 && (interval == 0 || interval == ticks)
      modifies this
      ensures Ready() && loose == old(loose) && cascades == old(cascades)
      ensures id == old(m).nextId && m == Add(old(m), Timer(old(m).now + ticks, interval))
      ensures withinSpan == (old(withinSpan) && ticks < SPAN)
      ensures Joins(old(levels), levels, jiffies, id, jiffies + ticks)
    {
      hide Joins;
      hide Stored;
      hide PaidFor;
      hide Place;
      hide FreshIds;
      hide Ahead;
      hide Put;
      hide Inside;
      AddFresh(m, Timer(jiffies + ticks, interval));
      id := nextId;
      nextId := nextId + 1;
      var e := Entry(id, jiffies + ticks, interval);
      AddStored(levels, index, m.pending, jiffies, 3, loose, e);
      PutPaid(withinSpan, m.pending, jiffies, levels, cascades, inserted + fired, e);
      PutJoins(levels, e, jiffies);
      Insert(e);
      inserted := inserted + 1;
      withinSpan := withinSpan && ticks < SPAN;
      m := Add(m, Timer(e.expiry, interval));
    }

    method Schedule(delay: nat) returns (id: TimerId)
      requires Ready()
      modifies this
      ensures Ready() && loose == old(loose) && cascades == old(cascades)
      ensures id == old(m).nextId && m == Apply(old(m), TimerSpec.Schedule(delay))
      ensures id >= 1 && id !in old(m).pending && id in m.pending
      ensures delay >= 1 ==> m.pending[id] == Timer(jiffies + delay, 0)
      ensures delay == 0 ==> m.pending[id] == Timer(jiffies + 1, 0)
      ensures old(Valid()) ==> Valid()
      ensures withinSpan == (old(withinSpan) && Narrow(TimerSpec.Schedule(delay)))
      ensures Joins(old(levels), levels, jiffies, id, m.pending[id].expiry)
    {
      hide Joins;
      hide Stored;
      hide WellFormed;
      var ticks := delay;
      if ticks == 0 {
        ticks := 1;
      }
      ghost var before := m;
      id := ScheduleEntry(ticks, 0);
      StillWellFormed(before, TimerSpec.Schedule(delay));
    }

    method SchedulePeriodic(interval: nat) returns (id: TimerId)
      requires Ready()
      modifies this
      ensures Ready() && loose == old(loose) && cascades == old(cascades)
      ensures id == old(m).nextId && m == Apply(old(m), TimerSpec.SchedulePeriodic(interval))
      ensures id >= 1 && id !in old(m).pending && id in m.pending
      ensures interval >= 1 ==> m.pending[id] == Timer(jiffies + interval, interval)
      ensures interval == 0 ==> m.pending[id] == Timer(jiffies + 1, 1)
      ensures old(Valid()) ==> Valid()
      ensures withinSpan == (old(withinSpan) && Narrow(TimerSpec.SchedulePeriodic(interval)))
      ensures Joins(old(levels), levels, jiffies, id, m.pending[id].expiry)
    {
      hide Joins;
      hide Stored;
      hide WellFormed;
      var ticks := interval;
      if ticks == 0 {
        ticks := 1;
      }
      ghost var before := m;
      id := ScheduleEntry(ticks, ticks);
      StillWellFormed(before, TimerSpec.SchedulePeriodic(interval));
    }

    /** True exactly for a pending timer. A timer swapped out of its slot and not yet fired must not
        be cancelled: its list node no longer belongs to the slot the index names. */
    method Cancel(id: TimerId) returns (found: bool)
      requires Ready() && id !in loose
      modifies this
      ensures Ready() && loose == old(loose) && cascades == old(cascades) && withinSpan == old(withinSpan)
      ensures found == (id in old(m).pending) && m == Apply(old(m), TimerSpec.Cancel(id))
      ensures old(Valid()) ==> Valid()
      ensures Kept(old(levels), levels, iset{id})
    {
      hide Kept;
      hide Stored;
      hide Potential;
      hide WellFormed;
      hide Without;
      StoredShape(levels, index, m.pending, jiffies, 3, loose);
      if id !in index {
        NothingMoved(levels, iset{id});
        return false;
      }
      var loc := index[id];
      RemoveStored(levels, index, m.pending, jiffies, 3, loose, id);
      RemoveKept(levels, loc, id);
      levels := levels[loc.level := levels[loc.level][loc.slot := Without(levels[loc.level][loc.slot], id)]];
      index := index - {id};
      cancelled := cancelled + 1;
      StillWellFormed(m, TimerSpec.Cancel(id));
      m := Apply(m, TimerSpec.Cancel(id));
      found := true;
    }

    /** One call. */
    method Make(action: Action)
      requires Ready() && (action.Cancel? ==> action.id !in loose)
      modifies this
      ensures Ready() && loose == old(loose) && cascades == old(cascades) && m == Apply(old(m), action)
      ensures old(Valid()) ==> Valid()
      ensures withinSpan == (old(withinSpan) && Narrow(action))
      ensures Kept(old(levels), levels, CancelledBy([action]))
    {
      hide Ready;
      hide Kept;
      hide Apply;
      match action {
        case Schedule(d) =>
          ghost var before := levels;
          var id := Schedule(d);
          JoinsKept(before, levels, jiffies, id, m.pending[id].expiry, CancelledBy([action]));
        case SchedulePeriodic(n) =>
          ghost var before := levels;
          var id := SchedulePeriodic(n);
          JoinsKept(before, levels, jiffies, id, m.pending[id].expiry, CancelledBy([action]));
        case Cancel(c) =>
          var _ := Cancel(c);
          assert CancelledBy([action]) == iset{c};
      }
    }

    /** A callback: any sequence of calls back into the wheel. */
    method RunCallback(actions: seq<Action>)
      requires Ready()
      requires forall c :: c in loose ==> TimerSpec.Cancel(c) !in actions
      modifies this
      ensures Ready() && loose == old(loose) && cascades == old(cascades)
      ensures m == ApplyAll(old(m), actions)
      ensures withinSpan == (old(withinSpan) && forall a :: a in actions ==> Narrow(a))
      ensures Kept(old(levels), levels, CancelledBy(actions))
    {
      hide Ready;
      hide Kept;
      hide Apply;
      hide Narrow;
      NothingMoved(levels, CancelledBy([]));
      assert actions[..0] == [];
      for i := 0 to |actions|
        invariant Ready() && loose == old(loose) && cascades == old(cascades)
        invariant m == ApplyAll(old(m), actions[..i])
        invariant withinSpan == (old(withinSpan) && forall a :: a in actions[..i] ==> Narrow(a))
        invariant Kept(old(levels), levels, CancelledBy(actions[..i]))
      {
        assert actions[..i + 1] == actions[..i] + [actions[i]];
        assert actions[..i + 1][..i] == actions[..i];
        ghost var before := levels;
        Make(actions[i]);
        KeptTrans(old(levels), before, levels, CancelledBy(actions[..i]), CancelledBy([actions[i]]),
                  CancelledBy(actions[..i + 1]));
      }
      assert actions[..|actions|] == actions;
    }

    /** The slot a level is at. */
    method CurrentSlot(level: nat) returns (s: nat)
      requires level <= 3
      ensures s == SlotOf(level, jiffies)
    {
      SlotBits(jiffies);
      match level {
        case 0 => s := Bits.And(jiffies, L0_SLOTS - 1);
        case 1 => s := Bits.And(Bits.Shr(jiffies, 8), L1_SLOTS - 1);
        case 2 => s := Bits.And(Bits.Shr(jiffies, 14), L2_SLOTS - 1);
        case _ => s := Bits.And(Bits.Shr(jiffies, 20), L3_SLOTS - 1);
      }
    }

    /** One turn of the cascade loop. */
    method Reinsert(local: Slot, i: nat, ghost level: nat)
      requires 1 <= level <= 3 && Boundary(level, jiffies) && i < |local|
      requires Agrees() && loose == Ids(local[i..]) && Paid(Owed(level, |local| - i) + i)
      requires Stored(levels, index, m.pending, jiffies, level, loose)
      requires Sweeping(local, i, level, m.pending, jiffies)
      modifies this`levels, this`index, this`loose
      ensures Agrees() && loose == Ids(local[i + 1..]) && Paid(Owed(level, |local| - i - 1) + i + 1)
      ensures Stored(levels, index, m.pending, jiffies, level, loose)
      ensures Sweeping(local, i + 1, level, m.pending, jiffies)
      ensures levels == PutAll(old(levels), [local[i]], jiffies)
    {
      hide Stored;
      hide Potential;
      hide Sweeping;
      hide Place;
      hide SlotOf;
      hide Boundary;
      var e := local[i];
      StoredShape(levels, index, m.pending, jiffies, level, loose);
      SweepStep(levels, index, m.pending, jiffies, level, local, i);
      PutPotential(levels, e, jiffies);
      index := index - {e.id};
      Insert(e);
      loose := Ids(local[i + 1..]);
    }

    /** Re-insert everything in the slot that `level` sweeps at this boundary. */
    method Cascade(level: nat) returns (count: nat)
      requires 1 <= level <= 3 && Boundary(level, jiffies)
      requires Agrees() && Paid(0) && loose == {}
      requires Stored(levels, index, m.pending, jiffies, level - 1, {})
      modifies this`levels, this`index, this`cascades, this`loose
      ensures Agrees() && Paid(0) && loose == {}
      ensures Stored(levels, index, m.pending, jiffies, level, {})
      ensures Inside(old(levels), Loc(level, SlotOf(level, jiffies)))
      ensures count == |old(levels)[level][SlotOf(level, jiffies)]| && cascades == old(cascades) + count
      ensures levels == Sweep(old(levels), level, jiffies)
    {
      hide Stored;
      hide Potential;
      hide Sweeping;
      hide Place;
      hide SlotOf;
      hide Boundary;
      hide PutAll;
      hide WithSlot;
      hide InSpan;
      var s := CurrentSlot(level);
      var local := SweepOut(level, s);
      ghost var swept := levels;
      count := 0;
      assert local[..0] == [] && local[0..] == local;
      PutNone(swept, jiffies);
      while count < |local|
        invariant count <= |local| && cascades == old(cascades)
        invariant Agrees() && loose == Ids(local[count..])
        invariant Stored(levels, index, m.pending, jiffies, level, loose)
        invariant Sweeping(local, count, level, m.pending, jiffies)
        invariant Paid(Owed(level, |local| - count) + count)
        invariant levels == PutAll(swept, local[..count], jiffies)
      {
        PutAllNext(swept, local, count, jiffies);
        Reinsert(local, count, level);
        count := count + 1;
      }
      assert local[..|local|] == local;
      cascades := cascades + count;
    }

    /** `local.swap(slot)` of a cascade. */
    method SweepOut(level: nat, s: nat) returns (local: Slot)
      requires 1 <= level <= 3 && s == SlotOf(level, jiffies) && Agrees() && Paid(0) && loose == {}
      requires Stored(levels, index, m.pending, jiffies, level - 1, {})
      modifies this`levels, this`loose
      ensures Inside(old(levels), Loc(level, s)) && local == old(levels)[level][s]
      ensures levels == WithSlot(old(levels), Loc(level, s), [])
      ensures Agrees() && Paid(Owed(level, |local|)) && loose == Ids(local)
      ensures Stored(levels, index, m.pending, jiffies, level, loose)
      ensures Sweeping(local, 0, level, m.pending, jiffies)
    {
      hide Stored;
      hide Potential;
      hide Sweeping;
      hide SlotOf;
      StoredShape(levels, index, m.pending, jiffies, level - 1, {});
      SweepStarts(levels, index, m.pending, jiffies, level);
      local := levels[level][s];
      loose := Ids(local);
      levels := levels[level := levels[level][s := []]];
      StoredShape(levels, index, m.pending, jiffies, level, loose);
    }

    /** Count a firing and re-arm a periodic timer from the current tick. */
    method FinishEntry(e: Entry)
      requires Ready() && e.id !in m.pending && 1 <= e.id < m.nextId
      requires withinSpan ==> e.interval < SPAN
      modifies this`levels, this`index, this`fired, this`m
      ensures Ready() && m == Finish(old(m), e.id, Timer(e.expiry, e.interval))
      ensures Kept(old(levels), levels, iset{})
    {
      hide Kept;
      NothingMoved(levels, iset{});
      hide Stored;
      hide Potential;
      hide Place;
      StoredShape(levels, index, m.pending, jiffies, 3, loose);
      fired := fired + 1;
      if e.interval != 0 {
        var again := e.(expiry := jiffies + e.interval);
        AddStored(levels, index, m.pending, jiffies, 3, loose, again);
        PutPaid(withinSpan, m.pending, jiffies, levels, cascades, inserted + old(fired), again);
        PutKept(levels, Place(again.expiry, jiffies), again);
        Insert(again);
      }
      m := Finish(m, e.id, Timer(e.expiry, e.interval));
    }

    /** One turn of the firing loop. */
    method FireEntry(local: Slot, i: nat, react: Reaction)
      requires i < |local| && Ready() && loose == Ids(local[i..])
      requires DistinctIds(local) && local[i].id in m.pending
      requires m.pending[local[i].id] == Timer(local[i].expiry, local[i].interval)
      requires forall c :: c in loose && c != local[i].id ==> TimerSpec.Cancel(c) !in react(local[i].id)
      modifies this
      ensures Ready() && loose == Ids(local[i + 1..]) && jiffies == old(jiffies) && cascades == old(cascades)
      ensures m == Fire(old(m), local[i].id, react)
      ensures withinSpan == (old(withinSpan) && forall a :: a in react(local[i].id) ==> Narrow(a))
      ensures Kept(old(levels), levels, CancelledBy(react(local[i].id)))
    {
      hide Stored;
      hide Potential;
      hide ApplyAll;
      hide Kept;
      var e := local[i];
      IdsTail(local, i);
      OpenEntry(local, i);
      ApplyAllEvolves(m, react(e.id));
      RunCallback(react(e.id));
      ghost var between := levels;
      FinishEntry(e);
      KeptTrans(old(levels), between, levels, CancelledBy(react(e.id)), iset{}, CancelledBy(react(e.id)));
    }

    /** The timer leaves the index before its callback runs. */
    method OpenEntry(local: Slot, i: nat)
      requires i < |local| && Ready() && loose == Ids(local[i..]) && DistinctIds(local)
      modifies this`index, this`loose, this`m
      ensures Ready() && loose == Ids(local[i + 1..]) && m == Begin(old(m), local[i].id)
    {
      hide Stored;
      hide Potential;
      IdsTail(local, i);
      DropLoose(levels, index, m.pending, jiffies, 3, loose, local[i].id);
      index := index - {local[i].id};
      loose := Ids(local[i + 1..]);
      m := Begin(m, local[i].id);
    }

    /** Fire the first `n` entries of the swapped-out list. */
    method FireSome(local: Slot, n: nat, react: Reaction, ghost before: Model)
      requires n <= |local| && Ready() && loose == Ids(local) && DistinctIds(local) && Matches(local, before.pending)
      requires WellFormed(before) && m == before.(now := before.now + 1)
      requires FiringOrder(before, OrderOf(local)) && SafeOrder(OrderOf(local), react)
      modifies this
      ensures Ready() && loose == Ids(local[n..]) && jiffies == old(jiffies) && cascades == old(cascades)
      ensures m == FireAll(before.(now := before.now + 1), OrderOf(local)[..n], react)
      ensures withinSpan == (old(withinSpan) && NarrowReactions(OrderOf(local)[..n], react))
      ensures Kept(old(levels), levels, CancelledAmong(OrderOf(local)[..n], react))
    {
      hide Kept;
      hide CancelledAmong;
      hide Ready;
      hide Fire;
      hide SafeOrder;
      hide FiringOrder;
      hide WellFormed;
      hide NarrowReactions;
      ghost var order := OrderOf(local);
      var count := 0;
      assert local[0..] == local && order[..0] == [];
      NarrowStart(order[..0], react);
      NothingMoved(levels, CancelledAmong(order[..0], react));
      while count < n
        invariant count <= n && jiffies == old(jiffies) && cascades == old(cascades)
        invariant Ready() && loose == Ids(local[count..])
        invariant m == FireAll(before.(now := before.now + 1), order[..count], react)
        invariant withinSpan == (old(withinSpan) && NarrowReactions(order[..count], react))
        invariant Kept(old(levels), levels, CancelledAmong(order[..count], react))
      {
        FireTurn(before, local, react, count);
        ghost var was := levels;
        FireEntry(local, count, react);
        CancelledNext(order, react, count);
        KeptTrans(old(levels), was, levels, CancelledAmong(order[..count], react), CancelledBy(react(order[count])),
                  CancelledAmong(order[..count + 1], react));
        NarrowStep(order, react, count);
        count := count + 1;
        assert order[..count][..count - 1] == order[..count - 1];
      }
    }

    /** Fire everything in the level 0 slot of the current tick. `before` is the service state
        before the tick. */
    method FireSlot(s: nat, react: Reaction, ghost before: Model) returns (count: nat, ghost order: seq<TimerId>)
      requires s == SlotOf(0, jiffies) && Agrees() && Paid(0) && loose == {}
      requires Stored(levels, index, m.pending, jiffies, 3, {})
      requires WellFormed(before) && m == before.(now := before.now + 1)
      requires SafeOrder(OrderOf(SlotNow(levels, jiffies)), react)
      modifies this
      ensures Ready() && loose == {} && jiffies == old(jiffies) && cascades == old(cascades)
      ensures FiringOrder(before, order) && count == |order| && order == OrderOf(old(SlotNow(levels, jiffies)))
      ensures m == TickTo(before, order, react)
      ensures withinSpan == (old(withinSpan) && NarrowReactions(order, react))
      ensures Paired(old(levels), levels, TickGone(order, react))
    {
      hide Kept;
      hide Paired;
      hide CancelledAmong;
      hide Ready;
      hide Agrees;
      hide Paid;
      hide Stored;
      hide Fire;
      hide SafeOrder;
      hide FiringOrder;
      hide WellFormed;
      hide NarrowReactions;
      var local := SwapOut(s, before);
      order := OrderOf(local);
      count := |local|;
      ghost var swapped := levels;
      FireSome(local, count, react, before);
      assert order[..|order|] == order && local[|local|..] == [];
      KeptPaired(swapped, levels, CancelledAmong(order, react));
      PairedTrans(old(levels), swapped, levels, Members(order), CancelledAmong(order, react), TickGone(order, react));
    }

    /** `local.swap(slot)`: take the whole slot out, so that callbacks may insert freely. */
    method SwapOut(s: nat, ghost before: Model) returns (local: Slot)
      requires s == SlotOf(0, jiffies) && Agrees() && Paid(0) && loose == {}
      requires Stored(levels, index, m.pending, jiffies, 3, {})
      requires m == before.(now := before.now + 1)
      modifies this`levels, this`loose
      ensures Ready() && loose == Ids(local)
      ensures DistinctIds(local) && Matches(local, before.pending) && FiringOrder(before, OrderOf(local))
      ensures local == old(SlotNow(levels, jiffies))
      ensures Paired(old(levels), levels, Members(OrderOf(local)))
    {
      hide Paired;
      hide Stored;
      hide Potential;
      hide FiringOrder;
      hide SlotOf;
      StoredShape(levels, index, m.pending, jiffies, 3, {});
      FireStarts(levels, index, m.pending, jiffies, before);
      local := levels[0][s];
      EmptiedPaired(levels, Loc(0, s), Members(OrderOf(local)));
      levels := levels[0 := levels[0][s := []]];
      loose := Ids(local);
    }

    /** The cascades of one tick, from the finest boundary to the coarsest. */
    method CascadeAll()
      requires Agrees() && Paid(0) && loose == {}
      requires Stored(levels, index, m.pending, jiffies, 0, {})
      modifies this`levels, this`index, this`cascades, this`loose
      ensures Agrees() && Paid(0) && loose == {}
      ensures Stored(levels, index, m.pending, jiffies, 3, {})
      ensures levels == Cascaded(old(levels), jiffies)
    {
      hide Agrees;
      hide Sweep;
      hide Paid;
      hide Stored;
      hide Boundary;
      hide Bits.And;
      BoundaryBits(jiffies);
      if Bits.And(jiffies, L0_SLOTS - 1) == 0 {
        var _ := Cascade(1);
        if Bits.And(jiffies, L0_SLOTS * L1_SLOTS - 1) == 0 {
          var _ := Cascade(2);
          if Bits.And(jiffies, L0_SLOTS * L1_SLOTS * L2_SLOTS - 1) == 0 {
            var _ := Cascade(3);
          } else {
            NoBoundaryStored(levels, index, m.pending, jiffies, 2, {});
          }
        } else {
          NoBoundaryStored(levels, index, m.pending, jiffies, 1, {});
        }
      } else {
        NoBoundaryStored(levels, index, m.pending, jiffies, 0, {});
      }
    }

    /** One tick: fires exactly the timers due at the new time, each once, and is one step of the
        service. Nothing that a callback schedules, and nothing that is re-armed, enters the slot
        being fired. `order` is the order of firing; a callback must not cancel a timer that comes
        after its own in it. */
    method Tick(react: Reaction) returns (count: nat, ghost order: seq<TimerId>)
      requires Valid() && SafeOrder(OrderAt(levels, jiffies + 1), react)
      modifies this
      ensures Valid() && jiffies == old(jiffies) + 1
      ensures FiringOrder(old(m), order) && count == |order| && order == old(OrderAt(levels, jiffies + 1))
      ensures m == TickTo(old(m), order, react)
      ensures withinSpan == (old(withinSpan) && NarrowReactions(order, react))
      ensures Empty(levels, Loc(0, SlotOf(0, jiffies)))
      ensures Paired(old(levels), levels, TickGone(order, react))
      ensures AllInTurn(old(levels), jiffies, order)
    {
      hide Paired;
      hide AllInTurn;
      hide TickGone;
      hide Ready;
      hide Agrees;
      hide Paid;
      hide Stored;
      hide SafeOrder;
      hide FiringOrder;
      hide FireAll;
      hide NarrowReactions;
      hide OrderAt;
      hide WellFormed;
      hide Empty;
      ghost var before := m;
      NextIs(levels, jiffies + 1);
      NextInTurn(this);
      BeginTick();
      ghost var cascaded := levels;
      var s := CurrentSlot(0);
      count, order := FireSlot(s, react, before);
      PairedTrans(old(levels), cascaded, levels, iset{}, TickGone(order, react), TickGone(order, react));
      TickKeeps(before, order, react);
      NowEmpty(this);
    }

    /** Move on by one tick and cascade. */
    method BeginTick()
      requires Valid()
      modifies this`jiffies, this`m, this`levels, this`index, this`cascades, this`loose
      ensures Agrees() && Paid(0) && loose == {} && Stored(levels, index, m.pending, jiffies, 3, {})
      ensures jiffies == old(jiffies) + 1 && m == old(m).(now := old(m).now + 1)
      ensures levels == Cascaded(old(levels), jiffies) && Paired(old(levels), levels, iset{})
    {
      hide Stored;
      hide Cascaded;
      hide Potential;
      hide Paired;
      AdvanceStored(levels, index, m.pending, jiffies);
      CascadedPaired(levels, index, m.pending, jiffies + 1);
      jiffies := jiffies + 1;
      m := m.(now := m.now + 1);
      CascadeAll();
    }

    /** `advance(n)` is `n` ticks: `es` lists them. It is followed up to a tick in which a callback
        would cancel a timer later in the list being fired, which is undefined in the source. */
    method Advance(n: nat, reacts: nat -> Reaction) returns (total: nat, done: bool, ghost es: seq<Event>)
      requires Valid()
      modifies this
      ensures Valid() && jiffies == old(jiffies) + |es|
      ensures |es| <= n && Ticks(es, reacts) && Legal(old(m), es)
      ensures m == After(old(m), es) && total == FiredIn(es)
      ensures done ==> |es| == n
      ensures !done ==> |es| < n && Unsafe(reacts(|es|))
    {
      hide Valid;
      hide FiringOrder;
      hide SafeOrder;
      hide OrderAt;
      hide TickTo;
      hide Legal;
      hide After;
      hide Ticks;
      hide FiredIn;
      hide Unsafe;
      NoEvents(m, reacts);
      total, es := 0, [];
      for i := 0 to n
        invariant Valid() && jiffies == old(jiffies) + i
        invariant |es| == i && Ticks(es, reacts) && Legal(old(m), es)
        invariant m == After(old(m), es) && total == FiredIn(es)
      {
        var safe := IsSafe(reacts(i));
        if !safe {
          done := false;
          return;
        }
        var count, order := Tick(reacts(i));
        ghost var e := Event.Tick(order, reacts(i));
        Extend(old(m), es, e);
        ExtendTicks(es, e, reacts);
        es := es + [e];
        total := total + count;
      }
      done := true;
    }

    /** In the next tick a callback cancels a timer further on in the list being fired; so it is not
        true that no callback cancels another timer due in that tick. */
    ghost predicate Unsafe(react: Reaction)
      reads this
    {
      !SafeOrder(OrderAt(levels, jiffies + 1), react) && !SafeReactions(m, react)
    }

    method IsSafe(react: Reaction) returns (safe: bool)
      requires Valid()
      ensures safe <==> SafeOrder(OrderAt(levels, jiffies + 1), react)
      ensures !safe <==> Unsafe(react)
    {
      hide SafeOrder;
      hide OrderAt;
      hide SafeReactions;
      safe := SafeOrder(OrderAt(levels, jiffies + 1), react);
      NextOrder(levels, index, m);
      if SafeReactions(m, react) { SafeAnyway(m, OrderAt(levels, jiffies + 1), react); }
    }

    /** Run the swapped-out list up to call `a` of callback `i`, the first that offends. */
    method StopAt(local: Slot, i: nat, a: nat, react: Reaction, ghost before: Model)
      requires Ready() && loose == Ids(local) && DistinctIds(local) && Matches(local, before.pending)
      requires WellFormed(before) && m == before.(now := before.now + 1)
      requires FiringOrder(before, OrderOf(local)) && FirstWrong(OrderOf(local), react, i, a)
      modifies this
      ensures Ready() && loose == Ids(local[i + 1..])
      ensures m == MidCallback(before, OrderOf(local), react, i, a)
    {
      hide Ready;
      hide FireAll;
      hide ApplyAll;
      hide Cut;
      hide SafeOrder;
      hide WellFormed;
      hide Offends;
      hide CancelsLater;
      var order := OrderOf(local);
      CutIsSafe(order, react, i, a);
      FireSome(local, i, Cut(order, react, i, a), before);
      CutFires(before.(now := before.now + 1), order, react, i, a, i);
      hide FirstWrong;
      OpenEntry(local, i);
      forall c | c in loose
        ensures TimerSpec.Cancel(c) !in react(order[i])[..a]
      {
        IdsBehind(local, i, c);
        SafePart(order, react, i, a, c);
      }
      RunCallback(react(order[i])[..a]);
    }

    /** A tick that is not safe does go wrong. It reaches call `a` of callback `i`, which cancels a
        timer that is pending and indexed, and whose list node is not in the slot that the index
        names: `cancel` would erase it through a list that does not hold it. */
    method ReachBadErase(react: Reaction) returns (i: nat, a: nat, id: TimerId, ghost order: seq<TimerId>)
      requires Valid() && !SafeOrder(OrderAt(levels, jiffies + 1), react)
      modifies this
      ensures order == old(OrderAt(levels, jiffies + 1)) && FiringOrder(old(m), order)
      ensures i < |order| && a < |react(order[i])| && react(order[i])[a] == TimerSpec.Cancel(id)
      ensures m == MidCallback(old(m), order, react, i, a)
      ensures Ready() && id in loose && id in m.pending && id in index && !Holds(SlotAt(levels, index[id]), id)
    {
      hide Ready;
      hide WellFormed;
      hide SafeOrder;
      hide FiringOrder;
      hide MidCallback;
      hide OrderAt;
      hide FirstWrong;
      hide Holds;
      hide SlotAt;
      ghost var before := m;
      var local := BeginFiring();
      order := OrderOf(local);
      i, a, id := FindWrong(OrderOf(local), react);
      StopAt(local, i, a, react, before);
      IdsBehind(local, i, id);
      Misplaced(this, id);
    }

    /** The tick up to its first callback. */
    method BeginFiring() returns (local: Slot)
      requires Valid()
      modifies this
      ensures Ready() && loose == Ids(local) && m == old(m).(now := old(m).now + 1) && WellFormed(old(m))
      ensures DistinctIds(local) && Matches(local, old(m).pending) && FiringOrder(old(m), OrderOf(local))
      ensures OrderOf(local) == old(OrderAt(levels, jiffies + 1))
    {
      hide Stored;
      hide Potential;
      hide FiringOrder;
      hide Cascaded;
      hide SlotNow;
      ghost var before := m;
      BeginTick();
      var s := CurrentSlot(0);
      local := SwapOut(s, before);
    }
  }

  /** A timer in the swapped-out list is indexed, at a slot that does not hold it. */
  lemma Misplaced(w: TimerWheel, id: TimerId)
    requires w.Ready() && id in w.loose
    ensures id in w.m.pending && id in w.index && !Holds(SlotAt(w.levels, w.index[id]), id)
  {
    hide Stored;
    hide Potential;
    hide Holds;
    hide SlotAt;
    StoredShape(w.levels, w.index, w.m.pending, w.jiffies, 3, w.loose);
    EraseIsSound(w.levels, w.index, w.m.pending, w.jiffies, 3, w.loose, id);
  }

  lemma IdsBehind(local: Slot, i: nat, id: TimerId)
    requires i < |local|
    ensures id in Ids(local[i + 1..]) <==> id in OrderOf(local)[i + 1..]
  {
    var rest, order := local[i + 1..], OrderOf(local)[i + 1..];
    assert |rest| == |order| && forall k :: 0 <= k < |rest| ==> order[k] == rest[k].id;
    if id in Ids(rest) {
      var k :| 0 <= k < |rest| && rest[k].id == id;
      assert order[k] == id;
    }
  }

  method FindWrong(order: seq<TimerId>, react: Reaction) returns (i: nat, a: nat, id: TimerId)
    requires !SafeOrder(order, react)
    ensures FirstWrong(order, react, i, a) && i < |order| && a < |react(order[i])|
    ensures react(order[i])[a] == TimerSpec.Cancel(id) && id in order[i + 1..]
  {
    ghost var p := SomeOffends(order, react);
    i := FirstOffender(order, react, 0);
    a := FirstOffence(order, i, react(order[i]), 0);
    id := react(order[i])[a].id;
  }

  /** The restriction is not idle: two timers of delay 1, at the moment their slot has been swapped
      out and the first of them is to be fired. The index still names that slot for both, which holds
      neither: a callback of one that cancels the other would erase a list node from a list it is
      not in. */
  method SiblingWaits() returns (w: TimerWheel, first: TimerId, second: TimerId)
    ensures fresh(w) && w.Ready() && first != second && first in w.loose && second in w.loose
    ensures first in w.index && w.index[first] == Loc(0, 1) && second in w.index && w.index[second] == Loc(0, 1)
    ensures Inside(w.levels, Loc(0, 1)) && !Holds(w.levels[0][1], first) && !Holds(w.levels[0][1], second)
  {
    hide Stored;
    hide Cascaded;
    hide Potential;
    hide FiringOrder;
    hide Matches;
    hide DistinctIds;
    w, first, second := TwoTimers();
    ghost var before := w.m;
    w.BeginTick();
    StoredShape(w.levels, w.index, w.m.pending, w.jiffies, 3, {});
    DueIsOnLevelZero(w.levels, w.index, w.m.pending, w.jiffies, first);
    DueIsOnLevelZero(w.levels, w.index, w.m.pending, w.jiffies, second);
    var local := w.SwapOut(1, before);
    Swapped(before, local, first);
    Swapped(before, local, second);
    StoredShape(w.levels, w.index, w.m.pending, w.jiffies, 3, w.loose);
    EraseIsSound(w.levels, w.index, w.m.pending, w.jiffies, 3, w.loose, first);
    EraseIsSound(w.levels, w.index, w.m.pending, w.jiffies, 3, w.loose, second);
  }

  method TwoTimers() returns (w: TimerWheel, first: TimerId, second: TimerId)
    ensures fresh(w) && w.Valid() && first != second && w.m.now == 0
    ensures w.m.pending == map[first := Timer(1, 0), second := Timer(1, 0)]
  {
    hide Stored;
    hide Potential;
    hide WellFormed;
    w := new TimerWheel();
    first := w.Schedule(1);
    second := w.Schedule(1);
  }

  lemma Swapped(m: Model, local: Slot, id: TimerId)
    requires FiringOrder(m, OrderOf(local)) && id in Due(m)
    ensures id in Ids(local)
  {
    var k :| 0 <= k < |local| && OrderOf(local)[k] == id;
    assert local[k].id == id;
  }

  lemma NextInTurn(w: TimerWheel)
    requires w.Valid()
    ensures AllInTurn(w.levels, w.jiffies + 1, OrderAt(w.levels, w.jiffies + 1))
  {
    hide Stored;
    hide AllInTurn;
    hide OrderAt;
    hide Potential;
    OrderInTurn(w.levels, w.index, w.m);
  }

  lemma NowEmpty(w: TimerWheel)
    requires w.Valid()
    ensures Empty(w.levels, Loc(0, SlotOf(0, w.jiffies)))
  {
    hide Stored;
    hide Empty;
    hide Potential;
    NowSlotEmpty(w.levels, w.index, w.m.pending, w.jiffies);
  }

  lemma NextIs(ls: Levels, now: nat)
    ensures OrderAt(ls, now) == OrderOf(SlotNow(Cascaded(ls, now), now))
  {
  }

  lemma AddFresh(m: Model, t: Timer)
    requires FreshIds(m) && m.now < t.expiry
    ensures m.nextId !in m.pending && FreshIds(Add(m, t))
    ensures forall loose: set<TimerId> :: Ahead(m.pending, loose, m.now) ==> Ahead(Add(m, t).pending, loose, m.now)
    ensures InSpan(m.pending, m.now) && t.expiry < m.now + SPAN && t.interval < SPAN ==>
              InSpan(Add(m, t).pending, m.now)
  {
  }

  lemma StillWellFormed(m: Model, a: Action)
    ensures WellFormed(m) ==> WellFormed(Apply(m, a))
  {
    if WellFormed(m) { StepKeeps(m, Do(a)); }
  }

  /** One call into the wheel from outside: an action, or a tick in which the callbacks react so. */
  datatype Op = Call(action: Action) | Tock(react: Reaction)

  ghost predicate Follows(es: seq<Event>, ops: seq<Op>) {
    |es| <= |ops| && forall k :: 0 <= k < |es| ==>
      match ops[k]
      case Call(a) => es[k] == Do(a)
      case Tock(react) => es[k].Tick? && es[k].react == react
  }

  ghost predicate NarrowEvent(e: Event) {
    match e
    case Do(a) => Narrow(a)
    case Tick(order, react) => NarrowReactions(order, react)
  }

  ghost predicate NarrowRun(es: seq<Event>) {
    forall k :: 0 <= k < |es| ==> NarrowEvent(es[k])
  }

  lemma ExtendFollows(es: seq<Event>, e: Event, ops: seq<Op>)
    requires Follows(es, ops) && |es| < |ops|
    requires match ops[|es|]
             case Call(a) => e == Do(a)
             case Tock(react) => e.Tick? && e.react == react
    ensures Follows(es + [e], ops)
    ensures NarrowRun(es + [e]) <==> NarrowRun(es) && NarrowEvent(e)
  {
    assert (es + [e])[|es|] == e;
    assert forall k :: 0 <= k < |es| ==> (es + [e])[k] == es[k];
  }

  /** What the wheel stands for after the events `es`. */
  ghost predicate RunSoFar(w: TimerWheel, es: seq<Event>)
    reads w
  {
    w.Valid() && Legal(Start, es) && w.m == After(Start, es) && Tracked(es, w.levels) && Fifo(es)
  }

  /** A schedule call by a caller. */
  method CallSchedule(w: TimerWheel, action: Action, ghost es: seq<Event>)
    requires RunSoFar(w, es) && !action.Cancel?
    modifies w
    ensures RunSoFar(w, es + [Do(action)]) && w.withinSpan == (old(w.withinSpan) && Narrow(action))
  {
    hide Stored;
    hide WellFormed;
    hide Legal;
    hide After;
    hide Tracked;
    hide Fifo;
    hide Joins;
    hide Potential;
    ghost var e, before := Do(action), w.levels;
    FifoStep(es, e, w.levels);
    Extend(Start, es, e);
    var id;
    match action {
      case Schedule(d) => id := w.Schedule(d);
      case SchedulePeriodic(n) => id := w.SchedulePeriodic(n);
    }
    IssuedLast(es, e);
    TrackSchedule(es, e, before, w.levels, id, w.m.pending[id].expiry);
  }

  method CallCancel(w: TimerWheel, id: TimerId, ghost es: seq<Event>)
    requires RunSoFar(w, es)
    modifies w
    ensures RunSoFar(w, es + [Do(Cancel(id))]) && w.withinSpan == old(w.withinSpan)
  {
    hide Stored;
    hide WellFormed;
    hide Legal;
    hide After;
    hide Tracked;
    hide Fifo;
    hide Kept;
    hide Potential;
    ghost var e, before := Do(Cancel(id)), w.levels;
    FifoStep(es, e, w.levels);
    Extend(Start, es, e);
    var _ := w.Cancel(id);
    TrackCancel(es, id, before, w.levels);
  }

  method CallTick(w: TimerWheel, react: Reaction, ghost es: seq<Event>) returns (ghost order: seq<TimerId>)
    requires RunSoFar(w, es) && SafeOrder(OrderAt(w.levels, w.jiffies + 1), react)
    modifies w
    ensures RunSoFar(w, es + [Tick(order, react)]) && w.withinSpan == (old(w.withinSpan) && NarrowReactions(order, react))
  {
    hide Stored;
    hide WellFormed;
    hide Legal;
    hide After;
    hide Tracked;
    hide Fifo;
    hide Paired;
    hide AllInTurn;
    hide TickTo;
    hide SafeOrder;
    hide OrderAt;
    hide FiringOrder;
    hide Known;
    hide TickGone;
    hide Potential;
    hide NarrowReactions;
    ghost var before := w.levels;
    StoredKnown(w.levels, w.index, w.m.pending, w.jiffies);
    var _, fired := w.Tick(react);
    order := fired;
    ghost var e := Tick(order, react);
    FifoStep(es, e, before);
    Extend(Start, es, e);
    TrackTick(es, order, react, before, w.levels);
  }

  /** Any sequence of calls on a new wheel, up to a tick that is unsafe (undefined in the source). The
      events that happen are a legal run of the service from its start, so ExactFiring, GoneForGood
      and Conservation speak about them; timers scheduled in the same tick for the same time fire in
      the order of the calls; and if every delay and interval is below the span, the cascades are
      amortised. */
  method Run(ops: seq<Op>) returns (w: TimerWheel, done: bool, ghost es: seq<Event>)
    ensures Follows(es, ops) && Legal(Start, es) && Fifo(es)
    ensures w.Valid() && w.m == After(Start, es)
    ensures NarrowRun(es) ==> w.cascades + Potential(w.levels) <= 3 * (w.inserted + w.fired)
    ensures done ==> |es| == |ops|
    ensures !done ==> |es| < |ops| && ops[|es|].Tock? && w.Unsafe(ops[|es|].react)
  {
    hide Stored;
    hide Legal;
    hide After;
    hide Follows;
    hide NarrowRun;
    hide WellFormed;
    hide SafeOrder;
    hide OrderAt;
    hide SafeReactions;
    hide Tracked;
    hide Fifo;
    w := new TimerWheel();
    es := [];
    NoOps(ops);
    NothingTracked(w.levels);
    for i := 0 to |ops|
      invariant RunSoFar(w, es) && |es| == i && fresh(w)
      invariant Follows(es, ops) && w.withinSpan == NarrowRun(es)
    {
      ghost var e;
      match ops[i] {
        case Call(a) =>
          e := Do(a);
          if a.Cancel? {
            CallCancel(w, a.id, es);
          } else {
            CallSchedule(w, a, es);
          }
        case Tock(react) =>
          var safe := w.IsSafe(react);
          if !safe {
            done := false;
            return;
          }
          ghost var order := CallTick(w, react, es);
          e := Event.Tick(order, react);
      }
      ExtendFollows(es, e, ops);
      es := es + [e];
    }
    done := true;
  }

  lemma NoOps(ops: seq<Op>)
    ensures Follows([], ops) && Legal(Start, []) && After(Start, []) == Start && NarrowRun([])
  {
  }

  lemma NoEvents(m: Model, reacts: nat -> Reaction)
    ensures Legal(m, []) && After(m, []) == m && Ticks([], reacts) && FiredIn([]) == 0
  {
  }

  lemma ExtendTicks(es: seq<Event>, e: Event, reacts: nat -> Reaction)
    requires Ticks(es, reacts) && e.Tick? && e.react == reacts(|es|)
    ensures Ticks(es + [e], reacts) && FiredIn(es + [e]) == FiredIn(es) + |e.order|
  {
    assert (es + [e])[..|es|] == es;
  }

  lemma NarrowStart(order: seq<TimerId>, react: Reaction)
    requires order == []
    ensures NarrowReactions(order, react)
  {
  }

  lemma NarrowStep(order: seq<TimerId>, react: Reaction, k: nat)
    requires k < |order|
    ensures NarrowReactions(order[..k + 1], react) <==>
            NarrowReactions(order[..k], react) && forall a :: a in react(order[k]) ==> Narrow(a)
  {
    assert order[..k + 1] == order[..k] + [order[k]];
    assert order[..k + 1][k] == order[k];
    assert forall i :: 0 <= i < k ==> order[..k + 1][i] == order[..k][i];
  }

  lemma {:induction false} EmptyCount(row: seq<Slot>)
    requires forall s :: 0 <= s < |row| ==> row[s] == []
    ensures Count(row) == 0
  {
    if row != [] { EmptyCount(row[..|row| - 1]); }
  }
}
