/** The order among timers that expire in the same tick. Two timers inserted in the same tick for the
    same expiry share every slot from then on, the first before the second, so they fire in that
    order. (Inserted in different ticks they may not: a cascade appends to a slot that the later one
    went to directly.) */
module WheelOrder {
  import opened TimerSpec
  import opened WheelLayout

  predicate Has(slot: Slot, i: int, id: TimerId, expiry: nat) {
    0 <= i < |slot| && slot[i].id == id && slot[i].expiry == expiry
  }

  /** `a` comes before `b` in the slot, with the same expiry. */
  ghost predicate InTurn(slot: Slot, a: TimerId, b: TimerId, expiry: nat) {
    exists i, j :: i < j && Has(slot, i, a, expiry) && Has(slot, j, b, expiry)
  }

  ghost predicate Held(ls: Levels, loc: Loc, id: TimerId, expiry: nat) {
    exists i :: Has(SlotAt(ls, loc), i, id, expiry)
  }

  /** The two are in the same slot, `a` first, with the same expiry. */
  ghost predicate Together(ls: Levels, a: TimerId, b: TimerId, expiry: nat) {
    exists loc :: InTurn(SlotAt(ls, loc), a, b, expiry)
  }

  /** Timers outside `gone` stay where they are, and pairs stay together. */
  ghost predicate Kept(ls: Levels, ls': Levels, gone: iset<TimerId>) {
    && (forall loc, id, x :: Held(ls, loc, id, x) && id !in gone ==> Held(ls', loc, id, x))
    && (forall a, b, x :: Together(ls, a, b, x) && a !in gone && b !in gone ==> Together(ls', a, b, x))
  }

  lemma NothingMoved(ls: Levels, gone: iset<TimerId>)
    ensures Kept(ls, ls, gone)
  {
  }

  lemma KeptTrans(ls: Levels, ls1: Levels, ls2: Levels, g1: iset<TimerId>, g2: iset<TimerId>, gone: iset<TimerId>)
    requires Kept(ls, ls1, g1) && Kept(ls1, ls2, g2) && g1 <= gone && g2 <= gone
    ensures Kept(ls, ls2, gone)
  {
    hide Held;
    hide Together;
  }

  lemma SlotAtPut(ls: Levels, loc: Loc, e: Entry, at: Loc)
    requires Inside(ls, loc)
    ensures SlotAt(Put(ls, loc, e), at) == if at == loc then SlotAt(ls, loc) + [e] else SlotAt(ls, at)
  {
    if Inside(ls, at) { SlotsAfter(ls, loc, ls[loc.level][loc.slot] + [e], at); }
  }

  /** An insertion appends. */
  lemma PutKept(ls: Levels, loc: Loc, e: Entry)
    requires Inside(ls, loc)
    ensures Kept(ls, Put(ls, loc, e), iset{})
  {
    hide Put;
    hide SlotAt;
    forall at, id, x | Held(ls, at, id, x)
      ensures Held(Put(ls, loc, e), at, id, x)
    {
      SlotAtPut(ls, loc, e, at);
      var i :| Has(SlotAt(ls, at), i, id, x);
      assert Has(SlotAt(Put(ls, loc, e), at), i, id, x);
    }
    forall a, b, x | Together(ls, a, b, x)
      ensures Together(Put(ls, loc, e), a, b, x)
    {
      var at :| InTurn(SlotAt(ls, at), a, b, x);
      SlotAtPut(ls, loc, e, at);
      var i, j :| i < j && Has(SlotAt(ls, at), i, a, x) && Has(SlotAt(ls, at), j, b, x);
      assert Has(SlotAt(Put(ls, loc, e), at), i, a, x) && Has(SlotAt(Put(ls, loc, e), at), j, b, x);
      assert InTurn(SlotAt(Put(ls, loc, e), at), a, b, x);
    }
  }

  /** The new entry is behind every other in its slot. */
  lemma PutBehind(ls: Levels, loc: Loc, e: Entry)
    requires Inside(ls, loc)
    ensures Held(Put(ls, loc, e), loc, e.id, e.expiry)
    ensures forall a :: Held(ls, loc, a, e.expiry) ==> Together(Put(ls, loc, e), a, e.id, e.expiry)
  {
    hide Put;
    hide SlotAt;
    SlotAtPut(ls, loc, e, loc);
    var slot, slot' := SlotAt(ls, loc), SlotAt(Put(ls, loc, e), loc);
    assert Has(slot', |slot|, e.id, e.expiry);
    forall a | Held(ls, loc, a, e.expiry)
      ensures Together(Put(ls, loc, e), a, e.id, e.expiry)
    {
      var i :| Has(slot, i, a, e.expiry);
      assert Has(slot', i, a, e.expiry);
      assert InTurn(slot', a, e.id, e.expiry);
    }
  }

  // ---- removals -------------------------------------------------------------------------------

  /** Where entry `i` goes when `id` is taken out. */
  lemma {:induction false} WithoutAt(slot: Slot, id: TimerId, i: nat) returns (k: nat)
    requires i < |slot| && slot[i].id != id
    ensures k <= i && k < |Without(slot, id)| && Without(slot, id)[k] == slot[i]
    ensures k == |Without(slot[..i], id)|
  {
    hide Without;
    WithoutFirst(slot, id);
    if i == 0 {
      k := 0;
      assert slot[..0] == [];
      WithoutNothing(id);
    } else {
      k := WithoutAt(slot[1..], id, i - 1);
      WithoutFirst(slot[..i], id);
      assert slot[..i][1..] == slot[1..][..i - 1];
      if slot[0].id != id { k := k + 1; }
    }
  }

  lemma {:induction false} WithoutGrows(slot: Slot, id: TimerId, i: nat, j: nat)
    requires i < j <= |slot| && slot[i].id != id
    ensures |Without(slot[..i], id)| < |Without(slot[..j], id)|
  {
    var k := WithoutAt(slot[..j], id, i);
    assert slot[..j][..i] == slot[..i];
  }

  lemma SlotAtWith(ls: Levels, loc: Loc, slot: Slot, at: Loc)
    requires Inside(ls, loc)
    ensures SlotAt(WithSlot(ls, loc, slot), at) == if at == loc then slot else SlotAt(ls, at)
  {
    if Inside(ls, at) { SlotsAfter(ls, loc, slot, at); }
  }

  lemma RemoveKept(ls: Levels, loc: Loc, id: TimerId)
    requires Inside(ls, loc)
    ensures Kept(ls, WithSlot(ls, loc, Without(ls[loc.level][loc.slot], id)), iset{id})
  {
    hide WithSlot;
    hide Without;
    var slot := ls[loc.level][loc.slot];
    var ls' := WithSlot(ls, loc, Without(slot, id));
    forall at, j, x | Held(ls, at, j, x) && j != id
      ensures Held(ls', at, j, x)
    {
      SlotAtWith(ls, loc, Without(slot, id), at);
      var i :| Has(SlotAt(ls, at), i, j, x);
      if at == loc {
        var k := WithoutAt(slot, id, i);
        assert Has(SlotAt(ls', at), k, j, x);
      } else {
        assert Has(SlotAt(ls', at), i, j, x);
      }
    }
    forall a, b, x | Together(ls, a, b, x) && a != id && b != id
      ensures Together(ls', a, b, x)
    {
      var at :| InTurn(SlotAt(ls, at), a, b, x);
      SlotAtWith(ls, loc, Without(slot, id), at);
      var i, j :| i < j && Has(SlotAt(ls, at), i, a, x) && Has(SlotAt(ls, at), j, b, x);
      if at == loc {
        var k := WithoutAt(slot, id, i);
        var l := WithoutAt(slot, id, j);
        WithoutGrows(slot, id, i, j);
        assert Has(SlotAt(ls', at), k, a, x) && Has(SlotAt(ls', at), l, b, x);
      }
      assert InTurn(SlotAt(ls', at), a, b, x);
    }
  }

  // ---- sweeps ---------------------------------------------------------------------------------

  /** Pairs outside `gone` stay together, wherever they go. */
  ghost predicate Paired(ls: Levels, ls': Levels, gone: iset<TimerId>) {
    forall a, b, x :: Together(ls, a, b, x) && a !in gone && b !in gone ==> Together(ls', a, b, x)
  }

  lemma PairedTrans(ls: Levels, ls1: Levels, ls2: Levels, g1: iset<TimerId>, g2: iset<TimerId>, gone: iset<TimerId>)
    requires Paired(ls, ls1, g1) && Paired(ls1, ls2, g2) && g1 <= gone && g2 <= gone
    ensures Paired(ls, ls2, gone)
  {
    hide Together;
  }

  lemma KeptPaired(ls: Levels, ls': Levels, gone: iset<TimerId>)
    requires Kept(ls, ls', gone)
    ensures Paired(ls, ls', gone)
  {
    hide Held;
    hide Together;
  }

  /** The entries that a sweep re-inserts are not overdue. */
  predicate Timely(local: Slot, now: nat) {
    forall k :: 0 <= k < |local| ==> now <= local[k].expiry
  }

  lemma {:induction false} PutAllKept(ls: Levels, local: Slot, now: nat, k: nat)
    requires Shape(ls) && Timely(local, now) && k <= |local|
    ensures Shape(PutAll(ls, local[..k], now)) && Kept(ls, PutAll(ls, local[..k], now), iset{})
  {
    hide Put;
    hide Place;
    hide Kept;
    if k == 0 {
      NothingMoved(ls, iset{});
      PutNone(ls, now);
      assert local[..0] == [];
    } else {
      PutAllKept(ls, local, now, k - 1);
      var part := PutAll(ls, local[..k - 1], now);
      PutStep(ls, local, now, k - 1);
      PutKept(part, Place(local[k - 1].expiry, now), local[k - 1]);
      KeptTrans(ls, part, PutAll(ls, local[..k], now), iset{}, iset{}, iset{});
    }
  }

  lemma PutStep(ls: Levels, local: Slot, now: nat, k: nat)
    requires k < |local| && Timely(local, now) && Shape(PutAll(ls, local[..k], now))
    ensures var part, loc := PutAll(ls, local[..k], now), Place(local[k].expiry, now);
            Inside(part, loc) && PutAll(ls, local[..k + 1], now) == Put(part, loc, local[k]) && Shape(Put(part, loc, local[k]))
  {
    PlaceInside(PutAll(ls, local[..k], now), local[k].expiry, now, 0);
    hide Place;
    assert local[..k + 1][..k] == local[..k];
  }

  /** Two entries of the swept slot, with the same expiry, are re-inserted into the same slot, in their
      order. */
  lemma {:induction false} PutAllPair(ls: Levels, local: Slot, now: nat, p: nat, q: nat, k: nat)
    requires Shape(ls) && Timely(local, now) && p < q < |local| && local[p].expiry == local[q].expiry && k <= |local|
    ensures var ls', x := PutAll(ls, local[..k], now), local[p].expiry;
            && (k > p ==> Held(ls', Place(x, now), local[p].id, x))
            && (k > q ==> Together(ls', local[p].id, local[q].id, x))
  {
    hide Put;
    hide PutAll;
    hide Place;
    hide Held;
    hide Together;
    if k > 0 {
      PutAllPair(ls, local, now, p, q, k - 1);
      PutAllKept(ls, local, now, k - 1);
      PutStep(ls, local, now, k - 1);
      var part := PutAll(ls, local[..k - 1], now);
      PutKept(part, Place(local[k - 1].expiry, now), local[k - 1]);
      PutBehind(part, Place(local[k - 1].expiry, now), local[k - 1]);
    }
  }

  lemma EmptiedPaired(ls: Levels, loc: Loc, gone: iset<TimerId>)
    requires Inside(ls, loc) && forall k :: 0 <= k < |ls[loc.level][loc.slot]| ==> ls[loc.level][loc.slot][k].id in gone
    ensures Paired(ls, WithSlot(ls, loc, []), gone)
  {
    hide WithSlot;
    forall a, b, x | Together(ls, a, b, x) && a !in gone && b !in gone
      ensures Together(WithSlot(ls, loc, []), a, b, x)
    {
      var at :| InTurn(SlotAt(ls, at), a, b, x);
      SlotAtWith(ls, loc, [], at);
      assert InTurn(SlotAt(WithSlot(ls, loc, []), at), a, b, x);
    }
  }

  lemma SweepPaired(ls: Levels, level: nat, now: nat)
    requires Inside(ls, Loc(level, SlotOf(level, now))) && Timely(ls[level][SlotOf(level, now)], now)
    ensures Paired(ls, Sweep(ls, level, now), iset{})
  {
    hide WithSlot;
    hide PutAll;
    hide SlotOf;
    var loc := Loc(level, SlotOf(level, now));
    var local, base := ls[level][loc.slot], WithSlot(ls, loc, []);
    assert local[..|local|] == local;
    SlotShape(ls, loc);
    PutAllKept(base, local, now, |local|);
    forall a, b, x | Together(ls, a, b, x)
      ensures Together(Sweep(ls, level, now), a, b, x)
    {
      var at :| InTurn(SlotAt(ls, at), a, b, x);
      SlotAtWith(ls, loc, [], at);
      if at == loc {
        var i, j :| i < j && Has(local, i, a, x) && Has(local, j, b, x);
        PutAllPair(base, local, now, i, j, |local|);
      } else {
        assert InTurn(SlotAt(base, at), a, b, x);
        assert Together(base, a, b, x);
      }
    }
  }

  lemma SlotShape(ls: Levels, loc: Loc)
    requires Inside(ls, loc)
    ensures Shape(WithSlot(ls, loc, []))
  {
  }

  lemma SweepingAhead(local: Slot, level: nat, pending: map<TimerId, Timer>, now: nat)
    requires level >= 1 && Sweeping(local, 0, level, pending, now)
    ensures Timely(local, now)
  {
    hide SlotOf;
  }

  lemma SweepKeepsPairs(ls: Levels, index: map<TimerId, Loc>, pending: map<TimerId, Timer>, now: nat, level: nat)
    returns (index': map<TimerId, Loc>)
    requires 1 <= level < 4 && Boundary(level, now) && Stored(ls, index, pending, now, level - 1, {})
    ensures Stored(Sweep(ls, level, now), index', pending, now, level, {})
    ensures Paired(ls, Sweep(ls, level, now), iset{})
  {
    hide Stored;
    hide Sweeping;
    hide Sweep;
    hide Boundary;
    hide SlotOf;
    hide Potential;
    hide Paired;
    SweepStarts(ls, index, pending, now, level);
    SweepingAhead(ls[level][SlotOf(level, now)], level, pending, now);
    SweepPaired(ls, level, now);
    index' := SweepStored(ls, index, pending, now, level);
  }

  lemma CascadedPaired(ls: Levels, index: map<TimerId, Loc>, pending: map<TimerId, Timer>, now: nat)
    requires Stored(ls, index, pending, now, 0, {})
    ensures Paired(ls, Cascaded(ls, now), iset{})
  {
    hide Stored;
    hide Sweep;
    hide Boundary;
    hide Paired;
    if !Boundary(1, now) {
      SamePaired(ls);
      return;
    }
    var index1 := SweepKeepsPairs(ls, index, pending, now, 1);
    var ls1 := Sweep(ls, 1, now);
    if !Boundary(2, now) { return; }
    var index2 := SweepKeepsPairs(ls1, index1, pending, now, 2);
    var ls2 := Sweep(ls1, 2, now);
    PairedTrans(ls, ls1, ls2, iset{}, iset{}, iset{});
    if !Boundary(3, now) { return; }
    var index3 := SweepKeepsPairs(ls2, index2, pending, now, 3);
    PairedTrans(ls, ls2, Sweep(ls2, 3, now), iset{}, iset{}, iset{});
  }

  lemma SamePaired(ls: Levels)
    ensures Paired(ls, ls, iset{})
  {
  }

  // ---- firing ---------------------------------------------------------------------------------

  /** `a` before `b`. */
  ghost predicate Precedes(order: seq<TimerId>, a: TimerId, b: TimerId) {
    exists i, j :: 0 <= i < j < |order| && order[i] == a && order[j] == b
  }

  lemma TogetherPending(ls: Levels, index: map<TimerId, Loc>, pending: map<TimerId, Timer>,
                        now: nat, swept: nat, loose: set<TimerId>, a: TimerId, b: TimerId, x: nat)
    requires Stored(ls, index, pending, now, swept, loose) && Together(ls, a, b, x)
    ensures a in pending && pending[a].expiry == x && b in pending && pending[b].expiry == x
  {
    var at :| InTurn(SlotAt(ls, at), a, b, x);
    assert Inside(ls, at);
    StoredSlot(ls, index, pending, now, swept, loose, at);
    hide Stored;
    hide Fits;
    hide SlotOf;
  }

  lemma SlotInTurn(ls: Levels, index: map<TimerId, Loc>, pending: map<TimerId, Timer>, now: nat, a: TimerId, b: TimerId)
    requires Stored(ls, index, pending, now, 3, {}) && Together(ls, a, b, now)
    ensures Precedes(OrderOf(SlotNow(ls, now)), a, b)
  {
    var at :| InTurn(SlotAt(ls, at), a, b, now);
    assert Inside(ls, at);
    StoredSlot(ls, index, pending, now, 3, {}, at);
    StoredShape(ls, index, pending, now, 3, {});
    TogetherPending(ls, index, pending, now, 3, {}, a, b, now);
    DueIsOnLevelZero(ls, index, pending, now, a);
    hide Stored;
    hide Fits;
    hide SlotOf;
    var slot := SlotAt(ls, at);
    var i, j :| i < j && Has(slot, i, a, now) && Has(slot, j, b, now);
    assert EntryOk(slot[i], at, index, pending, now, 3, {});
    var order := OrderOf(SlotNow(ls, now));
    assert order[i] == a && order[j] == b;
  }

  /** Timers that are together when they become due fire in their order. */
  lemma FireInTurn(ls: Levels, index: map<TimerId, Loc>, m: Model, a: TimerId, b: TimerId)
    requires Stored(ls, index, m.pending, m.now, 3, {}) && Together(ls, a, b, m.now + 1)
    requires forall id :: id in m.pending ==> m.pending[id].expiry > m.now
    ensures Precedes(OrderAt(ls, m.now + 1), a, b)
  {
    hide Stored;
    hide Cascaded;
    hide Paired;
    hide Precedes;
    hide Together;
    AdvanceStored(ls, index, m.pending, m.now);
    CascadedPaired(ls, index, m.pending, m.now + 1);
    var index' := CascadedStored(ls, index, m.pending, m.now + 1);
    PairTogether(ls, Cascaded(ls, m.now + 1), a, b, m.now + 1);
    SlotInTurn(Cascaded(ls, m.now + 1), index', m.pending, m.now + 1, a, b);
  }

  /** Whoever is together and due at `x` is in its turn in the order. */
  ghost predicate AllInTurn(ls: Levels, x: nat, order: seq<TimerId>) {
    forall a, b :: Together(ls, a, b, x) ==> Precedes(order, a, b)
  }

  lemma OrderInTurn(ls: Levels, index: map<TimerId, Loc>, m: Model)
    requires Stored(ls, index, m.pending, m.now, 3, {})
    requires forall id :: id in m.pending ==> m.pending[id].expiry > m.now
    ensures AllInTurn(ls, m.now + 1, OrderAt(ls, m.now + 1))
  {
    hide Stored;
    hide Together;
    hide Precedes;
    hide OrderAt;
    var x := m.now + 1;
    forall a, b | Together(ls, a, b, x)
      ensures Precedes(OrderAt(ls, x), a, b)
    {
      FireInTurn(ls, index, m, a, b);
    }
  }

  lemma PairTogether(ls: Levels, ls': Levels, a: TimerId, b: TimerId, x: nat)
    requires Paired(ls, ls', iset{}) && Together(ls, a, b, x)
    ensures Together(ls', a, b, x)
  {
    hide Together;
  }

  /** What scheduling `id` for time `x` does to the slots: nothing moves, and the new timer is behind
      those that this tick has already scheduled for `x`. */
  ghost predicate Joins(ls: Levels, ls': Levels, now: nat, id: TimerId, x: nat)
    requires now <= x
  {
    && Kept(ls, ls', iset{}) && Held(ls', Place(x, now), id, x)
    && forall a :: Held(ls, Place(x, now), a, x) ==> Together(ls', a, id, x)
  }

  lemma JoinsKept(ls: Levels, ls': Levels, now: nat, id: TimerId, x: nat, gone: iset<TimerId>)
    requires now <= x && Joins(ls, ls', now, id, x)
    ensures Kept(ls, ls', gone)
  {
    hide Held;
    hide Together;
  }

  lemma PutJoins(ls: Levels, e: Entry, now: nat)
    requires now <= e.expiry && Inside(ls, Place(e.expiry, now))
    ensures Joins(ls, Put(ls, Place(e.expiry, now), e), now, e.id, e.expiry)
  {
    hide Put;
    hide Place;
    hide Kept;
    hide Held;
    hide Together;
    PutKept(ls, Place(e.expiry, now), e);
    PutBehind(ls, Place(e.expiry, now), e);
  }

  /** What the callbacks of `order` cancel. */
  ghost function CancelledAmong(order: seq<TimerId>, react: Reaction): iset<TimerId> {
    iset id | exists i :: i in order && Cancel(id) in react(i)
  }

  lemma CancelledNext(order: seq<TimerId>, react: Reaction, k: nat)
    requires k < |order|
    ensures CancelledAmong(order[..k], react) + CancelledBy(react(order[k])) <= CancelledAmong(order[..k + 1], react)
  {
    var longer := order[..k + 1];
    assert longer[k] == order[k] && order[k] in longer;
    forall id | id in CancelledAmong(order[..k], react)
      ensures id in CancelledAmong(longer, react)
    {
      var i :| i in order[..k] && Cancel(id) in react(i);
      assert i in longer;
    }
  }

  /** Fired in a tick, or cancelled by one of its callbacks. */
  ghost function TickGone(order: seq<TimerId>, react: Reaction): iset<TimerId> {
    Members(order) + CancelledAmong(order, react)
  }

  ghost function Members(order: seq<TimerId>): iset<TimerId> {
    iset id | id in order
  }

  // ---- every run ------------------------------------------------------------------------------

  /** Event `k` issued `id`, with first expiry `x`. */
  ghost predicate Issued(es: seq<Event>, k: nat, id: TimerId, x: nat) {
    && k < |es| && es[k].Do? && !es[k].action.Cancel? && id == After(Start, es[..k]).nextId
    && id in After(Start, es[..k + 1]).pending && After(Start, es[..k + 1]).pending[id].expiry == x
  }

  ghost predicate NoTick(es: seq<Event>, from: nat, to: nat) {
    forall k :: from <= k < to && k < |es| ==> es[k].Do?
  }

  /** Event `k` has issued `a` for time `x` in this tick, and it is not cancelled. */
  ghost predicate Recent(es: seq<Event>, k: nat, a: TimerId, x: nat) {
    Issued(es, k, a, x) && NoTick(es, k, |es|) && NotCancelled(es, a, k + 1, |es|)
  }

  /** Events `k` and `l` of the same tick issued `a` and `b` for the same time. */
  ghost predicate Pair(es: seq<Event>, k: nat, l: nat, a: TimerId, b: TimerId, x: nat) {
    k < l && Issued(es, k, a, x) && Issued(es, l, b, x) && NoTick(es, k, l)
  }

  ghost predicate Spared(es: seq<Event>, k: nat, l: nat, a: TimerId, b: TimerId, to: nat) {
    NotCancelled(es, a, k + 1, to) && NotCancelled(es, b, l + 1, to)
  }

  /** What the slots of a wheel remember of the run so far: where this tick's timers are, and which
      pairs were scheduled in the same tick for the same time. */
  ghost predicate Tracked(es: seq<Event>, ls: Levels) {
    var now := After(Start, es).now;
    && (forall k: nat, a: TimerId, x: nat :: Recent(es, k, a, x) ==> now <= x && Held(ls, Place(x, now), a, x))
    && (forall k: nat, l: nat, a: TimerId, b: TimerId, x: nat ::
          Pair(es, k, l, a, b, x) && Spared(es, k, l, a, b, |es|) ==> now < x ==> Together(ls, a, b, x))
  }

  /** First in, first out: timers scheduled in the same tick for the same time fire in the order of
      the calls. */
  ghost predicate Fifo(es: seq<Event>) {
    forall k: nat, l: nat, a: TimerId, b: TimerId, x: nat, j: nat ::
      Pair(es, k, l, a, b, x) && Spared(es, k, l, a, b, j) ==> InOrderAt(es, l, a, b, x, j)
  }

  ghost predicate InOrderAt(es: seq<Event>, l: nat, a: TimerId, b: TimerId, x: nat, j: nat) {
    l < j < |es| && es[j].Tick? && TimeOf(Start, es, j) == x ==> Precedes(es[j].order, a, b)
  }

  lemma NothingTracked(ls: Levels)
    ensures Tracked([], ls) && Fifo([])
  {
  }

  lemma IssuedPrefix(es: seq<Event>, e: Event, k: nat, id: TimerId, x: nat)
    requires k < |es|
    ensures Issued(es + [e], k, id, x) <==> Issued(es, k, id, x)
  {
    var es' := es + [e];
    assert es'[..k] == es[..k] && es'[..k + 1] == es[..k + 1] && es'[k] == es[k];
  }

  lemma NotCancelledPrefix(es: seq<Event>, e: Event, id: TimerId, from: nat, to: nat)
    requires to <= |es|
    ensures NotCancelled(es + [e], id, from, to) <==> NotCancelled(es, id, from, to)
    ensures NotCancelled(es + [e], id, from, |es| + 1) ==> NotCancelled(es, id, from, |es|)
    ensures from <= |es| && NotCancelled(es + [e], id, from, |es| + 1) ==> Spares(e, id)
  {
    var es' := es + [e];
    assert es'[|es|] == e && forall k :: 0 <= k < |es| ==> es'[k] == es[k];
  }

  lemma NoTickPrefix(es: seq<Event>, e: Event, from: nat, to: nat)
    requires to <= |es|
    ensures NoTick(es + [e], from, to) <==> NoTick(es, from, to)
    ensures NoTick(es + [e], from, |es| + 1) ==> NoTick(es, from, |es|)
    ensures from <= |es| && NoTick(es + [e], from, |es| + 1) ==> e.Do?
  {
    var es' := es + [e];
    assert es'[|es|] == e && forall k :: 0 <= k < |es| ==> es'[k] == es[k];
  }

  lemma RecentPrefix(es: seq<Event>, e: Event, k: nat, a: TimerId, x: nat)
    requires Recent(es + [e], k, a, x) && k < |es|
    ensures Recent(es, k, a, x) && e.Do? && Spares(e, a)
  {
    hide Issued;
    hide NoTick;
    hide NotCancelled;
    IssuedPrefix(es, e, k, a, x);
    NoTickPrefix(es, e, k, |es|);
    NotCancelledPrefix(es, e, a, k + 1, |es|);
  }

  lemma PairPrefix(es: seq<Event>, e: Event, k: nat, l: nat, a: TimerId, b: TimerId, x: nat)
    requires l < |es|
    ensures Pair(es + [e], k, l, a, b, x) <==> Pair(es, k, l, a, b, x)
  {
    hide Issued;
    hide NoTick;
    if k < l {
      IssuedPrefix(es, e, k, a, x);
      IssuedPrefix(es, e, l, b, x);
      NoTickPrefix(es, e, k, l);
    }
  }

  lemma SparedPrefix(es: seq<Event>, e: Event, k: nat, l: nat, a: TimerId, b: TimerId)
    requires Spared(es + [e], k, l, a, b, |es| + 1) && k < l < |es|
    ensures Spared(es, k, l, a, b, |es|) && Spares(e, a) && Spares(e, b)
  {
    hide NotCancelled;
    NotCancelledPrefix(es, e, a, k + 1, |es|);
    NotCancelledPrefix(es, e, b, l + 1, |es|);
  }

  lemma NewPair(es: seq<Event>, e: Event, k: nat, a: TimerId, b: TimerId, x: nat)
    requires Pair(es + [e], k, |es|, a, b, x) && Spared(es + [e], k, |es|, a, b, |es| + 1)
    ensures Recent(es, k, a, x) && Issued(es + [e], |es|, b, x)
  {
    hide Issued;
    hide NoTick;
    hide NotCancelled;
    IssuedPrefix(es, e, k, a, x);
    NoTickPrefix(es, e, k, |es|);
    NotCancelledPrefix(es, e, a, k + 1, |es|);
  }

  /** A call to schedule `id` for `x`. */
  lemma TrackSchedule(es: seq<Event>, e: Event, ls: Levels, ls': Levels, id: TimerId, x: nat)
    requires Tracked(es, ls) && After(Start, es + [e]).now == After(Start, es).now <= x
    requires forall b: TimerId, y: nat :: Issued(es + [e], |es|, b, y) ==> b == id && y == x
    requires Joins(ls, ls', After(Start, es).now, id, x)
    ensures Tracked(es + [e], ls')
  {
    hide Issued;
    hide NoTick;
    hide NotCancelled;
    hide After;
    hide Held;
    hide Together;
    hide Place;
    var es', now := es + [e], After(Start, es).now;
    forall k: nat, a: TimerId, y: nat | Recent(es', k, a, y)
      ensures now <= y && Held(ls', Place(y, now), a, y)
    {
      IssuedInside(es', k, a, y);
      if k < |es| { RecentPrefix(es, e, k, a, y); }
    }
    forall k: nat, l: nat, a: TimerId, b: TimerId, y: nat |
      Pair(es', k, l, a, b, y) && Spared(es', k, l, a, b, |es'|) && now < y
      ensures Together(ls', a, b, y)
    {
      IssuedInside(es', l, b, y);
      if l < |es| {
        PairPrefix(es, e, k, l, a, b, y);
        SparedPrefix(es, e, k, l, a, b);
      } else {
        NewPair(es, e, k, a, b, y);
      }
    }
  }

  lemma IssuedLast(es: seq<Event>, e: Event)
    ensures forall b: TimerId, y: nat :: Issued(es + [e], |es|, b, y) ==>
              && b == After(Start, es).nextId && b in After(Start, es + [e]).pending
              && y == After(Start, es + [e]).pending[b].expiry
  {
    hide After;
    var es' := es + [e];
    assert es'[..|es|] == es && es'[..|es| + 1] == es';
  }

  lemma IssuedInside(es: seq<Event>, k: nat, a: TimerId, x: nat)
    requires Issued(es, k, a, x)
    ensures k < |es| && es[k].Do? && !es[k].action.Cancel?
  {
  }

  lemma TrackCancel(es: seq<Event>, id: TimerId, ls: Levels, ls': Levels)
    requires Tracked(es, ls) && After(Start, es + [Do(Cancel(id))]).now == After(Start, es).now
    requires Kept(ls, ls', iset{id})
    ensures Tracked(es + [Do(Cancel(id))], ls')
  {
    hide Issued;
    hide NoTick;
    hide NotCancelled;
    hide After;
    hide Held;
    hide Together;
    hide Place;
    var e := Do(Cancel(id));
    var es', now := es + [e], After(Start, es).now;
    forall k: nat, a: TimerId, y: nat | Recent(es', k, a, y)
      ensures now <= y && Held(ls', Place(y, now), a, y)
    {
      IssuedInside(es', k, a, y);
      RecentPrefix(es, e, k, a, y);
    }
    forall k: nat, l: nat, a: TimerId, b: TimerId, y: nat |
      Pair(es', k, l, a, b, y) && Spared(es', k, l, a, b, |es'|) && now < y
      ensures Together(ls', a, b, y)
    {
      IssuedInside(es', l, b, y);
      PairPrefix(es, e, k, l, a, b, y);
      SparedPrefix(es, e, k, l, a, b);
    }
  }

  /** Whoever is together is pending, with that expiry. */
  ghost predicate Known(ls: Levels, pending: map<TimerId, Timer>) {
    forall a, b, x :: Together(ls, a, b, x) ==>
      a in pending && pending[a].expiry == x && b in pending && pending[b].expiry == x
  }

  lemma StoredKnown(ls: Levels, index: map<TimerId, Loc>, pending: map<TimerId, Timer>, now: nat)
    requires Stored(ls, index, pending, now, 3, {})
    ensures Known(ls, pending)
  {
    hide Stored;
    hide Together;
    forall a, b, x | Together(ls, a, b, x)
      ensures a in pending && pending[a].expiry == x && b in pending && pending[b].expiry == x
    {
      TogetherPending(ls, index, pending, now, 3, {}, a, b, x);
    }
  }

  /** A timer that is not due is not fired, and its own callback does not run. */
  lemma NotGone(m: Model, order: seq<TimerId>, react: Reaction, id: TimerId)
    requires FiringOrder(m, order) && id in m.pending && m.pending[id].expiry != m.now + 1 && Spares(Tick(order, react), id)
    ensures id !in TickGone(order, react)
  {
  }

  lemma TrackTick(es: seq<Event>, order: seq<TimerId>, react: Reaction, ls: Levels, ls': Levels)
    requires Tracked(es, ls) && FiringOrder(After(Start, es), order) && Known(ls, After(Start, es).pending)
    requires After(Start, es + [Tick(order, react)]).now == After(Start, es).now + 1
    requires Paired(ls, ls', TickGone(order, react))
    ensures Tracked(es + [Tick(order, react)], ls')
  {
    hide Issued;
    hide NoTick;
    hide NotCancelled;
    hide After;
    hide Held;
    hide Together;
    hide Place;
    hide FiringOrder;
    hide Spares;
    hide TickGone;
    var e, now := Tick(order, react), After(Start, es).now;
    var es' := es + [e];
    forall k: nat, a: TimerId, y: nat | Recent(es', k, a, y)
      ensures false
    {
      IssuedInside(es', k, a, y);
      RecentPrefix(es, e, k, a, y);
    }
    forall k: nat, l: nat, a: TimerId, b: TimerId, y: nat |
      Pair(es', k, l, a, b, y) && Spared(es', k, l, a, b, |es'|) && now + 1 < y
      ensures Together(ls', a, b, y)
    {
      IssuedInside(es', l, b, y);
      PairPrefix(es, e, k, l, a, b, y);
      SparedPrefix(es, e, k, l, a, b);
      NotGone(After(Start, es), order, react, a);
      NotGone(After(Start, es), order, react, b);
    }
  }

  lemma FifoStep(es: seq<Event>, e: Event, ls: Levels)
    requires Fifo(es) && Tracked(es, ls)
    requires e.Tick? ==> AllInTurn(ls, After(Start, es).now + 1, e.order)
    ensures Fifo(es + [e])
  {
    hide Issued;
    hide NoTick;
    hide NotCancelled;
    hide Together;
    hide Precedes;
    hide Held;
    hide Place;
    var es' := es + [e];
    forall k: nat, l: nat, a: TimerId, b: TimerId, x: nat, j: nat |
      Pair(es', k, l, a, b, x) && Spared(es', k, l, a, b, j)
      ensures InOrderAt(es', l, a, b, x, j)
    {
      if l < j < |es'| && es'[j].Tick? && TimeOf(Start, es', j) == x {
        PairPrefix(es, e, k, l, a, b, x);
        NotCancelledPrefix(es, e, a, k + 1, j);
        NotCancelledPrefix(es, e, b, l + 1, j);
        assert es'[..j] == es[..j];
        assert Pair(es, k, l, a, b, x) && Spared(es, k, l, a, b, j);
        if j < |es| {
          assert es'[j] == es[j];
          assert InOrderAt(es, l, a, b, x, j);
        } else {
          assert es[..j] == es;
        }
      }
    }
  }
}
