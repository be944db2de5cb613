/** Where the hierarchical wheel keeps a timer, and what has to be true of every stored entry so
    that no cascade can drop it, delay it or sweep it early. */
module WheelLayout {
  import opened TimerSpec
  import Bits

  datatype Entry = Entry(id: TimerId, expiry: nat, interval: nat)
  type Slot = seq<Entry>

  /** Row 0 is `l0_` (256 slots), rows 1 to 3 are `l1_`, `l2_`, `l3_` (64 slots each). */
  type Levels = seq<seq<Slot>>

  /** A list node is identified by the id it holds, so a location needs no iterator. */
  datatype Loc = Loc(level: nat, slot: nat)

  const L0_SLOTS: nat := 256
  const L1_SLOTS: nat := 64
  const L2_SLOTS: nat := 64
  const L3_SLOTS: nat := 64
  /** Ticks the wheel spans: beyond it a level 3 entry is swept once per lap. */
  const SPAN: nat := 0x400_0000

  predicate Shape(ls: Levels) {
    && |ls| == 4
    && |ls[0]| == L0_SLOTS && |ls[1]| == L1_SLOTS && |ls[2]| == L2_SLOTS && |ls[3]| == L3_SLOTS
  }

  predicate Inside(ls: Levels, loc: Loc) {
    Shape(ls) && loc.level < 4 && loc.slot < |ls[loc.level]|
  }

  /** `tick >> 0, 8, 14, 20`: the tick in units of a level's granularity. */
  function Block(level: nat, tick: nat): nat {
    if level == 0 then tick
    else if level == 1 then tick / 256
    else if level == 2 then tick / 16384
    else tick / 1048576
  }

  predicate Boundary(level: nat, tick: nat) {
    if level == 0 then true
    else if level == 1 then tick % 256 == 0
    else if level == 2 then tick % 16384 == 0
    else tick % 1048576 == 0
  }

  function SlotOf(level: nat, tick: nat): nat {
    if level == 0 then tick % 256 else Block(level, tick) % 64
  }

  function LevelFor(remaining: nat): nat {
    if remaining < L0_SLOTS then 0
    else if remaining < L0_SLOTS * L1_SLOTS then 1
    else if remaining < L0_SLOTS * L1_SLOTS * L2_SLOTS then 2
    else 3
  }

  function Place(expiry: nat, now: nat): Loc
    requires now <= expiry
  {
    var level := LevelFor(expiry - now);
    Loc(level, SlotOf(level, expiry))
  }

  /** The masks and shifts of `insert`, `cascade` and `tick` compute these slots. */
  lemma SlotBits(tick: nat)
    ensures Bits.And(tick, L0_SLOTS - 1) == SlotOf(0, tick)
    ensures Bits.And(Bits.Shr(tick, 8), L1_SLOTS - 1) == SlotOf(1, tick)
    ensures Bits.And(Bits.Shr(tick, 14), L2_SLOTS - 1) == SlotOf(2, tick)
    ensures Bits.And(Bits.Shr(tick, 20), L3_SLOTS - 1) == SlotOf(3, tick)
  {
    assert Bits.Pow2(6) == 64 && Bits.Pow2(8) == 256;
    assert Bits.Pow2(14) == 16384 && Bits.Pow2(20) == 1048576;
    Bits.AndMask(tick, 8);
    Bits.AndMask(Bits.Shr(tick, 8), 6);
    Bits.AndMask(Bits.Shr(tick, 14), 6);
    Bits.AndMask(Bits.Shr(tick, 20), 6);
    Bits.ShrLow(tick, 8);
    Bits.ShrLow(tick, 14);
    Bits.ShrLow(tick, 20);
  }

  /** The boundary tests of `tick`. */
  lemma BoundaryBits(tick: nat)
    ensures Bits.And(tick, L0_SLOTS - 1) == 0 <==> Boundary(1, tick)
    ensures Bits.And(tick, L0_SLOTS * L1_SLOTS - 1) == 0 <==> Boundary(2, tick)
    ensures Bits.And(tick, L0_SLOTS * L1_SLOTS * L2_SLOTS - 1) == 0 <==> Boundary(3, tick)
  {
    assert Bits.Pow2(8) == 256 && Bits.Pow2(14) == 16384 && Bits.Pow2(20) == 1048576;
    Bits.AndMask(tick, 8);
    Bits.AndMask(tick, 14);
    Bits.AndMask(tick, 20);
  }

  lemma WrapBlock(x: nat, d: nat, n: nat, m: nat)
    requires d > 0 && n > 0 && m > 0
    ensures m * n * d > 0 && ((x % (m * n * d)) / d) % n == (x / d) % n
  {
    var M := m * n * d;
    var q, r := x / M, x % M;
    calc {
      x;
      M * q + r;
      d * (m * n * q) + (d * (r / d) + r % d);
      d * (m * n * q + r / d) + r % d;
    }
    Bits.DivModUnique(x, d, m * n * q + r / d, r % d);
    assert m * n * q + r / d == n * (m * q + (r / d) / n) + (r / d) % n;
    Bits.DivModUnique(x / d, n, m * q + (r / d) / n, (r / d) % n);
  }

  lemma WrapMod(x: nat)
    ensures (x % Bits.U64) % 256 == x % 256
    ensures (x % Bits.U64) % 16384 == x % 16384
    ensures (x % Bits.U64) % 1048576 == x % 1048576
  {
    Bits.ModOfMod(x, Bits.U64 / 256, 256);
    Bits.ModOfMod(x, Bits.U64 / 16384, 16384);
    Bits.ModOfMod(x, Bits.U64 / 1048576, 1048576);
  }

  /** Counting ticks and expiries modulo 2^64, as the source does, puts every entry in the same
      slot as counting without bound, and sweeps the same slots: so long as the remaining time
      fits 64 bits, wrap-around of `jiffies_` or of an expiry is invisible. */
  lemma WrapIsInvisible(expiry: nat, now: nat, level: nat)
    requires now <= expiry < now + Bits.U64 && level < 4
    ensures (expiry % Bits.U64 - now % Bits.U64) % Bits.U64 == expiry - now
    ensures SlotOf(level, expiry % Bits.U64) == SlotOf(level, expiry)
    ensures Boundary(level, expiry % Bits.U64) == Boundary(level, expiry)
  {
    hide SlotOf;
    hide Boundary;
    Bits.WrappedMinus(expiry, now);
    WrapSlot(expiry, level);
    WrapBoundary(expiry, level);
  }

  lemma WrapBoundary(x: nat, level: nat)
    requires level < 4
    ensures Boundary(level, x % Bits.U64) == Boundary(level, x)
  {
    WrapMod(x);
  }

  lemma WrapSlot(x: nat, level: nat)
    requires level < 4
    ensures SlotOf(level, x % Bits.U64) == SlotOf(level, x)
  {
    match level
    case 0 => WrapMod(x);
    case 1 => WrapBlock(x, 256, 64, Bits.U64 / 16384);
    case 2 => WrapBlock(x, 16384, 64, Bits.U64 / 1048576);
    case 3 => WrapBlock(x, 1048576, 64, Bits.U64 / 67108864);
  }

  // ---- the invariant --------------------------------------------------------------------------

  /** The window of an entry on `level`: it is not overdue, it is near enough that its slot comes
      round exactly once before it, and that sweep is still ahead. `swept` is the highest level
      whose boundary at `now` has been dealt with (3 between ticks). */
  predicate Fits(level: nat, expiry: nat, now: nat, swept: nat) {
    && now <= expiry
    && (level == 0 ==> expiry < now + 256)
    && (level == 1 ==> expiry < now + 16384)
    && (level == 2 ==> expiry < now + 1048576)
    && (level >= 1 && (level <= swept || !Boundary(level, now)) ==> Block(level, expiry) > Block(level, now))
  }

  predicate EntryOk(e: Entry, loc: Loc, index: map<TimerId, Loc>, pending: map<TimerId, Timer>,
                    now: nat, swept: nat, loose: set<TimerId>)
  {
    && e.id in index && index[e.id] == loc
    && e.id in pending && pending[e.id] == Timer(e.expiry, e.interval)
    && e.id !in loose
    && loc.slot == SlotOf(loc.level, e.expiry)
    && Fits(loc.level, e.expiry, now, swept)
  }

  predicate DistinctIds(slot: Slot) {
    forall i, j :: 0 <= i < j < |slot| ==> slot[i].id != slot[j].id
  }

  predicate SlotOk(slot: Slot, loc: Loc, index: map<TimerId, Loc>, pending: map<TimerId, Timer>,
                   now: nat, swept: nat, loose: set<TimerId>)
  {
    && DistinctIds(slot)
    && forall k :: 0 <= k < |slot| ==> EntryOk(slot[k], loc, index, pending, now, swept, loose)
  }

  predicate Holds(slot: Slot, id: TimerId) {
    exists k :: 0 <= k < |slot| && slot[k].id == id
  }

  /** The slots and the index describe the same timers as `pending`: every stored entry is indexed
      at its own place, and every pending id that is not in `loose` (swapped out of its slot and
      not yet dealt with) is stored exactly where the index says. */
  ghost predicate Stored(ls: Levels, index: map<TimerId, Loc>, pending: map<TimerId, Timer>,
                         now: nat, swept: nat, loose: set<TimerId>)
  {
    && Shape(ls)
    && index.Keys == pending.Keys
    && (forall loc :: Inside(ls, loc) ==>
          SlotOk(ls[loc.level][loc.slot], loc, index, pending, now, swept, loose))
    && (forall id :: id in pending && id !in loose ==>
          Inside(ls, index[id]) && Holds(ls[index[id].level][index[id].slot], id))
  }

  lemma StoredShape(ls: Levels, index: map<TimerId, Loc>, pending: map<TimerId, Timer>,
                    now: nat, swept: nat, loose: set<TimerId>)
    requires Stored(ls, index, pending, now, swept, loose)
    ensures Shape(ls) && index.Keys == pending.Keys
  {
  }

  lemma StoredSlot(ls: Levels, index: map<TimerId, Loc>, pending: map<TimerId, Timer>,
                   now: nat, swept: nat, loose: set<TimerId>, loc: Loc)
    requires Stored(ls, index, pending, now, swept, loose) && Inside(ls, loc)
    ensures SlotOk(ls[loc.level][loc.slot], loc, index, pending, now, swept, loose)
  {
    hide SlotOk;
    hide Holds;
  }

  function SlotAt(ls: Levels, loc: Loc): Slot {
    if Inside(ls, loc) then ls[loc.level][loc.slot] else []
  }

  /** What `cancel` relies on: the slot that the index names for a timer holds its list node if and
      only if the timer is not waiting in a list that was swapped out. */
  lemma EraseIsSound(ls: Levels, index: map<TimerId, Loc>, pending: map<TimerId, Timer>,
                     now: nat, swept: nat, loose: set<TimerId>, id: TimerId)
    requires Stored(ls, index, pending, now, swept, loose) && id in index
    ensures id !in loose <==> Holds(SlotAt(ls, index[id]), id)
  {
    var at := index[id];
    if Inside(ls, at) && Holds(ls[at.level][at.slot], id) {
      var slot := ls[at.level][at.slot];
      assert SlotOk(slot, at, index, pending, now, swept, loose);
      var k :| 0 <= k < |slot| && slot[k].id == id;
      assert EntryOk(slot[k], at, index, pending, now, swept, loose);
    }
  }

  function WithSlot(ls: Levels, loc: Loc, slot: Slot): Levels
    requires Inside(ls, loc)
  {
    ls[loc.level := ls[loc.level][loc.slot := slot]]
  }

  function Put(ls: Levels, loc: Loc, e: Entry): Levels
    requires Inside(ls, loc)
  {
    WithSlot(ls, loc, ls[loc.level][loc.slot] + [e])
  }

  function Without(slot: Slot, id: TimerId): Slot {
    if slot == [] then [] else
      (if slot[0].id == id then [] else [slot[0]]) + Without(slot[1..], id)
  }

  lemma SlotsAfter(ls: Levels, loc: Loc, slot: Slot, at: Loc)
    requires Inside(ls, loc) && Inside(ls, at)
    ensures Inside(WithSlot(ls, loc, slot), at)
    ensures WithSlot(ls, loc, slot)[at.level][at.slot] ==
            (if at == loc then slot else ls[at.level][at.slot])
  {
  }

  lemma PlaceFits(expiry: nat, now: nat, swept: nat)
    requires now <= expiry
    ensures Fits(Place(expiry, now).level, expiry, now, swept)
    ensures Place(expiry, now).level < 4
    ensures Place(expiry, now).slot < (if Place(expiry, now).level == 0 then 256 else 64)
  {
  }

  /** Which level and slot `insert` chooses, by the time that remains. */
  lemma PlaceIs(expiry: nat, now: nat)
    requires now <= expiry
    ensures expiry - now < 256 ==> Place(expiry, now) == Loc(0, expiry % 256)
    ensures 256 <= expiry - now < 16384 ==> Place(expiry, now) == Loc(1, expiry / 256 % 64)
    ensures 16384 <= expiry - now < 1048576 ==> Place(expiry, now) == Loc(2, expiry / 16384 % 64)
    ensures 1048576 <= expiry - now ==> Place(expiry, now) == Loc(3, expiry / 1048576 % 64)
  {
  }

  /** Inserting a timer that is not stored anywhere: either a new one or a loose one. */
  lemma PutStored(ls: Levels, index: map<TimerId, Loc>, pending: map<TimerId, Timer>,
                  now: nat, swept: nat, loose: set<TimerId>, e: Entry)
    requires Stored(ls, index, pending, now, swept, loose)
    requires now <= e.expiry
    requires e.id in pending ==> e.id in loose
    ensures var loc := Place(e.expiry, now);
            && Inside(ls, loc)
            && Stored(Put(ls, loc, e), index[e.id := loc], pending[e.id := Timer(e.expiry, e.interval)],
                      now, swept, loose - {e.id})
  {
    hide Place;
    hide Fits;
    hide SlotOf;
    hide Holds;
    PlaceInside(ls, e.expiry, now, swept);
    var loc := Place(e.expiry, now);
    var ls', index' := Put(ls, loc, e), index[e.id := loc];
    var pending' := pending[e.id := Timer(e.expiry, e.interval)];
    var loose' := loose - {e.id};
    forall at | Inside(ls', at)
      ensures SlotOk(ls'[at.level][at.slot], at, index', pending', now, swept, loose')
    {
      SlotsAfter(ls, loc, ls[loc.level][loc.slot] + [e], at);
      PutSlot(ls[at.level][at.slot], at, index, pending, now, swept, loose, e);
    }
    forall id | id in pending' && id !in loose'
      ensures Inside(ls', index'[id]) && Holds(ls'[index'[id].level][index'[id].slot], id)
    {
      SlotsAfter(ls, loc, ls[loc.level][loc.slot] + [e], index'[id]);
      HoldsAfter(ls[loc.level][loc.slot], e, id);
    }
  }

  lemma PlaceInside(ls: Levels, expiry: nat, now: nat, swept: nat)
    requires Shape(ls) && now <= expiry
    ensures Inside(ls, Place(expiry, now))
    ensures var loc := Place(expiry, now); Fits(loc.level, expiry, now, swept) && loc.slot == SlotOf(loc.level, expiry)
  {
    hide Fits;
    PlaceFits(expiry, now, swept);
  }

  /** What an insertion does to one slot, the one of the new entry or another. */
  lemma PutSlot(slot: Slot, at: Loc, index: map<TimerId, Loc>, pending: map<TimerId, Timer>,
                now: nat, swept: nat, loose: set<TimerId>, e: Entry)
    requires SlotOk(slot, at, index, pending, now, swept, loose) && now <= e.expiry
    requires e.id in pending ==> e.id in loose
    requires var loc := Place(e.expiry, now); Fits(loc.level, e.expiry, now, swept) && loc.slot == SlotOf(loc.level, e.expiry)
    ensures var loc := Place(e.expiry, now);
            SlotOk(if at == loc then slot + [e] else slot, at, index[e.id := loc],
                   pending[e.id := Timer(e.expiry, e.interval)], now, swept, loose - {e.id})
  {
    hide Place;
    hide Fits;
    hide SlotOf;
  }

  /** Inserting under an id that is not in use. */
  lemma AddStored(ls: Levels, index: map<TimerId, Loc>, pending: map<TimerId, Timer>,
                  now: nat, swept: nat, loose: set<TimerId>, e: Entry)
    requires Stored(ls, index, pending, now, swept, loose) && loose <= pending.Keys
    requires now <= e.expiry && e.id !in pending
    ensures var loc := Place(e.expiry, now);
            && Inside(ls, loc)
            && Stored(Put(ls, loc, e), index[e.id := loc], pending[e.id := Timer(e.expiry, e.interval)],
                      now, swept, loose)
  {
    PutStored(ls, index, pending, now, swept, loose, e);
    assert loose - {e.id} == loose;
  }

  lemma HoldsAfter(slot: Slot, e: Entry, id: TimerId)
    ensures Holds(slot, id) || id == e.id ==> Holds(slot + [e], id)
  {
    var grown := slot + [e];
    assert grown[|slot|] == e;
    if Holds(slot, id) {
      var k :| 0 <= k < |slot| && slot[k].id == id;
      assert grown[k].id == id;
    }
  }

  function Ids(slot: Slot): set<TimerId> {
    set k | 0 <= k < |slot| :: slot[k].id
  }

  /** Swapping a slot out makes its entries loose. */
  lemma TakeStored(ls: Levels, index: map<TimerId, Loc>, pending: map<TimerId, Timer>,
                   now: nat, swept: nat, loose: set<TimerId>, loc: Loc)
    requires Stored(ls, index, pending, now, swept, loose) && Inside(ls, loc)
    ensures Stored(WithSlot(ls, loc, []), index, pending, now, swept, loose + Ids(ls[loc.level][loc.slot]))
  {
    var slot := ls[loc.level][loc.slot];
    var ls', loose' := WithSlot(ls, loc, []), loose + Ids(slot);
    forall at | Inside(ls', at)
      ensures SlotOk(ls'[at.level][at.slot], at, index, pending, now, swept, loose')
    {
      SlotsAfter(ls, loc, [], at);
      assert SlotOk(ls[at.level][at.slot], at, index, pending, now, swept, loose);
      assert SlotOk(slot, loc, index, pending, now, swept, loose);
    }
    forall id | id in pending && id !in loose'
      ensures Inside(ls', index[id]) && Holds(ls'[index[id].level][index[id].slot], id)
    {
      SlotsAfter(ls, loc, [], index[id]);
    }
  }

  lemma {:induction false} WithoutProperties(slot: Slot, id: TimerId)
    requires DistinctIds(slot)
    ensures DistinctIds(Without(slot, id))
    ensures forall k :: 0 <= k < |Without(slot, id)| ==> Without(slot, id)[k] in slot && Without(slot, id)[k].id != id
    ensures forall j :: j != id && Holds(slot, j) ==> Holds(Without(slot, id), j)
    ensures |Without(slot, id)| == |slot| - (if Holds(slot, id) then 1 else 0)
  {
    hide Without;
    hide Holds;
    if slot == [] {
      WithoutNothing(id);
      NothingHeld(id);
    } else {
      var rest := slot[1..];
      WithoutProperties(rest, id);
      WithoutFirst(slot, id);
      HeldApart(slot);
      HoldsFirst(slot, id);
      forall j | j != id && Holds(slot, j)
        ensures Holds(Without(slot, id), j)
      {
        HoldsFirst(slot, j);
        if slot[0].id != id {
          assert ([slot[0]] + Without(rest, id))[1..] == Without(rest, id);
          HoldsFirst(Without(slot, id), j);
        }
      }
    }
  }

  lemma WithoutNothing(id: TimerId)
    ensures Without([], id) == []
  {
  }

  lemma NothingHeld(id: TimerId)
    ensures !Holds([], id)
  {
  }

  lemma WithoutFirst(slot: Slot, id: TimerId)
    requires slot != []
    ensures Without(slot, id) == if slot[0].id == id then Without(slot[1..], id) else [slot[0]] + Without(slot[1..], id)
  {
  }

  lemma HeldApart(slot: Slot)
    requires slot != [] && DistinctIds(slot)
    ensures !Holds(slot[1..], slot[0].id)
  {
  }

  lemma HoldsFirst(slot: Slot, id: TimerId)
    requires slot != []
    ensures Holds(slot, id) <==> slot[0].id == id || Holds(slot[1..], id)
  {
    var rest := slot[1..];
    assert forall k :: 0 <= k < |rest| ==> rest[k] == slot[k + 1];
    if Holds(rest, id) {
      var k :| 0 <= k < |rest| && rest[k].id == id;
      assert slot[k + 1].id == id;
    }
    if Holds(slot, id) && slot[0].id != id {
      var k :| 0 <= k < |slot| && slot[k].id == id;
      assert rest[k - 1].id == id;
    }
  }

  lemma RemoveStored(ls: Levels, index: map<TimerId, Loc>, pending: map<TimerId, Timer>,
                     now: nat, swept: nat, loose: set<TimerId>, id: TimerId)
    requires Stored(ls, index, pending, now, swept, loose) && id in pending && id !in loose
    ensures var loc := index[id];
            && Inside(ls, loc)
            && Stored(WithSlot(ls, loc, Without(ls[loc.level][loc.slot], id)), index - {id}, pending - {id},
                      now, swept, loose)
            && Potential(WithSlot(ls, loc, Without(ls[loc.level][loc.slot], id))) <= Potential(ls)
  {
    var loc := index[id];
    var slot := ls[loc.level][loc.slot];
    assert SlotOk(slot, loc, index, pending, now, swept, loose);
    WithoutProperties(slot, id);
    RemovePotential(ls, loc, id);
    var slot' := Without(slot, id);
    var ls', index', pending' := WithSlot(ls, loc, slot'), index - {id}, pending - {id};
    forall at | Inside(ls', at)
      ensures SlotOk(ls'[at.level][at.slot], at, index', pending', now, swept, loose)
    {
      SlotsAfter(ls, loc, slot', at);
      assert SlotOk(ls[at.level][at.slot], at, index, pending, now, swept, loose);
      SlotOkWithout(ls'[at.level][at.slot], ls[at.level][at.slot], at, index, pending, now, swept, loose, id);
    }
    forall j | j in pending' && j !in loose
      ensures Inside(ls', index'[j]) && Holds(ls'[index'[j].level][index'[j].slot], j)
    {
      SlotsAfter(ls, loc, slot', index[j]);
    }
  }

  lemma SlotOkWithout(part: Slot, slot: Slot, at: Loc, index: map<TimerId, Loc>, pending: map<TimerId, Timer>,
                      now: nat, swept: nat, loose: set<TimerId>, id: TimerId)
    requires SlotOk(slot, at, index, pending, now, swept, loose) && DistinctIds(part)
    requires forall k :: 0 <= k < |part| ==> part[k] in slot && part[k].id != id
    ensures SlotOk(part, at, index - {id}, pending - {id}, now, swept, loose)
  {
    forall k | 0 <= k < |part|
      ensures EntryOk(part[k], at, index - {id}, pending - {id}, now, swept, loose)
    {
      var j :| 0 <= j < |slot| && slot[j] == part[k];
      assert EntryOk(slot[j], at, index, pending, now, swept, loose);
    }
  }

  /** Forgetting a loose timer (its entry is being fired). */
  lemma DropLoose(ls: Levels, index: map<TimerId, Loc>, pending: map<TimerId, Timer>,
                  now: nat, swept: nat, loose: set<TimerId>, id: TimerId)
    requires Stored(ls, index, pending, now, swept, loose) && id in loose
    ensures Stored(ls, index - {id}, pending - {id}, now, swept, loose - {id})
  {
    forall at | Inside(ls, at)
      ensures SlotOk(ls[at.level][at.slot], at, index - {id}, pending - {id}, now, swept, loose - {id})
    {
      assert SlotOk(ls[at.level][at.slot], at, index, pending, now, swept, loose);
    }
  }

  lemma FitsNext(level: nat, expiry: nat, now: nat)
    requires level < 4 && Fits(level, expiry, now, 3) && now < expiry
    ensures Fits(level, expiry, now + 1, 0)
  {
  }

  /** Moving time on by one tick: windows may now end at `now`, and no boundary is dealt with. */
  lemma AdvanceStored(ls: Levels, index: map<TimerId, Loc>, pending: map<TimerId, Timer>, now: nat)
    requires Stored(ls, index, pending, now, 3, {})
    requires forall id :: id in pending ==> pending[id].expiry > now
    ensures Stored(ls, index, pending, now + 1, 0, {})
  {
    forall at | Inside(ls, at)
      ensures SlotOk(ls[at.level][at.slot], at, index, pending, now + 1, 0, {})
    {
      var slot := ls[at.level][at.slot];
      assert SlotOk(slot, at, index, pending, now, 3, {});
      forall k | 0 <= k < |slot|
        ensures EntryOk(slot[k], at, index, pending, now + 1, 0, {})
      {
        FitsNext(at.level, slot[k].expiry, now);
      }
    }
  }

  /** An entry outside the slot that a level sweeps at its boundary belongs to a later sweep. */
  lemma FitsElsewhere(level: nat, expiry: nat, now: nat)
    requires 1 <= level < 4 && Fits(level, expiry, now, level - 1)
    requires Boundary(level, now) ==> SlotOf(level, expiry) != SlotOf(level, now)
    ensures Fits(level, expiry, now, level)
  {
  }

  ghost predicate Empty(ls: Levels, loc: Loc) {
    Inside(ls, loc) && ls[loc.level][loc.slot] == []
  }

  /** Once the slot for the current block is empty, or there is no boundary, the level is done. */
  lemma SweptStored(ls: Levels, index: map<TimerId, Loc>, pending: map<TimerId, Timer>,
                    now: nat, level: nat, loose: set<TimerId>)
    requires 1 <= level < 4 && Stored(ls, index, pending, now, level - 1, loose)
    requires Boundary(level, now) ==> Empty(ls, Loc(level, SlotOf(level, now)))
    ensures Stored(ls, index, pending, now, level, loose)
  {
    forall at | Inside(ls, at)
      ensures SlotOk(ls[at.level][at.slot], at, index, pending, now, level, loose)
    {
      var slot := ls[at.level][at.slot];
      assert SlotOk(slot, at, index, pending, now, level - 1, loose);
      forall k | 0 <= k < |slot|
        ensures EntryOk(slot[k], at, index, pending, now, level, loose)
      {
        assert EntryOk(slot[k], at, index, pending, now, level - 1, loose);
        if at.level == level { FitsElsewhere(level, slot[k].expiry, now); }
      }
    }
  }

  lemma FitsNoBoundary(level: nat, expiry: nat, now: nat, swept: nat)
    requires level < 4 && swept < 3 && Fits(level, expiry, now, swept) && !Boundary(swept + 1, now)
    ensures Fits(level, expiry, now, 3)
  {
    Bits.ModOfMod(now, 64, 256);
    Bits.ModOfMod(now, 64, 16384);
  }

  /** Boundaries nest: without one at `level` there is none above it. */
  lemma NoBoundaryStored(ls: Levels, index: map<TimerId, Loc>, pending: map<TimerId, Timer>,
                         now: nat, swept: nat, loose: set<TimerId>)
    requires swept < 3 && Stored(ls, index, pending, now, swept, loose) && !Boundary(swept + 1, now)
    ensures Stored(ls, index, pending, now, 3, loose)
  {
    forall at | Inside(ls, at)
      ensures SlotOk(ls[at.level][at.slot], at, index, pending, now, 3, loose)
    {
      var slot := ls[at.level][at.slot];
      assert SlotOk(slot, at, index, pending, now, swept, loose);
      forall k | 0 <= k < |slot|
        ensures EntryOk(slot[k], at, index, pending, now, 3, loose)
      {
        assert EntryOk(slot[k], at, index, pending, now, swept, loose);
        FitsNoBoundary(at.level, slot[k].expiry, now, swept);
      }
    }
  }

  /** With every level dealt with, the level 0 slot of `now` holds exactly what is due now. */
  lemma DueSlot(ls: Levels, index: map<TimerId, Loc>, pending: map<TimerId, Timer>, now: nat, id: TimerId)
    requires Stored(ls, index, pending, now, 3, {}) && id in pending
    ensures pending[id].expiry == now <==> Holds(ls[0][SlotOf(0, now)], id)
  {
    hide SlotOk;
    hide Holds;
    SlotInRange(0, now);
    var here := Loc(0, SlotOf(0, now));
    hide SlotOf;
    assert Inside(ls, here);
    StoredSlot(ls, index, pending, now, 3, {}, here);
    if pending[id].expiry == now { DueIsOnLevelZero(ls, index, pending, now, id); }
    if Holds(ls[0][here.slot], id) { HeldIsDue(ls[0][here.slot], index, pending, now, id); }
  }

  lemma HeldIsDue(slot: Slot, index: map<TimerId, Loc>, pending: map<TimerId, Timer>, now: nat, id: TimerId)
    requires SlotOk(slot, Loc(0, SlotOf(0, now)), index, pending, now, 3, {}) && Holds(slot, id)
    ensures id in pending && pending[id].expiry == now
  {
    hide Boundary;
    var k :| 0 <= k < |slot| && slot[k].id == id;
    assert EntryOk(slot[k], Loc(0, SlotOf(0, now)), index, pending, now, 3, {});
  }

  lemma DueIsOnLevelZero(ls: Levels, index: map<TimerId, Loc>, pending: map<TimerId, Timer>, now: nat, id: TimerId)
    requires Stored(ls, index, pending, now, 3, {}) && id in pending && pending[id].expiry == now
    ensures index[id] == Loc(0, SlotOf(0, now))
  {
    hide SlotOf;
    var at := index[id];
    var slot := ls[at.level][at.slot];
    assert SlotOk(slot, at, index, pending, now, 3, {});
    var k :| 0 <= k < |slot| && slot[k].id == id;
    assert EntryOk(slot[k], at, index, pending, now, 3, {});
  }

  /** Once everything pending lies in the future, the slot of the current tick is empty. */
  lemma NowSlotEmpty(ls: Levels, index: map<TimerId, Loc>, pending: map<TimerId, Timer>, now: nat)
    requires Stored(ls, index, pending, now, 3, {})
    requires forall id :: id in pending ==> pending[id].expiry > now
    ensures Empty(ls, Loc(0, SlotOf(0, now)))
  {
    var slot := ls[0][SlotOf(0, now)];
    if slot != [] {
      assert Inside(ls, Loc(0, SlotOf(0, now)));
      assert EntryOk(slot[0], Loc(0, SlotOf(0, now)), index, pending, now, 3, {});
      assert Holds(slot, slot[0].id);
      DueSlot(ls, index, pending, now, slot[0].id);
    }
  }

  // ---- a sweep ------------------------------------------------------------------------------

  /** The entries of the swept slot that are still to be re-inserted. */
  predicate Sweeping(local: Slot, i: nat, level: nat, pending: map<TimerId, Timer>, now: nat)
    requires level >= 1
  {
    && DistinctIds(local)
    && forall k :: i <= k < |local| ==>
         && local[k].id in pending && pending[local[k].id] == Timer(local[k].expiry, local[k].interval)
         && SlotOf(level, local[k].expiry) == SlotOf(level, now)
         && Fits(level, local[k].expiry, now, level - 1)
  }

  lemma SweepStarts(ls: Levels, index: map<TimerId, Loc>, pending: map<TimerId, Timer>, now: nat, level: nat)
    requires 1 <= level < 4 && Stored(ls, index, pending, now, level - 1, {})
    ensures var s := SlotOf(level, now);
            && Inside(ls, Loc(level, s))
            && Stored(WithSlot(ls, Loc(level, s), []), index, pending, now, level, Ids(ls[level][s]))
            && Sweeping(ls[level][s], 0, level, pending, now)
            && Potential(WithSlot(ls, Loc(level, s), [])) + Owed(level, |ls[level][s]|) == Potential(ls)
  {
    hide Stored;
    hide SlotOk;
    hide Potential;
    hide Sweeping;
    hide Boundary;
    SlotInRange(level, now);
    StoredShape(ls, index, pending, now, level - 1, {});
    var loc := Loc(level, SlotOf(level, now));
    hide SlotOf;
    SweepPotential(ls, loc);
    var local := ls[level][loc.slot];
    StoredSlot(ls, index, pending, now, level - 1, {}, loc);
    SweepingStarts(local, index, pending, now, level);
    TakeStored(ls, index, pending, now, level - 1, {}, loc);
    SlotsAfter(ls, loc, [], loc);
    assert {} + Ids(local) == Ids(local);
    SweptStored(WithSlot(ls, loc, []), index, pending, now, level, Ids(local));
  }

  lemma SlotInRange(level: nat, tick: nat)
    ensures SlotOf(level, tick) < if level == 0 then L0_SLOTS else L1_SLOTS
  {
  }

  lemma SweepingStarts(local: Slot, index: map<TimerId, Loc>, pending: map<TimerId, Timer>, now: nat, level: nat)
    requires level >= 1 && SlotOk(local, Loc(level, SlotOf(level, now)), index, pending, now, level - 1, {})
    ensures Sweeping(local, 0, level, pending, now)
  {
    hide SlotOf;
    hide Fits;
  }

  /** What `left` entries on `level` contribute to the potential. */
  function Owed(level: nat, left: nat): nat {
    if left == 0 then 0 else level + Owed(level, left - 1)
  }

  lemma {:induction false} OwedProduct(level: nat, left: nat)
    ensures Owed(level, left) == level * left
  {
    if left > 0 { OwedProduct(level, left - 1); }
  }

  lemma SweepPotential(ls: Levels, loc: Loc)
    requires Inside(ls, loc)
    ensures Shape(WithSlot(ls, loc, []))
    ensures Potential(WithSlot(ls, loc, [])) + Owed(loc.level, |ls[loc.level][loc.slot]|) == Potential(ls)
  {
    PotentialUpdate(ls, loc, []);
    OwedProduct(loc.level, |ls[loc.level][loc.slot]|);
    assert loc.level * (0 - |ls[loc.level][loc.slot]|) == -(loc.level * |ls[loc.level][loc.slot]|);
  }

  lemma IdsTail(local: Slot, i: nat)
    requires i < |local| && DistinctIds(local)
    ensures local[i].id in Ids(local[i..])
    ensures Ids(local[i + 1..]) == Ids(local[i..]) - {local[i].id}
  {
    var rest, tail := local[i..], local[i + 1..];
    assert rest[0] == local[i];
    assert forall k :: 0 <= k < |tail| ==> tail[k] == rest[k + 1] && tail[k] == local[i + 1 + k];
    forall id | id in Ids(rest) - {local[i].id}
      ensures id in Ids(tail)
    {
      var k :| 0 <= k < |rest| && rest[k].id == id;
      assert tail[k - 1].id == id;
    }
  }

  /** Re-inserting one swept entry. */
  lemma SweepStep(ls: Levels, index: map<TimerId, Loc>, pending: map<TimerId, Timer>, now: nat, level: nat,
                  local: Slot, i: nat)
    requires 1 <= level < 4 && Boundary(level, now) && i < |local| && Sweeping(local, i, level, pending, now)
    requires Stored(ls, index, pending, now, level, Ids(local[i..]))
    ensures now <= local[i].expiry
    ensures var e := local[i];
            var loc := Place(e.expiry, now);
            && Inside(ls, loc)
            && Stored(Put(ls, loc, e), (index - {e.id})[e.id := loc], pending, now, level, Ids(local[i + 1..]))
            && (level < 3 || e.expiry < now + SPAN ==> loc.level < level)
            && Sweeping(local, i + 1, level, pending, now)
            && e.id in pending && pending[e.id].expiry == e.expiry
  {
    var e := local[i];
    var loc := Place(e.expiry, now);
    IdsTail(local, i);
    PutStored(ls, index, pending, now, level, Ids(local[i..]), e);
    assert pending[e.id := Timer(e.expiry, e.interval)] == pending;
    assert (index - {e.id})[e.id := loc] == index[e.id := loc];
    if level < 3 || e.expiry < now + SPAN {
      CascadeLowers(level, e.expiry, now);
    }
  }

  // ---- the slots after the cascades of a tick -------------------------------------------------

  function PutAll(ls: Levels, entries: Slot, now: nat): Levels {
    if entries == [] then ls
    else
      var part, e := PutAll(ls, entries[..|entries| - 1], now), entries[|entries| - 1];
      if now <= e.expiry && Inside(part, Place(e.expiry, now)) then Put(part, Place(e.expiry, now), e) else part
  }

  lemma PutNone(ls: Levels, now: nat)
    ensures PutAll(ls, [], now) == ls
  {
  }

  lemma PutAllNext(ls: Levels, entries: Slot, i: nat, now: nat)
    requires i < |entries|
    ensures PutAll(PutAll(ls, entries[..i], now), [entries[i]], now) == PutAll(ls, entries[..i + 1], now)
  {
    assert entries[..i + 1][..i] == entries[..i];
    assert [entries[i]][..0] == [];
  }

  function Sweep(ls: Levels, level: nat, now: nat): Levels {
    var loc := Loc(level, SlotOf(level, now));
    if Inside(ls, loc) then PutAll(WithSlot(ls, loc, []), ls[level][loc.slot], now) else ls
  }

  function Cascaded(ls: Levels, now: nat): Levels {
    if !Boundary(1, now) then ls
    else
      var a := Sweep(ls, 1, now);
      if !Boundary(2, now) then a
      else
        var b := Sweep(a, 2, now);
        if !Boundary(3, now) then b else Sweep(b, 3, now)
  }

  function SlotNow(ls: Levels, now: nat): Slot {
    if Shape(ls) then ls[0][SlotOf(0, now)] else []
  }

  /** The order in which the tick to `now` fires: that of the level 0 slot after the cascades. */
  function OrderAt(ls: Levels, now: nat): seq<TimerId> {
    OrderOf(SlotNow(Cascaded(ls, now), now))
  }

  lemma {:induction false} PutAllStored(ls: Levels, index: map<TimerId, Loc>, pending: map<TimerId, Timer>, now: nat,
                                        level: nat, local: Slot, i: nat) returns (index': map<TimerId, Loc>)
    requires 1 <= level < 4 && Boundary(level, now) && i <= |local| && Sweeping(local, 0, level, pending, now)
    requires Stored(ls, index, pending, now, level, Ids(local))
    ensures Stored(PutAll(ls, local[..i], now), index', pending, now, level, Ids(local[i..]))
    ensures Sweeping(local, i, level, pending, now)
  {
    hide Stored;
    hide Place;
    hide Boundary;
    if i == 0 {
      index' := index;
      assert local[..0] == [] && local[0..] == local;
    } else {
      var before := PutAllStored(ls, index, pending, now, level, local, i - 1);
      SweepStep(PutAll(ls, local[..i - 1], now), before, pending, now, level, local, i - 1);
      assert local[..i][..i - 1] == local[..i - 1];
      var e := local[i - 1];
      index' := (before - {e.id})[e.id := Place(e.expiry, now)];
    }
  }

  lemma SweepStored(ls: Levels, index: map<TimerId, Loc>, pending: map<TimerId, Timer>, now: nat, level: nat)
    returns (index': map<TimerId, Loc>)
    requires 1 <= level < 4 && Boundary(level, now) && Stored(ls, index, pending, now, level - 1, {})
    ensures Stored(Sweep(ls, level, now), index', pending, now, level, {})
  {
    hide Stored;
    hide Sweeping;
    hide Boundary;
    hide Potential;
    SweepStarts(ls, index, pending, now, level);
    var loc := Loc(level, SlotOf(level, now));
    var local := ls[level][loc.slot];
    index' := PutAllStored(WithSlot(ls, loc, []), index, pending, now, level, local, |local|);
    assert local[..|local|] == local && Ids(local[|local|..]) == {};
  }

  lemma CascadedStored(ls: Levels, index: map<TimerId, Loc>, pending: map<TimerId, Timer>, now: nat)
    returns (index': map<TimerId, Loc>)
    requires Stored(ls, index, pending, now, 0, {})
    ensures Stored(Cascaded(ls, now), index', pending, now, 3, {})
  {
    hide Stored;
    hide Sweep;
    hide Boundary;
    index' := index;
    if !Boundary(1, now) {
      NoBoundaryStored(ls, index', pending, now, 0, {});
      return;
    }
    index' := SweepStored(ls, index', pending, now, 1);
    if !Boundary(2, now) {
      NoBoundaryStored(Sweep(ls, 1, now), index', pending, now, 1, {});
      return;
    }
    index' := SweepStored(Sweep(ls, 1, now), index', pending, now, 2);
    if !Boundary(3, now) {
      NoBoundaryStored(Sweep(Sweep(ls, 1, now), 2, now), index', pending, now, 2, {});
      return;
    }
    index' := SweepStored(Sweep(Sweep(ls, 1, now), 2, now), index', pending, now, 3);
  }

  /** Between ticks, the order in which the next tick will fire holds exactly the due timers. */
  lemma NextOrder(ls: Levels, index: map<TimerId, Loc>, m: Model)
    requires Stored(ls, index, m.pending, m.now, 3, {})
    requires forall id :: id in m.pending ==> m.pending[id].expiry > m.now
    ensures FiringOrder(m, OrderAt(ls, m.now + 1))
  {
    hide Stored;
    hide FiringOrder;
    hide Cascaded;
    hide Potential;
    AdvanceStored(ls, index, m.pending, m.now);
    var index' := CascadedStored(ls, index, m.pending, m.now + 1);
    FireStarts(Cascaded(ls, m.now + 1), index', m.pending, m.now + 1, m);
  }

  // ---- a firing -------------------------------------------------------------------------------

  function OrderOf(local: Slot): (order: seq<TimerId>)
    ensures |order| == |local| && forall k :: 0 <= k < |local| ==> order[k] == local[k].id
  {
    seq(|local|, k requires 0 <= k < |local| => local[k].id)
  }

  predicate Matches(local: Slot, pending: map<TimerId, Timer>) {
    forall k :: 0 <= k < |local| ==>
      local[k].id in pending && pending[local[k].id] == Timer(local[k].expiry, local[k].interval)
  }

  /** The slot about to be fired holds exactly the timers that were due, and with it emptied
      everything else lies in the future. */
  lemma FireStarts(ls: Levels, index: map<TimerId, Loc>, pending: map<TimerId, Timer>, now: nat, before: Model)
    requires Stored(ls, index, pending, now, 3, {})
    requires before.pending == pending && now == before.now + 1
    ensures var s := SlotOf(0, now);
            && Inside(ls, Loc(0, s))
            && Stored(WithSlot(ls, Loc(0, s), []), index, pending, now, 3, Ids(ls[0][s]))
            && Potential(WithSlot(ls, Loc(0, s), [])) == Potential(ls)
            && FiringOrder(before, OrderOf(ls[0][s]))
            && Ids(ls[0][s]) == Due(before) && DistinctIds(ls[0][s])
            && (forall id :: id in pending && id !in Ids(ls[0][s]) ==> pending[id].expiry > now)
            && Matches(ls[0][s], pending)
  {
    hide Stored;
    hide SlotOk;
    hide Potential;
    hide FiringOrder;
    hide Holds;
    SlotInRange(0, now);
    StoredShape(ls, index, pending, now, 3, {});
    var loc := Loc(0, SlotOf(0, now));
    hide SlotOf;
    var local := ls[0][loc.slot];
    StoredSlot(ls, index, pending, now, 3, {}, loc);
    TakeStored(ls, index, pending, now, 3, {}, loc);
    SweepPotential(ls, loc);
    OwedProduct(0, |local|);
    assert {} + Ids(local) == Ids(local);
    forall id | id in pending
      ensures (id in Ids(local) <==> pending[id].expiry == now) && pending[id].expiry >= now
    {
      DueSlot(ls, index, pending, now, id);
      HoldsIds(local, id);
      NotOverdue(ls, index, pending, now, id);
    }
    SlotMatches(local, loc, index, pending, now);
    DueOrder(local, before);
  }

  lemma NotOverdue(ls: Levels, index: map<TimerId, Loc>, pending: map<TimerId, Timer>, now: nat, id: TimerId)
    requires Stored(ls, index, pending, now, 3, {}) && id in pending
    ensures pending[id].expiry >= now
  {
    hide SlotOf;
    var at := index[id];
    var slot := ls[at.level][at.slot];
    assert SlotOk(slot, at, index, pending, now, 3, {});
    var k :| 0 <= k < |slot| && slot[k].id == id;
    assert EntryOk(slot[k], at, index, pending, now, 3, {});
  }

  lemma HoldsIds(slot: Slot, id: TimerId)
    ensures Holds(slot, id) <==> id in Ids(slot)
  {
  }

  lemma SlotMatches(local: Slot, loc: Loc, index: map<TimerId, Loc>, pending: map<TimerId, Timer>, now: nat)
    requires SlotOk(local, loc, index, pending, now, 3, {})
    ensures DistinctIds(local) && Matches(local, pending)
  {
    hide Fits;
    hide SlotOf;
  }

  lemma DueOrder(local: Slot, before: Model)
    requires DistinctIds(local) && Matches(local, before.pending)
    requires forall id :: id in before.pending ==> (id in Ids(local) <==> before.pending[id].expiry == before.now + 1)
    ensures FiringOrder(before, OrderOf(local)) && Ids(local) == Due(before)
  {
    forall id | id in Due(before)
      ensures id in OrderOf(local)
    {
      var k :| 0 <= k < |local| && local[k].id == id;
      assert OrderOf(local)[k] == id;
    }
    forall k | 0 <= k < |local|
      ensures OrderOf(local)[k] in Due(before)
    {
      assert local[k].id in Ids(local);
    }
  }

  /** When the turn of an entry comes it is still pending and unchanged, and its callback cancels
      none of those waiting behind it. */
  lemma FireTurn(before: Model, local: Slot, react: Reaction, i: nat)
    requires i < |local| && Matches(local, before.pending) && DistinctIds(local)
    requires WellFormed(before) && FiringOrder(before, OrderOf(local)) && SafeOrder(OrderOf(local), react)
    ensures var m := FireAll(before.(now := before.now + 1), OrderOf(local)[..i], react);
            local[i].id in m.pending && m.pending[local[i].id] == Timer(local[i].expiry, local[i].interval)
    ensures forall c :: c in Ids(local[i..]) && c != local[i].id ==> Cancel(c) !in react(local[i].id)
  {
    hide FireAll;
    var order := OrderOf(local);
    FireAllFires(before, order, react, i);
    forall c | c in Ids(local[i..]) && c != local[i].id
      ensures Cancel(c) !in react(local[i].id)
    {
      var k :| 0 <= k < |local[i..]| && local[i..][k].id == c;
      assert order[i + k] == c && order[i] == local[i].id;
    }
  }

  // ---- cascade accounting ---------------------------------------------------------------------

  function Count(row: seq<Slot>): nat {
    if row == [] then 0 else Count(row[..|row| - 1]) + |row[|row| - 1]|
  }

  /** The sum, over all stored entries, of the level each is on: how many cascades they can still
      cost. */
  function Potential(ls: Levels): nat
    requires Shape(ls)
  {
    Count(ls[1]) + 2 * Count(ls[2]) + 3 * Count(ls[3])
  }

  lemma {:induction false} CountUpdate(row: seq<Slot>, s: nat, slot: Slot)
    requires s < |row|
    ensures Count(row[s := slot]) == Count(row) - |row[s]| + |slot|
  {
    var n := |row| - 1;
    if s == n {
      assert row[s := slot][..n] == row[..n];
    } else {
      CountUpdate(row[..n], s, slot);
      assert row[s := slot][..n] == row[..n][s := slot];
    }
  }

  lemma PotentialUpdate(ls: Levels, loc: Loc, slot: Slot)
    requires Inside(ls, loc)
    ensures Shape(WithSlot(ls, loc, slot))
    ensures Potential(WithSlot(ls, loc, slot)) ==
            Potential(ls) + loc.level * (|slot| - |ls[loc.level][loc.slot]|)
  {
    CountUpdate(ls[loc.level], loc.slot, slot);
  }

  lemma PutPotential(ls: Levels, e: Entry, now: nat)
    requires Shape(ls) && now <= e.expiry
    ensures Inside(ls, Place(e.expiry, now)) && Shape(Put(ls, Place(e.expiry, now), e))
    ensures Potential(Put(ls, Place(e.expiry, now), e)) == Potential(ls) + Place(e.expiry, now).level
    ensures Place(e.expiry, now).level <= 3
  {
    var loc := Place(e.expiry, now);
    PlaceFits(e.expiry, now, 0);
    PotentialUpdate(ls, loc, ls[loc.level][loc.slot] + [e]);
    assert |ls[loc.level][loc.slot] + [e]| - |ls[loc.level][loc.slot]| == 1;
  }

  lemma RemovePotential(ls: Levels, loc: Loc, id: TimerId)
    requires Inside(ls, loc) && DistinctIds(ls[loc.level][loc.slot])
    ensures Shape(WithSlot(ls, loc, Without(ls[loc.level][loc.slot], id)))
    ensures Potential(WithSlot(ls, loc, Without(ls[loc.level][loc.slot], id))) <= Potential(ls)
  {
    var slot := ls[loc.level][loc.slot];
    WithoutProperties(slot, id);
    PotentialUpdate(ls, loc, Without(slot, id));
  }

  /** A cascaded entry lands strictly lower; on level 3 that needs an expiry within the span. */
  lemma CascadeLowers(level: nat, expiry: nat, now: nat)
    requires 1 <= level < 4 && Boundary(level, now) && Fits(level, expiry, now, level - 1)
    requires SlotOf(level, expiry) == SlotOf(level, now)
    requires level == 3 ==> expiry < now + SPAN
    ensures Place(expiry, now).level < level
  {
  }

  /** Beyond the span, a level 3 entry swept early goes back to the same slot, to wait for its own
      lap: exact firing does not need the caller to respect the span. */
  lemma OverRangeStays(expiry: nat, now: nat)
    requires Boundary(3, now) && Fits(3, expiry, now, 2) && SlotOf(3, expiry) == SlotOf(3, now)
    ensures if Block(3, expiry) == Block(3, now) then Place(expiry, now).level < 3
            else Place(expiry, now) == Loc(3, SlotOf(3, now)) && Fits(3, expiry, now, 3)
  {
  }
}
