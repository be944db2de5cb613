/** Who owns each block of a MemoryPool while one thread allocates and another frees. `alloc` and
    `free` are taken one memory access at a time, over sequentially consistent memory, with the
    64-bit counters of SPSCFreeList. */
module PoolProtocol {
  import opened Bits
  import Lists

  type Block = nat

  /** The allocating thread, inside `SPSCFreeList::pop`. */
  datatype Allocator =
    | AIdle | ALoad | ATest(r: nat) | ARead(r: nat) | AStore(r: nat, b: Block) | AReturn(b: Block)

  /** The freeing thread, inside `SPSCFreeList::push`. */
  datatype Freer =
    | FIdle | FLoad(b: Block) | FTest(b: Block, w: nat) | FWrite(b: Block, w: nat) | FStore(b: Block, w: nat)

  datatype AllocResult = NoAlloc | Null | Got(b: Block)

  datatype State = State(
    slots: seq<Block>, wp: nat, rp: nat,
    a: Allocator, f: Freer, result: AllocResult, overflow: bool,
    // what the clients hold, and the history of the ring
    held: set<Block>, pushed: seq<Block>, popped: nat)

  datatype Event = Alloc | AStep | Free(b: Block) | FStep

  /** A pool of `2^k` blocks; MemoryPool rounds up to at least two. */
  predicate ValidSize(k: nat) {
    1 <= k <= 63
  }

  function Blocks(k: nat): set<Block> {
    Lists.Range(Pow2(k))
  }

  /** After `populate_freelist`. */
  function Init(k: nat): State {
    var all := seq(Pow2(k), i => i);
    State(all, Pow2(k) % U64, 0, AIdle, FIdle, NoAlloc, false, {}, all, 0)
  }

  /** `pos & mask_`. */
  function Index(k: nat, pos: nat): nat {
    And(pos, Pow2(k) - 1)
  }

  /** Clients free only what they hold. */
  predicate Enabled(s: State, e: Event) {
    match e
    case Alloc => s.a.AIdle?
    case AStep => !s.a.AIdle?
    case Free(b) => s.f.FIdle? && b in s.held
    case FStep => !s.f.FIdle?
  }

  function Next(wrap: bool, k: nat, s: State, e: Event): State
    requires ValidSize(k) && |s.slots| == Pow2(k) && Enabled(s, e)
  {
    match e
    case Alloc => s.(a := ALoad)
    case AStep => AllocStep(wrap, k, s)
    case Free(b) => s.(f := FLoad(b), held := s.held - {b})
    case FStep => FreeStep(wrap, k, s)
  }

  function AllocStep(wrap: bool, k: nat, s: State): State
    requires ValidSize(k) && |s.slots| == Pow2(k) && Enabled(s, AStep)
  {
    match s.a
    case ALoad => s.(a := ATest(s.rp))
    case ATest(r) => if r == s.wp then s.(a := AIdle, result := Null) else s.(a := ARead(r))
    case ARead(r) => IndexBound(k, r); s.(a := AStore(r, s.slots[Index(k, r)]))
    case AStore(r, b) => s.(rp := Inc(wrap, r), popped := s.popped + 1, a := AReturn(b))
    case AReturn(b) => s.(a := AIdle, result := Got(b), held := s.held + {b})
  }

  function FreeStep(wrap: bool, k: nat, s: State): State
    requires ValidSize(k) && |s.slots| == Pow2(k) && Enabled(s, FStep)
  {
    match s.f
    case FLoad(b) => s.(f := FTest(b, s.wp))
    case FTest(b, w) =>
      if Minus(wrap, w, s.rp) >= Pow2(k) then s.(f := FIdle, overflow := true) else s.(f := FWrite(b, w))
    case FWrite(b, w) => IndexBound(k, w); s.(slots := s.slots[Index(k, w) := b], f := FStore(b, w))
    case FStore(b, w) => s.(wp := Inc(wrap, w), pushed := s.pushed + [b], f := FIdle)
  }

  lemma IndexIs(k: nat, pos: nat)
    requires ValidSize(k)
    ensures Index(k, pos) == pos % Pow2(k) && Index(k, pos % U64) == pos % Pow2(k)
  {
    hide Pow2;
    hide And;
    Pow2Words();
    AndMask(pos, k);
    AndMask(pos % U64, k);
    Pow2Sum(64 - k, k);
    ModOfMod(pos, Pow2(64 - k), Pow2(k));
  }

  lemma IndexBound(k: nat, pos: nat)
    requires ValidSize(k)
    ensures Index(k, pos) < Pow2(k)
  {
    hide Pow2;
    hide Index;
    IndexIs(k, pos);
  }

  lemma IndexWrap(k: nat, pos: nat)
    requires ValidSize(k)
    ensures Index(k, pos % U64) == Index(k, pos)
  {
    hide Pow2;
    hide Index;
    IndexIs(k, pos);
  }

  lemma IndexApart(k: nat, p: nat, q: nat)
    requires ValidSize(k) && p < q < p + Pow2(k)
    ensures Index(k, p) != Index(k, q)
  {
    hide Pow2;
    hide Index;
    IndexIs(k, p);
    IndexIs(k, q);
    DistinctSlots(p, q, k);
  }

  // ---- ownership ------------------------------------------------------------------------------

  ghost predicate RingOk(k: nat, s: State) {
    && ValidSize(k) && |s.slots| == Pow2(k)
    && s.wp == |s.pushed| && s.rp == s.popped
    && s.popped <= |s.pushed| <= s.popped + Pow2(k)
    && forall q :: s.popped <= q < |s.pushed| ==>
         Index(k, q) < |s.slots| && s.slots[Index(k, q)] == s.pushed[q]
  }

  ghost predicate AllocOk(s: State) {
    match s.a
    case AIdle => true
    case ALoad => true
    case ATest(r) => r == s.popped
    case ARead(r) => r == s.popped < |s.pushed|
    case AStore(r, b) => r == s.popped < |s.pushed| && b == s.pushed[r]
    case AReturn(_) => true
  }

  ghost predicate FreeOk(k: nat, s: State) {
    match s.f
    case FIdle => true
    case FLoad(_) => true
    case FTest(_, w) => w == |s.pushed|
    case FWrite(_, w) => w == |s.pushed| < s.popped + Pow2(k)
    case FStore(b, w) => w == |s.pushed| < s.popped + Pow2(k) && Index(k, w) < |s.slots| && s.slots[Index(k, w)] == b
  }

  /** The four places a block can be. */
  ghost function Ring(s: State): set<Block>
    requires s.popped <= |s.pushed|
  {
    Lists.Elements(s.pushed[s.popped..])
  }

  ghost function InAlloc(s: State): set<Block> {
    if s.a.AReturn? then {s.a.b} else {}
  }

  ghost function InFree(s: State): set<Block> {
    if s.f.FIdle? then {} else {s.f.b}
  }

  /** Every block is in exactly one place, and at most once in the ring. */
  ghost predicate Partition(k: nat, s: State) {
    && s.popped <= |s.pushed| && Lists.Distinct(s.pushed[s.popped..])
    && Ring(s) !! s.held !! InAlloc(s) !! InFree(s)
    && Ring(s) + s.held + InAlloc(s) + InFree(s) == Blocks(k)
  }

  ghost predicate Inv(k: nat, s: State) {
    RingOk(k, s) && AllocOk(s) && FreeOk(k, s) && Partition(k, s) && !s.overflow
  }

  lemma AllocKeeps(k: nat, s: State)
    requires Inv(k, s) && Enabled(s, AStep)
    ensures Inv(k, Next(false, k, s, AStep))
  {
    hide Pow2;
    hide Index;
    hide Blocks;
    match s.a
    case ARead(r) => IndexBound(k, r);
    case AStore(r, b) => Lists.TakeFirst(s.pushed[s.popped..]); assert s.pushed[s.popped + 1..] == s.pushed[s.popped..][1..];
    case _ =>
  }

  /** The ring has room for a block that is outside it. */
  lemma RoomForFreed(k: nat, s: State)
    requires Partition(k, s) && !s.f.FIdle?
    ensures |s.pushed| - s.popped < Pow2(k)
  {
    hide Pow2;
    Lists.DistinctSize(s.pushed[s.popped..]);
    Lists.RangeSize(Pow2(k));
    Lists.SmallerSet(Ring(s) + {s.f.b}, Blocks(k));
  }

  lemma FreeKeeps(k: nat, s: State)
    requires Inv(k, s) && Enabled(s, FStep)
    ensures Inv(k, Next(false, k, s, FStep))
  {
    hide Pow2;
    hide Index;
    hide Blocks;
    RoomForFreed(k, s);
    match s.f
    case FWrite(b, w) =>
      IndexBound(k, w);
      forall q | s.popped <= q < w
        ensures Index(k, q) != Index(k, w)
      {
        IndexApart(k, q, w);
      }
    case FStore(b, w) =>
      Lists.AddLast(s.pushed[s.popped..], b);
      assert (s.pushed + [b])[s.popped..] == s.pushed[s.popped..] + [b];
    case _ =>
  }

  lemma StepKeeps(k: nat, s: State, e: Event)
    requires Inv(k, s) && Enabled(s, e)
    ensures Inv(k, Next(false, k, s, e))
  {
    hide Pow2;
    hide Index;
    hide Blocks;
    match e
    case AStep => AllocKeeps(k, s);
    case FStep => FreeKeeps(k, s);
    case _ =>
  }

  lemma InitOk(k: nat)
    requires ValidSize(k)
    ensures Inv(k, Init(k).(wp := Pow2(k))) && Image(Init(k).(wp := Pow2(k))) == Init(k)
  {
    hide Pow2;
    hide Index;
    var s := Init(k).(wp := Pow2(k));
    forall q | 0 <= q < Pow2(k)
      ensures Index(k, q) == q
    {
      IndexIs(k, q);
      DivModUnique(q, Pow2(k), 0, q);
    }
    assert s.pushed[0..] == s.pushed;
    assert Ring(s) == Blocks(k) by {
      forall b | b in Blocks(k)
        ensures b in Ring(s)
      {
        assert s.pushed[b] == b;
      }
    }
  }

  // ---- 64-bit counters ------------------------------------------------------------------------

  function Image(s: State): State {
    s.(wp := s.wp % U64, rp := s.rp % U64,
       a := match s.a
            case ATest(r) => ATest(r % U64)
            case ARead(r) => ARead(r % U64)
            case AStore(r, b) => AStore(r % U64, b)
            case _ => s.a,
       f := match s.f
            case FTest(b, w) => FTest(b, w % U64)
            case FWrite(b, w) => FWrite(b, w % U64)
            case FStore(b, w) => FStore(b, w % U64)
            case _ => s.f)
  }

  lemma SizeFits(k: nat)
    requires ValidSize(k)
    ensures Pow2(k) < U64
  {
    Pow2Words();
    Pow2Monotone(k, 64);
  }

  lemma ImageAlloc(k: nat, s: State)
    requires Inv(k, s) && Enabled(s, AStep)
    ensures Next(true, k, Image(s), AStep) == Image(Next(false, k, s, AStep))
  {
    hide Pow2;
    hide Index;
    hide Partition;
    hide FreeOk;
    SizeFits(k);
    IndexWrap(k, s.popped);
    IndexBound(k, s.popped);
    WrappedInc(s.popped);
    WrappedMinus(s.wp, s.rp);
  }

  lemma ImageFree(k: nat, s: State)
    requires Inv(k, s) && Enabled(s, FStep)
    ensures Next(true, k, Image(s), FStep) == Image(Next(false, k, s, FStep))
  {
    hide Pow2;
    hide Index;
    hide Partition;
    hide AllocOk;
    SizeFits(k);
    IndexWrap(k, |s.pushed|);
    IndexBound(k, |s.pushed|);
    WrappedInc(|s.pushed|);
    WrappedMinus(s.wp, s.rp);
  }

  /** Counter overflow is invisible: each 64-bit step is the image of the unbounded one. */
  lemma ImageStep(k: nat, s: State, e: Event)
    requires Inv(k, s) && Enabled(s, e)
    ensures Enabled(Image(s), e) && |Image(s).slots| == Pow2(k)
    ensures Next(true, k, Image(s), e) == Image(Next(false, k, s, e))
  {
    hide Pow2;
    hide Index;
    hide Partition;
    hide AllocOk;
    hide FreeOk;
    match e
    case AStep => ImageAlloc(k, s);
    case FStep => ImageFree(k, s);
    case _ =>
  }

  /** The overflow test, in any state: a push to a full ring is flagged and leaves it as it was, a push
      to any other goes on. Ownership shows that the first never happens. */
  lemma FullRefused(k: nat, s: State)
    requires ValidSize(k) && |s.slots| == Pow2(k) && s.f.FTest? && s.rp <= s.f.w
    ensures var s' := Next(false, k, s, FStep);
            && (s'.f.FIdle? <==> s.f.w - s.rp >= |s.slots|)
            && (s'.f.FIdle? ==> s'.overflow && s'.slots == s.slots && s'.wp == s.wp && s'.pushed == s.pushed)
            && (!s'.f.FIdle? ==> s'.overflow == s.overflow && s'.f == FWrite(s.f.b, s.f.w))
  {
    hide Pow2;
  }

  // ---- every run ------------------------------------------------------------------------------

  ghost predicate Step(wrap: bool, k: nat, s: State, e: Event, s': State) {
    ValidSize(k) && |s.slots| == Pow2(k) && Enabled(s, e) && s' == Next(wrap, k, s, e)
  }

  /** Any interleaving of the two threads, from a freshly populated pool. */
  ghost predicate Run(k: nat, ss: seq<State>, es: seq<Event>) {
    && ValidSize(k) && |ss| == |es| + 1 && ss[0] == Init(k)
    && forall i :: 0 <= i < |es| ==> Step(true, k, ss[i], es[i], ss[i + 1])
  }

  lemma {:induction false} UnboundedAt(k: nat, ss: seq<State>, es: seq<Event>, i: nat) returns (u: State)
    requires Run(k, ss, es) && i <= |es|
    ensures ss[i] == Image(u) && Inv(k, u)
    ensures i < |es| ==> Enabled(u, es[i]) && ss[i + 1] == Image(Next(false, k, u, es[i]))
  {
    hide Inv;
    hide Next;
    hide Init;
    if i == 0 {
      InitOk(k);
      u := Init(k).(wp := Pow2(k));
    } else {
      var v := UnboundedAt(k, ss, es, i - 1);
      StepKeeps(k, v, es[i - 1]);
      u := Next(false, k, v, es[i - 1]);
    }
    if i < |es| {
      assert Step(true, k, ss[i], es[i], ss[i + 1]);
      ImageStep(k, u, es[i]);
    }
  }

  /** Ownership, in every interleaving: the blocks stay partitioned into the free ring, the two
      threads' hands and the clients; the block handed out by a pop is one nobody held; freeing
      never overflows the ring; and the freeing thread never writes the slot being read. */
  lemma Ownership(k: nat, ss: seq<State>, es: seq<Event>, i: nat)
    requires Run(k, ss, es) && i <= |es|
    ensures Partition(k, ss[i]) && !ss[i].overflow
    ensures ss[i].a.AReturn? ==> ss[i].a.b !in ss[i].held && ss[i].a.b < Pow2(k)
    ensures (ss[i].a.ARead? || ss[i].a.AStore?) && ss[i].f.FWrite? ==> Index(k, ss[i].a.r) != Index(k, ss[i].f.w)
  {
    hide Pow2;
    hide Index;
    hide Step;
    var u := UnboundedAt(k, ss, es, i);
    assert Ring(ss[i]) == Ring(u) && InAlloc(ss[i]) == InAlloc(u) && InFree(ss[i]) == InFree(u);
    if (u.a.ARead? || u.a.AStore?) && u.f.FWrite? {
      IndexWrap(k, u.a.r);
      IndexWrap(k, u.f.w);
      IndexApart(k, u.a.r, u.f.w);
    }
  }

  /** `alloc` returns null exactly when the ring is empty at its load of `wp_`, that is, when every
      block is with the clients or in the freeing thread's hands. */
  lemma NullMeansExhausted(k: nat, ss: seq<State>, es: seq<Event>, i: nat)
    requires Run(k, ss, es) && i < |es| && es[i] == AStep && ss[i].a.ATest?
    ensures ss[i + 1].a.AIdle? <==> ss[i].held + InFree(ss[i]) == Blocks(k)
    ensures ss[i + 1].a.AIdle? ==> ss[i + 1].result == Null
  {
    hide Pow2;
    hide Index;
    hide Run;
    hide Blocks;
    var u := UnboundedAt(k, ss, es, i);
    assert Ring(u) == {} <==> u.popped == |u.pushed| by {
      if u.popped < |u.pushed| { assert u.pushed[u.popped..][0] in Ring(u); }
    }
    assert Ring(u) + u.held + InFree(u) == Blocks(k);
  }
}
