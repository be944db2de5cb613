/** Whole calls of `alloc` and `free`, in any interleaving of the two threads. */
module PoolCalls {
  import opened Bits
  import opened PoolProtocol

  ghost predicate AllocCall(ss: seq<State>, es: seq<Event>, a: nat, b: nat) {
    && a < b < |ss| == |es| + 1 && es[a] == Alloc && ss[b].a.AIdle?
    && forall i :: a < i < b ==> !ss[i].a.AIdle?
  }

  /** Inside an `alloc` that began when `n` blocks had left the ring. */
  ghost predicate Allocating(n: nat, s: State) {
    match s.a
    case AIdle => false
    case AReturn(b) => s.popped == n + 1 <= |s.pushed| && b == s.pushed[n]
    case AStore(_, b) => s.popped == n < |s.pushed| && b == s.pushed[n]
    case _ => s.popped == n
  }

  /** How an `alloc` ends: with null and nothing taken, or with the oldest block of the ring, which has
      left it for the client. */
  ghost predicate AllocEnds(n: nat, last: State, s: State) {
    || (s.result == Null && s.popped == n == |last.pushed| && s.held == last.held)
    || (s.popped == n + 1 <= |s.pushed| && s.result == Got(s.pushed[n]) && s.held == last.held + {s.pushed[n]})
  }

  lemma AllocStepOn(k: nat, n: nat, u: State, e: Event)
    requires Inv(k, u) && Enabled(u, e) && Allocating(n, u)
    ensures var s := Next(false, k, u, e);
            if s.a.AIdle? then AllocEnds(n, u, s) else Allocating(n, s)
  {
    hide Pow2;
    hide Index;
    hide Partition;
    if e == AStep && u.a.ARead? { IndexBound(k, u.a.r); }
    if e == FStep && u.f.FWrite? { IndexBound(k, u.f.w); }
  }

  lemma InvSlots(k: nat, u: State)
    requires Inv(k, u)
    ensures ValidSize(k) && |u.slots| == Pow2(k)
  {
    hide Partition;
  }

  lemma SameAllocating(n: nat, u: State)
    ensures Allocating(n, Image(u)) <==> Allocating(n, u)
  {
  }

  lemma SameEnd(n: nat, u: State, u': State)
    ensures AllocEnds(n, Image(u), Image(u')) <==> AllocEnds(n, u, u')
    ensures Image(u').a.AIdle? <==> u'.a.AIdle?
  {
  }

  lemma AllocGoesOn(k: nat, ss: seq<State>, es: seq<Event>, i: nat, n: nat)
    requires Run(k, ss, es) && i < |es| && Allocating(n, ss[i])
    ensures |ss| == |es| + 1
    ensures if ss[i + 1].a.AIdle? then AllocEnds(n, ss[i], ss[i + 1]) else Allocating(n, ss[i + 1])
  {
    hide Inv;
    hide Next;
    hide Image;
    hide Allocating;
    hide AllocEnds;
    var u := UnboundedAt(k, ss, es, i);
    InvSlots(k, u);
    var u' := Next(false, k, u, es[i]);
    SameAllocating(n, u);
    AllocStepOn(k, n, u, es[i]);
    SameAllocating(n, u');
    SameEnd(n, u, u');
  }

  lemma {:induction false} AllocInside(k: nat, ss: seq<State>, es: seq<Event>, a: nat, b: nat, i: nat)
    requires Run(k, ss, es) && AllocCall(ss, es, a, b) && a < i < b
    ensures Allocating(ss[a].popped, ss[i])
  {
    hide Allocating;
    hide AllocEnds;
    if i == a + 1 {
      assert Step(true, k, ss[a], es[a], ss[i]);
      AllocBegins(k, ss[a], ss[i]);
    } else {
      AllocInside(k, ss, es, a, b, i - 1);
      AllocGoesOn(k, ss, es, i - 1, ss[a].popped);
    }
  }

  lemma AllocBegins(k: nat, s: State, s': State)
    requires Step(true, k, s, Alloc, s')
    ensures Allocating(s.popped, s') && !s'.a.AIdle?
  {
  }

  /** What `alloc` returns, in every interleaving: null exactly if it took nothing, and then the ring
      was empty at its last load; otherwise the block that was oldest in the ring, which has left the
      ring and is now the client's. */
  lemma AllocReturns(k: nat, ss: seq<State>, es: seq<Event>, a: nat, b: nat)
    requires Run(k, ss, es) && AllocCall(ss, es, a, b)
    ensures var n, last, s := ss[a].popped, ss[b - 1], ss[b];
            && (s.result == Null <==> s.popped == n)
            && (s.result == Null ==> n == |last.pushed| && s.held == last.held)
            && (s.result != Null ==>
                  && s.popped == n + 1 <= |s.pushed| && s.result == Got(s.pushed[n])
                  && s.held == last.held + {s.pushed[n]})
  {
    hide Allocating;
    assert Step(true, k, ss[a], es[a], ss[a + 1]);
    AllocBegins(k, ss[a], ss[a + 1]);
    AllocInside(k, ss, es, a, b, b - 1);
    AllocGoesOn(k, ss, es, b - 1, ss[a].popped);
  }

  // ---- free -----------------------------------------------------------------------------------

  ghost predicate FreeCall(ss: seq<State>, es: seq<Event>, a: nat, b: nat, block: Block) {
    && a < b < |ss| == |es| + 1 && es[a] == Free(block) && ss[b].f.FIdle?
    && forall i :: a < i < b ==> !ss[i].f.FIdle?
  }

  /** Inside a `free` of `block` that began when `before` had been pushed. */
  ghost predicate Freeing(before: seq<Block>, block: Block, s: State) {
    !s.f.FIdle? && s.f.b == block && s.pushed == before
  }

  lemma FreeStepOn(k: nat, before: seq<Block>, block: Block, u: State, e: Event)
    requires Inv(k, u) && Enabled(u, e) && Freeing(before, block, u)
    ensures var s := Next(false, k, u, e);
            if s.f.FIdle? then s.pushed == before + [block] && !s.overflow else Freeing(before, block, s)
  {
    hide Pow2;
    hide Index;
    RoomForFreed(k, u);
    if e == AStep && u.a.ARead? { IndexBound(k, u.a.r); }
    if e == FStep && u.f.FWrite? { IndexBound(k, u.f.w); }
  }

  lemma SameFreeing(before: seq<Block>, block: Block, u: State)
    ensures Freeing(before, block, Image(u)) <==> Freeing(before, block, u)
    ensures (Image(u).f.FIdle? <==> u.f.FIdle?) && Image(u).pushed == u.pushed && Image(u).overflow == u.overflow
  {
  }

  lemma FreeGoesOn(k: nat, ss: seq<State>, es: seq<Event>, i: nat, before: seq<Block>, block: Block)
    requires Run(k, ss, es) && i < |es| && Freeing(before, block, ss[i])
    ensures |ss| == |es| + 1
    ensures if ss[i + 1].f.FIdle? then ss[i + 1].pushed == before + [block] && !ss[i + 1].overflow
            else Freeing(before, block, ss[i + 1])
  {
    hide Inv;
    hide Next;
    hide Image;
    hide Freeing;
    var u := UnboundedAt(k, ss, es, i);
    SameFreeing(before, block, u);
    InvSlots(k, u);
    FreeStepOn(k, before, block, u, es[i]);
    SameFreeing(before, block, Next(false, k, u, es[i]));
  }

  lemma {:induction false} FreeInside(k: nat, ss: seq<State>, es: seq<Event>, a: nat, b: nat, block: Block, i: nat)
    requires Run(k, ss, es) && FreeCall(ss, es, a, b, block) && a < i < b
    ensures Freeing(ss[a].pushed, block, ss[i])
  {
    if i == a + 1 {
      assert Step(true, k, ss[a], es[a], ss[i]);
    } else {
      FreeInside(k, ss, es, a, b, block, i - 1);
      FreeGoesOn(k, ss, es, i - 1, ss[a].pushed, block);
    }
  }

  /** When `free(block)` returns, exactly that block has been added to the ring, behind all others. */
  lemma FreeReturns(k: nat, ss: seq<State>, es: seq<Event>, a: nat, b: nat, block: Block)
    requires Run(k, ss, es) && FreeCall(ss, es, a, b, block)
    ensures block in ss[a].held && ss[b].pushed == ss[a].pushed + [block] && !ss[b].overflow
  {
    assert Step(true, k, ss[a], es[a], ss[a + 1]);
    FreeInside(k, ss, es, a, b, block, b - 1);
    FreeGoesOn(k, ss, es, b - 1, ss[a].pushed, block);
  }
}
