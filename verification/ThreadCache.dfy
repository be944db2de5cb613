/** The batching LIFO cache of memory_pool/memory_pool.hpp, in front of one pool and used by one
    thread: however blocks move between the ring and the stack, the client sees a plain set of free
    blocks. */
module ThreadCache {
  import Bits
  import opened Lists
  import opened Options
  import opened MemoryPool

  /** Every block is free in the pool, cached, or held by the client, in exactly one place. */
  ghost predicate Split(contents: seq<Pointer>, cached: seq<Pointer>, held: set<Pointer>, all: set<Pointer>) {
    && Distinct(contents) && Distinct(cached)
    && Elements(contents) !! Elements(cached) !! held
    && Elements(contents) + Elements(cached) + held == all
  }

  lemma Refill(contents: seq<Pointer>, cached: seq<Pointer>, held: set<Pointer>, all: set<Pointer>)
    requires Split(contents, cached, held, all) && contents != []
    ensures Split(contents[1..], cached + [contents[0]], held, all)
  {
    TakeFirst(contents);
    AddLast(cached, contents[0]);
  }

  lemma DropLast(cached: seq<Pointer>)
    requires cached != [] && Distinct(cached)
    ensures var x := cached[|cached| - 1];
            && x in Elements(cached) && Distinct(cached[..|cached| - 1])
            && Elements(cached[..|cached| - 1]) == Elements(cached) - {x}
  {
    var rest, x := cached[..|cached| - 1], cached[|cached| - 1];
    AddLast(rest, x);
    assert rest + [x] == cached;
    assert x !in Elements(rest);
  }

  lemma Flush(contents: seq<Pointer>, cached: seq<Pointer>, held: set<Pointer>, all: set<Pointer>)
    requires Split(contents, cached, held, all) && cached != []
    ensures var x := cached[|cached| - 1];
            x in all && x !in Elements(contents) && Split(contents + [x], cached[..|cached| - 1], held, all)
  {
    DropLast(cached);
    AddLast(contents, cached[|cached| - 1]);
  }

  lemma Hand(contents: seq<Pointer>, cached: seq<Pointer>, held: set<Pointer>, all: set<Pointer>)
    requires Split(contents, cached, held, all) && cached != []
    ensures var x := cached[|cached| - 1];
            x !in held && x in all && Split(contents, cached[..|cached| - 1], held + {x}, all)
  {
    DropLast(cached);
  }

  lemma TakeBack(contents: seq<Pointer>, cached: seq<Pointer>, held: set<Pointer>, all: set<Pointer>, x: Pointer)
    requires Split(contents, cached, held, all) && x in held
    ensures Split(contents, cached + [x], held - {x}, all)
  {
    AddLast(cached, x);
  }

  lemma NothingFree(contents: seq<Pointer>, cached: seq<Pointer>, held: set<Pointer>, all: set<Pointer>)
    requires Split(contents, cached, held, all)
    ensures held == all <==> contents == [] && cached == []
  {
    if contents != [] { assert contents[0] in Elements(contents); }
    if cached != [] { assert cached[0] in Elements(cached); }
  }

  class ThreadLocalCache {
    const pool: MemoryPool
    const batch: nat
    const stack: array<Pointer>
    var top: nat
    /** What the client holds. */
    ghost var held: set<Pointer>

    ghost predicate Valid()
      reads this, stack, pool, pool.freelist, pool.freelist.slots
    {
      && pool.Valid() && stack != pool.freelist.slots
      && 1 <= batch && 2 * batch <= stack.Length && top <= stack.Length
      && Split(pool.freelist.contents, stack[..top], held, pool.All())
    }

    constructor (pool: MemoryPool, capacity: nat, batch: nat)
      requires pool.Valid() && Elements(pool.freelist.contents) == pool.All()
      requires capacity >= 2 && batch >= 1 && batch <= capacity / 2
      ensures Valid() && held == {} && this.pool == pool && fresh(stack)
    {
      this.pool, this.batch := pool, batch;
      stack := new Pointer[capacity];
      top, held := 0, {};
    }

    /** One batched transfer from the pool, into an empty stack. */
    method FillBatch()
      requires Valid() && top == 0
      modifies this`top, stack, pool, pool.freelist
      ensures Valid() && held == old(held)
      ensures top == if |old(pool.freelist.contents)| < batch then |old(pool.freelist.contents)| else batch
      ensures stack[..top] == old(pool.freelist.contents)[..top]
      ensures pool.freelist.contents == old(pool.freelist.contents)[top..]
    {
      hide Split;
      hide Elements;
      var i := 0;
      while i < batch
        invariant i <= batch && top == i && held == old(held) && Valid()
        invariant i <= |old(pool.freelist.contents)| && stack[..i] == old(pool.freelist.contents)[..i]
        invariant pool.freelist.contents == old(pool.freelist.contents)[i..]
      {
        ghost var before, contents := stack[..top], pool.freelist.contents;
        if contents != [] { Refill(contents, before, held, pool.All()); }
        var p := pool.Alloc();
        if p.None? {
          break;
        }
        stack[top] := p.value;
        top := top + 1;
        assert stack[..top] == before + [contents[0]];
        i := i + 1;
      }
    }

    /** Hands out any free block; None exactly when the client holds every block. */
    method Alloc() returns (p: Option<Pointer>)
      requires Valid()
      modifies this, stack, pool, pool.freelist
      ensures Valid()
      ensures p.None? <==> old(held) == pool.All()
      ensures p.Some? ==> p.value in pool.All() && p.value !in old(held) && held == old(held) + {p.value}
      ensures p.None? ==> held == old(held)
      ensures old(top) > 0 ==>
                && p == Some(old(stack[..top])[old(top) - 1]) && stack[..top] == old(stack[..top])[..old(top) - 1]
                && pool.freelist.contents == old(pool.freelist.contents)
    {
      hide Split;
      hide Elements;
      NothingFree(pool.freelist.contents, stack[..top], held, pool.All());
      if top == 0 {
        FillBatch();
      }
      if top == 0 {
        return None;
      }
      Hand(pool.freelist.contents, stack[..top], held, pool.All());
      ghost var before := stack[..top];
      top := top - 1;
      assert stack[..top] == before[..|before| - 1] && stack[top] == before[|before| - 1];
      held := held + {stack[top]};
      p := Some(stack[top]);
    }

    /** Return `n` cached blocks to the pool. */
    method FlushSome(n: nat)
      requires Valid() && n <= top
      modifies this`top, pool, pool.freelist, pool.freelist.slots
      ensures Valid() && held == old(held) && top == old(top) - n
      ensures |pool.freelist.contents| == |old(pool.freelist.contents)| + n
    {
      hide Split;
      hide Elements;
      var i := 0;
      while i < n
        invariant i <= n && top == old(top) - i && held == old(held) && Valid()
        invariant |pool.freelist.contents| == |old(pool.freelist.contents)| + i
      {
        Flush(pool.freelist.contents, stack[..top], held, pool.All());
        ghost var before := stack[..top];
        top := top - 1;
        assert stack[..top] == before[..|before| - 1] && stack[top] == before[|before| - 1];
        pool.Free(stack[top]);
        i := i + 1;
      }
    }

    /** Takes back a block the client holds. */
    method Free(p: Pointer)
      requires Valid() && p in held
      modifies this, stack, pool, pool.freelist, pool.freelist.slots
      ensures Valid() && held == old(held) - {p}
      ensures old(top) < stack.Length ==>
                && stack[..top] == old(stack[..top]) + [p]
                && pool.freelist.contents == old(pool.freelist.contents)
      ensures old(top) == stack.Length ==>
                && stack[..top] == old(stack[..top])[..stack.Length - batch] + [p]
                && |pool.freelist.contents| == |old(pool.freelist.contents)| + batch
    {
      hide Split;
      hide Elements;
      if top >= stack.Length {
        FlushSome(batch);
      }
      TakeBack(pool.freelist.contents, stack[..top], held, pool.All(), p);
      ghost var before := stack[..top];
      stack[top] := p;
      top := top + 1;
      assert stack[..top] == before + [p];
      held := held - {p};
    }

    /** Everything not held by the client is back in the pool. */
    method FlushAll()
      requires Valid()
      modifies this`top, pool, pool.freelist, pool.freelist.slots
      ensures Valid() && held == old(held) && top == 0
      ensures |pool.freelist.contents| == pool.numBlocks - |held|
    {
      FlushSome(top);
      AllBack(pool.freelist.contents, held, pool.freelist.k, pool.blockSize);
    }
  }

  lemma AllBack(contents: seq<Pointer>, held: set<Pointer>, k: nat, size: nat)
    requires Split(contents, [], held, Elements(Layout(Bits.Pow2(k), size))) && BackingSize(Bits.Pow2(k), size) != 0
    ensures |contents| == Bits.Pow2(k) - |held|
  {
    hide Bits.Pow2;
    hide BackingSize;
    LayoutDistinct(k, size);
    DistinctSize(Layout(Bits.Pow2(k), size));
    DistinctSize(contents);
    assert Elements(contents) + held == Elements(Layout(Bits.Pow2(k), size));
  }
}
