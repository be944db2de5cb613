/** The allocator of memory_pool/memory_pool.hpp as one thread sees it: the free-list ring, the pool
    of equal blocks over it, and the batching cache in front of it. Pointers are offsets into the
    backing; a null pointer is None. */
module MemoryPool {
  import opened Bits
  import opened Lists
  import opened Options
  import opened PoolArith
  import PoolProtocol

  type Pointer = nat

  const CACHE_LINE: nat := 64

  /** The ring positions from `taken` on hold `contents`. */
  ghost predicate InRing(k: nat, slots: seq<Pointer>, taken: nat, contents: seq<Pointer>) {
    forall q :: taken <= q < taken + |contents| ==>
      PoolProtocol.Index(k, q) < |slots| && slots[PoolProtocol.Index(k, q)] == contents[q - taken]
  }

  lemma RingPush(k: nat, slots: seq<Pointer>, taken: nat, contents: seq<Pointer>, p: Pointer)
    requires PoolProtocol.ValidSize(k) && |slots| == Pow2(k) && |contents| < |slots|
    requires InRing(k, slots, taken, contents)
    ensures var at := PoolProtocol.Index(k, taken + |contents|);
            at < |slots| && InRing(k, slots[at := p], taken, contents + [p])
  {
    hide Pow2;
    hide PoolProtocol.Index;
    var w := taken + |contents|;
    PoolProtocol.IndexBound(k, w);
    forall q | taken <= q < w
      ensures PoolProtocol.Index(k, q) != PoolProtocol.Index(k, w)
    {
      PoolProtocol.IndexApart(k, q, w);
    }
  }

  lemma RingPop(k: nat, slots: seq<Pointer>, taken: nat, contents: seq<Pointer>)
    requires InRing(k, slots, taken, contents) && contents != []
    ensures PoolProtocol.Index(k, taken) < |slots| && slots[PoolProtocol.Index(k, taken)] == contents[0]
    ensures InRing(k, slots, taken + 1, contents[1..])
  {
    hide Pow2;
    hide PoolProtocol.Index;
  }

  /** A bounded FIFO of pointers. */
  class FreeList {
    ghost const k: nat
    const capacity: nat
    const slots: array<Pointer>
    var wp: nat
    var rp: nat
    /** Oldest first; `taken` counts everything ever popped. */
    ghost var contents: seq<Pointer>
    ghost var taken: nat

    ghost predicate Valid()
      reads this, slots
    {
      && PoolProtocol.ValidSize(k) && capacity == Pow2(k) == slots.Length
      && |contents| <= capacity
      && rp == taken % U64 && wp == (taken + |contents|) % U64
      && InRing(k, slots[..], taken, contents)
    }

    constructor (capacity: nat, ghost k: nat)
      requires PoolProtocol.ValidSize(k) && capacity == Pow2(k)
      ensures Valid() && contents == [] && this.capacity == capacity && this.k == k && fresh(slots)
    {
      this.k := k;
      this.capacity := capacity;
      slots := new Pointer[capacity];
      wp, rp, contents, taken := 0, 0, [], 0;
    }

    /** Fails exactly when the ring is full. */
    method Push(p: Pointer) returns (ok: bool)
      requires Valid()
      modifies this`wp, this`contents, slots
      ensures Valid()
      ensures ok == (|old(contents)| < capacity)
      ensures contents == if ok then old(contents) + [p] else old(contents)
    {
      hide Pow2;
      hide PoolProtocol.Index;
      hide InRing;
      RingDistance(k, taken, |contents|);
      var w := wp;
      if (w - rp) % U64 >= capacity {
        return false;
      }
      RingPush(k, slots[..], taken, contents, p);
      PoolProtocol.IndexWrap(k, taken + |contents|);
      WrappedInc(taken + |contents|);
      ghost var before := slots[..];
      var at := Masked(w);
      slots[at] := p;
      assert slots[..] == before[at := p];
      wp := (w + 1) % U64;
      contents := contents + [p];
      ok := true;
    }

    /** Takes the oldest; None exactly when the ring is empty. */
    method Pop() returns (p: Option<Pointer>)
      requires Valid()
      modifies this`rp, this`contents, this`taken
      ensures Valid()
      ensures p.None? <==> old(contents) == []
      ensures p.Some? ==> p.value == old(contents)[0] && contents == old(contents)[1..]
      ensures p.None? ==> contents == []
    {
      hide Pow2;
      hide PoolProtocol.Index;
      hide InRing;
      RingDistance(k, taken, |contents|);
      var r := rp;
      if r == wp {
        return None;
      }
      RingPop(k, slots[..], taken, contents);
      PoolProtocol.IndexWrap(k, taken);
      WrappedInc(taken);
      var at := Masked(r);
      p := Some(slots[at]);
      rp := (r + 1) % U64;
      contents := contents[1..];
      taken := taken + 1;
    }

    /** `x & mask_`. */
    function Masked(x: nat): (i: nat)
      requires capacity == Pow2(k)
      ensures i == PoolProtocol.Index(k, x)
    {
      And(x, capacity - 1)
    }

    /** `wp_ - rp_`. */
    method Size() returns (n: nat)
      requires Valid()
      ensures n == |contents|
    {
      hide Pow2;
      RingDistance(k, taken, |contents|);
      n := (wp - rp) % U64;
    }
  }

  lemma RingDistance(k: nat, taken: nat, n: nat)
    requires PoolProtocol.ValidSize(k) && n <= Pow2(k)
    ensures ((taken + n) % U64 - taken % U64) % U64 == n
    ensures (taken + n) % U64 == taken % U64 <==> n == 0
  {
    hide Pow2;
    PoolProtocol.SizeFits(k);
    WrappedMinus(taken + n, taken);
  }

  // ---- block addresses ------------------------------------------------------------------------

  /** The order in which `populate_freelist` pushes the blocks; offsets are 64-bit. */
  function Layout(n: nat, size: nat): seq<Pointer> {
    if n == 0 then [] else Layout(n - 1, size) + [((n - 1) * size) % U64]
  }

  /** `block_size_ * num_blocks_`, in 64 bits. */
  function BackingSize(n: nat, size: nat): nat {
    (n * size) % U64
  }

  lemma {:induction false} LayoutAt(n: nat, size: nat, i: nat)
    requires i < n
    ensures |Layout(n, size)| == n && Layout(n, size)[i] == (i * size) % U64
  {
    LayoutLength(n - 1, size);
    if i < n - 1 { LayoutAt(n - 1, size, i); }
  }

  lemma {:induction false} LayoutLength(n: nat, size: nat)
    ensures |Layout(n, size)| == n
  {
    if n > 0 { LayoutLength(n - 1, size); }
  }

  /** Every block lies inside the mapped backing. */
  ghost predicate AllInside(n: nat, size: nat) {
    forall i :: 0 <= i < |Layout(n, size)| ==> Layout(n, size)[i] + size <= BackingSize(n, size)
  }

  lemma PlainOffset(n: nat, size: nat, i: nat)
    requires i < n && n * size < U64
    ensures |Layout(n, size)| == n && Layout(n, size)[i] == i * size
    ensures i * size + size <= n * size == BackingSize(n, size)
  {
    hide Layout;
    LayoutAt(n, size, i);
    ScaledApart(i, n, size, size);
  }

  lemma FitsInside(n: nat, size: nat)
    requires n * size < U64
    ensures AllInside(n, size)
  {
    hide Layout;
    hide BackingSize;
    LayoutLength(n, size);
    forall i | 0 <= i < n
      ensures Layout(n, size)[i] + size <= BackingSize(n, size)
    {
      PlainOffset(n, size, i);
    }
  }

  lemma InsideFits(n: nat, size: nat)
    requires n >= 1 && AllInside(n, size)
    ensures n * size < U64
  {
    hide Layout;
    NoWrap(n, size, n - 1);
    LayoutAt(n, size, n - 1);
    assert Layout(n, size)[n - 1] + size <= BackingSize(n, size);
    assert n * size == (n - 1) * size + size;
  }

  /** The product that sizes the backing can wrap; the blocks are all inside what was mapped if and
      only if it does not. */
  lemma InsideIff(n: nat, size: nat)
    requires n >= 1
    ensures AllInside(n, size) <==> n * size < U64
  {
    hide AllInside;
    if n * size < U64 { FitsInside(n, size); }
    if AllInside(n, size) { InsideFits(n, size); }
  }

  /** Blocks that are all inside have not wrapped. */
  lemma {:induction false} NoWrap(n: nat, size: nat, i: nat)
    requires i < n && AllInside(n, size)
    ensures i * size < U64
  {
    hide Layout;
    if i > 0 {
      NoWrap(n, size, i - 1);
      LayoutAt(n, size, i - 1);
      assert Layout(n, size)[i - 1] + size <= BackingSize(n, size);
      assert i * size == (i - 1) * size + size;
    }
  }

  /** The input that shows it: 64 blocks of 2^58 + 64 bytes map one page, and the second block starts
      far beyond it. */
  lemma WrappedBacking()
    ensures BackingSize(64, 0x400_0000_0000_0040) == 4096
    ensures |Layout(64, 0x400_0000_0000_0040)| == 64 && Layout(64, 0x400_0000_0000_0040)[1] == 0x400_0000_0000_0040
  {
    LayoutAt(64, 0x400_0000_0000_0040, 1);
  }

  /** If the backing does not wrap, the blocks are disjoint byte ranges, each on cache lines of its
      own. */
  lemma BlocksDisjoint(n: nat, size: nat, i: nat, j: nat)
    requires i < j < n && size % CACHE_LINE == 0 && n * size < U64
    ensures |Layout(n, size)| == n
    ensures Layout(n, size)[i] + size <= Layout(n, size)[j]
    ensures Layout(n, size)[j] + size <= n * size == BackingSize(n, size)
    ensures Layout(n, size)[i] % CACHE_LINE == 0
  {
    hide Layout;
    hide BackingSize;
    PlainOffset(n, size, i);
    PlainOffset(n, size, j);
    ScaledApart(i, j, size, size);
    MultipleOfLine(i, size);
  }

  lemma MultipleOfLine(i: nat, size: nat)
    requires size % CACHE_LINE == 0
    ensures (i * size) % CACHE_LINE == 0
  {
    var q := size / CACHE_LINE;
    assert i * (CACHE_LINE * q) == CACHE_LINE * (i * q);
    DivModUnique(i * size, CACHE_LINE, i * q, 0);
  }

  lemma HalfOdd(d: nat, x: int, q: int, p: int) returns (half: int)
    requires d % 2 == 1 && d * x == q * (2 * p)
    ensures x == 2 * half && d * half == q * p
  {
    var e := d / 2;
    half := q * p - e * x;
    assert d * x == 2 * (e * x) + x;
    assert d * (2 * half) == 2 * (d * half);
  }

  lemma HalfEven(d: nat, x: int, q: int, p: int)
    requires d % 2 == 0 && d * x == q * (2 * p)
    ensures (d / 2) * x == q * p
  {
    assert d * x == 2 * ((d / 2) * x);
    assert q * (2 * p) == 2 * (q * p);
  }

  lemma Twice(a: int, x: int, y: int, p: int)
    requires a * x == y * p
    ensures (2 * a) * x == y * (2 * p)
  {
  }

  /** An odd factor does not help a power of two to divide. */
  lemma {:induction false} OddCancel(d: nat, x: int, m: nat, q: int) returns (y: int)
    requires d % 2 == 1 && d * x == q * Pow2(m)
    ensures x == y * Pow2(m)
    decreases m
  {
    if m == 0 {
      y := x;
    } else {
      Doubles(m - 1);
      hide Pow2;
      var half := HalfOdd(d, x, q, Pow2(m - 1));
      y := OddCancel(d, half, m - 1, q);
      Twice(1, half, y, Pow2(m - 1));
    }
  }

  /** If 2^m divides `d * x` for a positive `d` below 2^k, it divides `2^k * x`. */
  lemma {:induction false} PowerCancel(d: nat, x: int, k: nat, m: nat, q: int) returns (y: int)
    requires 0 < d < Pow2(k) && d * x == q * Pow2(m)
    ensures Pow2(k) * x == y * Pow2(m)
  {
    Pow2Zero();
    if m > 0 { Doubles(m - 1); }
    if k > 0 { Doubles(k - 1); }
    hide Pow2;
    if m == 0 {
      y := Pow2(k) * x;
    } else if d % 2 == 1 {
      var z := OddCancel(d, x, m, q);
      y := Pow2(k) * z;
      Regroup(Pow2(k), z, Pow2(m));
    } else {
      HalfEven(d, x, q, Pow2(m - 1));
      y := PowerCancel(d / 2, x, k - 1, m - 1, q);
      Twice(Pow2(k - 1), x, y, Pow2(m - 1));
    }
  }

  lemma Pow2Zero()
    ensures Pow2(0) == 1
  {
  }

  lemma Regroup(a: int, b: int, c: int)
    ensures a * (b * c) == (a * b) * c
  {
  }

  /** Wrapped or not, no two blocks of a pool that has a backing share an address. */
  lemma OffsetsDiffer(k: nat, size: nat, i: nat, j: nat)
    requires i < j < Pow2(k) && BackingSize(Pow2(k), size) != 0
    ensures (i * size) % U64 != (j * size) % U64
  {
    hide Pow2;
    Pow2Words();
    if (i * size) % U64 == (j * size) % U64 {
      var q := (j * size) / U64 - (i * size) / U64;
      assert (j - i) * size == j * size - i * size;
      var y := PowerCancel(j - i, size, k, 64, q);
      assert Pow2(k) * size == U64 * y + 0;
      DivModUnique(Pow2(k) * size, U64, y, 0);
    }
  }

  lemma LayoutDistinct(k: nat, size: nat)
    requires BackingSize(Pow2(k), size) != 0
    ensures Distinct(Layout(Pow2(k), size)) && |Layout(Pow2(k), size)| == Pow2(k)
  {
    hide Pow2;
    hide BackingSize;
    var n := Pow2(k);
    LayoutLength(n, size);
    forall i, j | 0 <= i < j < n
      ensures Layout(n, size)[i] != Layout(n, size)[j]
    {
      LayoutAt(n, size, i);
      LayoutAt(n, size, j);
      OffsetsDiffer(k, size, i, j);
    }
  }

  /** The block size is rounded up to whole cache lines, the number of blocks to a power of two;
      either is 0 when that is 2^64. */
  method RoundUp(wantedSize: nat, wantedBlocks: nat) returns (size: nat, n: nat, ghost k: nat)
    requires wantedSize < U64 && wantedBlocks < U64
    ensures size % CACHE_LINE == 0
    ensures wantedSize + CACHE_LINE <= U64 ==>
              (wantedSize <= 64 ==> size == 64) && (wantedSize > 64 ==> wantedSize <= size < wantedSize + 64)
    ensures wantedSize + CACHE_LINE > U64 ==> size == 0
    ensures wantedBlocks <= U64 / 2 ==> PoolProtocol.ValidSize(k) && n == Pow2(k) && n >= 2 && n >= wantedBlocks
    ensures 2 <= wantedBlocks <= U64 / 2 ==> n < 2 * wantedBlocks
    ensures wantedBlocks <= 2 ==> n == 2
    ensures wantedBlocks > U64 / 2 ==> n == 0
  {
    hide AlignUp;
    var least := if wantedSize < CACHE_LINE then CACHE_LINE else wantedSize;
    assert Pow2(6) == 64;
    if wantedSize + CACHE_LINE <= U64 { AlignUpIs(least, 6); } else { AlignUpWraps(least, 6); }
    size := AlignUp(least, CACHE_LINE);
    n, k := NextPow2(if wantedBlocks < 2 then 2 else wantedBlocks);
    assert Pow2(0) == 1;
  }

  // ---- the pool -------------------------------------------------------------------------------

  class MemoryPool {
    const blockSize: nat
    const numBlocks: nat
    const freelist: FreeList
    var allocs: nat
    var frees: nat
    var failures: nat

    /** All the blocks of this pool. */
    ghost function All(): set<Pointer> {
      Elements(Layout(numBlocks, blockSize))
    }

    ghost predicate Valid()
      reads this, freelist, freelist.slots
    {
      && freelist.Valid() && freelist.capacity == numBlocks
      && blockSize % CACHE_LINE == 0 && BackingSize(numBlocks, blockSize) != 0
      && Distinct(freelist.contents) && Elements(freelist.contents) <= All()
    }

    /** Every block starts out free. */
    constructor (size: nat, n: nat, ghost k: nat)
      requires size % CACHE_LINE == 0 && PoolProtocol.ValidSize(k) && n == Pow2(k) && BackingSize(n, size) != 0
      ensures Valid() && fresh(freelist) && fresh(freelist.slots)
      ensures blockSize == size && numBlocks == n
      ensures freelist.contents == Layout(n, size) && Elements(freelist.contents) == All()
      ensures allocs == frees == failures == 0
    {
      hide Pow2;
      hide InRing;
      hide BackingSize;
      blockSize, numBlocks := size, n;
      var list := new FreeList(n, k);
      freelist := list;
      allocs, frees, failures := 0, 0, 0;
      new;
      Populate();
      LayoutDistinct(k, blockSize);
    }

    /** Push every block, in address order. */
    method Populate()
      requires freelist.Valid() && freelist.contents == [] && freelist.capacity == numBlocks
      modifies freelist, freelist.slots
      ensures freelist.Valid() && freelist.contents == Layout(numBlocks, blockSize)
    {
      hide Pow2;
      hide InRing;
      for i := 0 to numBlocks
        invariant freelist.Valid() && freelist.contents == Layout(i, blockSize)
      {
        LayoutLength(i, blockSize);
        var ok := freelist.Push((i * blockSize) % U64);
        assert ok;
      }
    }

    method Alloc() returns (p: Option<Pointer>)
      requires Valid()
      modifies this, freelist
      ensures Valid()
      ensures p.None? <==> old(freelist.contents) == []
      ensures p.Some? ==> p.value == old(freelist.contents)[0] && freelist.contents == old(freelist.contents)[1..]
      ensures p.None? ==> freelist.contents == []
      ensures frees == old(frees)
      ensures allocs == old(allocs) + (if p.Some? then 1 else 0)
      ensures failures == old(failures) + (if p.Some? then 0 else 1)
    {
      if freelist.contents != [] { TakeFirst(freelist.contents); }
      p := freelist.Pop();
      if p.Some? {
        allocs := allocs + 1;
      } else {
        failures := failures + 1;
      }
    }

    /** The block must be one of the pool's and not free already; the ring then has room. */
    method Free(p: Pointer)
      requires Valid() && p in All() && p !in Elements(freelist.contents)
      modifies this, freelist, freelist.slots
      ensures Valid() && freelist.contents == old(freelist.contents) + [p]
      ensures frees == old(frees) + 1 && allocs == old(allocs) && failures == old(failures)
    {
      AddLast(freelist.contents, p);
      RoomFor(freelist.contents, p, freelist.k, blockSize);
      var ok := freelist.Push(p);
      assert ok;
      frees := frees + 1;
    }
  }

  /** The public constructor, for any arguments; `mapped` says whether the system provides the
      backing. It throws exactly if it does not, or if the 64-bit size of the backing is 0, which
      cannot be mapped; this covers every argument that is rounded to 0. */
  method Create(wantedSize: nat, wantedBlocks: nat, mapped: bool) returns (size: nat, n: nat, pool: Option<MemoryPool>)
    requires wantedSize < U64 && wantedBlocks < U64
    ensures wantedSize <= 64 ==> size == 64
    ensures 64 < wantedSize <= U64 - 64 ==> wantedSize <= size < wantedSize + 64
    ensures wantedBlocks <= 2 ==> n == 2
    ensures 2 <= wantedBlocks <= U64 / 2 ==> wantedBlocks <= n < 2 * wantedBlocks
    ensures wantedSize + CACHE_LINE > U64 || wantedBlocks > U64 / 2 ==> pool.None?
    ensures pool.None? <==> !mapped || BackingSize(n, size) == 0
    ensures pool.Some? ==>
              && pool.value.Valid() && fresh(pool.value) && fresh(pool.value.freelist) && fresh(pool.value.freelist.slots)
              && pool.value.blockSize == size && pool.value.numBlocks == n
              && pool.value.freelist.contents == Layout(n, size)
              && (AllInside(n, size) <==> n * size < U64)
  {
    hide Pow2;
    hide Layout;
    hide InRing;
    ghost var k: nat;
    size, n, k := RoundUp(wantedSize, wantedBlocks);
    if !mapped || (size * n) % U64 == 0 {
      return size, n, None;
    }
    InsideIff(n, size);
    var p := new MemoryPool(size, n, k);
    pool := Some(p);
  }

  lemma RoomFor(contents: seq<Pointer>, p: Pointer, k: nat, size: nat)
    requires BackingSize(Pow2(k), size) != 0 && Distinct(contents) && p !in Elements(contents)
    requires Elements(contents) + {p} <= Elements(Layout(Pow2(k), size))
    ensures |contents| < Pow2(k)
  {
    hide Pow2;
    hide BackingSize;
    LayoutDistinct(k, size);
    DistinctSize(contents);
    DistinctSize(Layout(Pow2(k), size));
    SmallerSet(Elements(contents) + {p}, Elements(Layout(Pow2(k), size)));
  }
}
