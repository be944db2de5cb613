/** The shared segment of spsc_bus/spsc_bus.hpp: where the slot of a position lives. */
module BusLayout {
  import opened Bits

  const CACHE_LINE: nat := 64
  const CONTROL_BLOCK: nat := 256
  const SLOT_HEADER: nat := 8

  /** The largest payload limit whose stride still fits the 32-bit `slot_stride` field. */
  const MAX_SAFE_MSG: nat := 0xFFFF_FFB8

  /** `(raw + 63) & ~63`, in 64-bit arithmetic. */
  function SlotStride(maxMsg: nat): nat
    requires maxMsg < U32
  {
    And(SLOT_HEADER + maxMsg + CACHE_LINE - 1, U64 - CACHE_LINE)
  }

  function ShmSize(capacity: nat, maxMsg: nat): nat
    requires maxMsg < U32
  {
    CONTROL_BLOCK + capacity * SlotStride(maxMsg)
  }

  /** The 64-bit position is truncated to 32 bits and masked. */
  function SlotIndex(pos: nat, capacity: nat): nat
    requires capacity >= 1
  {
    And(pos % U32, capacity - 1)
  }

  /** Byte offset of the slot of `pos`; the control block stores the stride in 32 bits. */
  function SlotOffset(pos: nat, capacity: nat, maxMsg: nat): nat
    requires capacity >= 1 && maxMsg < U32
  {
    CONTROL_BLOCK + SlotIndex(pos % U64, capacity) * (SlotStride(maxMsg) % U32)
  }

  lemma Pow2Divides(k: nat, n: nat)
    requires k <= n
    ensures Pow2(n) == Pow2(n - k) * Pow2(k)
  {
    Pow2Sum(n - k, k);
  }

  /** Neither the wrap at 2^64 nor the truncation to 32 bits is visible in the slot index. */
  lemma IndexIsMod(pos: nat, k: nat)
    requires k <= 32
    ensures SlotIndex(pos, Pow2(k)) == pos % Pow2(k)
    ensures SlotIndex(pos % U64, Pow2(k)) == pos % Pow2(k)
  {
    hide Pow2;
    hide And;
    Pow2Words();
    Pow2Divides(k, 32);
    AndMask(pos % U32, k);
    AndMask((pos % U64) % U32, k);
    ModOfMod(pos, Pow2(32 - k), Pow2(k));
    ModOfMod(pos, U32, U32);
  }

  lemma StrideIs(maxMsg: nat)
    requires maxMsg < U32
    ensures SlotStride(maxMsg) % 64 == 0
    ensures 8 + maxMsg <= SlotStride(maxMsg) < 8 + maxMsg + 64
  {
    hide And;
    assert Pow2(6) == 64;
    Pow2Words();
    var x := SLOT_HEADER + maxMsg + CACHE_LINE - 1;
    AndNotMask(x, 64, 6);
  }

  predicate Apart(p: nat, q: nat, capacity: nat, maxMsg: nat)
    requires capacity >= 1 && maxMsg < U32
  {
    var size := SLOT_HEADER + maxMsg;
    var a, b := SlotOffset(p, capacity, maxMsg), SlotOffset(q, capacity, maxMsg);
    a + size <= b || b + size <= a
  }

  /** Any `capacity` consecutive positions, however large, occupy disjoint byte ranges inside the
      segment, if the stride fits its 32-bit field. */
  lemma SlotsDisjoint(p: nat, q: nat, k: nat, maxMsg: nat)
    requires k <= 31 && maxMsg <= MAX_SAFE_MSG && p < q < p + Pow2(k)
    ensures Apart(p, q, Pow2(k), maxMsg)
    ensures 256 <= SlotOffset(p, Pow2(k), maxMsg)
    ensures SlotOffset(p, Pow2(k), maxMsg) + SLOT_HEADER + maxMsg <= ShmSize(Pow2(k), maxMsg)
  {
    hide Pow2;
    hide SlotStride;
    hide SlotOffset;
    OffsetIs(p, k, maxMsg);
    OffsetIs(q, k, maxMsg);
    DistinctSlots(p, q, k);
    RangesApart(p % Pow2(k), q % Pow2(k), Pow2(k), SlotStride(maxMsg), SLOT_HEADER + maxMsg);
  }

  /** The slots fill the segment: the first is behind the control block, the last ends with it. */
  lemma SegmentIsFull(k: nat, maxMsg: nat)
    requires k <= 31 && maxMsg <= MAX_SAFE_MSG
    ensures SlotOffset(0, Pow2(k), maxMsg) == 256
    ensures SlotOffset(Pow2(k) - 1, Pow2(k), maxMsg) + SlotStride(maxMsg) == ShmSize(Pow2(k), maxMsg)
  {
    hide Pow2;
    hide SlotStride;
    hide SlotOffset;
    var c, stride := Pow2(k), SlotStride(maxMsg);
    OffsetIs(0, k, maxMsg);
    OffsetIs(c - 1, k, maxMsg);
    DivModUnique(0, c, 0, 0);
    DivModUnique(c - 1, c, 0, c - 1);
    assert (c - 1) * stride + stride == c * stride;
  }

  lemma OffsetIs(p: nat, k: nat, maxMsg: nat)
    requires k <= 31 && maxMsg <= MAX_SAFE_MSG
    ensures SlotOffset(p, Pow2(k), maxMsg) == CONTROL_BLOCK + (p % Pow2(k)) * SlotStride(maxMsg)
    ensures SlotStride(maxMsg) >= SLOT_HEADER + maxMsg
  {
    hide Pow2;
    hide SlotStride;
    hide SlotIndex;
    StrideIs(maxMsg);
    IndexIsMod(p, k);
  }

  lemma RangesApart(i: nat, j: nat, c: nat, stride: nat, size: nat)
    requires i != j && i < c && j < c && size <= stride
    ensures i * stride + size <= j * stride || j * stride + size <= i * stride
    ensures i * stride + size <= c * stride
  {
    if i < j {
      ScaledApart(i, j, stride, size);
    } else {
      ScaledApart(j, i, stride, size);
    }
    ScaledApart(i, c, stride, size);
  }

  ghost predicate AllApart(capacity: nat, maxMsg: nat)
    requires capacity >= 1 && maxMsg < U32
  {
    forall p: nat, q: nat :: p < q < p + capacity ==> Apart(p, q, capacity, maxMsg)
  }

  /** Above the limit the truncated stride makes the first two slots overlap. */
  lemma TruncatedOverlap(k: nat, maxMsg: nat)
    requires 1 <= k <= 31 && MAX_SAFE_MSG < maxMsg < U32
    ensures !Apart(0, 1, Pow2(k), maxMsg)
  {
    hide Pow2;
    hide SlotStride;
    hide SlotIndex;
    StrideIs(maxMsg);
    AtLeastTwo(k);
    IndexIsMod(0, k);
    IndexIsMod(1, k);
    DivModUnique(0, Pow2(k), 0, 0);
    DivModUnique(1, Pow2(k), 0, 1);
    assert SlotStride(maxMsg) % U32 < SLOT_HEADER + maxMsg;
  }

  lemma AtLeastTwo(k: nat)
    requires k >= 1
    ensures Pow2(k) >= 2
  {
  }

  /** The bound on the payload limit is exact, for every capacity that has neighbouring slots. */
  lemma StrideLimit(k: nat, maxMsg: nat)
    requires 1 <= k <= 31 && maxMsg < U32
    ensures AllApart(Pow2(k), maxMsg) <==> maxMsg <= 0xFFFF_FFB8
  {
    hide Pow2;
    hide Apart;
    if maxMsg <= MAX_SAFE_MSG {
      forall p: nat, q: nat | p < q < p + Pow2(k)
        ensures Apart(p, q, Pow2(k), maxMsg)
      {
        SlotsDisjoint(p, q, k, maxMsg);
      }
    } else {
      AtLeastTwo(k);
      TruncatedOverlap(k, maxMsg);
    }
  }

  // ---- what both bus protocols share ----------------------------------------------------------

  type Msg = seq<byte>

  /** Capacity is `2^k` slots. */
  datatype Config = Config(k: nat, maxMsg: nat)

  /** A bus that `create` accepts, with a stride that fits its field, so that the slots are disjoint
      (BusLayout.StrideLimit). */
  predicate ValidConfig(cfg: Config) {
    cfg.k <= 31 && 1 <= cfg.maxMsg <= MAX_SAFE_MSG
  }

  function Capacity(cfg: Config): nat {
    Pow2(cfg.k)
  }

  datatype Slot = Slot(size: nat, data: seq<byte>)

  function At(cfg: Config, pos: nat): nat {
    SlotIndex(pos, Capacity(cfg))
  }

  function CopySize(size: nat, buf: nat): nat {
    if size < buf then size else buf
  }

  /** What a pop into a buffer of `buf` bytes delivers of `msg`: its size, and all of it if it fits,
      else its first `buf` bytes. */
  predicate Delivers(msg: Msg, buf: nat, size: nat, out: Msg) {
    && size == |msg|
    && (size <= buf ==> out == msg)
    && (buf < size ==> |out| == buf && out <= msg)
  }

  lemma CopyDelivers(msg: Msg, buf: nat)
    ensures CopySize(|msg|, buf) <= |msg| && Delivers(msg, buf, |msg|, msg[..CopySize(|msg|, buf)])
  {
    assert msg[..|msg|] == msg;
  }

  predicate Holds(slot: Slot, msg: Msg) {
    slot.size == |msg| <= |slot.data| && slot.data[..|msg|] == msg
  }

  /** The size and the first `m` bytes of the message are in the slot. */
  predicate Begun(slot: Slot, maxMsg: nat, msg: Msg, m: nat) {
    m <= |msg| <= |slot.data| == maxMsg && slot.size == |msg| && slot.data[..m] == msg[..m]
  }

  lemma IndexBound(cfg: Config, pos: nat)
    requires ValidConfig(cfg)
    ensures At(cfg, pos) < Capacity(cfg)
  {
    hide Pow2;
    hide SlotIndex;
    IndexIsMod(pos, cfg.k);
  }

  lemma CapacityFits(cfg: Config)
    requires ValidConfig(cfg)
    ensures 1 <= Capacity(cfg) < U32
  {
    Pow2Words();
    Pow2Monotone(cfg.k, 31);
    Pow2Monotone(31, 32);
  }

  lemma IndexWrap(cfg: Config, pos: nat)
    requires ValidConfig(cfg)
    ensures At(cfg, pos % U64) == At(cfg, pos)
  {
    hide Pow2;
    hide SlotIndex;
    IndexIsMod(pos, cfg.k);
  }

  lemma IndexApart(cfg: Config, p: nat, q: nat)
    requires ValidConfig(cfg) && p < q < p + Capacity(cfg)
    ensures At(cfg, p) != At(cfg, q)
  {
    hide Pow2;
    hide SlotIndex;
    IndexIsMod(p, cfg.k);
    IndexIsMod(q, cfg.k);
    DistinctSlots(p, q, cfg.k);
  }
}
