/** The lossless bus of spsc_bus/spsc_bus.hpp as two processes that interleave one memory access at
    a time over sequentially consistent memory: `try_push`, `try_pop`, the constructors as attach
    steps, and a crash of either side at any point. */
module SpscBus {
  import opened Bits
  import opened BusLayout

  /** Where the producer is: constructor loads, idle, or inside `try_push`. */
  datatype Producer =
    | PBoot | PBoot2 | PIdle
    | PRefresh(msg: Msg)
    | PSize(msg: Msg)
    | PCopy(msg: Msg, n: nat)
    | PBump

  /** Where the consumer is: constructor loads, idle, or inside `try_pop` with its `buf_size`. */
  datatype Consumer =
    | CBoot | CBoot2 | CIdle
    | CRefresh(buf: nat)
    | CSize(buf: nat)
    | CCopy(buf: nat, size: nat, out: Msg)
    | CDone(buf: nat, size: nat, out: Msg)
    | CBump(size: nat)

  datatype PushResult = NoPush | Pushed | Full | TooBig
  datatype PopResult = NoPop | Popped(size: nat) | Empty

  /** A finished copy: which message, how large it was, how much the buffer could hold. */
  datatype Copy = Copy(pos: nat, size: nat, buf: nat, bytes: Msg)

  datatype Memory = Memory(slots: seq<Slot>, writePos: nat, readPos: nat)

  /** Program point, `write_pos_`, `read_cache_` and the last result. */
  datatype ProducerState = ProducerState(pc: Producer, w: nat, rc: nat, result: PushResult)

  /** Program point, `read_pos_`, `write_cache_` and the last result. */
  datatype ConsumerState = ConsumerState(pc: Consumer, r: nat, wc: nat, result: PopResult)

  /** Messages published, number released, copies finished, how many copies were finished by a
      consumer that died before releasing the slot, and whether the next message is one of those. */
  datatype History = History(published: seq<Msg>, taken: nat, log: seq<Copy>, lost: nat, redo: bool)

  datatype State = State(mem: Memory, prod: ProducerState, cons: ConsumerState, hist: History)

  datatype Event = Push(msg: Msg) | PStep | Pop(buf: nat) | CStep | PCrash | CCrash

  function Init(cfg: Config): State {
    State(Memory(seq(Capacity(cfg), i => Slot(0, seq(cfg.maxMsg, j => 0))), 0, 0),
          ProducerState(PBoot, 0, 0, NoPush), ConsumerState(CBoot, 0, 0, NoPop), History([], 0, [], 0, false))
  }

  predicate Shaped(cfg: Config, slots: seq<Slot>) {
    && |slots| == Capacity(cfg)
    && forall i :: 0 <= i < |slots| ==> |slots[i].data| == cfg.maxMsg
  }

  // ---- steps ----------------------------------------------------------------------------------

  /** Which events can happen; the bounds on a copy in progress hold in every reachable state. */
  predicate Enabled(cfg: Config, s: State, e: Event) {
    match e
    case Push(_) => s.prod.pc.PIdle?
    case PStep => !s.prod.pc.PIdle? && (s.prod.pc.PCopy? ==> s.prod.pc.n <= |s.prod.pc.msg| <= cfg.maxMsg)
    case Pop(_) => s.cons.pc.CIdle?
    case CStep => !s.cons.pc.CIdle? && (s.cons.pc.CCopy? ==> s.cons.pc.size <= cfg.maxMsg)
    case PCrash => true
    case CCrash => true
  }

  function Next(wrap: bool, cfg: Config, s: State, e: Event): State
    requires Shaped(cfg, s.mem.slots) && ValidConfig(cfg) && Enabled(cfg, s, e)
  {
    match e
    case Push(msg) => s.(prod := StartPush(wrap, cfg, s.prod, msg))
    case PStep => ProducerStep(wrap, cfg, s)
    case Pop(buf) => s.(cons := s.cons.(pc := if s.cons.r == s.cons.wc then CRefresh(buf) else CSize(buf)))
    case CStep => ConsumerStep(wrap, cfg, s)
    case PCrash => s.(prod := s.prod.(pc := PBoot))
    case CCrash =>
      s.(cons := s.cons.(pc := CBoot),
         hist := if s.cons.pc.CDone? then s.hist.(lost := s.hist.lost + 1, redo := true) else s.hist)
  }

  function StartPush(wrap: bool, cfg: Config, p: ProducerState, msg: Msg): ProducerState {
    if |msg| > cfg.maxMsg then p.(result := TooBig)
    else if Minus(wrap, p.w, p.rc) >= Capacity(cfg) then p.(pc := PRefresh(msg))
    else p.(pc := PSize(msg))
  }

  function WithSlot(mem: Memory, i: nat, slot: Slot): Memory
    requires i < |mem.slots|
  {
    mem.(slots := mem.slots[i := slot])
  }

  function ProducerStep(wrap: bool, cfg: Config, s: State): State
    requires Shaped(cfg, s.mem.slots) && ValidConfig(cfg) && Enabled(cfg, s, PStep)
  {
    IndexBound(cfg, s.prod.w);
    var i := At(cfg, s.prod.w);
    var slot := s.mem.slots[i];
    var p, mem := s.prod, s.mem;
    match p.pc
    case PBoot => s.(prod := p.(w := mem.writePos, pc := PBoot2))
    case PBoot2 => s.(prod := p.(rc := mem.readPos, pc := PIdle))
    case PRefresh(msg) =>
      if Minus(wrap, p.w, mem.readPos) >= Capacity(cfg) then
        s.(prod := p.(rc := mem.readPos, pc := PIdle, result := Full))
      else
        s.(prod := p.(rc := mem.readPos, pc := PSize(msg)))
    case PSize(msg) =>
      s.(mem := WithSlot(mem, i, slot.(size := |msg|)), prod := p.(pc := PCopy(msg, 0)))
    case PCopy(msg, n) =>
      if n < |msg| then
        s.(mem := WithSlot(mem, i, slot.(data := slot.data[n := msg[n]])), prod := p.(pc := PCopy(msg, n + 1)))
      else
        s.(mem := mem.(writePos := Inc(wrap, p.w)), prod := p.(pc := PBump),
           hist := s.hist.(published := s.hist.published + [msg]))
    case PBump => s.(prod := p.(w := Inc(wrap, p.w), pc := PIdle, result := Pushed))
  }

  function ConsumerStep(wrap: bool, cfg: Config, s: State): State
    requires Shaped(cfg, s.mem.slots) && ValidConfig(cfg) && Enabled(cfg, s, CStep)
  {
    IndexBound(cfg, s.cons.r);
    var slot := s.mem.slots[At(cfg, s.cons.r)];
    var c, mem := s.cons, s.mem;
    match c.pc
    case CBoot => s.(cons := c.(r := mem.readPos, pc := CBoot2))
    case CBoot2 => s.(cons := c.(wc := mem.writePos, pc := CIdle))
    case CRefresh(buf) =>
      if c.r == mem.writePos then s.(cons := c.(wc := mem.writePos, pc := CIdle, result := Empty))
      else s.(cons := c.(wc := mem.writePos, pc := CSize(buf)))
    case CSize(buf) => s.(cons := c.(pc := CCopy(buf, slot.size, [])))
    case CCopy(buf, size, out) =>
      if |out| < CopySize(size, buf) then s.(cons := c.(pc := CCopy(buf, size, out + [slot.data[|out|]])))
      else
        s.(cons := c.(pc := CDone(buf, size, out)),
           hist := s.hist.(log := s.hist.log + [Copy(s.hist.taken, size, buf, out)]))
    case CDone(buf, size, out) =>
      s.(mem := mem.(readPos := Inc(wrap, c.r)), cons := c.(pc := CBump(size)),
         hist := s.hist.(taken := s.hist.taken + 1, redo := false))
    case CBump(size) => s.(cons := c.(r := Inc(wrap, c.r), pc := CIdle, result := Popped(size)))
  }

  // ---- invariant, over unbounded positions ----------------------------------------------------

  /** The ring: at most a capacity of messages published and not released, each intact in its slot. */
  ghost predicate RingOk(cfg: Config, mem: Memory, published: seq<Msg>, taken: nat) {
    && ValidConfig(cfg) && Shaped(cfg, mem.slots)
    && mem.writePos == |published| && mem.readPos == taken
    && taken <= |published| <= taken + Capacity(cfg)
    && (forall q :: taken <= q < |published| ==>
          At(cfg, q) < |mem.slots| && Holds(mem.slots[At(cfg, q)], published[q]))
  }

  /** The producer's registers: its position is exact, its view of the consumer is at worst stale,
      and the first bytes of the message being copied are in place. */
  ghost predicate ProducerOk(cfg: Config, p: ProducerState, slots: seq<Slot>, n: nat, taken: nat) {
    match p.pc
    case PBoot => true
    case PBoot2 => p.w == n
    case PIdle => p.w == n && p.rc <= taken && n - p.rc <= Capacity(cfg)
    case PRefresh(msg) => p.w == n && p.rc <= taken && n - p.rc <= Capacity(cfg) && |msg| <= cfg.maxMsg
    case PSize(msg) => p.w == n && p.rc <= taken && n - p.rc < Capacity(cfg) && |msg| <= cfg.maxMsg
    case PCopy(msg, m) =>
      && p.w == n && p.rc <= taken && n - p.rc < Capacity(cfg) && m <= |msg| <= cfg.maxMsg
      && At(cfg, n) < |slots| && Begun(slots[At(cfg, n)], cfg.maxMsg, msg, m)
    case PBump => n > 0 && p.w == n - 1 && p.rc <= taken && n - 1 - p.rc < Capacity(cfg)
  }

  /** The consumer's registers, and the copy in progress. */
  ghost predicate ConsumerOk(cfg: Config, c: ConsumerState, published: seq<Msg>, taken: nat) {
    var n := |published|;
    match c.pc
    case CBoot => true
    case CBoot2 => c.r == taken
    case CIdle => c.r == taken <= c.wc <= n
    case CRefresh(_) => c.r == taken <= c.wc <= n
    case CSize(_) => c.r == taken < c.wc <= n
    case CCopy(buf, size, out) =>
      && c.r == taken < c.wc <= n && size == |published[taken]| <= cfg.maxMsg
      && |out| <= CopySize(size, buf) && out == published[taken][..|out|]
    case CDone(buf, size, out) =>
      c.r == taken < c.wc <= n && size == |published[taken]| && out == published[taken][..CopySize(size, buf)]
    case CBump(size) => taken > 0 && c.r == taken - 1 && c.r < c.wc <= n && size == |published[taken - 1]|
  }

  /** The copy is byte for byte the published message, cut to the buffer. */
  ghost predicate Faithful(c: Copy, published: seq<Msg>) {
    c.pos < |published| && Delivers(published[c.pos], c.buf, c.size, c.bytes)
  }

  function Last(h: History, done: bool): int {
    if done || h.redo then h.taken else h.taken - 1
  }

  /** Copies are faithful and in order; a position repeats only after a copy whose consumer died
      before releasing it, and `lost` counts exactly those. `done`: a copy awaits its release. */
  ghost predicate LogOk(h: History, done: bool) {
    && (forall i :: 0 <= i < |h.log| ==> Faithful(h.log[i], h.published))
    && (|h.log| > 0 ==> h.log[0].pos == 0)
    && (forall i :: 0 < i < |h.log| ==> h.log[i - 1].pos <= h.log[i].pos <= h.log[i - 1].pos + 1)
    && |h.log| == h.taken + h.lost + (if done then 1 else 0)
    && (if |h.log| == 0 then Last(h, done) == -1 else h.log[|h.log| - 1].pos == Last(h, done))
    && (h.redo ==> h.lost > 0)
  }

  ghost predicate Inv(cfg: Config, s: State) {
    && RingOk(cfg, s.mem, s.hist.published, s.hist.taken)
    && ProducerOk(cfg, s.prod, s.mem.slots, |s.hist.published|, s.hist.taken)
    && ConsumerOk(cfg, s.cons, s.hist.published, s.hist.taken)
    && LogOk(s.hist, s.cons.pc.CDone?)
  }

  // ---- every step keeps it --------------------------------------------------------------------

  /** Writing the slot of the next position leaves every published message alone. */
  lemma WriteKeepsRing(cfg: Config, mem: Memory, published: seq<Msg>, taken: nat, slot: Slot)
    requires RingOk(cfg, mem, published, taken) && |published| - taken < Capacity(cfg) && |slot.data| == cfg.maxMsg
    ensures At(cfg, |published|) < |mem.slots|
    ensures RingOk(cfg, WithSlot(mem, At(cfg, |published|), slot), published, taken)
  {
    hide At;
    hide Capacity;
    var n := |published|;
    IndexBound(cfg, n);
    forall q | taken <= q < n
      ensures At(cfg, q) != At(cfg, n)
    {
      IndexApart(cfg, q, n);
    }
  }

  lemma PublishKeepsRing(cfg: Config, mem: Memory, published: seq<Msg>, taken: nat, msg: Msg)
    requires RingOk(cfg, mem, published, taken) && |published| - taken < Capacity(cfg)
    requires At(cfg, |published|) < |mem.slots| && Begun(mem.slots[At(cfg, |published|)], cfg.maxMsg, msg, |msg|)
    ensures RingOk(cfg, mem.(writePos := |published| + 1), published + [msg], taken)
  {
    hide At;
    hide Capacity;
  }

  lemma PublishKeepsConsumer(cfg: Config, c: ConsumerState, published: seq<Msg>, taken: nat, msg: Msg)
    requires ConsumerOk(cfg, c, published, taken)
    ensures ConsumerOk(cfg, c, published + [msg], taken)
  {
    hide Capacity;
  }

  lemma PublishKeepsLog(h: History, done: bool, msg: Msg)
    requires LogOk(h, done)
    ensures LogOk(h.(published := h.published + [msg]), done)
  {
    forall i | 0 <= i < |h.log|
      ensures Faithful(h.log[i], h.published + [msg])
    {
      assert Faithful(h.log[i], h.published);
    }
  }

  lemma ProducerKeeps(cfg: Config, s: State)
    requires Inv(cfg, s) && Enabled(cfg, s, PStep)
    ensures Inv(cfg, Next(false, cfg, s, PStep))
  {
    hide At;
    hide Capacity;
    hide LogOk;
    hide ConsumerOk;
    hide Holds;
    var n, slots, h := |s.hist.published|, s.mem.slots, s.hist;
    IndexBound(cfg, s.prod.w);
    match s.prod.pc
    case PSize(msg) =>
      WriteKeepsRing(cfg, s.mem, h.published, h.taken, slots[At(cfg, n)].(size := |msg|));
    case PCopy(msg, m) =>
      var slot := slots[At(cfg, n)];
      if m < |msg| {
        WriteKeepsRing(cfg, s.mem, h.published, h.taken, slot.(data := slot.data[m := msg[m]]));
        assert slot.data[m := msg[m]][..m + 1] == msg[..m + 1];
      } else {
        PublishKeepsRing(cfg, s.mem, h.published, h.taken, msg);
        PublishKeepsConsumer(cfg, s.cons, h.published, h.taken, msg);
        PublishKeepsLog(h, s.cons.pc.CDone?, msg);
      }
    case _ =>
  }

  lemma CopyKeepsConsumer(cfg: Config, s: State)
    requires Inv(cfg, s) && (s.cons.pc.CSize? || s.cons.pc.CCopy?)
    ensures ConsumerOk(cfg, Next(false, cfg, s, CStep).cons, s.hist.published, s.hist.taken)
  {
    hide At;
    hide Capacity;
    hide LogOk;
    hide ProducerOk;
    IndexBound(cfg, s.cons.r);
    var slot, msg := s.mem.slots[At(cfg, s.cons.r)], s.hist.published[s.hist.taken];
    assert Holds(slot, msg);
    if s.cons.pc.CCopy? && |s.cons.pc.out| < CopySize(s.cons.pc.size, s.cons.pc.buf) {
      var k := |s.cons.pc.out|;
      assert slot.data[k] == slot.data[..|msg|][k];
      assert msg[..k + 1] == msg[..k] + [slot.data[k]];
    }
  }

  lemma AppendKeepsLog(h: History, c: Copy)
    requires LogOk(h, false) && Faithful(c, h.published) && c.pos == h.taken
    ensures LogOk(h.(log := h.log + [c]), true)
  {
    hide Faithful;
  }

  lemma ConsumerKeeps(cfg: Config, s: State)
    requires Inv(cfg, s) && Enabled(cfg, s, CStep)
    ensures Inv(cfg, Next(false, cfg, s, CStep))
  {
    hide At;
    hide Capacity;
    hide Holds;
    hide Begun;
    hide Faithful;
    IndexBound(cfg, s.cons.r);
    match s.cons.pc
    case CSize(_) => CopyKeepsConsumer(cfg, s);
    case CCopy(buf, size, out) =>
      CopyKeepsConsumer(cfg, s);
      if |out| >= CopySize(size, buf) {
        FaithfulCopy(cfg, s.cons, s.hist.published, s.hist.taken);
        AppendKeepsLog(s.hist, Copy(s.hist.taken, size, buf, out));
      }
    case _ =>
  }

  lemma FaithfulCopy(cfg: Config, c: ConsumerState, published: seq<Msg>, taken: nat)
    requires ConsumerOk(cfg, c, published, taken) && c.pc.CCopy? && |c.pc.out| >= CopySize(c.pc.size, c.pc.buf)
    ensures Faithful(Copy(taken, c.pc.size, c.pc.buf, c.pc.out), published)
  {
    CopyDelivers(published[taken], c.pc.buf);
  }

  lemma StepKeeps(cfg: Config, s: State, e: Event)
    requires Inv(cfg, s) && Enabled(cfg, s, e)
    ensures Inv(cfg, Next(false, cfg, s, e))
  {
    hide At;
    hide Capacity;
    hide Holds;
    hide Begun;
    hide Faithful;
    match e
    case PStep => ProducerKeeps(cfg, s);
    case CStep => ConsumerKeeps(cfg, s);
    case _ =>
  }

  lemma InitOk(cfg: Config)
    requires ValidConfig(cfg)
    ensures Inv(cfg, Init(cfg))
  {
    hide At;
    hide Capacity;
  }

  /** The side conditions in Enabled exclude nothing: in every reachable state both processes can
      take their next step, whatever the other does. */
  lemma NeverStuck(cfg: Config, s: State)
    requires Inv(cfg, s)
    ensures Enabled(cfg, s, PStep) <==> !s.prod.pc.PIdle?
    ensures Enabled(cfg, s, CStep) <==> !s.cons.pc.CIdle?
  {
  }

  /** How many of its own steps each side needs to finish the call it is in. */
  function ProducerWork(pc: Producer): nat {
    match pc
    case PBoot => 2
    case PBoot2 => 1
    case PIdle => 0
    case PRefresh(msg) => |msg| + 4
    case PSize(msg) => |msg| + 3
    case PCopy(msg, n) => if n <= |msg| then |msg| - n + 2 else 0
    case PBump => 1
  }

  function ConsumerWork(cfg: Config, pc: Consumer): nat {
    match pc
    case CBoot => 2
    case CBoot2 => 1
    case CIdle => 0
    case CRefresh(_) => cfg.maxMsg + 5
    case CSize(_) => cfg.maxMsg + 4
    case CCopy(buf, size, out) => if |out| <= CopySize(size, buf) then CopySize(size, buf) - |out| + 3 else 0
    case CDone(_, _, _) => 2
    case CBump(_) => 1
  }

  /** Wait-freedom: whatever the other side does, or if it stops, each step a side takes brings its
      call nearer to the end, and no step of the other side sets it back. */
  lemma WaitFree(cfg: Config, s: State)
    requires Inv(cfg, s)
    ensures !s.prod.pc.PIdle? ==>
              var s' := Next(false, cfg, s, PStep);
              ProducerWork(s'.prod.pc) < ProducerWork(s.prod.pc) && s'.cons == s.cons
    ensures !s.cons.pc.CIdle? ==>
              var s' := Next(false, cfg, s, CStep);
              ConsumerWork(cfg, s'.cons.pc) < ConsumerWork(cfg, s.cons.pc) && s'.prod == s.prod
  {
    hide At;
    hide Capacity;
    hide LogOk;
    IndexBound(cfg, s.prod.w);
    IndexBound(cfg, s.cons.r);
    if s.cons.pc.CSize? {
      assert Holds(s.mem.slots[At(cfg, s.cons.r)], s.hist.published[s.hist.taken]);
    }
  }

  // ---- 64-bit positions -----------------------------------------------------------------------

  /** The state as the source represents it: every position modulo 2^64. */
  function Image(s: State): State {
    s.(mem := s.mem.(writePos := s.mem.writePos % U64, readPos := s.mem.readPos % U64),
       prod := s.prod.(w := s.prod.w % U64, rc := s.prod.rc % U64),
       cons := s.cons.(r := s.cons.r % U64, wc := s.cons.wc % U64))
  }

  lemma ImageProducer(cfg: Config, s: State)
    requires Inv(cfg, s) && Enabled(cfg, s, PStep)
    ensures Next(true, cfg, Image(s), PStep) == Image(Next(false, cfg, s, PStep))
  {
    hide At;
    hide Capacity;
    hide LogOk;
    hide ConsumerOk;
    hide Holds;
    hide Begun;
    CapacityFits(cfg);
    IndexWrap(cfg, s.prod.w);
    IndexBound(cfg, s.prod.w);
    WrappedInc(s.prod.w);
    if s.prod.pc.PRefresh? {
      WrappedMinus(s.prod.w, s.mem.readPos);
    }
  }

  lemma ImageConsumer(cfg: Config, s: State)
    requires Inv(cfg, s) && Enabled(cfg, s, CStep)
    ensures Next(true, cfg, Image(s), CStep) == Image(Next(false, cfg, s, CStep))
  {
    hide At;
    hide Capacity;
    hide LogOk;
    hide ProducerOk;
    hide Holds;
    CapacityFits(cfg);
    IndexWrap(cfg, s.cons.r);
    IndexBound(cfg, s.cons.r);
    WrappedInc(s.cons.r);
    if s.cons.pc.CRefresh? {
      WrappedMinus(s.mem.writePos, s.cons.r);
    }
  }

  /** Every step on 64-bit positions is the image of the same step on unbounded ones: overflow of
      the counters is invisible, at every point of the protocol. */
  lemma ImageStep(cfg: Config, s: State, e: Event)
    requires Inv(cfg, s) && Enabled(cfg, s, e)
    ensures Shaped(cfg, Image(s).mem.slots) && Enabled(cfg, Image(s), e)
    ensures Next(true, cfg, Image(s), e) == Image(Next(false, cfg, s, e))
  {
    hide At;
    hide Capacity;
    hide LogOk;
    hide Holds;
    hide Begun;
    CapacityFits(cfg);
    match e
    case Push(_) => WrappedMinus(s.prod.w, s.prod.rc);
    case PStep => ImageProducer(cfg, s);
    case Pop(_) => WrappedMinus(s.cons.wc, s.cons.r);
    case CStep => ImageConsumer(cfg, s);
    case _ =>
  }

  // ---- every run ------------------------------------------------------------------------------

  ghost predicate Step(wrap: bool, cfg: Config, s: State, e: Event, s': State) {
    ValidConfig(cfg) && Shaped(cfg, s.mem.slots) && Enabled(cfg, s, e) && s' == Next(wrap, cfg, s, e)
  }

  /** Any interleaving of the two processes, with any crashes, from a freshly created segment. */
  ghost predicate Run(wrap: bool, cfg: Config, ss: seq<State>, es: seq<Event>) {
    && ValidConfig(cfg) && |ss| == |es| + 1 && ss[0] == Init(cfg)
    && forall i :: 0 <= i < |es| ==> Step(wrap, cfg, ss[i], es[i], ss[i + 1])
  }

  /** Every run of the 64-bit machine is the image of a run on unbounded positions that keeps the
      invariant. */
  lemma {:induction false} Unwrap(cfg: Config, ss: seq<State>, es: seq<Event>) returns (us: seq<State>)
    requires Run(true, cfg, ss, es)
    ensures Run(false, cfg, us, es)
    ensures forall i :: 0 <= i <= |es| ==> ss[i] == Image(us[i]) && Inv(cfg, us[i])
    decreases |es|
  {
    hide Inv;
    hide Next;
    hide Shaped;
    hide Image;
    hide Init;
    hide Enabled;
    if es == [] {
      InitOk(cfg);
      InitImage(cfg);
      us := [Init(cfg)];
    } else {
      var n := |es| - 1;
      var prior := Unwrap(cfg, ss[..n + 1], es[..n]);
      assert Step(true, cfg, ss[n], es[n], ss[n + 1]);
      SameEnabled(cfg, prior[n], es[n]);
      StepKeeps(cfg, prior[n], es[n]);
      ImageStep(cfg, prior[n], es[n]);
      us := prior + [Next(false, cfg, prior[n], es[n])];
      assert forall i :: 0 <= i <= n ==> us[i] == prior[i];
      forall i | 0 <= i < |es|
        ensures Step(false, cfg, us[i], es[i], us[i + 1])
      {
        if i < n { assert Step(false, cfg, prior[i], es[..n][i], prior[i + 1]); }
      }
    }
  }

  lemma InitImage(cfg: Config)
    ensures Init(cfg) == Image(Init(cfg))
  {
  }

  lemma SameEnabled(cfg: Config, s: State, e: Event)
    requires Inv(cfg, s)
    ensures Enabled(cfg, Image(s), e) <==> Enabled(cfg, s, e)
    ensures ValidConfig(cfg) && Shaped(cfg, s.mem.slots)
  {
  }

  lemma UnboundedAt(cfg: Config, ss: seq<State>, es: seq<Event>, i: nat) returns (u: State)
    requires Run(true, cfg, ss, es) && i <= |es|
    ensures ss[i] == Image(u) && Inv(cfg, u)
    ensures |ss| == |es| + 1
    ensures i < |es| ==> Enabled(cfg, u, es[i]) && ss[i + 1] == Image(Next(false, cfg, u, es[i]))
  {
    hide Inv;
    hide Next;
    hide Shaped;
    hide Init;
    hide Enabled;
    hide Image;
    var us := Unwrap(cfg, ss, es);
    u := us[i];
    if i < |es| {
      assert Step(false, cfg, us[i], es[i], us[i + 1]);
    }
  }

  /** Without a copy lost in a crash, the positions copied are 0, 1, 2, ... */
  lemma {:induction false} PositionsFrom(h: History, done: bool, j: nat)
    requires LogOk(h, done) && h.lost == 0 && j < |h.log|
    ensures h.log[j].pos == j
    decreases |h.log| - j
  {
    LogBelow(h, done, j);
    if j < |h.log| - 1 {
      PositionsFrom(h, done, j + 1);
      assert h.log[j + 1].pos <= h.log[j].pos + 1;
    }
  }

  lemma {:induction false} LogBelow(h: History, done: bool, j: nat)
    requires LogOk(h, done) && j < |h.log|
    ensures h.log[j].pos <= j
  {
    if j > 0 { LogBelow(h, done, j - 1); }
  }

  /** How many copies repeat the position before them. */
  function Repeats(log: seq<Copy>): nat {
    if |log| < 2 then 0
    else Repeats(log[..|log| - 1]) + (if log[|log| - 1].pos == log[|log| - 2].pos then 1 else 0)
  }

  lemma {:induction false} RepeatsCount(log: seq<Copy>)
    requires |log| > 0 && log[0].pos == 0
    requires forall i :: 0 < i < |log| ==> log[i - 1].pos <= log[i].pos <= log[i - 1].pos + 1
    ensures Repeats(log) == |log| - 1 - log[|log| - 1].pos
  {
    if |log| >= 2 {
      RepeatsCount(log[..|log| - 1]);
    }
  }

  /** Each finished copy is byte for byte the message published at its position; the positions
      start at 0 and go up by one, and the only repeats are copies whose consumer died before
      releasing the slot. With no such death the copies are the published messages in order. */
  ghost predicate InOrder(h: History, done: bool) {
    && (forall j :: 0 <= j < |h.log| ==> Faithful(h.log[j], h.published))
    && (|h.log| > 0 ==> h.log[0].pos == 0)
    && (forall j :: 0 < j < |h.log| ==> h.log[j - 1].pos <= h.log[j].pos <= h.log[j - 1].pos + 1)
    && Repeats(h.log) == (if h.redo && !done then h.lost - 1 else h.lost)
    && |h.log| == h.taken + h.lost + (if done then 1 else 0)
    && (h.lost == 0 ==> forall j :: 0 <= j < |h.log| ==> h.log[j].pos == j)
  }

  lemma LogInOrder(h: History, done: bool)
    requires LogOk(h, done)
    ensures InOrder(h, done)
  {
    hide Faithful;
    if |h.log| > 0 { RepeatsCount(h.log); }
    if h.lost == 0 {
      forall j | 0 <= j < |h.log|
        ensures h.log[j].pos == j
      {
        PositionsFrom(h, done, j);
      }
    }
  }

  /** Lossless delivery, over every run of the 64-bit machine, with any crashes on either side. */
  lemma LosslessDelivery(cfg: Config, ss: seq<State>, es: seq<Event>, i: nat)
    requires Run(true, cfg, ss, es) && i <= |es|
    ensures InOrder(ss[i].hist, ss[i].cons.pc.CDone?)
  {
    hide RingOk;
    hide ProducerOk;
    hide ConsumerOk;
    hide LogOk;
    hide InOrder;
    hide Run;
    hide Next;
    hide Enabled;
    var u := UnboundedAt(cfg, ss, es, i);
    LogInOrder(u.hist, u.cons.pc.CDone?);
  }

  // ---- a bounded queue ------------------------------------------------------------------------

  /** What the ring holds: published and not yet released. */
  function Queue(h: History): seq<Msg>
    requires h.taken <= |h.published|
  {
    h.published[h.taken..]
  }

  ghost predicate Enqueues(s: State, e: Event) {
    e == PStep && s.prod.pc.PCopy? && s.prod.pc.n == |s.prod.pc.msg|
  }

  ghost predicate Dequeues(s: State, e: Event) {
    e == CStep && s.cons.pc.CDone?
  }

  ghost predicate QueueStep(cfg: Config, s: State, e: Event, hist: History) {
    && s.hist.taken <= |s.hist.published| && hist.taken <= |hist.published|
    && var q, q' := Queue(s.hist), Queue(hist);
       && |q| <= Capacity(cfg)
       && if Enqueues(s, e) then |q| < Capacity(cfg) && q' == q + [s.prod.pc.msg]
          else if Dequeues(s, e) then
            |q| > 0 && q' == q[1..] && Delivers(q[0], s.cons.pc.buf, s.cons.pc.size, s.cons.pc.out)
          else q' == q
  }

  lemma ProducerQueues(cfg: Config, u: State)
    requires Inv(cfg, u) && Enabled(cfg, u, PStep)
    ensures QueueStep(cfg, u, PStep, Next(false, cfg, u, PStep).hist)
  {
    hide At;
    hide Capacity;
    hide Holds;
    hide Begun;
    hide LogOk;
    IndexBound(cfg, u.prod.w);
  }

  lemma ConsumerQueues(cfg: Config, u: State)
    requires Inv(cfg, u) && Enabled(cfg, u, CStep)
    ensures QueueStep(cfg, u, CStep, Next(false, cfg, u, CStep).hist)
  {
    hide At;
    hide Capacity;
    hide Holds;
    hide Begun;
    hide LogOk;
    IndexBound(cfg, u.cons.r);
    if u.cons.pc.CDone? { CopyDelivers(u.hist.published[u.hist.taken], u.cons.pc.buf); }
  }

  lemma OtherQueues(cfg: Config, u: State, e: Event)
    requires Inv(cfg, u) && Enabled(cfg, u, e) && e != PStep && e != CStep
    ensures QueueStep(cfg, u, e, Next(false, cfg, u, e).hist)
  {
    hide At;
    hide Capacity;
    hide Holds;
    hide Begun;
    hide LogOk;
  }

  lemma SameQueueStep(cfg: Config, u: State, e: Event, hist: History)
    ensures QueueStep(cfg, u, e, hist) <==> QueueStep(cfg, Image(u), e, hist)
  {
    hide Capacity;
  }

  /** Linearization: in every run each step is a step of a queue bounded by the capacity. The
      publishing store enqueues the message, the releasing store dequeues the one just copied, and
      every other memory access leaves the queue alone. */
  lemma RefinesQueue(cfg: Config, ss: seq<State>, es: seq<Event>, i: nat)
    requires Run(true, cfg, ss, es) && i < |es|
    ensures ss[i].hist.taken <= |ss[i].hist.published| && ss[i + 1].hist.taken <= |ss[i + 1].hist.published|
    ensures var s, q, q' := ss[i], Queue(ss[i].hist), Queue(ss[i + 1].hist);
            && |q| <= Capacity(cfg)
            && if Enqueues(s, es[i]) then |q| < Capacity(cfg) && q' == q + [s.prod.pc.msg]
               else if Dequeues(s, es[i]) then
                 |q| > 0 && q' == q[1..] && Delivers(q[0], s.cons.pc.buf, s.cons.pc.size, s.cons.pc.out)
               else q' == q
  {
    hide Inv;
    hide Capacity;
    hide Next;
    hide Run;
    var u := UnboundedAt(cfg, ss, es, i);
    if es[i] == PStep {
      ProducerQueues(cfg, u);
    } else if es[i] == CStep {
      ConsumerQueues(cfg, u);
    } else {
      OtherQueues(cfg, u, es[i]);
    }
    SameQueueStep(cfg, u, es[i], ss[i + 1].hist);
  }

  lemma ProducerSees(cfg: Config, u: State)
    requires Inv(cfg, u)
    ensures u.hist.taken <= |u.hist.published|
    ensures var n := |Queue(u.hist)|;
            && (u.prod.pc.PRefresh? ==>
                  var p := Next(false, cfg, u, PStep).prod;
                  (p.pc.PIdle? <==> n == Capacity(cfg)) && (p.pc.PIdle? ==> p.result == Full))
            && (u.prod.pc.PSize? || u.prod.pc.PCopy? ==> n < Capacity(cfg))
  {
    hide At;
    hide Capacity;
    hide Holds;
    hide Begun;
    hide LogOk;
    hide ConsumerOk;
    IndexBound(cfg, u.prod.w);
  }

  lemma ConsumerSees(cfg: Config, u: State)
    requires Inv(cfg, u)
    ensures u.hist.taken <= |u.hist.published|
    ensures var n := |Queue(u.hist)|;
            && (u.cons.pc.CRefresh? ==>
                  var c := Next(false, cfg, u, CStep).cons;
                  (c.pc.CIdle? <==> n == 0) && (c.pc.CIdle? ==> c.result == Empty))
            && (u.cons.pc.CSize? || u.cons.pc.CCopy? || u.cons.pc.CDone? ==> n > 0)
  {
    hide At;
    hide Capacity;
    hide Holds;
    hide LogOk;
    hide ProducerOk;
    IndexBound(cfg, u.cons.r);
  }

  /** "Full" and "empty" are answered only when true: a refresh reports full exactly when the queue
      holds a capacity of messages at that load, and empty exactly when it holds none; a stale cache
      is never wrong about room or about data. */
  lemma FullAndEmptyAreTrue(cfg: Config, ss: seq<State>, es: seq<Event>, i: nat)
    requires Run(true, cfg, ss, es) && i < |es|
    ensures ss[i].hist.taken <= |ss[i].hist.published|
    ensures var n := |Queue(ss[i].hist)|;
            && (es[i] == PStep && ss[i].prod.pc.PRefresh? ==>
                  (ss[i + 1].prod.pc.PIdle? <==> n == Capacity(cfg))
                  && (ss[i + 1].prod.pc.PIdle? ==> ss[i + 1].prod.result == Full))
            && (es[i] == CStep && ss[i].cons.pc.CRefresh? ==>
                  (ss[i + 1].cons.pc.CIdle? <==> n == 0)
                  && (ss[i + 1].cons.pc.CIdle? ==> ss[i + 1].cons.result == Empty))
            && (ss[i].prod.pc.PSize? || ss[i].prod.pc.PCopy? ==> n < Capacity(cfg))
            && (ss[i].cons.pc.CSize? || ss[i].cons.pc.CCopy? || ss[i].cons.pc.CDone? ==> n > 0)
  {
    hide Inv;
    hide Next;
    hide Enabled;
    hide Run;
    hide Capacity;
    var u := UnboundedAt(cfg, ss, es, i);
    ProducerSees(cfg, u);
    ConsumerSees(cfg, u);
  }

  /** What `try_pop` returns when it consumes: the size of the message released. So it returns 0, as
      it does on an empty ring, exactly when it has consumed a message of no bytes. */
  lemma PopReturnsSize(cfg: Config, ss: seq<State>, es: seq<Event>, i: nat)
    requires Run(true, cfg, ss, es) && i < |es| && es[i] == CStep && ss[i].cons.pc.CBump?
    ensures 0 < ss[i].hist.taken <= |ss[i].hist.published|
    ensures ss[i + 1].cons.result == Popped(|ss[i].hist.published[ss[i].hist.taken - 1]|)
  {
    hide At;
    hide Capacity;
    hide Holds;
    hide Begun;
    hide LogOk;
    hide Run;
    var u := UnboundedAt(cfg, ss, es, i);
    IndexBound(cfg, u.cons.r);
  }

  /** The producer never writes a slot that the consumer is reading. */
  lemma NeverSameSlot(cfg: Config, ss: seq<State>, es: seq<Event>, i: nat)
    requires Run(true, cfg, ss, es) && i <= |es|
    requires ss[i].prod.pc.PSize? || ss[i].prod.pc.PCopy?
    requires ss[i].cons.pc.CSize? || ss[i].cons.pc.CCopy? || ss[i].cons.pc.CDone?
    ensures At(cfg, ss[i].prod.w) != At(cfg, ss[i].cons.r)
  {
    hide At;
    hide Capacity;
    hide Holds;
    hide Begun;
    hide LogOk;
    hide Run;
    hide Next;
    var u := UnboundedAt(cfg, ss, es, i);
    IndexWrap(cfg, u.prod.w);
    IndexWrap(cfg, u.cons.r);
    IndexApart(cfg, u.cons.r, u.prod.w);
  }
}
