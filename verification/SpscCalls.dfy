/** Whole calls of the lossless bus, in any interleaving with the other side: what `try_push` and
    `try_pop` return, and what has happened when they do. */
module SpscCalls {
  import Bits
  import opened BusLayout
  import opened SpscBus

  /** From event `a`, which starts a call of the producer, to state `b` where the call has returned:
      the producer is inside the call in between, and does not die. */
  ghost predicate PushCall(ss: seq<State>, es: seq<Event>, a: nat, b: nat, msg: Msg) {
    && a < b < |ss| == |es| + 1 && es[a] == Push(msg) && ss[b].prod.pc.PIdle?
    && forall k :: a < k < b ==> !ss[k].prod.pc.PIdle? && es[k] != PCrash
  }

  /** Inside a push of `msg` that began when `before` had been published. */
  ghost predicate Pushing(cfg: Config, before: seq<Msg>, msg: Msg, s: State) {
    && |msg| <= cfg.maxMsg
    && match s.prod.pc
       case PRefresh(m) => m == msg && s.hist.published == before
       case PSize(m) => m == msg && s.hist.published == before
       case PCopy(m, _) => m == msg && s.hist.published == before
       case PBump => s.hist.published == before + [msg]
       case _ => false
  }

  lemma PushBegins(cfg: Config, s: State, msg: Msg, s': State)
    requires Step(true, cfg, s, Push(msg), s')
    ensures |msg| > cfg.maxMsg ==> s' == s.(prod := s.prod.(result := TooBig))
    ensures |msg| <= cfg.maxMsg ==> Pushing(cfg, s.hist.published, msg, s')
  {
    hide At;
    hide Capacity;
  }

  lemma PushGoesOn(cfg: Config, before: seq<Msg>, msg: Msg, s: State, e: Event, s': State)
    requires Step(true, cfg, s, e, s') && Pushing(cfg, before, msg, s) && e != PCrash
    ensures !s'.prod.pc.PIdle? ==> Pushing(cfg, before, msg, s')
    ensures s'.prod.pc.PIdle? ==>
              || (s'.prod.result == Pushed && s'.hist.published == before + [msg])
              || (s'.prod.result == Full && s'.hist.published == before && e == PStep && s.prod.pc.PRefresh?)
  {
    hide At;
    hide Capacity;
    if e == PStep { IndexBound(cfg, s.prod.w); }
    if e == CStep { IndexBound(cfg, s.cons.r); }
  }

  lemma {:induction false} PushInside(cfg: Config, ss: seq<State>, es: seq<Event>, a: nat, b: nat, msg: Msg, k: nat)
    requires Run(true, cfg, ss, es) && PushCall(ss, es, a, b, msg) && |msg| <= cfg.maxMsg && a < k < b
    ensures Pushing(cfg, ss[a].hist.published, msg, ss[k])
  {
    hide Step;
    hide Pushing;
    if k == a + 1 {
      assert Step(true, cfg, ss[a], es[a], ss[k]);
      PushBegins(cfg, ss[a], msg, ss[k]);
    } else {
      PushInside(cfg, ss, es, a, b, msg, k - 1);
      assert Step(true, cfg, ss[k - 1], es[k - 1], ss[k]);
      PushGoesOn(cfg, ss[a].hist.published, msg, ss[k - 1], es[k - 1], ss[k]);
    }
  }

  /** What a push returns, in every run with any deaths of the consumer: too big exactly for a message
      above the limit, and then nothing else has changed; pushed exactly if this call appended its
      message to what is published; full exactly if it appended nothing, and then the queue held a
      capacity of messages at the last load. */
  lemma PushReturns(cfg: Config, ss: seq<State>, es: seq<Event>, a: nat, b: nat, msg: Msg)
    requires Run(true, cfg, ss, es) && PushCall(ss, es, a, b, msg)
    ensures ss[b - 1].hist.taken <= |ss[b - 1].hist.published|
    ensures var before, after, result := ss[a].hist.published, ss[b].hist.published, ss[b].prod.result;
            && (result == TooBig <==> |msg| > cfg.maxMsg)
            && (result == TooBig ==> b == a + 1 && ss[b] == ss[a].(prod := ss[a].prod.(result := TooBig)))
            && (result == Pushed <==> after == before + [msg])
            && (result == Full <==> after == before && |msg| <= cfg.maxMsg)
            && (result == Full ==> |Queue(ss[b - 1].hist)| == Capacity(cfg))
  {
    hide Step;
    hide Pushing;
    hide Capacity;
    assert Step(true, cfg, ss[b - 1], es[b - 1], ss[b]);
    FullAndEmptyAreTrue(cfg, ss, es, b - 1);
    PushBegins(cfg, ss[a], msg, ss[a + 1]);
    if |msg| > cfg.maxMsg {
      BackAtOnce(cfg, ss, es, a, b, msg);
    } else if b == a + 1 {
      NotIdle(cfg, ss[a].hist.published, msg, ss[b]);
    } else {
      PushInside(cfg, ss, es, a, b, msg, b - 1);
      PushGoesOn(cfg, ss[a].hist.published, msg, ss[b - 1], es[b - 1], ss[b]);
    }
  }

  lemma BackAtOnce(cfg: Config, ss: seq<State>, es: seq<Event>, a: nat, b: nat, msg: Msg)
    requires Run(true, cfg, ss, es) && PushCall(ss, es, a, b, msg) && |msg| > cfg.maxMsg
    ensures b == a + 1
  {
    assert Step(true, cfg, ss[a], es[a], ss[a + 1]);
    PushBegins(cfg, ss[a], msg, ss[a + 1]);
  }

  lemma NotIdle(cfg: Config, before: seq<Msg>, msg: Msg, s: State)
    requires Pushing(cfg, before, msg, s)
    ensures !s.prod.pc.PIdle?
  {
  }

  // ---- pops -----------------------------------------------------------------------------------

  ghost predicate PopCall(ss: seq<State>, es: seq<Event>, a: nat, b: nat, buf: nat) {
    && a < b < |ss| == |es| + 1 && es[a] == Pop(buf) && ss[b].cons.pc.CIdle?
    && forall k :: a < k < b ==> !ss[k].cons.pc.CIdle? && es[k] != CCrash
  }

  /** Inside a pop into a buffer of `buf` bytes that began with the history `h`. */
  ghost predicate Popping(h: History, buf: nat, s: State) {
    match s.cons.pc
    case CRefresh(n) => n == buf && s.hist.taken == h.taken && s.hist.log == h.log
    case CSize(n) => n == buf && s.hist.taken == h.taken && s.hist.log == h.log
    case CCopy(n, _, _) => n == buf && s.hist.taken == h.taken && s.hist.log == h.log
    case CDone(n, size, out) => n == buf && s.hist.taken == h.taken && s.hist.log == h.log + [Copy(h.taken, size, buf, out)]
    case CBump(size) => s.hist.taken == h.taken + 1 && Copied(h, buf, size, s.hist.log)
    case _ => false
  }

  /** One copy has been added, of the next message, into that buffer. */
  ghost predicate Copied(h: History, buf: nat, size: nat, log: seq<Copy>) {
    && |log| == |h.log| + 1 && log[..|h.log|] == h.log
    && var c := log[|h.log|]; c.pos == h.taken && c.size == size && c.buf == buf
  }

  lemma PopBegins(cfg: Config, s: State, buf: nat, s': State)
    requires Step(true, cfg, s, Pop(buf), s')
    ensures Popping(s.hist, buf, s')
  {
  }

  lemma PopGoesOn(cfg: Config, h: History, buf: nat, s: State, e: Event, s': State)
    requires Step(true, cfg, s, e, s') && Popping(h, buf, s) && e != CCrash
    ensures !s'.cons.pc.CIdle? ==> Popping(h, buf, s')
    ensures s'.cons.pc.CIdle? ==>
              || (s'.cons.result == Empty && s'.hist.taken == h.taken && s'.hist.log == h.log && e == CStep && s.cons.pc.CRefresh?)
              || (s'.cons.result.Popped? && s'.hist.taken == h.taken + 1 && Copied(h, buf, s'.cons.result.size, s'.hist.log))
  {
    hide At;
    hide Capacity;
    if e == PStep { IndexBound(cfg, s.prod.w); }
    if e == CStep { IndexBound(cfg, s.cons.r); }
  }

  lemma {:induction false} PopInside(cfg: Config, ss: seq<State>, es: seq<Event>, a: nat, b: nat, buf: nat, k: nat)
    requires Run(true, cfg, ss, es) && PopCall(ss, es, a, b, buf) && a < k < b
    ensures Popping(ss[a].hist, buf, ss[k])
  {
    hide Step;
    hide Popping;
    if k == a + 1 {
      assert Step(true, cfg, ss[a], es[a], ss[k]);
      PopBegins(cfg, ss[a], buf, ss[k]);
    } else {
      PopInside(cfg, ss, es, a, b, buf, k - 1);
      assert Step(true, cfg, ss[k - 1], es[k - 1], ss[k]);
      PopGoesOn(cfg, ss[a].hist, buf, ss[k - 1], es[k - 1], ss[k]);
    }
  }

  /** What a pop returns, in every run with any deaths of the producer: empty exactly if it released
      nothing, and then the queue was empty at the last load; otherwise it released exactly the next
      message, returns its size, and has copied into the caller's buffer all of it, or as much as the
      buffer holds. */
  lemma PopReturns(cfg: Config, ss: seq<State>, es: seq<Event>, a: nat, b: nat, buf: nat)
    requires Run(true, cfg, ss, es) && PopCall(ss, es, a, b, buf)
    ensures ss[b - 1].hist.taken <= |ss[b - 1].hist.published|
    ensures var before, after, result := ss[a].hist, ss[b].hist, ss[b].cons.result;
            && (result == Empty <==> after.taken == before.taken)
            && (result == Empty ==> after.log == before.log && |Queue(ss[b - 1].hist)| == 0)
            && (result.Popped? <==> after.taken == before.taken + 1)
            && (result.Popped? ==>
                  && |after.log| == |before.log| + 1 && before.taken < |after.published|
                  && Delivers(after.published[before.taken], buf, result.size, after.log[|before.log|].bytes))
  {
    hide Step;
    hide Popping;
    hide Capacity;
    assert Step(true, cfg, ss[a], es[a], ss[a + 1]);
    PopBegins(cfg, ss[a], buf, ss[a + 1]);
    assert Step(true, cfg, ss[b - 1], es[b - 1], ss[b]);
    FullAndEmptyAreTrue(cfg, ss, es, b - 1);
    LosslessDelivery(cfg, ss, es, b);
    if b == a + 1 {
      NotIdlePop(ss[a].hist, buf, ss[b]);
    } else {
      PopInside(cfg, ss, es, a, b, buf, b - 1);
      PopGoesOn(cfg, ss[a].hist, buf, ss[b - 1], es[b - 1], ss[b]);
      if ss[b].cons.result.Popped? {
        assert Faithful(ss[b].hist.log[|ss[a].hist.log|], ss[b].hist.published);
      }
    }
  }

  lemma NotIdlePop(h: History, buf: nat, s: State)
    requires Popping(h, buf, s)
    ensures !s.cons.pc.CIdle?
  {
  }

  // ---- caches and deaths ----------------------------------------------------------------------

  ghost predicate LoadsReadPos(s: State, e: Event) {
    e == PStep && (s.prod.pc.PBoot2? || s.prod.pc.PRefresh?)
  }

  ghost predicate LoadsWritePos(s: State, e: Event) {
    e == CStep && (s.cons.pc.CBoot2? || s.cons.pc.CRefresh?)
  }

  lemma ProducerLoads(cfg: Config, s: State, e: Event, s': State)
    requires Step(true, cfg, s, e, s')
    ensures s'.prod.rc == if LoadsReadPos(s, e) then s.mem.readPos else s.prod.rc
    ensures s'.cons.wc == if LoadsWritePos(s, e) then s.mem.writePos else s.cons.wc
  {
    hide At;
    hide Capacity;
    if e == PStep { IndexBound(cfg, s.prod.w); }
    if e == CStep { IndexBound(cfg, s.cons.r); }
  }

  /** What each side knows of the other is what it last loaded, attaching or refreshing. */
  lemma {:induction false} CacheIsLastLoad(cfg: Config, ss: seq<State>, es: seq<Event>, i: nat, k: nat)
    requires Run(true, cfg, ss, es) && k < i <= |es|
    ensures LoadsReadPos(ss[k], es[k]) && (forall j :: k < j < i ==> !LoadsReadPos(ss[j], es[j])) ==>
              ss[i].prod.rc == ss[k].mem.readPos
    ensures LoadsWritePos(ss[k], es[k]) && (forall j :: k < j < i ==> !LoadsWritePos(ss[j], es[j])) ==>
              ss[i].cons.wc == ss[k].mem.writePos
  {
    hide Step;
    hide LoadsReadPos;
    hide LoadsWritePos;
    assert Step(true, cfg, ss[i - 1], es[i - 1], ss[i]);
    ProducerLoads(cfg, ss[i - 1], es[i - 1], ss[i]);
    if k < i - 1 { CacheIsLastLoad(cfg, ss, es, i - 1, k); }
  }

  /** A call loads the other side's position only if by what it knows the ring is full, or empty. */
  lemma LoadsOnlyIfNeeded(cfg: Config, ss: seq<State>, es: seq<Event>, i: nat)
    requires Run(true, cfg, ss, es) && i < |es|
    ensures es[i].Push? && |es[i].msg| <= cfg.maxMsg ==>
              (ss[i + 1].prod.pc.PRefresh? <==> (ss[i].prod.w - ss[i].prod.rc) % Bits.U64 == Capacity(cfg))
    ensures es[i].Pop? ==> (ss[i + 1].cons.pc.CRefresh? <==> ss[i].cons.r == ss[i].cons.wc)
  {
    hide At;
    hide Capacity;
    hide LogOk;
    hide Holds;
    hide Begun;
    assert Step(true, cfg, ss[i], es[i], ss[i + 1]);
    hide Run;
    var u := UnboundedAt(cfg, ss, es, i);
    CapacityFits(cfg);
    if es[i].Push? { Bits.WrappedMinus(u.prod.w, u.prod.rc); }
  }

  /** Attaching after a death: until the new producer is idle nothing is published, and it then
      continues at the published position. */
  lemma {:induction false} ProducerReplaced(cfg: Config, ss: seq<State>, es: seq<Event>, a: nat, b: nat)
    requires Run(true, cfg, ss, es) && a < b <= |es| && es[a] == PCrash
    requires forall k :: a < k < b ==> !ss[k].prod.pc.PIdle?
    ensures ss[b].hist.published == ss[a].hist.published
    ensures ss[b].prod.pc.PBoot? || ss[b].prod.pc.PBoot2? || ss[b].prod.pc.PIdle?
    ensures ss[b].prod.pc.PIdle? ==> ss[b].prod.w == ss[b].mem.writePos
  {
    hide Step;
    assert Step(true, cfg, ss[b - 1], es[b - 1], ss[b]);
    if a < b - 1 {
      ProducerReplaced(cfg, ss, es, a, b - 1);
      BootStep(cfg, ss[b - 1], es[b - 1], ss[b]);
    } else {
      DeathStep(cfg, ss[a], ss[b]);
    }
    if ss[b].prod.pc.PIdle? { IdlePosition(cfg, ss, es, b); }
  }

  lemma DeathStep(cfg: Config, s: State, s': State)
    requires Step(true, cfg, s, PCrash, s')
    ensures s'.prod.pc.PBoot? && s'.mem == s.mem && s'.hist == s.hist && s'.cons == s.cons
  {
  }

  lemma BootStep(cfg: Config, s: State, e: Event, s': State)
    requires Step(true, cfg, s, e, s') && (s.prod.pc.PBoot? || s.prod.pc.PBoot2?)
    ensures s'.prod.pc.PBoot? || s'.prod.pc.PBoot2? || s'.prod.pc.PIdle?
    ensures s'.hist.published == s.hist.published
  {
    hide At;
    hide Capacity;
    if e == PStep { IndexBound(cfg, s.prod.w); }
    if e == CStep { IndexBound(cfg, s.cons.r); }
  }

  lemma IdlePosition(cfg: Config, ss: seq<State>, es: seq<Event>, i: nat)
    requires Run(true, cfg, ss, es) && i <= |es| && ss[i].prod.pc.PIdle?
    ensures ss[i].prod.w == ss[i].mem.writePos
  {
    hide At;
    hide Capacity;
    hide LogOk;
    hide ConsumerOk;
    hide Holds;
    hide Run;
    var u := UnboundedAt(cfg, ss, es, i);
  }

  /** The same for the consumer: nothing is released or copied, and the death is counted exactly if
      it lost a finished copy. */
  lemma {:induction false} ConsumerReplaced(cfg: Config, ss: seq<State>, es: seq<Event>, a: nat, b: nat)
    requires Run(true, cfg, ss, es) && a < b <= |es| && es[a] == CCrash
    requires forall k :: a < k < b ==> !ss[k].cons.pc.CIdle? && es[k] != CCrash
    ensures ss[b].hist.taken == ss[a].hist.taken && ss[b].hist.log == ss[a].hist.log
    ensures ss[b].hist.lost == ss[a].hist.lost + (if ss[a].cons.pc.CDone? then 1 else 0)
    ensures ss[b].cons.pc.CBoot? || ss[b].cons.pc.CBoot2? || ss[b].cons.pc.CIdle?
  {
    hide Step;
    assert Step(true, cfg, ss[b - 1], es[b - 1], ss[b]);
    if a < b - 1 {
      ConsumerReplaced(cfg, ss, es, a, b - 1);
      AttachStep(cfg, ss[b - 1], es[b - 1], ss[b]);
    } else {
      ConsumerDeath(cfg, ss[a], ss[b]);
    }
  }

  lemma ConsumerDeath(cfg: Config, s: State, s': State)
    requires Step(true, cfg, s, CCrash, s')
    ensures s'.cons.pc.CBoot? && s'.mem == s.mem && s'.prod == s.prod
    ensures s'.hist.taken == s.hist.taken && s'.hist.log == s.hist.log && s'.hist.published == s.hist.published
    ensures s'.hist.lost == s.hist.lost + (if s.cons.pc.CDone? then 1 else 0)
  {
  }

  lemma AttachStep(cfg: Config, s: State, e: Event, s': State)
    requires Step(true, cfg, s, e, s') && (s.cons.pc.CBoot? || s.cons.pc.CBoot2?) && e != CCrash
    ensures s'.cons.pc.CBoot? || s'.cons.pc.CBoot2? || s'.cons.pc.CIdle?
    ensures s'.hist.taken == s.hist.taken && s'.hist.log == s.hist.log && s'.hist.lost == s.hist.lost
  {
    hide At;
    hide Capacity;
    if e == PStep { IndexBound(cfg, s.prod.w); }
    if e == CStep { IndexBound(cfg, s.cons.r); }
  }
}
