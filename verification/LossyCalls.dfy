/** Whole calls of the lossy bus, in any interleaving with the other side: what an overwriting push
    leaves behind, and what `try_pop_lossy` answers. */
module LossyCalls {
  import opened Bits
  import opened BusLayout
  import opened LossyBus

  // ---- pushes ---------------------------------------------------------------------------------

  ghost predicate PushCall(ss: seq<State>, es: seq<Event>, a: nat, b: nat, msg: Msg) {
    && a < b < |ss| == |es| + 1 && es[a] == Push(msg) && ss[b].wr.WIdle?
    && forall k :: a < k < b ==> !ss[k].wr.WIdle? && es[k] != WCrash
  }

  /** What the push of `msg` that began in `s0` has done so far. */
  ghost predicate Pushing(cfg: Config, s0: State, msg: Msg, s: State) {
    && |msg| <= cfg.maxMsg && At(cfg, s0.w) < |s0.cells| && |s.cells| == |s0.cells|
    && var i := At(cfg, s0.w);
       var g := s0.cells[i].gen;
       && s.cells == s0.cells[i := s.cells[i]] && s.cells[i].cuts == s0.cells[i].cuts
       && s.w == s0.w
       && match s.wr
          case WLoad(m) => m == msg && s.cells == s0.cells && s.begun == s0.begun && s.writePos == s0.writePos
          case WMark(m, g') => m == msg && g' == g && s.cells == s0.cells && s.begun == s0.begun && s.writePos == s0.writePos
          case WSize(m, g') => m == msg && g' == g && s.begun == s0.begun + [Write(s0.w, msg)] && s.writePos == s0.writePos
          case WCopy(m, g', _) => m == msg && g' == g && s.begun == s0.begun + [Write(s0.w, msg)] && s.writePos == s0.writePos
          case WCommit(m, g') => m == msg && g' == g && s.begun == s0.begun + [Write(s0.w, msg)] && s.writePos == s0.writePos
          case WPublish =>
            Stored(s0, s, i, msg) && s.begun == s0.begun + [Write(s0.w, msg)] && s.writePos == s0.writePos
          case WBump =>
            Stored(s0, s, i, msg) && s.begun == s0.begun + [Write(s0.w, msg)] && s.writePos == s0.w + 1
          case _ => false
  }

  /** The slot holds the message, committed, two generations on. */
  ghost predicate Stored(s0: State, s: State, i: nat, msg: Msg) {
    && i < |s0.cells| == |s.cells|
    && Holds(s.cells[i].slot, msg) && s.cells[i].last == Committed && s.cells[i].gen == (s0.cells[i].gen + 2) % U32
  }

  lemma PushBegins(cfg: Config, s: State, msg: Msg, s': State)
    requires Step(cfg, s, Push(msg), s')
    ensures |msg| > cfg.maxMsg ==> s' == s
    ensures |msg| <= cfg.maxMsg ==> Pushing(cfg, s, msg, s')
  {
    hide At;
    hide Capacity;
    IndexBound(cfg, s.w);
  }

  lemma WriterGoesOn(cfg: Config, s0: State, msg: Msg, s: State, s': State)
    requires Inv(cfg, s) && Step(cfg, s, WStep, s') && Pushing(cfg, s0, msg, s)
    ensures !s'.wr.WIdle? ==> Pushing(cfg, s0, msg, s')
    ensures s'.wr.WIdle? ==> s.wr.WBump? && s' == s.(w := s0.w + 1, wr := WIdle)
  {
    hide At;
    hide Capacity;
    hide CellOk;
    hide ReaderOk;
    hide Ordered;
    IndexBound(cfg, s.w);
    if s.wr.WCommit? { assert s.wr.msg[..|s.wr.msg|] == s.wr.msg; }
  }

  /** The consumer does not write what a push is about. */
  lemma PushUndisturbed(cfg: Config, s0: State, msg: Msg, s: State, e: Event, s': State)
    requires Step(cfg, s, e, s') && Pushing(cfg, s0, msg, s) && (e.Pop? || e == RStep || e == RCrash)
    ensures Pushing(cfg, s0, msg, s')
  {
    hide At;
    hide Next;
    hide Holds;
    ReaderFrame(cfg, s, e, s');
  }

  lemma ReaderFrame(cfg: Config, s: State, e: Event, s': State)
    requires Step(cfg, s, e, s') && (e.Pop? || e == RStep || e == RCrash)
    ensures s'.wr == s.wr && s'.w == s.w && s'.cells == s.cells && s'.begun == s.begun && s'.writePos == s.writePos
  {
    hide At;
    hide Capacity;
    IndexBound(cfg, s.r);
  }

  lemma {:induction false} PushInside(cfg: Config, ss: seq<State>, es: seq<Event>, a: nat, b: nat, msg: Msg, k: nat)
    requires Run(cfg, ss, es) && PushCall(ss, es, a, b, msg) && |msg| <= cfg.maxMsg && a < k < b
    ensures Pushing(cfg, ss[a], msg, ss[k])
  {
    hide Step;
    hide Pushing;
    hide Inv;
    RunStep(cfg, ss, es, k - 1);
    if k == a + 1 {
      PushBegins(cfg, ss[a], msg, ss[k]);
    } else {
      PushInside(cfg, ss, es, a, b, msg, k - 1);
      RunKeeps(cfg, ss, es, k - 1);
      PushStep(cfg, ss[a], msg, ss[k - 1], es[k - 1], ss[k]);
    }
  }

  lemma PushStep(cfg: Config, s0: State, msg: Msg, s: State, e: Event, s': State)
    requires Inv(cfg, s) && Step(cfg, s, e, s') && Pushing(cfg, s0, msg, s) && e != WCrash
    ensures !s'.wr.WIdle? ==> Pushing(cfg, s0, msg, s')
    ensures s'.wr.WIdle? ==> s.wr.WBump? && s' == s.(w := s0.w + 1, wr := WIdle)
  {
    hide Inv;
    hide Pushing;
    hide Next;
    NotIdle(cfg, s0, msg, s);
    if e == WStep {
      WriterGoesOn(cfg, s0, msg, s, s');
    } else {
      PushUndisturbed(cfg, s0, msg, s, e, s');
      NotIdle(cfg, s0, msg, s');
    }
  }

  lemma NotIdle(cfg: Config, s0: State, msg: Msg, s: State)
    requires Pushing(cfg, s0, msg, s)
    ensures !s.wr.WIdle?
  {
  }

  /** What a push does, in every run: a message above the limit is refused with nothing changed. Any
      other is never refused: when the call returns it has been pushed at the position that was next
      and is published, its slot holds it, committed, two generations on, and no other slot was
      touched. */
  lemma PushReturns(cfg: Config, ss: seq<State>, es: seq<Event>, a: nat, b: nat, msg: Msg)
    requires Run(cfg, ss, es) && PushCall(ss, es, a, b, msg)
    ensures |msg| > cfg.maxMsg ==> b == a + 1 && ss[b] == ss[a]
    ensures |msg| <= cfg.maxMsg ==>
              var s, s', i := ss[a], ss[b], At(cfg, ss[a].writePos);
              && s'.begun == s.begun + [Write(s.writePos, msg)] && s'.writePos == s.writePos + 1
              && i < |s.cells| == |s'.cells| && s'.cells == s.cells[i := s'.cells[i]]
              && Holds(s'.cells[i].slot, msg) && s'.cells[i].gen == (s.cells[i].gen + 2) % U32
              && s'.cells[i].last == Committed && s'.cells[i].cuts == s.cells[i].cuts
  {
    hide Step;
    hide Next;
    hide CellOk;
    hide ReaderOk;
    hide Ordered;
    hide At;
    RunKeeps(cfg, ss, es, a);
    RunStep(cfg, ss, es, a);
    AtWritePos(cfg, ss[a], msg, ss[a + 1]);
    PushBegins(cfg, ss[a], msg, ss[a + 1]);
    if |msg| <= cfg.maxMsg {
      NotIdle(cfg, ss[a], msg, ss[a + 1]);
      PushInside(cfg, ss, es, a, b, msg, b - 1);
      RunStep(cfg, ss, es, b - 1);
      RunKeeps(cfg, ss, es, b - 1);
      PushStep(cfg, ss[a], msg, ss[b - 1], es[b - 1], ss[b]);
    }
  }

  lemma AtWritePos(cfg: Config, s: State, msg: Msg, s': State)
    requires Inv(cfg, s) && Step(cfg, s, Push(msg), s')
    ensures s.wr.WIdle? && s.w == s.writePos
  {
    hide At;
    hide CellOk;
    hide ReaderOk;
    hide Ordered;
  }

  // ---- pops -----------------------------------------------------------------------------------

  ghost predicate PopCall(ss: seq<State>, es: seq<Event>, a: nat, b: nat, buf: nat) {
    && a < b < |ss| == |es| + 1 && es[a] == Pop(buf) && ss[b].rd.RIdle?
    && forall k :: a < k < b ==> !ss[k].rd.RIdle? && es[k] != RCrash
  }

  /** As much of `size` bytes as fits into the buffer. */
  ghost predicate Filled(buf: nat, size: nat, out: Msg) {
    (size <= buf ==> |out| == size) && (buf < size ==> |out| == buf)
  }

  /** A loss: at least a capacity was published past the reader, and it resumes a capacity behind the
      load, or at the end if exactly a capacity was published. */
  ghost predicate Lost(cfg: Config, readPos: nat, loaded: nat, resume: nat) {
    && readPos + Capacity(cfg) <= loaded
    && (loaded != Capacity(cfg) ==> resume == loaded - Capacity(cfg))
    && (loaded == Capacity(cfg) ==> resume == loaded)
  }

  ghost predicate Popping(cfg: Config, s0: State, buf: nat, s: State) {
    && s.results == s0.results
    && (!s.rd.RBump? ==> s.readPos == s0.readPos)
    && match s.rd
       case RRefresh(n) => n == buf
       case RLap(n) => n == buf
       case RGen1(n) => n == buf
       case RSize(n, _, _) => n == buf
       case RCopy(n, _, _, _, _) => n == buf
       case RGen2(n, _, _, size, out) => n == buf && Filled(buf, size, out)
       case RReload => true
       case RSkip => Lost(cfg, s0.readPos, s.wc, s.r)
       case RRelease(size, out) => Filled(buf, size, out)
       case RBump(size, out) => Filled(buf, size, out) && s.readPos == s0.readPos + 1
       case _ => false
  }

  lemma PopBegins(cfg: Config, s: State, buf: nat, s': State)
    requires Step(cfg, s, Pop(buf), s')
    ensures Popping(cfg, s, buf, s')
  {
    hide Capacity;
  }

  /** The answer of a pop, and what it did to `read_pos`. */
  ghost predicate Answers(cfg: Config, s0: State, buf: nat, last: State, s: State) {
    && |s.results| == |s0.results| + 1 && s.results[..|s0.results|] == s0.results
    && match s.results[|s0.results|]
       case Nothing => s.readPos == s0.readPos == last.writePos
       case Busy =>
         s.readPos == s0.readPos && At(cfg, s0.readPos) < |last.cells| && last.cells[At(cfg, s0.readPos)].gen % 2 == 1
       case Overwritten => Lost(cfg, s0.readPos, s.wc, s.readPos) && s.r == s.readPos
       case Got(size, bytes) =>
         Filled(buf, size, bytes) && s.readPos == s0.readPos + 1 && s.r == s.readPos && last.rd == RBump(size, bytes)
  }

  lemma ReaderGoesOn(cfg: Config, s0: State, buf: nat, s: State, s': State)
    requires Inv(cfg, s) && Step(cfg, s, RStep, s') && Popping(cfg, s0, buf, s)
    ensures !s'.rd.RIdle? ==> Popping(cfg, s0, buf, s')
    ensures s'.rd.RIdle? ==> Answers(cfg, s0, buf, s, s')
  {
    hide At;
    hide Capacity;
    hide CellOk;
    hide WriterOk;
    hide Ordered;
    hide SnapOk;
    hide CopyOk;
    hide GenOk;
    IndexBound(cfg, s.r);
    CapacityFits(cfg);
  }

  lemma PopUndisturbed(cfg: Config, s0: State, buf: nat, s: State, e: Event, s': State)
    requires Step(cfg, s, e, s') && Popping(cfg, s0, buf, s) && (e.Push? || e == WStep || e == WCrash)
    ensures Popping(cfg, s0, buf, s')
  {
    hide At;
    hide Capacity;
    IndexBound(cfg, s.w);
  }

  lemma PopStep(cfg: Config, s0: State, buf: nat, s: State, e: Event, s': State)
    requires Inv(cfg, s) && Step(cfg, s, e, s') && Popping(cfg, s0, buf, s) && e != RCrash
    ensures !s'.rd.RIdle? ==> Popping(cfg, s0, buf, s')
    ensures s'.rd.RIdle? ==> Answers(cfg, s0, buf, s, s')
  {
    hide Inv;
    hide Popping;
    hide Answers;
    hide Next;
    NotIdlePop(cfg, s0, buf, s);
    if e == RStep {
      ReaderGoesOn(cfg, s0, buf, s, s');
    } else {
      PopUndisturbed(cfg, s0, buf, s, e, s');
      NotIdlePop(cfg, s0, buf, s');
    }
  }

  lemma NotIdlePop(cfg: Config, s0: State, buf: nat, s: State)
    requires Popping(cfg, s0, buf, s)
    ensures !s.rd.RIdle?
  {
    hide Capacity;
  }

  lemma {:induction false} PopInside(cfg: Config, ss: seq<State>, es: seq<Event>, a: nat, b: nat, buf: nat, k: nat)
    requires Run(cfg, ss, es) && PopCall(ss, es, a, b, buf) && a < k < b
    ensures Popping(cfg, ss[a], buf, ss[k])
  {
    hide Step;
    hide Popping;
    hide Inv;
    RunStep(cfg, ss, es, k - 1);
    if k == a + 1 {
      PopBegins(cfg, ss[a], buf, ss[k]);
    } else {
      PopInside(cfg, ss, es, a, b, buf, k - 1);
      RunKeeps(cfg, ss, es, k - 1);
      PopStep(cfg, ss[a], buf, ss[k - 1], es[k - 1], ss[k]);
    }
  }

  /** What a lossy pop answers, in every run, whoever on the other side dies: nothing only if the
      ring was empty at its load; busy only if the slot had an odd generation; overwritten only if at
      least a capacity was published past the reader, which then resumes a capacity behind the loaded
      `write_pos` (or at the end, if exactly a capacity was published); and otherwise it releases one
      position and fills the caller's buffer. */
  lemma PopReturns(cfg: Config, ss: seq<State>, es: seq<Event>, a: nat, b: nat, buf: nat)
    requires Run(cfg, ss, es) && PopCall(ss, es, a, b, buf)
    ensures Answers(cfg, ss[a], buf, ss[b - 1], ss[b])
  {
    hide Step;
    hide Popping;
    hide Answers;
    hide Inv;
    RunStep(cfg, ss, es, a);
    PopBegins(cfg, ss[a], buf, ss[a + 1]);
    NotIdlePop(cfg, ss[a], buf, ss[a + 1]);
    PopInside(cfg, ss, es, a, b, buf, b - 1);
    RunStep(cfg, ss, es, b - 1);
    RunKeeps(cfg, ss, es, b - 1);
    PopStep(cfg, ss[a], buf, ss[b - 1], es[b - 1], ss[b]);
  }

  /** The lapped reader, in every run: it skips if and only if more than a capacity lies between it and
      the `write_pos` it loaded. It then resumes exactly a capacity behind that load, above its old
      position, so that it gives up only positions more than a capacity behind. Otherwise it goes on
      to read the slot, with nothing moved. */
  lemma LapSkip(cfg: Config, ss: seq<State>, es: seq<Event>, i: nat)
    requires Run(cfg, ss, es) && i < |es| && es[i] == RStep && ss[i].rd.RLap?
    ensures var s, s' := ss[i], ss[i + 1];
            && s.r == s.readPos == s'.readPos && s'.wc == s.wc <= s.writePos
            && (s'.rd.RSkip? <==> s.wc > s.readPos + Capacity(cfg))
            && (s'.rd.RSkip? ==> s'.r + Capacity(cfg) == s.wc && s'.r > s.readPos)
            && (!s'.rd.RSkip? ==> s'.rd == RGen1(s.rd.buf) && s'.r == s.r)
  {
    hide At;
    hide Capacity;
    hide CellOk;
    hide WriterOk;
    hide Ordered;
    hide Run;
    RunStep(cfg, ss, es, i);
    RunKeeps(cfg, ss, es, i);
    IndexBound(cfg, ss[i].r);
  }

  // ---- deaths ---------------------------------------------------------------------------------

  /** After a death of the producer, until its successor is idle, nothing is pushed or published and no
      slot is written; only the slot being written, if any, has its push cut short. */
  lemma {:induction false} ProducerReplaced(cfg: Config, ss: seq<State>, es: seq<Event>, a: nat, b: nat)
    requires Run(cfg, ss, es) && a < b <= |es| && es[a] == WCrash
    requires forall k :: a < k < b ==> !ss[k].wr.WIdle? && es[k] != WCrash
    ensures ss[b].begun == ss[a].begun && ss[b].writePos == ss[a].writePos && |ss[b].cells| == |ss[a].cells|
    ensures forall i :: 0 <= i < |ss[a].cells| ==> SameOrCut(cfg, ss[a], i, ss[b].cells[i])
    ensures ss[b].wr.WBoot? || (ss[b].wr.WIdle? && ss[b].w == ss[b].writePos)
  {
    hide Step;
    hide SameOrCut;
    RunStep(cfg, ss, es, b - 1);
    if a < b - 1 {
      ProducerReplaced(cfg, ss, es, a, b - 1);
      BootStep(cfg, ss[b - 1], es[b - 1], ss[b]);
    } else {
      DeathStep(cfg, ss[a], ss[b]);
    }
  }

  ghost predicate SameOrCut(cfg: Config, s: State, i: nat, cell: Cell)
    requires i < |s.cells|
  {
    cell == if Inside(s.wr) && At(cfg, s.w) == i then s.cells[i].(cuts := s.cells[i].cuts + 1, last := Cut) else s.cells[i]
  }

  lemma DeathStep(cfg: Config, s: State, s': State)
    requires Step(cfg, s, WCrash, s')
    ensures s'.wr.WBoot? && s'.begun == s.begun && s'.writePos == s.writePos && |s'.cells| == |s.cells|
    ensures forall i :: 0 <= i < |s.cells| ==> SameOrCut(cfg, s, i, s'.cells[i])
  {
    hide At;
    hide Capacity;
    IndexBound(cfg, s.w);
  }

  lemma BootStep(cfg: Config, s: State, e: Event, s': State)
    requires Step(cfg, s, e, s') && s.wr.WBoot? && e != WCrash
    ensures s'.begun == s.begun && s'.writePos == s.writePos && s'.cells == s.cells
    ensures s'.wr.WBoot? || (s'.wr.WIdle? && s'.w == s'.writePos)
  {
    hide At;
    hide Capacity;
    IndexBound(cfg, s.w);
    IndexBound(cfg, s.r);
  }

  /** After a death of the consumer, until its successor is idle, nothing is answered or released; the
      successor starts at the shared `read_pos`. */
  lemma {:induction false} ConsumerReplaced(cfg: Config, ss: seq<State>, es: seq<Event>, a: nat, b: nat)
    requires Run(cfg, ss, es) && a < b <= |es| && es[a] == RCrash
    requires forall k :: a < k < b ==> !ss[k].rd.RIdle?
    ensures ss[b].results == ss[a].results && ss[b].readPos == ss[a].readPos
    ensures ss[b].rd.RBoot? || (ss[b].rd.RBoot2? && ss[b].r == ss[b].readPos)
         || (ss[b].rd.RIdle? && ss[b].r == ss[b].readPos && ss[b].wc == ss[b - 1].writePos)
  {
    hide Step;
    RunStep(cfg, ss, es, b - 1);
    if a < b - 1 { ConsumerReplaced(cfg, ss, es, a, b - 1); }
    AttachStep(cfg, ss[b - 1], es[b - 1], ss[b]);
  }

  lemma AttachStep(cfg: Config, s: State, e: Event, s': State)
    requires Step(cfg, s, e, s')
    ensures e == RCrash ==> s'.rd.RBoot? && s'.results == s.results && s'.readPos == s.readPos
    ensures s.rd.RBoot? || s.rd.RBoot2? ==>
              && s'.results == s.results && s'.readPos == s.readPos
              && (e == RStep && s.rd.RBoot? ==> s'.rd.RBoot2? && s'.r == s'.readPos)
              && (e == RStep && s.rd.RBoot2? ==> s'.rd.RIdle? && s'.r == s.r && s'.wc == s.writePos)
              && (e != RStep && e != RCrash ==> s'.rd == s.rd && s'.r == s.r)
  {
    hide At;
    hide Capacity;
    IndexBound(cfg, s.w);
    IndexBound(cfg, s.r);
  }
}
