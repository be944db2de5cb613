/** The lossy bus on 64-bit positions. Unlike in lossless mode the wrap can be seen, and exactly
    where is the subject here: up to the first such step, every run on 64-bit positions is the image
    of a run on unbounded ones, of which LossyBus speaks. */
module LossyWrap {
  import opened Bits
  import opened BusLayout
  import opened LossyBus

  function ImageWrites(b: seq<Write>): (r: seq<Write>)
    ensures |r| == |b| && forall i :: 0 <= i < |b| ==> r[i] == b[i].(pos := b[i].pos % U64)
  {
    seq(|b|, i requires 0 <= i < |b| => b[i].(pos := b[i].pos % U64))
  }

  function ImageSnap(snap: Snapshot): Snapshot {
    snap.(seen := ImageWrites(snap.seen))
  }

  function ImageReader(rd: Reader): Reader {
    match rd
    case RSize(buf, g1, snap) => RSize(buf, g1, ImageSnap(snap))
    case RCopy(buf, g1, snap, size, out) => RCopy(buf, g1, ImageSnap(snap), size, out)
    case RGen2(buf, g1, snap, size, out) => RGen2(buf, g1, ImageSnap(snap), size, out)
    case _ => rd
  }

  /** The state as the source represents it: every position modulo 2^64. */
  function Image(s: State): State {
    s.(writePos := s.writePos % U64, readPos := s.readPos % U64, w := s.w % U64, r := s.r % U64, wc := s.wc % U64,
       rd := ImageReader(s.rd), begun := ImageWrites(s.begun))
  }

  lemma ImageAppend(b: seq<Write>, x: Write)
    ensures ImageWrites(b + [x]) == ImageWrites(b) + [x.(pos := x.pos % U64)]
  {
  }

  /** The steps at which the wrap shows. The reader takes a lag of a multiple of 2^64 for none, or a
      lag that is a little more than such a multiple for a small one; and after an overwrite it
      compares the wrapped `write_pos` with the capacity. */
  ghost predicate Diverges(cfg: Config, s: State, e: Event) {
    match e
    case Pop(_) => s.r != s.wc && s.r % U64 == s.wc % U64
    case RStep =>
      if s.rd.RRefresh? then s.r != s.writePos && s.r % U64 == s.writePos % U64
      else if s.rd.RLap? then s.wc - s.r > Capacity(cfg) && (s.wc - s.r) % U64 <= Capacity(cfg)
      else s.rd.RReload? && s.writePos % U64 <= Capacity(cfg) < s.writePos
    case _ => false
  }

  lemma ImageWriter(cfg: Config, s: State)
    requires Inv(cfg, s) && Enabled(cfg, s, WStep)
    ensures Next(true, cfg, Image(s), WStep) == Image(Next(false, cfg, s, WStep))
  {
    hide At;
    hide Capacity;
    hide CellOk;
    hide Ordered;
    hide ReaderOk;
    hide Begun;
    hide ImageWrites;
    IndexWrap(cfg, s.w);
    IndexBound(cfg, s.w);
    WrappedInc(s.w);
    if s.wr.WMark? { ImageAppend(s.begun, Write(s.w, s.wr.msg)); }
  }

  lemma ImageDeath(cfg: Config, s: State)
    requires Inv(cfg, s)
    ensures Next(true, cfg, Image(s), WCrash) == Image(Next(false, cfg, s, WCrash))
  {
    hide At;
    hide Capacity;
    hide CellOk;
    hide Ordered;
    hide ReaderOk;
    IndexWrap(cfg, s.w);
    IndexBound(cfg, s.w);
  }

  /** Subtracting the capacity moves a position, and does so modulo 2^64. */
  lemma Back(x: nat, c: nat)
    requires 0 < c < U64
    ensures Minus(true, x % U64, c) == (x - c) % U64
    ensures (x - c) % U64 != x % U64
  {
  }

  lemma ImageLap(cfg: Config, s: State)
    requires Inv(cfg, s) && s.rd.RLap?
    ensures Next(true, cfg, Image(s), RStep) == Image(Next(false, cfg, s, RStep)) <==> !Diverges(cfg, s, RStep)
  {
    hide At;
    hide Capacity;
    hide CellOk;
    hide Ordered;
    hide WriterOk;
    hide ImageWrites;
    CapacityFits(cfg);
    IndexBound(cfg, s.r);
    IndexBound(cfg, s.r % U64);
    Lag(s.wc, s.r);
    Back(s.wc, Capacity(cfg));
  }

  lemma Lag(x: nat, y: nat)
    requires y <= x
    ensures Minus(true, x % U64, y % U64) == (x - y) % U64 <= x - y
  {
  }

  lemma ImageReload(cfg: Config, s: State)
    requires Inv(cfg, s) && s.rd.RReload?
    ensures Next(true, cfg, Image(s), RStep) == Image(Next(false, cfg, s, RStep)) <==> !Diverges(cfg, s, RStep)
  {
    hide At;
    hide Capacity;
    hide CellOk;
    hide Ordered;
    hide WriterOk;
    hide ImageWrites;
    CapacityFits(cfg);
    IndexBound(cfg, s.r);
    IndexBound(cfg, s.r % U64);
    Reload(s.writePos, Capacity(cfg));
  }

  /** Where the reload resumes, on wrapped and on unbounded positions. */
  lemma Reload(x: nat, c: nat)
    requires 0 < c < U32
    ensures (if x % U64 > c then x % U64 - c else x % U64) == (if x > c then x - c else x) % U64 <==>
            !(x % U64 <= c < x)
  {
  }

  /** The steps that use the slot: it is the same one. */
  lemma ImageCopies(cfg: Config, s: State)
    requires Inv(cfg, s) && (s.rd.RGen1? || s.rd.RSize? || s.rd.RCopy? || s.rd.RGen2?)
    ensures Enabled(cfg, s, RStep)
    ensures Next(true, cfg, Image(s), RStep) == Image(Next(false, cfg, s, RStep))
  {
    hide At;
    hide Capacity;
    hide CellOk;
    hide Ordered;
    hide WriterOk;
    hide SnapOk;
    hide GenOk;
    hide ImageWrites;
    IndexWrap(cfg, s.r);
    IndexBound(cfg, s.r);
  }

  lemma ImageReads(cfg: Config, s: State)
    requires Inv(cfg, s) && Enabled(cfg, s, RStep)
    ensures Next(true, cfg, Image(s), RStep) == Image(Next(false, cfg, s, RStep)) <==> !Diverges(cfg, s, RStep)
  {
    hide At;
    hide Capacity;
    hide CellsOk;
    hide Ordered;
    hide WriterOk;
    hide ReaderOk;
    hide ImageWrites;
    InvShape(cfg, s);
    if s.rd.RLap? {
      ImageLap(cfg, s);
    } else if s.rd.RReload? {
      ImageReload(cfg, s);
    } else if s.rd.RGen1? || s.rd.RSize? || s.rd.RCopy? || s.rd.RGen2? {
      ImageCopies(cfg, s);
    } else {
      ImageMoves(cfg, s);
    }
  }

  lemma InvShape(cfg: Config, s: State)
    requires Inv(cfg, s)
    ensures ValidConfig(cfg) && ShapedCells(cfg, s.cells)
  {
    hide CellOk;
  }

  lemma ImageMoves(cfg: Config, s: State)
    requires Inv(cfg, s) && Enabled(cfg, s, RStep)
    requires s.rd.RBoot? || s.rd.RBoot2? || s.rd.RRefresh? || s.rd.RSkip? || s.rd.RRelease? || s.rd.RBump?
    ensures Next(true, cfg, Image(s), RStep) == Image(Next(false, cfg, s, RStep)) <==> !Diverges(cfg, s, RStep)
  {
    hide At;
    hide Capacity;
    hide CellOk;
    hide Ordered;
    hide WriterOk;
    hide ReaderOk;
    hide ImageWrites;
    IndexBound(cfg, s.r);
    IndexBound(cfg, s.r % U64);
    WrappedInc(s.r);
  }

  /** A step on 64-bit positions is the image of the same step on unbounded ones if and only if it is
      none of the diverging ones. */
  lemma ImageStep(cfg: Config, s: State, e: Event)
    requires Inv(cfg, s) && Enabled(cfg, s, e)
    ensures ShapedCells(cfg, Image(s).cells) && Enabled(cfg, Image(s), e)
    ensures Next(true, cfg, Image(s), e) == Image(Next(false, cfg, s, e)) <==> !Diverges(cfg, s, e)
  {
    hide At;
    hide Capacity;
    hide CellOk;
    hide Ordered;
    hide ImageWrites;
    match e
    case WStep => ImageWriter(cfg, s);
    case WCrash => ImageDeath(cfg, s);
    case RStep => ImageReads(cfg, s);
    case _ =>
  }

  /** While the reader is less than 2^64 messages behind, one kind of step is left: the reload after an
      overwrite, when the wrapped `write_pos` is not above the capacity. It then resumes at the end
      instead of at the oldest message. */
  lemma OnlyTheReload(cfg: Config, s: State, e: Event)
    requires Inv(cfg, s) && Enabled(cfg, s, e) && s.writePos < s.readPos + U64
    ensures Diverges(cfg, s, e) <==> e == RStep && s.rd.RReload? && s.writePos % U64 <= Capacity(cfg) < s.writePos
    ensures Diverges(cfg, s, e) ==>
              && Next(false, cfg, s, e).r == s.writePos - Capacity(cfg)
              && Next(true, cfg, Image(s), e).r == s.writePos % U64
  {
    hide At;
    hide Capacity;
    hide CellOk;
    hide Ordered;
    hide WriterOk;
    hide SnapOk;
    hide CopyOk;
    hide GenOk;
    CapacityFits(cfg);
    IndexBound(cfg, s.r);
    IndexBound(cfg, s.r % U64);
    if e.Pop? { WrappedMinus(s.wc, s.r); }
    if e == RStep && s.rd.RRefresh? { WrappedMinus(s.writePos, s.r); }
  }

  // ---- every run ------------------------------------------------------------------------------

  ghost predicate WrappedStep(cfg: Config, s: State, e: Event, s': State) {
    ValidConfig(cfg) && ShapedCells(cfg, s.cells) && Enabled(cfg, s, e) && s' == Next(true, cfg, s, e)
  }

  ghost predicate WrappedRun(cfg: Config, ss: seq<State>, es: seq<Event>) {
    && ValidConfig(cfg) && |ss| == |es| + 1 && ss[0] == Init(cfg)
    && forall i :: 0 <= i < |es| ==> WrappedStep(cfg, ss[i], es[i], ss[i + 1])
  }

  /** Every run of the 64-bit machine is, up to its first diverging step, the image of a run on
      unbounded positions. */
  lemma {:induction false} Unwrap(cfg: Config, ss: seq<State>, es: seq<Event>, k: nat) returns (us: seq<State>, n: nat)
    requires WrappedRun(cfg, ss, es) && k <= |es|
    ensures n <= k && Run(cfg, us, es[..n])
    ensures forall i :: 0 <= i <= n ==> ss[i] == Image(us[i]) && Inv(cfg, us[i])
    ensures n < k ==> Enabled(cfg, us[n], es[n]) && Diverges(cfg, us[n], es[n])
  {
    hide Inv;
    hide Next;
    hide ShapedCells;
    hide Image;
    hide Init;
    hide Enabled;
    hide Diverges;
    if k == 0 {
      InitOk(cfg);
      InitImage(cfg);
      us, n := [Init(cfg)], 0;
    } else {
      us, n := Unwrap(cfg, ss, es, k - 1);
      if n == k - 1 {
        assert WrappedStep(cfg, ss[n], es[n], ss[n + 1]);
        SameEnabled(cfg, us[n], es[n]);
        ImageStep(cfg, us[n], es[n]);
        if !Diverges(cfg, us[n], es[n]) {
          StepKeeps(cfg, us[n], es[n]);
          us := Extended(cfg, us, es, n);
          n := k;
        }
      }
    }
  }

  lemma Extended(cfg: Config, us: seq<State>, es: seq<Event>, n: nat) returns (us': seq<State>)
    requires n < |es| && Run(cfg, us, es[..n]) && ShapedCells(cfg, us[n].cells) && Enabled(cfg, us[n], es[n])
    ensures us' == us + [Next(false, cfg, us[n], es[n])] && Run(cfg, us', es[..n + 1])
  {
    hide Next;
    hide ShapedCells;
    hide Init;
    hide Enabled;
    us' := us + [Next(false, cfg, us[n], es[n])];
    forall i | 0 <= i < n + 1
      ensures Step(cfg, us'[i], es[..n + 1][i], us'[i + 1])
    {
      if i < n { assert Step(cfg, us[i], es[..n][i], us[i + 1]); }
    }
  }

  lemma InitImage(cfg: Config)
    ensures Init(cfg) == Image(Init(cfg))
  {
  }

  lemma SameEnabled(cfg: Config, s: State, e: Event)
    requires Inv(cfg, s)
    ensures Enabled(cfg, Image(s), e) <==> Enabled(cfg, s, e)
    ensures ValidConfig(cfg) && ShapedCells(cfg, s.cells)
  {
    hide CellOk;
    hide Ordered;
    hide WriterOk;
    hide ReaderOk;
  }
}
