/** The lossy mode of spsc_bus/spsc_bus.hpp: `OverwriteProducer::push` overwrites the oldest slot
    under a per-slot seqlock, `Consumer::try_pop_lossy` checks the generation before and after its
    copy. Steps are single memory accesses over sequentially consistent memory. With `wrap` positions
    are kept modulo 2^64 as the source keeps them, without it they are unbounded (LossyWrap relates
    the two); generations wrap at 2^32. Either side may crash at any point and be replaced. */
module LossyBus {
  import opened Bits
  import opened BusLayout

  /** What became of a push that has stored its first generation: it is between its two generation
      stores, it has stored the second, or its producer died in between. */
  datatype Fate = Ongoing | Committed | Cut

  /** A slot with its generation. History: how many pushes to it were cut short, and the fate of the
      last push begun on it (Committed if none was). */
  datatype Cell = Cell(gen: nat, slot: Slot, cuts: nat, last: Fate)

  /** A push that has stored its first generation. */
  datatype Write = Write(pos: nat, msg: Msg)

  datatype Writer =
    | WBoot | WIdle
    | WLoad(msg: Msg)
    | WMark(msg: Msg, g: nat)
    | WSize(msg: Msg, g: nat)
    | WCopy(msg: Msg, g: nat, n: nat)
    | WCommit(msg: Msg, g: nat)
    | WPublish
    | WBump

  /** History of a copy, taken when `gen1` is read: the pushes begun, and the slot's own history. */
  datatype Snapshot = Snapshot(seen: seq<Write>, last: Fate, cuts: nat)

  datatype Reader =
    | RBoot | RBoot2 | RIdle
    | RRefresh(buf: nat)
    | RLap(buf: nat)
    | RGen1(buf: nat)
    | RSize(buf: nat, g1: nat, snap: Snapshot)
    | RCopy(buf: nat, g1: nat, snap: Snapshot, size: nat, out: Msg)
    | RGen2(buf: nat, g1: nat, snap: Snapshot, size: nat, out: Msg)
    | RReload
    | RSkip
    | RRelease(size: nat, out: Msg)
    | RBump(size: nat, out: Msg)

  datatype LossyResult = Nothing | Busy | Overwritten | Got(size: nat, bytes: Msg)

  datatype State = State(
    cells: seq<Cell>, writePos: nat, readPos: nat,
    wr: Writer, w: nat,
    rd: Reader, r: nat, wc: nat,
    // history: pushes begun, results of the pops
    begun: seq<Write>, results: seq<LossyResult>)

  datatype Event = Push(msg: Msg) | WStep | WCrash | Pop(buf: nat) | RStep | RCrash

  function Init(cfg: Config): State {
    State(seq(Capacity(cfg), i => Cell(0, Slot(0, seq(cfg.maxMsg, j => 0)), 0, Committed)), 0, 0,
          WBoot, 0, RBoot, 0, 0, [], [])
  }

  predicate ShapedCells(cfg: Config, cells: seq<Cell>) {
    && |cells| == Capacity(cfg)
    && forall i :: 0 <= i < |cells| ==> |cells[i].slot.data| == cfg.maxMsg && cells[i].slot.size <= cfg.maxMsg
  }

  predicate Enabled(cfg: Config, s: State, e: Event) {
    match e
    case Push(_) => s.wr.WIdle?
    case WStep => !s.wr.WIdle? && (s.wr.WCopy? ==> s.wr.n <= |s.wr.msg| <= cfg.maxMsg)
    case WCrash => true
    case Pop(_) => s.rd.RIdle?
    case RStep => !s.rd.RIdle? && (s.rd.RCopy? ==> s.rd.size <= cfg.maxMsg)
    case RCrash => true
  }

  /** Between the two generation stores of a push. */
  predicate Inside(wr: Writer) {
    wr.WSize? || wr.WCopy? || wr.WCommit?
  }

  function Next(wrap: bool, cfg: Config, s: State, e: Event): State
    requires ShapedCells(cfg, s.cells) && ValidConfig(cfg) && Enabled(cfg, s, e)
  {
    match e
    case Push(msg) => if |msg| > cfg.maxMsg then s else s.(wr := WLoad(msg))
    case WStep => WriterStep(wrap, cfg, s)
    case WCrash => WriterDies(cfg, s)
    case Pop(buf) => s.(rd := if s.r == s.wc then RRefresh(buf) else RLap(buf))
    case RStep => ReaderStep(wrap, cfg, s)
    case RCrash => s.(rd := RBoot)
  }

  function WithCell(s: State, i: nat, cell: Cell): State
    requires i < |s.cells|
  {
    s.(cells := s.cells[i := cell])
  }

  /** Memory stays as it is; only the history notes a push that was cut short. */
  function WriterDies(cfg: Config, s: State): State
    requires ShapedCells(cfg, s.cells) && ValidConfig(cfg)
  {
    IndexBound(cfg, s.w);
    var cell := s.cells[At(cfg, s.w)];
    if Inside(s.wr) then WithCell(s, At(cfg, s.w), cell.(cuts := cell.cuts + 1, last := Cut)).(wr := WBoot)
    else s.(wr := WBoot)
  }

  function WriterStep(wrap: bool, cfg: Config, s: State): State
    requires ShapedCells(cfg, s.cells) && ValidConfig(cfg) && Enabled(cfg, s, WStep)
  {
    IndexBound(cfg, s.w);
    var i := At(cfg, s.w);
    var cell := s.cells[i];
    match s.wr
    case WBoot => s.(w := s.writePos, wr := WIdle)
    case WLoad(msg) => s.(wr := WMark(msg, cell.gen))
    case WMark(msg, g) =>
      WithCell(s, i, cell.(gen := (g + 1) % U32, last := Ongoing)).(
        begun := s.begun + [Write(s.w, msg)], wr := WSize(msg, g))
    case WSize(msg, g) =>
      WithCell(s, i, cell.(slot := cell.slot.(size := |msg|))).(wr := WCopy(msg, g, 0))
    case WCopy(msg, g, n) =>
      if n < |msg| then
        WithCell(s, i, cell.(slot := cell.slot.(data := cell.slot.data[n := msg[n]]))).(wr := WCopy(msg, g, n + 1))
      else s.(wr := WCommit(msg, g))
    case WCommit(msg, g) => WithCell(s, i, cell.(gen := (g + 2) % U32, last := Committed)).(wr := WPublish)
    case WPublish => s.(writePos := Inc(wrap, s.w), wr := WBump)
    case WBump => s.(w := Inc(wrap, s.w), wr := WIdle)
  }

  function ReaderStep(wrap: bool, cfg: Config, s: State): State
    requires ShapedCells(cfg, s.cells) && ValidConfig(cfg) && Enabled(cfg, s, RStep)
  {
    IndexBound(cfg, s.r);
    var cell := s.cells[At(cfg, s.r)];
    match s.rd
    case RBoot => s.(r := s.readPos, rd := RBoot2)
    case RBoot2 => s.(wc := s.writePos, rd := RIdle)
    case RRefresh(buf) =>
      if s.r == s.writePos then s.(wc := s.writePos, rd := RIdle, results := s.results + [Nothing])
      else s.(wc := s.writePos, rd := RLap(buf))
    case RLap(buf) =>
      if Minus(wrap, s.wc, s.r) > Capacity(cfg) then s.(r := Minus(wrap, s.wc, Capacity(cfg)), rd := RSkip)
      else s.(rd := RGen1(buf))
    case RGen1(buf) =>
      if cell.gen % 2 == 1 then s.(rd := RIdle, results := s.results + [Busy])
      else s.(rd := RSize(buf, cell.gen, Snapshot(s.begun, cell.last, cell.cuts)))
    case RSize(buf, g1, snap) => s.(rd := RCopy(buf, g1, snap, cell.slot.size, []))
    case RCopy(buf, g1, snap, size, out) =>
      if |out| < CopySize(size, buf) then s.(rd := RCopy(buf, g1, snap, size, out + [cell.slot.data[|out|]]))
      else s.(rd := RGen2(buf, g1, snap, size, out))
    case RGen2(buf, g1, snap, size, out) =>
      if cell.gen != g1 then s.(rd := RReload) else s.(rd := RRelease(size, out))
    case RReload =>
      s.(wc := s.writePos, r := if s.writePos > Capacity(cfg) then s.writePos - Capacity(cfg) else s.writePos,
         rd := RSkip)
    case RSkip => s.(readPos := s.r, rd := RIdle, results := s.results + [Overwritten])
    case RRelease(size, out) => s.(readPos := Inc(wrap, s.r), rd := RBump(size, out))
    case RBump(size, out) => s.(r := Inc(wrap, s.r), rd := RIdle, results := s.results + [Got(size, out)])
  }

  // ---- the pushes to one slot -----------------------------------------------------------------

  /** How many of the pushes begun use slot `i`. */
  function Marks(cfg: Config, i: nat, b: seq<Write>): nat {
    if b == [] then 0
    else Marks(cfg, i, b[..|b| - 1]) + (if At(cfg, b[|b| - 1].pos) == i then 1 else 0)
  }

  /** The index of the last of them, or -1. */
  function LastMark(cfg: Config, i: nat, b: seq<Write>): (k: int)
    ensures -1 <= k < |b|
    ensures k >= 0 ==> At(cfg, b[k].pos) == i
  {
    if b == [] then -1
    else if At(cfg, b[|b| - 1].pos) == i then |b| - 1
    else LastMark(cfg, i, b[..|b| - 1])
  }

  lemma MarksAppend(cfg: Config, i: nat, b: seq<Write>, x: Write)
    ensures Marks(cfg, i, b + [x]) == Marks(cfg, i, b) + (if At(cfg, x.pos) == i then 1 else 0)
    ensures LastMark(cfg, i, b + [x]) == if At(cfg, x.pos) == i then |b| else LastMark(cfg, i, b)
  {
    assert (b + [x])[..|b|] == b;
  }

  lemma {:induction false} MarksMonotone(cfg: Config, i: nat, a: seq<Write>, b: seq<Write>)
    requires a <= b
    ensures Marks(cfg, i, a) <= Marks(cfg, i, b)
    decreases |b|
  {
    if a != b { MarksMonotone(cfg, i, a, b[..|b| - 1]); }
  }

  /** No push to the slot in between, so the last one is the same. */
  lemma {:induction false} SameLast(cfg: Config, i: nat, a: seq<Write>, b: seq<Write>)
    requires a <= b && Marks(cfg, i, a) == Marks(cfg, i, b)
    ensures LastMark(cfg, i, a) == LastMark(cfg, i, b)
    decreases |b|
  {
    if a != b {
      MarksMonotone(cfg, i, a, b[..|b| - 1]);
      SameLast(cfg, i, a, b[..|b| - 1]);
    }
  }

  lemma {:induction false} LastMarkAtLeast(cfg: Config, i: nat, b: seq<Write>, k: nat)
    requires k < |b| && At(cfg, b[k].pos) == i
    ensures LastMark(cfg, i, b) >= k
  {
    if k < |b| - 1 { LastMarkAtLeast(cfg, i, b[..|b| - 1], k); }
  }

  lemma {:induction false} NoMark(cfg: Config, i: nat, b: seq<Write>)
    ensures Marks(cfg, i, b) == 0 <==> LastMark(cfg, i, b) == -1
  {
    if b != [] { NoMark(cfg, i, b[..|b| - 1]); }
  }

  /** Two positions of the same slot are at least a capacity apart. */
  lemma FarApart(cfg: Config, p: nat, q: nat)
    requires ValidConfig(cfg) && p < q && At(cfg, p) == At(cfg, q)
    ensures q >= p + Capacity(cfg)
  {
    hide At;
    hide Capacity;
    if q < p + Capacity(cfg) { IndexApart(cfg, p, q); }
  }

  lemma NextLap(cfg: Config, p: nat)
    requires ValidConfig(cfg)
    ensures At(cfg, p + Capacity(cfg)) == At(cfg, p)
  {
    hide Pow2;
    hide SlotIndex;
    var c := Pow2(cfg.k);
    IndexIsMod(p, cfg.k);
    IndexIsMod(p + c, cfg.k);
    assert p + c == c * (p / c + 1) + p % c;
    DivModUnique(p + c, c, p / c + 1, p % c);
  }

  // ---- the positions of the pushes ------------------------------------------------------------

  /** Pushes take the positions in order; one is repeated only if a producer died before publishing
      it. Everything published has been pushed. */
  ghost predicate Ordered(b: seq<Write>, writePos: nat) {
    && (b != [] ==> b[0].pos == 0 && b[|b| - 1].pos + 1 >= writePos)
    && (b == [] ==> writePos == 0)
    && (forall k :: 0 < k < |b| ==> b[k - 1].pos <= b[k].pos <= b[k - 1].pos + 1)
    && (forall k :: 0 <= k < |b| ==> b[k].pos <= writePos)
  }

  lemma {:induction false} PositionsGrow(b: seq<Write>, writePos: nat, j: nat, k: nat)
    requires Ordered(b, writePos) && j <= k < |b|
    ensures b[j].pos <= b[k].pos
  {
    if j < k {
      PositionsGrow(b, writePos, j, k - 1);
      assert b[k - 1].pos <= b[k].pos;
    }
  }

  /** Positions leave no gap: each one up to that of push `k` was pushed by then. */
  lemma {:induction false} PushedAt(b: seq<Write>, writePos: nat, k: nat, p: nat) returns (j: nat)
    requires Ordered(b, writePos) && k < |b| && p <= b[k].pos
    ensures j <= k && b[j].pos == p
    decreases k
  {
    if b[k].pos == p {
      j := k;
    } else {
      assert b[k].pos <= b[k - 1].pos + 1;
      j := PushedAt(b, writePos, k - 1, p);
    }
  }

  /** Of the pushes `seen`, the last one to the slot of a published `r` is at `r` or a lap or more
      later; at `r` exactly if no push for the next lap was among them. */
  lemma LastIsOwn(cfg: Config, b: seq<Write>, writePos: nat, seen: seq<Write>, r: nat)
    requires ValidConfig(cfg) && Ordered(b, writePos) && seen <= b && seen != [] && seen[|seen| - 1].pos >= r
    ensures LastMark(cfg, At(cfg, r), seen) >= 0
    ensures seen[LastMark(cfg, At(cfg, r), seen)].pos >= r
    ensures seen[LastMark(cfg, At(cfg, r), seen)].pos == r <==> seen[|seen| - 1].pos < r + Capacity(cfg)
  {
    hide At;
    hide Capacity;
    hide LastMark;
    var i, end := At(cfg, r), |seen| - 1;
    var j := PushedAt(b, writePos, end, r);
    LastMarkAtLeast(cfg, i, seen, j);
    var k := LastMark(cfg, i, seen);
    PositionsGrow(b, writePos, j, k);
    PositionsGrow(b, writePos, k, end);
    if seen[k].pos > r { FarApart(cfg, r, seen[k].pos); }
    if seen[end].pos >= r + Capacity(cfg) {
      NextLap(cfg, r);
      var l := PushedAt(b, writePos, end, r + Capacity(cfg));
      LastMarkAtLeast(cfg, i, seen, l);
      PositionsGrow(b, writePos, l, k);
      CapacityPositive(cfg);
    }
  }

  lemma CapacityPositive(cfg: Config)
    ensures Capacity(cfg) >= 1
  {
  }

  // ---- invariant, for every run ---------------------------------------------------------------

  /** 1 while slot `i` is being written. */
  function Busyness(cfg: Config, wr: Writer, w: nat, i: nat): nat {
    if Inside(wr) && At(cfg, w) == i then 1 else 0
  }

  /** Each push begun adds two to the generation, less one while it is open and for good if it was
      cut short. A slot whose last push was committed holds its message. */
  ghost predicate CellOk(cfg: Config, cell: Cell, i: nat, begun: seq<Write>, busy: nat) {
    && cell.cuts + busy <= Marks(cfg, i, begun)
    && cell.gen == (2 * Marks(cfg, i, begun) - cell.cuts - busy) % U32
    && (cell.last.Ongoing? <==> busy == 1)
    && (cell.last.Cut? ==> cell.cuts > 0)
    && (cell.last.Committed? && LastMark(cfg, i, begun) >= 0 ==> Holds(cell.slot, begun[LastMark(cfg, i, begun)].msg))
  }

  ghost predicate CellsOk(cfg: Config, cells: seq<Cell>, begun: seq<Write>, wr: Writer, w: nat) {
    && ValidConfig(cfg) && ShapedCells(cfg, cells)
    && forall i :: 0 <= i < |cells| ==> CellOk(cfg, cells[i], i, begun, Busyness(cfg, wr, w, i))
  }

  ghost predicate WriterOk(cfg: Config, wr: Writer, w: nat, cells: seq<Cell>, writePos: nat, begun: seq<Write>) {
    var i := At(cfg, w);
    match wr
    case WBoot => true
    case WIdle => w == writePos
    case WLoad(msg) => w == writePos && |msg| <= cfg.maxMsg
    case WMark(msg, g) => w == writePos && |msg| <= cfg.maxMsg && i < |cells| && cells[i].gen == g
    case WSize(msg, g) => Open(cfg, w, cells, writePos, begun, msg, g)
    case WCopy(msg, g, m) => Open(cfg, w, cells, writePos, begun, msg, g) && Begun(cells[i].slot, cfg.maxMsg, msg, m)
    case WCommit(msg, g) => Open(cfg, w, cells, writePos, begun, msg, g) && Begun(cells[i].slot, cfg.maxMsg, msg, |msg|)
    case WPublish => w == writePos && begun != [] && begun[|begun| - 1].pos == w
    case WBump => w + 1 == writePos
  }

  ghost predicate Open(cfg: Config, w: nat, cells: seq<Cell>, writePos: nat, begun: seq<Write>, msg: Msg, g: nat) {
    && w == writePos && |msg| <= cfg.maxMsg && At(cfg, w) < |cells| && cells[At(cfg, w)].gen == (g + 1) % U32
    && begun != [] && begun[|begun| - 1] == Write(w, msg)
  }

  /** No push to slot `i` has begun since the snapshot. */
  ghost predicate Quiet(cfg: Config, i: nat, seen: seq<Write>, begun: seq<Write>) {
    Marks(cfg, i, begun) == Marks(cfg, i, seen)
  }

  /** A snapshot of a whole slot: what has happened to the slot since is visible in its generation. */
  ghost predicate SnapOk(cfg: Config, i: nat, cell: Cell, busy: nat, begun: seq<Write>, g1: nat, snap: Snapshot) {
    && snap.seen <= begun && snap.cuts <= cell.cuts
    && (snap.last.Committed? ==>
          && g1 == (2 * Marks(cfg, i, snap.seen) - snap.cuts) % U32
          && cell.cuts + busy - snap.cuts <= Marks(cfg, i, begun) - Marks(cfg, i, snap.seen)
          && (Quiet(cfg, i, snap.seen, begun) ==> cell.last.Committed?))
    && (snap.cuts == 0 ==> snap.last.Committed?)
  }

  /** A copy of a whole and quiet slot: the bytes so far are those of one message. */
  ghost predicate CopyOk(cfg: Config, i: nat, begun: seq<Write>, snap: Snapshot, size: nat, out: Msg) {
    && snap.seen <= begun && size <= cfg.maxMsg
    && (snap.last.Committed? && Quiet(cfg, i, snap.seen, begun) && LastMark(cfg, i, snap.seen) >= 0 ==>
          Part(begun[LastMark(cfg, i, snap.seen)].msg, size, out))
  }

  predicate Part(msg: Msg, size: nat, out: Msg) {
    size == |msg| && |out| <= size && out == msg[..|out|]
  }

  /** While a position is being copied its slot keeps the generation `gen1`, unless it has been taken
      for a later lap. */
  ghost predicate GenOk(cfg: Config, r: nat, cells: seq<Cell>, writePos: nat, g1: nat) {
    At(cfg, r) < |cells| && (cells[At(cfg, r)].gen == g1 || r + Capacity(cfg) <= writePos)
  }

  ghost predicate Reading(cfg: Config, s: State, g1: nat, snap: Snapshot) {
    var i := At(cfg, s.r);
    && s.r == s.readPos < s.wc <= s.writePos && GenOk(cfg, s.r, s.cells, s.writePos, g1)
    && SnapOk(cfg, i, s.cells[i], Busyness(cfg, s.wr, s.w, i), s.begun, g1, snap)
    && snap.seen != [] && snap.seen[|snap.seen| - 1].pos >= s.r
  }

  ghost predicate ReaderOk(cfg: Config, s: State) {
    && s.readPos <= s.writePos
    && match s.rd
       case RBoot => true
       case RBoot2 => s.r == s.readPos
       case RIdle => s.r == s.readPos <= s.wc <= s.writePos
       case RRefresh(_) => s.r == s.readPos <= s.wc <= s.writePos
       case RLap(_) => s.r == s.readPos < s.wc <= s.writePos
       case RGen1(_) => s.r == s.readPos < s.wc <= s.writePos
       case RSize(_, g1, snap) => Reading(cfg, s, g1, snap)
       case RCopy(buf, g1, snap, size, out) =>
         Reading(cfg, s, g1, snap) && |out| <= CopySize(size, buf) && CopyOk(cfg, At(cfg, s.r), s.begun, snap, size, out)
       case RGen2(buf, g1, snap, size, out) =>
         Reading(cfg, s, g1, snap) && |out| == CopySize(size, buf) && CopyOk(cfg, At(cfg, s.r), s.begun, snap, size, out)
       case RReload => s.r == s.readPos && s.r + Capacity(cfg) <= s.writePos
       case RSkip => s.readPos <= s.r <= s.wc <= s.writePos
       case RRelease(_, _) => s.r == s.readPos < s.wc <= s.writePos
       case RBump(_, _) => s.r + 1 == s.readPos && s.r < s.wc <= s.writePos
  }

  ghost predicate Inv(cfg: Config, s: State) {
    && CellsOk(cfg, s.cells, s.begun, s.wr, s.w)
    && WriterOk(cfg, s.wr, s.w, s.cells, s.writePos, s.begun)
    && Ordered(s.begun, s.writePos)
    && ReaderOk(cfg, s)
  }

  // ---- writer steps ---------------------------------------------------------------------------

  lemma AddGeneration(x: int, k: int)
    ensures (x % U32 + k) % U32 == (x + k) % U32
  {
  }

  /** A step that changes one cell, its history and whether it is busy: the others are as before. */
  lemma OneCell(cfg: Config, s: State, s': State, i: nat)
    requires CellsOk(cfg, s.cells, s.begun, s.wr, s.w) && i < |s.cells|
    requires |s'.cells| == |s.cells| && s'.cells == s.cells[i := s'.cells[i]]
    requires |s'.cells[i].slot.data| == cfg.maxMsg && s'.cells[i].slot.size <= cfg.maxMsg
    requires s'.begun == s.begun || exists x: Write :: At(cfg, x.pos) == i && s'.begun == s.begun + [x]
    requires forall j :: 0 <= j < |s.cells| && j != i ==> Busyness(cfg, s'.wr, s'.w, j) == Busyness(cfg, s.wr, s.w, j)
    requires CellOk(cfg, s'.cells[i], i, s'.begun, Busyness(cfg, s'.wr, s'.w, i))
    ensures CellsOk(cfg, s'.cells, s'.begun, s'.wr, s'.w)
  {
    hide At;
    hide Capacity;
    hide Holds;
    hide Busyness;
    hide Marks;
    hide LastMark;
    forall j | 0 <= j < |s.cells|
      ensures CellOk(cfg, s'.cells[j], j, s'.begun, Busyness(cfg, s'.wr, s'.w, j))
    {
      if j != i {
        assert CellOk(cfg, s.cells[j], j, s.begun, Busyness(cfg, s.wr, s.w, j));
        if s'.begun != s.begun {
          var x: Write :| At(cfg, x.pos) == i && s'.begun == s.begun + [x];
          MarksAppend(cfg, j, s.begun, x);
        }
      }
    }
  }

  lemma MarkKeepsCells(cfg: Config, s: State)
    requires Inv(cfg, s) && s.wr.WMark?
    ensures var s' := Next(false, cfg, s, WStep); CellsOk(cfg, s'.cells, s'.begun, s'.wr, s'.w)
  {
    hide At;
    hide Capacity;
    hide Holds;
    hide Marks;
    hide LastMark;
    hide ReaderOk;
    IndexBound(cfg, s.w);
    var i, s' := At(cfg, s.w), Next(false, cfg, s, WStep);
    assert CellOk(cfg, s.cells[i], i, s.begun, 0);
    MarksAppend(cfg, i, s.begun, Write(s.w, s.wr.msg));
    AddGeneration(2 * Marks(cfg, i, s.begun) - s.cells[i].cuts, 1);
    OneCell(cfg, s, s', i);
  }

  lemma WriteKeepsCells(cfg: Config, s: State)
    requires Inv(cfg, s) && (s.wr.WSize? || s.wr.WCopy?) && Enabled(cfg, s, WStep)
    ensures var s' := Next(false, cfg, s, WStep); CellsOk(cfg, s'.cells, s'.begun, s'.wr, s'.w)
  {
    hide At;
    hide Capacity;
    hide Holds;
    hide Marks;
    hide LastMark;
    hide ReaderOk;
    IndexBound(cfg, s.w);
    var i, s' := At(cfg, s.w), Next(false, cfg, s, WStep);
    assert CellOk(cfg, s.cells[i], i, s.begun, 1);
    OneCell(cfg, s, s', i);
  }

  lemma CommitKeepsCells(cfg: Config, s: State)
    requires Inv(cfg, s) && s.wr.WCommit?
    ensures var s' := Next(false, cfg, s, WStep); CellsOk(cfg, s'.cells, s'.begun, s'.wr, s'.w)
  {
    hide At;
    hide Capacity;
    hide Marks;
    hide LastMark;
    hide ReaderOk;
    IndexBound(cfg, s.w);
    var i, s' := At(cfg, s.w), Next(false, cfg, s, WStep);
    assert CellOk(cfg, s.cells[i], i, s.begun, 1);
    LastMarkAtLeast(cfg, i, s.begun, |s.begun| - 1);
    AddGeneration(2 * Marks(cfg, i, s.begun) - s.cells[i].cuts - 1, 1);
    AddGeneration(s.wr.g + 1, 1);
    OneCell(cfg, s, s', i);
  }

  lemma DeathKeepsCells(cfg: Config, s: State)
    requires Inv(cfg, s)
    ensures var s' := Next(false, cfg, s, WCrash); CellsOk(cfg, s'.cells, s'.begun, s'.wr, s'.w)
  {
    hide At;
    hide Capacity;
    hide Holds;
    hide Marks;
    hide LastMark;
    hide ReaderOk;
    IndexBound(cfg, s.w);
    var i, s' := At(cfg, s.w), Next(false, cfg, s, WCrash);
    assert CellOk(cfg, s.cells[i], i, s.begun, Busyness(cfg, s.wr, s.w, i));
    OneCell(cfg, s, s', i);
  }

  /** A step of the producer, or its death. */
  ghost predicate WriterMoves(cfg: Config, s: State, s': State) {
    && ValidConfig(cfg) && ShapedCells(cfg, s.cells)
    && ((Enabled(cfg, s, WStep) && s' == Next(false, cfg, s, WStep)) || s' == Next(false, cfg, s, WCrash))
  }

  lemma WriterFrame(cfg: Config, s: State, s': State)
    requires Inv(cfg, s) && WriterMoves(cfg, s, s')
    ensures s'.rd == s.rd && s'.r == s.r && s'.wc == s.wc && s'.readPos == s.readPos && s'.results == s.results
    ensures s.writePos <= s'.writePos && s.begun <= s'.begun
  {
    hide At;
    hide Capacity;
    hide CellOk;
    hide ReaderOk;
    hide Ordered;
    IndexBound(cfg, s.w);
  }

  /** What it does to the slot being copied. */
  lemma ReaderUndisturbed(cfg: Config, s: State, s': State)
    requires Inv(cfg, s) && WriterMoves(cfg, s, s')
    ensures ReaderOk(cfg, s')
  {
    hide At;
    hide Capacity;
    hide CopyOk;
    hide SnapOk;
    hide Ordered;
    hide CellsOk;
    hide WriterOk;
    hide WriterMoves;
    WriterFrame(cfg, s, s');
    if s.rd.RSize? || s.rd.RCopy? || s.rd.RGen2? {
      SnapUndisturbed(cfg, s, s', s.rd.g1, s.rd.snap);
      GenUndisturbed(cfg, s, s', s.rd.g1);
      if s.rd.RCopy? || s.rd.RGen2? {
        CopyUndisturbed(cfg, At(cfg, s.r), s.begun, s'.begun, s.rd.snap, s.rd.size, s.rd.out);
      }
    }
  }

  lemma GenUndisturbed(cfg: Config, s: State, s': State, g1: nat)
    requires Inv(cfg, s) && GenOk(cfg, s.r, s.cells, s.writePos, g1) && s.r < s.writePos && WriterMoves(cfg, s, s')
    ensures GenOk(cfg, s.r, s'.cells, s'.writePos, g1)
  {
    hide At;
    hide Capacity;
    hide Marks;
    hide LastMark;
    hide Holds;
    hide Begun;
    hide ReaderOk;
    hide Ordered;
    IndexBound(cfg, s.w);
    if At(cfg, s.w) == At(cfg, s.r) && s.r < s.w { FarApart(cfg, s.r, s.w); }
  }

  lemma SnapUndisturbed(cfg: Config, s: State, s': State, g1: nat, snap: Snapshot)
    requires Inv(cfg, s) && WriterMoves(cfg, s, s') && At(cfg, s.r) < |s.cells|
    requires var i := At(cfg, s.r);
             SnapOk(cfg, i, s.cells[i], Busyness(cfg, s.wr, s.w, i), s.begun, g1, snap)
    ensures At(cfg, s.r) < |s'.cells|
    ensures var i := At(cfg, s.r);
            SnapOk(cfg, i, s'.cells[i], Busyness(cfg, s'.wr, s'.w, i), s'.begun, g1, snap)
  {
    hide At;
    hide Capacity;
    hide Marks;
    hide LastMark;
    hide Holds;
    hide Begun;
    hide ReaderOk;
    hide Ordered;
    IndexBound(cfg, s.w);
    var i := At(cfg, s.r);
    assert CellOk(cfg, s.cells[i], i, s.begun, Busyness(cfg, s.wr, s.w, i));
    MarksMonotone(cfg, i, snap.seen, s.begun);
    if s.wr.WMark? { MarksAppend(cfg, i, s.begun, Write(s.w, s.wr.msg)); }
  }

  lemma CopyUndisturbed(cfg: Config, i: nat, begun: seq<Write>, begun': seq<Write>, snap: Snapshot, size: nat, out: Msg)
    requires CopyOk(cfg, i, begun, snap, size, out) && begun <= begun'
    ensures CopyOk(cfg, i, begun', snap, size, out)
  {
    hide At;
    hide Marks;
    hide LastMark;
    MarksMonotone(cfg, i, snap.seen, begun);
    MarksMonotone(cfg, i, begun, begun');
    if LastMark(cfg, i, snap.seen) >= 0 { LastIn(cfg, i, snap.seen); }
  }

  lemma LastIn(cfg: Config, i: nat, b: seq<Write>)
    ensures LastMark(cfg, i, b) < |b|
  {
  }

  lemma WriterCells(cfg: Config, s: State)
    requires Inv(cfg, s) && Enabled(cfg, s, WStep)
    ensures var s' := Next(false, cfg, s, WStep); CellsOk(cfg, s'.cells, s'.begun, s'.wr, s'.w)
  {
    hide At;
    hide Capacity;
    hide CellOk;
    hide ReaderOk;
    hide Ordered;
    hide WriterOk;
    IndexBound(cfg, s.w);
    if s.wr.WMark? {
      MarkKeepsCells(cfg, s);
    } else if s.wr.WCommit? {
      CommitKeepsCells(cfg, s);
    } else if Inside(s.wr) {
      WriteKeepsCells(cfg, s);
    } else {
      SameCells(cfg, s, Next(false, cfg, s, WStep));
    }
  }

  lemma WriterOrdered(cfg: Config, s: State)
    requires Inv(cfg, s) && Enabled(cfg, s, WStep)
    ensures var s' := Next(false, cfg, s, WStep); Ordered(s'.begun, s'.writePos)
  {
    hide At;
    hide Capacity;
    hide CellOk;
    hide ReaderOk;
    hide Begun;
    hide Ordered;
    IndexBound(cfg, s.w);
    if s.wr.WMark? {
      MarkOrdered(s.begun, s.writePos, Write(s.w, s.wr.msg));
    } else if s.wr.WPublish? {
      PublishOrdered(s.begun, s.writePos);
    }
  }

  lemma MarkOrdered(b: seq<Write>, writePos: nat, x: Write)
    requires Ordered(b, writePos) && x.pos == writePos
    ensures Ordered(b + [x], writePos)
  {
  }

  lemma PublishOrdered(b: seq<Write>, writePos: nat)
    requires Ordered(b, writePos) && b != [] && b[|b| - 1].pos == writePos
    ensures Ordered(b, writePos + 1)
  {
  }

  lemma WriterRegisters(cfg: Config, s: State)
    requires Inv(cfg, s) && Enabled(cfg, s, WStep)
    ensures var s' := Next(false, cfg, s, WStep); WriterOk(cfg, s'.wr, s'.w, s'.cells, s'.writePos, s'.begun)
  {
    hide At;
    hide Capacity;
    hide CellOk;
    hide ReaderOk;
    hide Ordered;
    IndexBound(cfg, s.w);
    if s.wr.WCopy? && s.wr.n < |s.wr.msg| {
      var m, msg := s.wr.n, s.wr.msg;
      assert s.cells[At(cfg, s.w)].slot.data[m := msg[m]][..m + 1] == msg[..m + 1];
    }
  }

  lemma WriterKeeps(cfg: Config, s: State)
    requires Inv(cfg, s) && Enabled(cfg, s, WStep)
    ensures Inv(cfg, Next(false, cfg, s, WStep))
  {
    hide At;
    hide Capacity;
    hide CellOk;
    hide WriterOk;
    hide ReaderOk;
    hide Ordered;
    hide Next;
    WriterCells(cfg, s);
    WriterRegisters(cfg, s);
    WriterOrdered(cfg, s);
    ReaderUndisturbed(cfg, s, Next(false, cfg, s, WStep));
  }

  lemma SameCells(cfg: Config, s: State, s': State)
    requires CellsOk(cfg, s.cells, s.begun, s.wr, s.w) && s'.cells == s.cells && s'.begun == s.begun
    requires !Inside(s.wr) && !Inside(s'.wr)
    ensures CellsOk(cfg, s'.cells, s'.begun, s'.wr, s'.w)
  {
    hide At;
    hide Capacity;
    hide Marks;
    hide LastMark;
    hide Holds;
    forall i | 0 <= i < |s.cells|
      ensures CellOk(cfg, s.cells[i], i, s.begun, Busyness(cfg, s'.wr, s'.w, i))
    {
      assert CellOk(cfg, s.cells[i], i, s.begun, Busyness(cfg, s.wr, s.w, i));
    }
  }

  lemma DeathKeeps(cfg: Config, s: State)
    requires Inv(cfg, s)
    ensures Inv(cfg, Next(false, cfg, s, WCrash))
  {
    hide At;
    hide Capacity;
    hide Marks;
    hide LastMark;
    hide ReaderOk;
    hide Holds;
    IndexBound(cfg, s.w);
    DeathKeepsCells(cfg, s);
    ReaderUndisturbed(cfg, s, Next(false, cfg, s, WCrash));
  }

  // ---- reader steps ---------------------------------------------------------------------------

  lemma SnapTaken(cfg: Config, s: State)
    requires Inv(cfg, s) && s.rd.RGen1? && At(cfg, s.r) < |s.cells| && s.cells[At(cfg, s.r)].gen % 2 == 0
    ensures ReaderOk(cfg, Next(false, cfg, s, RStep))
  {
    hide At;
    hide Capacity;
    hide Marks;
    hide LastMark;
    hide Holds;
    hide WriterOk;
    IndexBound(cfg, s.r);
    var i := At(cfg, s.r);
    assert CellOk(cfg, s.cells[i], i, s.begun, Busyness(cfg, s.wr, s.w, i));
  }

  lemma ReaderCopies(cfg: Config, s: State)
    requires Inv(cfg, s) && (s.rd.RSize? || s.rd.RCopy?)
    ensures ReaderOk(cfg, Next(false, cfg, s, RStep))
  {
    hide At;
    hide Capacity;
    hide Marks;
    hide LastMark;
    hide WriterOk;
    hide Ordered;
    IndexBound(cfg, s.r);
    var i := At(cfg, s.r);
    var cell, snap := s.cells[i], s.rd.snap;
    assert CellOk(cfg, cell, i, s.begun, Busyness(cfg, s.wr, s.w, i));
    if snap.last.Committed? && Quiet(cfg, i, snap.seen, s.begun) && LastMark(cfg, i, snap.seen) >= 0 {
      SameLast(cfg, i, snap.seen, s.begun);
      var msg := s.begun[LastMark(cfg, i, snap.seen)].msg;
      assert Holds(cell.slot, msg);
      if s.rd.RCopy? && |s.rd.out| < CopySize(s.rd.size, s.rd.buf) {
        var k := |s.rd.out|;
        assert cell.slot.data[k] == cell.slot.data[..|msg|][k];
        assert msg[..k + 1] == msg[..k] + [cell.slot.data[k]];
      }
    }
  }

  lemma ReaderKeeps(cfg: Config, s: State)
    requires Inv(cfg, s) && Enabled(cfg, s, RStep)
    ensures Inv(cfg, Next(false, cfg, s, RStep))
  {
    hide At;
    hide Capacity;
    hide CellOk;
    hide WriterOk;
    hide Ordered;
    hide SnapOk;
    hide CopyOk;
    IndexBound(cfg, s.r);
    match s.rd
    case RGen1(_) => if s.cells[At(cfg, s.r)].gen % 2 == 0 { SnapTaken(cfg, s); }
    case RSize(_, _, _) => ReaderCopies(cfg, s);
    case RCopy(_, _, _, _, _) => ReaderCopies(cfg, s);
    case _ =>
  }

  /** Every memory access, and every death of either side, keeps the invariant. */
  lemma StepKeeps(cfg: Config, s: State, e: Event)
    requires Inv(cfg, s) && Enabled(cfg, s, e)
    ensures Inv(cfg, Next(false, cfg, s, e))
  {
    hide At;
    hide Capacity;
    hide CellOk;
    hide Ordered;
    hide SnapOk;
    hide CopyOk;
    match e
    case WStep => WriterKeeps(cfg, s);
    case WCrash => DeathKeeps(cfg, s);
    case RStep => ReaderKeeps(cfg, s);
    case Push(msg) => SameCells(cfg, s, Next(false, cfg, s, e));
    case _ =>
  }

  lemma InitOk(cfg: Config)
    requires ValidConfig(cfg)
    ensures Inv(cfg, Init(cfg))
  {
    hide At;
    hide Capacity;
  }

  /** The side conditions in Enabled exclude nothing: even a torn size never exceeds the slot. */
  lemma NeverStuck(cfg: Config, s: State)
    requires Inv(cfg, s)
    ensures Enabled(cfg, s, WStep) <==> !s.wr.WIdle?
    ensures Enabled(cfg, s, RStep) <==> !s.rd.RIdle?
  {
    hide At;
    hide Capacity;
    hide CellOk;
    hide SnapOk;
    hide Ordered;
  }

  // ---- every run ------------------------------------------------------------------------------

  ghost predicate Step(cfg: Config, s: State, e: Event, s': State) {
    ValidConfig(cfg) && ShapedCells(cfg, s.cells) && Enabled(cfg, s, e) && s' == Next(false, cfg, s, e)
  }

  /** Any interleaving of the two processes, with any deaths, from a freshly created segment. */
  ghost predicate Run(cfg: Config, ss: seq<State>, es: seq<Event>) {
    && ValidConfig(cfg) && |ss| == |es| + 1 && ss[0] == Init(cfg)
    && forall i :: 0 <= i < |es| ==> Step(cfg, ss[i], es[i], ss[i + 1])
  }

  lemma {:induction false} RunKeeps(cfg: Config, ss: seq<State>, es: seq<Event>, i: nat)
    requires Run(cfg, ss, es) && i <= |es|
    ensures Inv(cfg, ss[i])
  {
    hide Inv;
    hide Next;
    hide Init;
    if i == 0 {
      InitOk(cfg);
    } else {
      RunKeeps(cfg, ss, es, i - 1);
      assert Step(cfg, ss[i - 1], es[i - 1], ss[i]);
      StepKeeps(cfg, ss[i - 1], es[i - 1]);
    }
  }

  lemma RunStep(cfg: Config, ss: seq<State>, es: seq<Event>, i: nat)
    requires Run(cfg, ss, es) && i < |es|
    ensures |ss| == |es| + 1 && Step(cfg, ss[i], es[i], ss[i + 1])
  {
  }

  /** In every run, whoever dies, neither side can be stopped inside a call. */
  lemma AlwaysEnabled(cfg: Config, ss: seq<State>, es: seq<Event>, i: nat)
    requires Run(cfg, ss, es) && i <= |es|
    ensures Enabled(cfg, ss[i], WStep) <==> !ss[i].wr.WIdle?
    ensures Enabled(cfg, ss[i], RStep) <==> !ss[i].rd.RIdle?
  {
    hide Inv;
    RunKeeps(cfg, ss, es, i);
    NeverStuck(cfg, ss[i]);
  }

  /** What the generation test means, in every run. A slot that passes it (even generation) is being
      written at that moment if and only if an odd number of pushes to it have been cut short by a
      death. It is not whole exactly if it is being written, or the last push begun on it was cut
      short; in the second case the number of cuts is even and not 0. */
  lemma GenerationTest(cfg: Config, ss: seq<State>, es: seq<Event>, i: nat)
    requires Run(cfg, ss, es) && i < |es| && es[i] == RStep && ss[i].rd.RGen1? && ss[i + 1].rd.RSize?
    ensures At(cfg, ss[i].r) < |ss[i].cells|
    ensures var s, k := ss[i], At(cfg, ss[i].r);
            var cell, writing := s.cells[k], Inside(s.wr) && At(cfg, s.w) == k;
            && (writing <==> cell.cuts % 2 == 1)
            && (cell.last.Cut? ==> cell.cuts % 2 == 0 && cell.cuts > 0)
            && (!ss[i + 1].rd.snap.last.Committed? <==> writing || cell.last.Cut?)
            && (ss[i + 1].rd.snap.last.Committed? && Marks(cfg, k, s.begun) > 0 ==>
                  LastMark(cfg, k, s.begun) >= 0 && Holds(cell.slot, s.begun[LastMark(cfg, k, s.begun)].msg))
  {
    hide At;
    hide Capacity;
    hide Marks;
    hide LastMark;
    hide WriterOk;
    hide Ordered;
    hide Run;
    RunStep(cfg, ss, es, i);
    RunKeeps(cfg, ss, es, i);
    var s := ss[i];
    IndexBound(cfg, s.r);
    var k := At(cfg, s.r);
    assert CellOk(cfg, s.cells[k], k, s.begun, Busyness(cfg, s.wr, s.w, k));
    EvenGeneration(Marks(cfg, k, s.begun), s.cells[k].cuts, Busyness(cfg, s.wr, s.w, k));
    NoMark(cfg, k, s.begun);
  }

  lemma EvenGeneration(m: nat, cuts: nat, busy: nat)
    requires cuts + busy <= m && ((2 * m - cuts - busy) % U32) % 2 == 0 && busy <= 1
    ensures busy == 1 <==> cuts % 2 == 1
  {
  }

  /** The same generation twice means that the slot was quiet, unless it wrapped in between. `m` and
      `m1` count the pushes begun now and then, `c` and `c1` those cut short or still open. */
  lemma SameMeansQuiet(m: nat, c: nat, m1: nat, c1: nat)
    requires m1 <= m && c1 <= c && c - c1 <= m - m1 < U32 / 2
    requires (2 * m - c) % U32 == (2 * m1 - c1) % U32
    ensures m == m1
  {
    SmallMultiple(U32, (2 * m - c) / U32 - (2 * m1 - c1) / U32, 2 * m - c - (2 * m1 - c1));
  }

  /** A successful lossy pop, in every run, whoever died and wherever: if the last push begun on the
      slot had been committed when the copy began (which is so if no push to this slot was ever cut
      short), and the generation did not wrap during the copy (fewer than 2^31 pushes to the slot),
      the pop returns one whole pushed message and never a mix. It is the last one pushed to the slot
      when the copy began, at a position congruent to `read_pos`, and it is the message at `read_pos`
      itself if and only if the push for the next lap had not begun by then. */
  lemma PopIsWhole(cfg: Config, ss: seq<State>, es: seq<Event>, i: nat)
    requires Run(cfg, ss, es) && i < |es| && es[i] == RStep
    requires ss[i].rd.RGen2? && ss[i + 1].rd.RRelease?
    requires ss[i].rd.snap.last.Committed? || (At(cfg, ss[i].r) < |ss[i].cells| && ss[i].cells[At(cfg, ss[i].r)].cuts == 0)
    requires Marks(cfg, At(cfg, ss[i].r), ss[i].begun) - Marks(cfg, At(cfg, ss[i].r), ss[i].rd.snap.seen) < U32 / 2
    ensures var s, seen := ss[i], ss[i].rd.snap.seen;
            var k := LastMark(cfg, At(cfg, s.r), seen);
            && k >= 0 && seen <= s.begun && s.r <= seen[k].pos && At(cfg, seen[k].pos) == At(cfg, s.r)
            && Delivers(seen[k].msg, s.rd.buf, ss[i + 1].rd.size, ss[i + 1].rd.out)
            && (seen[k].pos == s.r <==> seen[|seen| - 1].pos < s.r + Capacity(cfg))
  {
    hide At;
    hide Capacity;
    hide Marks;
    hide LastMark;
    hide WriterOk;
    hide Run;
    RunStep(cfg, ss, es, i);
    RunKeeps(cfg, ss, es, i);
    var s := ss[i];
    var k, snap := At(cfg, s.r), s.rd.snap;
    IndexBound(cfg, s.r);
    var busy := Busyness(cfg, s.wr, s.w, k);
    assert CellOk(cfg, s.cells[k], k, s.begun, busy);
    MarksMonotone(cfg, k, snap.seen, s.begun);
    SameMeansQuiet(Marks(cfg, k, s.begun), s.cells[k].cuts + busy, Marks(cfg, k, snap.seen), snap.cuts);
    LastIsOwn(cfg, s.begun, s.writePos, snap.seen, s.r);
    CopyDelivers(snap.seen[LastMark(cfg, k, snap.seen)].msg, s.rd.buf);
  }

  /** `read_pos` never decreases and never passes `write_pos`, which never decreases either. */
  lemma ReadPosMonotone(cfg: Config, ss: seq<State>, es: seq<Event>, i: nat)
    requires Run(cfg, ss, es) && i < |es|
    ensures ss[i].readPos <= ss[i + 1].readPos <= ss[i + 1].writePos
    ensures ss[i].writePos <= ss[i + 1].writePos
  {
    hide At;
    hide Capacity;
    hide CellOk;
    hide Run;
    hide SnapOk;
    hide CopyOk;
    hide GenOk;
    hide Ordered;
    hide Begun;
    RunStep(cfg, ss, es, i);
    RunKeeps(cfg, ss, es, i);
    IndexBound(cfg, ss[i].r);
    IndexBound(cfg, ss[i].w);
  }

  /** After an overwrite the reader resumes at the oldest position still in the ring, with one
      exception: when exactly a capacity of messages has been published it resumes at the end
      (LossyRuns.IntactMessageSkipped is such a run). */
  lemma FastForward(cfg: Config, ss: seq<State>, es: seq<Event>, i: nat)
    requires Run(cfg, ss, es) && i < |es| && es[i] == RStep && ss[i].rd.RReload?
    ensures ss[i].writePos >= Capacity(cfg) && ss[i + 1].rd.RSkip?
    ensures ss[i + 1].r == ss[i].writePos - Capacity(cfg) <==> ss[i].writePos != Capacity(cfg)
    ensures ss[i].writePos == Capacity(cfg) ==> ss[i + 1].r == ss[i].writePos
  {
    hide At;
    hide Capacity;
    hide CellOk;
    hide WriterOk;
    hide Run;
    RunStep(cfg, ss, es, i);
    RunKeeps(cfg, ss, es, i);
    CapacityPositive(cfg);
    IndexBound(cfg, ss[i].r);
  }
}
