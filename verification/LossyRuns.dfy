/** Runs of the lossy bus that show what it does not promise. Messages are two bytes long. */
module LossyRuns {
  import opened Bits
  import opened BusLayout
  import opened LossyBus

  /** A ring of one slot, and a ring of two. */
  const ONE := Config(0, 2)
  const TWO := Config(1, 2)

  ghost predicate Small(cfg: Config) {
    (cfg == ONE || cfg == TWO) && ValidConfig(cfg)
  }

  /** The slot of position `p`. */
  ghost predicate SlotIs(cfg: Config, p: nat, i: nat, s: State) {
    At(cfg, p) == i < |s.cells| && ShapedCells(cfg, s.cells)
  }

  ghost predicate Ends(cfg: Config, ss: seq<State>, es: seq<Event>, s: State) {
    Run(cfg, ss, es) && ss[|es|] == s
  }

  lemma Rings(p: nat)
    ensures Small(ONE) && Small(TWO) && Capacity(ONE) == 1 && Capacity(TWO) == 2
    ensures At(ONE, p) == 0 && At(TWO, p) == p % 2
  {
    assert Pow2(1) == 2;
    IndexIsMod(p, 1);
  }

  lemma Go(cfg: Config, ss: seq<State>, es: seq<Event>, s: State, e: Event)
    returns (ss': seq<State>, es': seq<Event>)
    requires Ends(cfg, ss, es, s) && ShapedCells(cfg, s.cells) && ValidConfig(cfg) && Enabled(cfg, s, e)
    ensures Ends(cfg, ss', es', Next(false, cfg, s, e))
  {
    hide Next;
    hide Init;
    hide ShapedCells;
    ss', es' := ss + [Next(false, cfg, s, e)], es + [e];
    forall i | 0 <= i < |es'|
      ensures Step(cfg, ss'[i], es'[i], ss'[i + 1])
    {
      if i < |es| { assert Step(cfg, ss[i], es[i], ss[i + 1]); }
    }
  }

  function Put(s: State, i: nat, cell: Cell): State
    requires i < |s.cells|
  {
    s.(cells := s.cells[i := cell])
  }

  /** The state after the first generation store of a push of `m` by an idle producer. */
  function Marked(s: State, i: nat, m: Msg): State
    requires i < |s.cells|
  {
    var c := s.cells[i];
    Put(s, i, c.(gen := (c.gen + 1) % U32, last := Ongoing)).(
      begun := s.begun + [Write(s.w, m)], wr := WSize(m, c.gen))
  }

  lemma MarkSteps(cfg: Config, s: State, i: nat, m: Msg)
    requires Small(cfg) && SlotIs(cfg, s.w, i, s) && |m| == 2
    ensures && Next(false, cfg, s.(wr := WIdle), Push(m)) == s.(wr := WLoad(m))
            && Next(false, cfg, s.(wr := WLoad(m)), WStep) == s.(wr := WMark(m, s.cells[i].gen))
            && Next(false, cfg, s.(wr := WMark(m, s.cells[i].gen)), WStep) == Marked(s, i, m)
  {
    hide At;
    hide Capacity;
  }

  lemma Mark(cfg: Config, ss: seq<State>, es: seq<Event>, s: State, i: nat, m: Msg)
    returns (ss': seq<State>, es': seq<Event>)
    requires Small(cfg) && Ends(cfg, ss, es, s) && s.wr == WIdle && SlotIs(cfg, s.w, i, s) && |m| == 2
    ensures Ends(cfg, ss', es', Marked(s, i, m))
  {
    hide Ends;
    hide Next;
    hide At;
    MarkSteps(cfg, s, i, m);
    ss', es' := Go(cfg, ss, es, s, Push(m));
    ss', es' := Go(cfg, ss', es', s.(wr := WLoad(m)), WStep);
    ss', es' := Go(cfg, ss', es', s.(wr := WMark(m, s.cells[i].gen)), WStep);
  }

  function WithSlot(s: State, i: nat, slot: Slot): State
    requires i < |s.cells|
  {
    Put(s, i, s.cells[i].(slot := slot))
  }

  /** Size and first byte. */
  lemma HalfSteps(cfg: Config, s: State, i: nat, g: nat, x: byte, y: byte)
    requires Small(cfg) && SlotIs(cfg, s.w, i, s)
    ensures |s.cells[i].slot.data| == 2
    ensures var d, m := s.cells[i].slot.data, [x, y];
            && ShapedCells(cfg, WithSlot(s, i, Slot(2, d)).cells)
            && Next(false, cfg, s.(wr := WSize(m, g)), WStep) == WithSlot(s, i, Slot(2, d)).(wr := WCopy(m, g, 0))
            && Next(false, cfg, WithSlot(s, i, Slot(2, d)).(wr := WCopy(m, g, 0)), WStep) ==
               WithSlot(s, i, Slot(2, [x, d[1]])).(wr := WCopy(m, g, 1))
  {
    hide At;
    hide Capacity;
    var d := s.cells[i].slot.data;
    assert d[0 := x] == [x, d[1]];
    assert WithSlot(s, i, Slot(2, d)).cells[i := s.cells[i].(slot := Slot(2, [x, d[1]]))] ==
           WithSlot(s, i, Slot(2, [x, d[1]])).cells;
  }

  lemma Half(cfg: Config, ss: seq<State>, es: seq<Event>, s: State, i: nat, g: nat, x: byte, y: byte)
    returns (ss': seq<State>, es': seq<Event>)
    requires Small(cfg) && Ends(cfg, ss, es, s) && s.wr == WSize([x, y], g) && SlotIs(cfg, s.w, i, s)
    ensures |s.cells[i].slot.data| == 2
    ensures Ends(cfg, ss', es', WithSlot(s, i, Slot(2, [x, s.cells[i].slot.data[1]])).(wr := WCopy([x, y], g, 1)))
  {
    hide Ends;
    hide Next;
    hide At;
    HalfSteps(cfg, s, i, g, x, y);
    ss', es' := Go(cfg, ss, es, s, WStep);
    ss', es' := Go(cfg, ss', es', WithSlot(s, i, Slot(2, s.cells[i].slot.data)).(wr := WCopy([x, y], g, 0)), WStep);
  }

  /** The second byte, the commit and the publication. */
  lemma RestSteps(cfg: Config, s: State, i: nat, g: nat, q: byte, x: byte, y: byte)
    requires Small(cfg) && SlotIs(cfg, s.w, i, s) && s.cells[i].slot == Slot(2, [x, q])
    ensures var m, copied := [x, y], WithSlot(s, i, Slot(2, [x, y]));
            var done := Put(s, i, s.cells[i].(gen := (g + 2) % U32, slot := Slot(2, [x, y]), last := Committed));
            && ShapedCells(cfg, copied.cells) && ShapedCells(cfg, done.cells)
            && Next(false, cfg, s.(wr := WCopy(m, g, 1)), WStep) == copied.(wr := WCopy(m, g, 2))
            && Next(false, cfg, copied.(wr := WCopy(m, g, 2)), WStep) == copied.(wr := WCommit(m, g))
            && Next(false, cfg, copied.(wr := WCommit(m, g)), WStep) == done.(wr := WPublish)
            && Next(false, cfg, done.(wr := WPublish), WStep) == done.(writePos := s.w + 1, wr := WBump)
            && Next(false, cfg, done.(writePos := s.w + 1, wr := WBump), WStep) ==
               done.(writePos := s.w + 1, w := s.w + 1, wr := WIdle)
  {
    hide At;
    hide Capacity;
    assert [x, q][1 := y] == [x, y];
    var copied := WithSlot(s, i, Slot(2, [x, y]));
    var cell := s.cells[i].(gen := (g + 2) % U32, slot := Slot(2, [x, y]), last := Committed);
    assert copied.cells[i := cell] == s.cells[i := cell];
  }

  /** The state after a whole push of `[x, y]`. */
  function After(s: State, i: nat, x: byte, y: byte): State
    requires i < |s.cells|
  {
    var c := s.cells[i];
    Put(s, i, c.(gen := (c.gen + 2) % U32, slot := Slot(2, [x, y]), last := Committed)).(
      begun := s.begun + [Write(s.w, [x, y])], writePos := s.w + 1, w := s.w + 1)
  }

  lemma PushAlone(cfg: Config, ss: seq<State>, es: seq<Event>, s: State, i: nat, x: byte, y: byte)
    returns (ss': seq<State>, es': seq<Event>)
    requires Small(cfg) && Ends(cfg, ss, es, s) && s.wr == WIdle && SlotIs(cfg, s.w, i, s)
    ensures Ends(cfg, ss', es', After(s, i, x, y))
  {
    hide Ends;
    hide Next;
    hide At;
    var g, m := s.cells[i].gen, [x, y];
    ss', es' := Mark(cfg, ss, es, s, i, m);
    var s1 := Marked(s, i, m);
    ss', es' := Half(cfg, ss', es', s1, i, g, x, y);
    var q := s1.cells[i].slot.data[1];
    var s2 := WithSlot(s1, i, Slot(2, [x, q]));
    RestSteps(cfg, s2, i, g, q, x, y);
    ss', es' := Go(cfg, ss', es', s2.(wr := WCopy(m, g, 1)), WStep);
    var s3 := WithSlot(s2, i, Slot(2, m));
    ss', es' := Go(cfg, ss', es', s3.(wr := WCopy(m, g, 2)), WStep);
    ss', es' := Go(cfg, ss', es', s3.(wr := WCommit(m, g)), WStep);
    var s4 := Put(s2, i, s2.cells[i].(gen := (g + 2) % U32, slot := Slot(2, m), last := Committed));
    ss', es' := Go(cfg, ss', es', s4.(wr := WPublish), WStep);
    ss', es' := Go(cfg, ss', es', s4.(writePos := s.w + 1, wr := WBump), WStep);
    assert s4.cells == After(s, i, x, y).cells;
  }

  // ---- pops -----------------------------------------------------------------------------------

  /** The copy, when the slot holds `[x, y]`. */
  lemma CopySteps(cfg: Config, s: State, i: nat, g: nat, snap: Snapshot, x: byte, y: byte)
    requires Small(cfg) && SlotIs(cfg, s.r, i, s) && s.cells[i].slot == Slot(2, [x, y])
    ensures && Next(false, cfg, s.(rd := RSize(2, g, snap)), RStep) == s.(rd := RCopy(2, g, snap, 2, []))
            && Next(false, cfg, s.(rd := RCopy(2, g, snap, 2, [])), RStep) == s.(rd := RCopy(2, g, snap, 2, [x]))
            && Next(false, cfg, s.(rd := RCopy(2, g, snap, 2, [x])), RStep) == s.(rd := RCopy(2, g, snap, 2, [x, y]))
            && Next(false, cfg, s.(rd := RCopy(2, g, snap, 2, [x, y])), RStep) == s.(rd := RGen2(2, g, snap, 2, [x, y]))
  {
    hide At;
    hide Capacity;
    assert [] + [x] == [x] && [x] + [y] == [x, y];
  }

  lemma Copy(cfg: Config, ss: seq<State>, es: seq<Event>, s: State, i: nat, g: nat, snap: Snapshot, x: byte, y: byte)
    returns (ss': seq<State>, es': seq<Event>)
    requires Small(cfg) && Ends(cfg, ss, es, s) && s.rd == RSize(2, g, snap)
    requires SlotIs(cfg, s.r, i, s) && s.cells[i].slot == Slot(2, [x, y])
    ensures Ends(cfg, ss', es', s.(rd := RGen2(2, g, snap, 2, [x, y])))
  {
    hide Ends;
    hide Next;
    hide At;
    CopySteps(cfg, s, i, g, snap, x, y);
    hide ShapedCells;
    ss', es' := Go(cfg, ss, es, s, RStep);
    ss', es' := Go(cfg, ss', es', s.(rd := RCopy(2, g, snap, 2, [])), RStep);
    ss', es' := Go(cfg, ss', es', s.(rd := RCopy(2, g, snap, 2, [x])), RStep);
    ss', es' := Go(cfg, ss', es', s.(rd := RCopy(2, g, snap, 2, [x, y])), RStep);
  }

  /** The release, when the generation has not changed. */
  lemma ReleaseSteps(cfg: Config, s: State, i: nat, snap: Snapshot, out: Msg)
    requires Small(cfg) && SlotIs(cfg, s.r, i, s)
    ensures && Next(false, cfg, s.(rd := RGen2(2, s.cells[i].gen, snap, 2, out)), RStep) == s.(rd := RRelease(2, out))
            && Next(false, cfg, s.(rd := RRelease(2, out)), RStep) == s.(readPos := s.r + 1, rd := RBump(2, out))
            && Next(false, cfg, s.(readPos := s.r + 1, rd := RBump(2, out)), RStep) ==
               s.(rd := RIdle, r := s.r + 1, readPos := s.r + 1, results := s.results + [Got(2, out)])
  {
    hide At;
    hide Capacity;
  }

  lemma Test(cfg: Config, s: State, i: nat)
    requires Small(cfg) && SlotIs(cfg, s.r, i, s) && s.cells[i].gen % 2 == 0
    ensures Next(false, cfg, s.(rd := RGen1(2)), RStep) ==
            s.(rd := RSize(2, s.cells[i].gen, Snapshot(s.begun, s.cells[i].last, s.cells[i].cuts)))
  {
    hide At;
    hide Capacity;
  }

  /** A pop from the point where it reads `gen1`, run to its end with nobody writing. */
  lemma PopAlone(cfg: Config, ss: seq<State>, es: seq<Event>, s: State, i: nat, x: byte, y: byte)
    returns (ss': seq<State>, es': seq<Event>)
    requires Small(cfg) && Ends(cfg, ss, es, s) && s.rd == RGen1(2) && SlotIs(cfg, s.r, i, s)
    requires s.cells[i].slot == Slot(2, [x, y]) && s.cells[i].gen % 2 == 0
    ensures Ends(cfg, ss', es', s.(
      rd := RIdle, r := s.r + 1, readPos := s.r + 1, results := s.results + [Got(2, [x, y])]))
  {
    hide Ends;
    hide Next;
    hide At;
    var g, snap := s.cells[i].gen, Snapshot(s.begun, s.cells[i].last, s.cells[i].cuts);
    Test(cfg, s, i);
    ss', es' := Go(cfg, ss, es, s, RStep);
    ss', es' := Copy(cfg, ss', es', s.(rd := RSize(2, g, snap)), i, g, snap, x, y);
    ReleaseSteps(cfg, s, i, snap, [x, y]);
    hide ShapedCells;
    ss', es' := Go(cfg, ss', es', s.(rd := RGen2(2, g, snap, 2, [x, y])), RStep);
    ss', es' := Go(cfg, ss', es', s.(rd := RRelease(2, [x, y])), RStep);
    ss', es' := Go(cfg, ss', es', s.(readPos := s.r + 1, rd := RBump(2, [x, y])), RStep);
  }

  /** A consumer attaches to a ring with `n` messages published and begins a pop. */
  lemma Attach(cfg: Config, ss: seq<State>, es: seq<Event>, s: State)
    returns (ss': seq<State>, es': seq<Event>)
    requires Small(cfg) && Ends(cfg, ss, es, s) && s.rd == RBoot && ShapedCells(cfg, s.cells)
    requires s.readPos == 0 && 0 < s.writePos <= Capacity(cfg)
    ensures Ends(cfg, ss', es', s.(r := 0, wc := s.writePos, rd := RGen1(2)))
  {
    hide Ends;
    hide At;
    hide Capacity;
    IndexBound(cfg, s.r);
    IndexBound(cfg, 0);
    ss', es' := Go(cfg, ss, es, s, RStep);
    ss', es' := Go(cfg, ss', es', s.(r := 0, rd := RBoot2), RStep);
    var s1 := s.(r := 0, wc := s.writePos);
    ss', es' := Go(cfg, ss', es', s1.(rd := RIdle), Pop(2));
    ss', es' := Go(cfg, ss', es', s1.(rd := RLap(2)), RStep);
  }

  function Fresh(gen: nat, x: byte, y: byte): Cell {
    Cell(gen, Slot(2, [x, y]), 0, Committed)
  }

  // ---- the runs -------------------------------------------------------------------------------

  /** In a ring of one slot: `[a, a]` is pushed, and a consumer has seen it and is about to read. */
  lemma Opening(a: byte) returns (ss: seq<State>, es: seq<Event>)
    ensures Ends(ONE, ss, es, State.State([Fresh(2, a, a)], 1, 0, WIdle, 1, RGen1(2), 0, 1, [Write(0, [a, a])], []))
  {
    hide At;
    hide Capacity;
    Rings(0);
    Rings(1);
    var s0 := Init(ONE);
    assert s0.cells[0].slot.data == [0, 0];
    assert s0.cells == [Cell(0, Slot(0, [0, 0]), 0, Committed)];
    ss, es := [s0], [];
    ss, es := Go(ONE, ss, es, s0, WStep);
    var s1 := s0.(wr := WIdle);
    ss, es := PushAlone(ONE, ss, es, s1, 0, a, a);
    var s2 := s1.(cells := [Fresh(2, a, a)], writePos := 1, w := 1, begun := [Write(0, [a, a])]);
    assert After(s1, 0, a, a) == s2;
    ss, es := Attach(ONE, ss, es, s2);
  }

  /** In-order delivery and complete loss flags fail: here is a run that pushes `[a, a]` and then
      `[b, b]`, in which two pops both return `[b, b]`, the first message is never seen, and no loss
      is flagged. The lap check used a write position read before the second push. */
  lemma EarlyAndTwice(a: byte, b: byte) returns (ss: seq<State>, es: seq<Event>)
    ensures Run(ONE, ss, es)
    ensures ss[|es|].begun == [Write(0, [a, a]), Write(1, [b, b])]
    ensures ss[|es|].results == [Got(2, [b, b]), Got(2, [b, b])]
  {
    hide At;
    hide Capacity;
    Rings(0);
    Rings(1);
    ss, es := Opening(a);
    var s1 := State.State([Fresh(2, a, a)], 1, 0, WIdle, 1, RGen1(2), 0, 1, [Write(0, [a, a])], []);
    ss, es := PushAlone(ONE, ss, es, s1, 0, b, b);
    var s2 := s1.(cells := [Fresh(4, b, b)], writePos := 2, w := 2, begun := [Write(0, [a, a]), Write(1, [b, b])]);
    assert After(s1, 0, b, b) == s2;
    ss, es := PopAlone(ONE, ss, es, s2, 0, b, b);
    var s3 := s2.(rd := RIdle, r := 1, readPos := 1, results := [Got(2, [b, b])]);
    ss, es := Go(ONE, ss, es, s3, Pop(2));
    ss, es := Go(ONE, ss, es, s3.(rd := RRefresh(2)), RStep);
    var s4 := s3.(wc := 2, rd := RLap(2));
    ss, es := Go(ONE, ss, es, s4, RStep);
    ss, es := PopAlone(ONE, ss, es, s4.(rd := RGen1(2)), 0, b, b);
  }

  /** A producer that dies between its two generation stores breaks the seqlock for its successor:
      the slot is left with an odd generation, the next push stores an even one while it writes, and
      a pop takes the half-written slot for a whole message. Here `[b, a]` is returned, which nobody
      pushed, after one cut. */
  lemma TornAfterCrash(a: byte, b: byte) returns (ss: seq<State>, es: seq<Event>)
    ensures Run(ONE, ss, es)
    ensures ss[|es|].begun == [Write(0, [a, a]), Write(1, [a, a]), Write(1, [b, b])]
    ensures |ss[|es|].cells| == 1 && ss[|es|].cells[0].cuts == 1
    ensures ss[|es|].results == [Got(2, [b, a])]
  {
    hide At;
    hide Capacity;
    Rings(0);
    Rings(1);
    ss, es := Opening(a);
    var s1 := State.State([Fresh(2, a, a)], 1, 0, WIdle, 1, RGen1(2), 0, 1, [Write(0, [a, a])], []);
    ss, es := Mark(ONE, ss, es, s1, 0, [a, a]);
    var s2 := Marked(s1, 0, [a, a]);
    ss, es := Go(ONE, ss, es, s2, WCrash);
    var s3 := s2.(cells := [Cell(3, Slot(2, [a, a]), 1, Cut)]);
    ss, es := Go(ONE, ss, es, s3.(wr := WBoot), WStep);
    ss, es := Mark(ONE, ss, es, s3.(wr := WIdle), 0, [b, b]);
    var s4 := Marked(s3, 0, [b, b]);
    ss, es := Half(ONE, ss, es, s4, 0, 3, b, b);
    var s5 := WithSlot(s4, 0, Slot(2, [b, a])).(wr := WCopy([b, b], 3, 1));
    ss, es := PopAlone(ONE, ss, es, s5, 0, b, a);
  }

  /** Two cuts restore the parity and leave the slot torn, with nobody writing: a push of `[b, b]` over
      `[a, a]` dies after its first byte, and the next one dies right after its mark. The generation
      is even again, and a pop returns `[b, a]`. */
  lemma TornAtRest(a: byte, b: byte) returns (ss: seq<State>, es: seq<Event>)
    ensures Run(ONE, ss, es)
    ensures ss[|es|].begun == [Write(0, [a, a]), Write(1, [b, b]), Write(1, [b, b])] && ss[|es|].wr == WBoot
    ensures |ss[|es|].cells| == 1 && ss[|es|].cells[0].cuts == 2 && ss[|es|].cells[0].last == Cut
    ensures ss[|es|].results == [Got(2, [b, a])]
  {
    hide At;
    hide Capacity;
    Rings(0);
    Rings(1);
    ss, es := Opening(a);
    var s1 := State.State([Fresh(2, a, a)], 1, 0, WIdle, 1, RGen1(2), 0, 1, [Write(0, [a, a])], []);
    ss, es := Mark(ONE, ss, es, s1, 0, [b, b]);
    var s2 := Marked(s1, 0, [b, b]);
    ss, es := Half(ONE, ss, es, s2, 0, 2, b, b);
    var s3 := WithSlot(s2, 0, Slot(2, [b, a]));
    ss, es := Go(ONE, ss, es, s3.(wr := WCopy([b, b], 2, 1)), WCrash);
    var s4 := s3.(cells := [Cell(3, Slot(2, [b, a]), 1, Cut)]);
    ss, es := Go(ONE, ss, es, s4.(wr := WBoot), WStep);
    ss, es := Mark(ONE, ss, es, s4.(wr := WIdle), 0, [b, b]);
    var s5 := Marked(s4, 0, [b, b]);
    ss, es := Go(ONE, ss, es, s5, WCrash);
    var s6 := s5.(cells := [Cell(4, Slot(2, [b, a]), 2, Cut)], wr := WBoot);
    ss, es := PopAlone(ONE, ss, es, s6, 0, b, a);
  }

  /** The fast-forward exception happens: in a ring of two slots that hold `[a, a]` and `[b, b]`, a
      third push marks slot 0 while the consumer copies position 0. The consumer resumes at position
      2, past position 1, whose message is committed, intact in its slot and never delivered. */
  lemma IntactMessageSkipped(a: byte, b: byte, c: byte) returns (ss: seq<State>, es: seq<Event>)
    ensures Run(TWO, ss, es)
    ensures var s := ss[|es|];
            && s.results == [Overwritten] && s.readPos == s.writePos == 2 == Capacity(TWO)
            && s.begun == [Write(0, [a, a]), Write(1, [b, b]), Write(2, [c, c])]
            && |s.cells| == 2 && s.cells[At(TWO, 1)] == Fresh(2, b, b)
  {
    hide At;
    hide Capacity;
    Rings(0);
    Rings(1);
    Rings(2);
    var s0 := Init(TWO);
    var z := Cell(0, Slot(0, [0, 0]), 0, Committed);
    assert s0.cells[0].slot.data == [0, 0] && s0.cells[1].slot.data == [0, 0];
    assert s0.cells == [z, z];
    ss, es := [s0], [];
    ss, es := Go(TWO, ss, es, s0, WStep);
    var s1 := s0.(wr := WIdle);
    ss, es := PushAlone(TWO, ss, es, s1, 0, a, a);
    var s2 := s1.(cells := [Fresh(2, a, a), z], writePos := 1, w := 1, begun := [Write(0, [a, a])]);
    assert After(s1, 0, a, a) == s2;
    ss, es := PushAlone(TWO, ss, es, s2, 1, b, b);
    var s3 := s2.(cells := [Fresh(2, a, a), Fresh(2, b, b)], writePos := 2, w := 2,
                  begun := [Write(0, [a, a]), Write(1, [b, b])]);
    assert After(s2, 1, b, b) == s3;
    ss, es := Attach(TWO, ss, es, s3);
    ss, es := Overtaken(ss, es, s3.(r := 0, wc := 2, rd := RGen1(2)), a, b, c);
  }

  lemma Overtaken(ss: seq<State>, es: seq<Event>, s: State, a: byte, b: byte, c: byte)
    returns (ss': seq<State>, es': seq<Event>)
    requires Ends(TWO, ss, es, s) && s.wr == WIdle && s.w == s.writePos == 2 && s.rd == RGen1(2) && s.r == 0
    requires s.cells == [Fresh(2, a, a), Fresh(2, b, b)] && s.results == [] && s.readPos == 0
    ensures Run(TWO, ss', es')
    ensures var t := ss'[|es'|];
            && t.results == [Overwritten] && t.readPos == t.writePos == 2
            && t.begun == s.begun + [Write(2, [c, c])] && |t.cells| == 2 && t.cells[1] == Fresh(2, b, b)
  {
    hide At;
    hide Capacity;
    Rings(0);
    Rings(2);
    Test(TWO, s, 0);
    ss', es' := Go(TWO, ss, es, s, RStep);
    var snap := Snapshot(s.begun, Committed, 0);
    var s1 := s.(rd := RSize(2, 2, snap));
    ss', es' := Mark(TWO, ss', es', s1, 0, [c, c]);
    var s2 := Marked(s1, 0, [c, c]);
    ss', es' := Copy(TWO, ss', es', s2, 0, 2, snap, a, a);
    ss', es' := Go(TWO, ss', es', s2.(rd := RGen2(2, 2, snap, 2, [a, a])), RStep);
    ss', es' := Go(TWO, ss', es', s2.(rd := RReload), RStep);
    ss', es' := Go(TWO, ss', es', s2.(wc := 2, r := 2, rd := RSkip), RStep);
  }
}
