/** What the viewer's record of its representation says in every state of every run. */
module Records {
  import opened Options
  import opened Pixels
  import opened Wire
  import opened Canonical
  import H = Host
  import C = Compositor
  import opened System
  import opened Invariant
  import A = HostSteps
  import E = ExactSteps

  predicate Rectangular(h: H.Host) { h.mode in {H.ExactMode, H.AwaitingRectAck} }

  /**
   No transaction is left open, and the record's epoch is one its representation can have; the epoch
   reserved for rectangles is no snapshot's.
   */
  ghost predicate RecordOk(c: Session, s: State) {
    var k, h := s.compositor.canonical, s.host;
    && k.pendingTarget == 0 && k.epoch <= h.epoch
    && (k.representation == Recovery ==> k.epoch == 0)
    && (k.representation == Video ==> k.epoch <= VideoBound(h))
    && (k.representation == Snapshot ==> k.epoch in s.snapshots)
    && (c.rawRect && Rectangular(h) ==> h.epoch !in s.snapshots)
  }

  // ------------------------------------------------------------------ the host's turns

  /** Epochs only grow, and the rectangle epoch is new when it is opened. */
  predicate Moves(c: Session, h: H.Host, t: H.Host) {
    && t.epoch >= h.epoch && VideoBound(t) >= VideoBound(h)
    && (c.rawRect && Rectangular(t) ==> t.epoch > h.epoch || (Rectangular(h) && t.epoch == h.epoch))
  }

  lemma MovesOk(c: Session, s: State, t: State)
    requires c.Valid() && HistoryOk(c, ViewOf(s)) && RecordOk(c, s) && Moves(c, s.host, t.host)
    requires t.compositor == s.compositor
    requires t.snapshots == s.snapshots || (s.snapshots.Keys <= t.snapshots.Keys && !Rectangular(t.host))
    ensures RecordOk(c, t)
  {
  }

  /** The reserved epoch never lies ahead of the host's outside video. */
  predicate Reserved(h: H.Host) { h.mode != H.VideoMode ==> h.snapshotEpoch <= h.epoch }

  lemma ResumeMoves(c: Session, h: H.Host)
    requires Reserved(h)
    ensures Moves(c, h, H.Resume(c, h).host)
  {
  }

  lemma PromotionMoves(c: Session, h: H.Host)
    requires Reserved(h)
    requires h.mode == H.AwaitingAck && h.snapshotEpoch == h.epoch
    ensures Moves(c, h, H.PromoteSnapshot(c, h).host)
  {
    ResumeMoves(c, h);
  }

  lemma RectPromotionMoves(c: Session, h: H.Host)
    requires Reserved(h) && h.mode == H.AwaitingRectAck
    ensures Moves(c, h, H.PromoteRects(c, h).host)
  {
    ResumeMoves(c, h);
  }

  lemma TakeAckMoves(c: Session, h: H.Host)
    requires Reserved(h) && h.mailbox.Some? && (h.mode == H.AwaitingAck ==> h.snapshotEpoch == h.epoch)
    ensures Moves(c, h, H.TakeAck(c, h).host)
  {
    var h1 := h.(mailbox := None);
    ResumeMoves(c, h1);
    if h.mode == H.AwaitingAck {
      PromotionMoves(c, h1);
    } else if h.mode == H.AwaitingRectAck {
      RectPromotionMoves(c, h1);
    }
  }

  lemma DrainMoves(c: Session, h: H.Host)
    requires c.Valid() && Reserved(h) && h.mode == H.Sending && h.draining.Some? &&
             h.drained <= |h.draining.value.pixels|
    ensures Moves(c, h, H.Drain(c, h).host)
  {
  }

  // --------------------------------------------------------------- the compositor's events

  /** How one command may change the record. */
  predicate Follows(cmd: Command, k: Canonical, k': Canonical) {
    && (k.pendingTarget == 0 ==> k'.pendingTarget == 0)
    && ((k'.epoch == k.epoch && k'.representation == k.representation) ||
        (cmd.Begin? && k'.epoch == cmd.epoch && k'.representation == Snapshot) ||
        (cmd.RectTransaction? && k'.epoch == cmd.epoch && k'.representation == Rects))
  }

  lemma RectsFollow(v: C.Compositor, cmd: Command, fault: C.Fault)
    requires v.fb.Valid() && cmd.RectTransaction?
    ensures Follows(cmd, v.canonical, C.DoRects(v, cmd, fault).compositor.canonical)
  {
  }

  lemma CommandFollows(v: C.Compositor, cmd: Command, fault: C.Fault)
    requires v.fb.Valid()
    ensures Follows(cmd, v.canonical, C.Perform(v, cmd, fault).compositor.canonical)
  {
    if cmd.RectTransaction? {
      RectsFollow(v, cmd, fault);
    }
  }

  lemma ExecuteFollows(v: C.Compositor, cmd: Command, fault: C.Fault)
    requires v.fb.Valid()
    ensures Follows(cmd, v.canonical, C.Execute(v, cmd, fault).compositor.canonical)
  {
    CommandFollows(C.Watchdog(v, fault.timedOut).(lastEpoch := cmd.epoch), cmd, fault);
  }

  lemma ComposeRecord(c: Session, s: State, fault: C.Fault)
    requires c.Valid() && Inv(c, s) && RecordOk(c, s) && s.queue != []
    ensures RecordOk(c, ComposeOne(s, fault))
  {
    A.InvEnd(c, s);
    var cmd := s.queue[0];
    assert cmd in s.queue + Ahead(c, s).commands;
    ExecuteFollows(s.compositor, cmd, fault);
  }

  lemma ShowFollows(v: C.Compositor, surface: Surface, f: VideoFrame, glitch: C.Glitch)
    ensures var k, k' := v.canonical, C.Show(v, surface, f, glitch).canonical;
            && (k.pendingTarget == 0 ==> k'.pendingTarget == 0)
            && ((k'.epoch == k.epoch && k'.representation == k.representation) ||
                (k'.epoch == f.epoch && k'.representation == Video))
  {
  }

  lemma ShowRecord(c: Session, s: State, glitch: C.Glitch)
    requires c.Valid() && Inv(c, s) && RecordOk(c, s) && s.slot.Some?
    ensures RecordOk(c, s.(compositor := C.Show(s.compositor, c.surface, s.slot.value, glitch)))
  {
    A.InvEnd(c, s);
    ShowFollows(s.compositor, c.surface, s.slot.value, glitch);
    SlotBound(c, s);
  }

  lemma SlotBound(c: Session, s: State)
    requires c.Valid() && Inv(c, s) && s.slot.Some?
    ensures s.slot.value.epoch <= VideoBound(s.host) <= s.host.epoch
  {
    HostFacts(c, s);
  }

  // ------------------------------------------------------------------------ every run

  lemma HostFacts(c: Session, s: State)
    requires c.Valid() && Inv(c, s)
    ensures HistoryOk(c, ViewOf(s)) && Reserved(s.host)
    ensures s.host.mode == H.AwaitingAck ==> s.host.snapshotEpoch == s.host.epoch
    ensures s.host.mode == H.Sending ==> s.host.draining.Some? && s.host.drained <= |s.host.draining.value.pixels|
  {
    A.InvEnd(c, s);
    assert ModeOk(c, ViewOf(s));
  }

  predicate OfViewer(ev: Event) {
    ev.Read? || ev.Decoded? || ev.Compose? || ev.Show? || ev.Watchdog? || ev.AckLost? || ev.AckArrives?
  }

  lemma ViewerRecord(c: Session, s: State, ev: Event)
    requires c.Valid() && Inv(c, s) && RecordOk(c, s) && Enabled(c, s, ev) && OfViewer(ev)
    ensures RecordOk(c, Next(c, s, ev))
  {
    if ev.Compose? {
      ComposeRecord(c, s, ev.fault);
    } else if ev.Show? {
      ShowRecord(c, s, ev.glitch);
    } else {
      QuietRecord(c, s, ev);
    }
  }

  lemma QuietRecord(c: Session, s: State, ev: Event)
    requires c.Valid() && RecordOk(c, s) && Enabled(c, s, ev) && OfViewer(ev) && !ev.Compose? && !ev.Show?
    ensures RecordOk(c, Next(c, s, ev))
  {
  }

  /** The turns that change a mode or an epoch. */
  predicate Turning(ev: Event) { ev.Resume? || ev.TakeAck? || ev.EnterQuiescing? || ev.Drain? }

  lemma TurningRecord(c: Session, s: State, ev: Event)
    requires c.Valid() && Inv(c, s) && RecordOk(c, s) && Enabled(c, s, ev) && Turning(ev)
    ensures RecordOk(c, Next(c, s, ev))
  {
    HostFacts(c, s);
    match ev
    case Resume => ResumeMoves(c, s.host); MovesOk(c, s, Next(c, s, ev));
    case TakeAck => TakeAckMoves(c, s.host); MovesOk(c, s, Next(c, s, ev));
    case EnterQuiescing => MovesOk(c, s, Next(c, s, ev));
    case Drain => DrainMoves(c, s.host); MovesOk(c, s, Next(c, s, ev));
  }

  lemma OtherRecord(c: Session, s: State, ev: Event)
    requires c.Valid() && Inv(c, s) && RecordOk(c, s) && Enabled(c, s, ev) && !Turning(ev) && !OfViewer(ev)
    ensures RecordOk(c, Next(c, s, ev))
  {
    HostFacts(c, s);
    OtherMoves(c, s, ev);
    MovesOk(c, s, Next(c, s, ev));
  }

  lemma OtherMoves(c: Session, s: State, ev: Event)
    requires c.Valid() && Enabled(c, s, ev) && !Turning(ev) && !OfViewer(ev)
    ensures var t := Next(c, s, ev);
            && Moves(c, s.host, t.host) && t.compositor == s.compositor
            && (t.snapshots == s.snapshots || (s.snapshots.Keys <= t.snapshots.Keys && !Rectangular(t.host)))
  {
    if ev.TakeSnapshot? {
      SnapshotMoves(c, s);
    } else {
      SameSnapshots(c, s, ev);
    }
  }

  lemma SnapshotMoves(c: Session, s: State)
    requires c.Valid() && Enabled(c, s, TakeSnapshot)
    ensures var t := Next(c, s, TakeSnapshot);
            && Moves(c, s.host, t.host) && t.compositor == s.compositor
            && s.snapshots.Keys <= t.snapshots.Keys && !Rectangular(t.host)
  {
  }

  lemma SameSnapshots(c: Session, s: State, ev: Event)
    requires c.Valid() && Enabled(c, s, ev) && !Turning(ev) && !OfViewer(ev) && !ev.TakeSnapshot?
    ensures var t := Next(c, s, ev);
            Moves(c, s.host, t.host) && t.compositor == s.compositor && t.snapshots == s.snapshots
  {
  }

  /** The record is in order in every state of every run. */
  lemma {:induction false} RunRecord(c: Session, events: seq<Event>)
    requires c.Valid()
    ensures RecordOk(c, Run(c, events))
  {
    if events == [] {
    } else {
      var before, ev := events[..|events| - 1], events[|events| - 1];
      var s := Run(c, before);
      RunRecord(c, before);
      E.RunInv(c, before);
      if Enabled(c, s, ev) {
        if Turning(ev) {
          TurningRecord(c, s, ev);
        } else if OfViewer(ev) {
          ViewerRecord(c, s, ev);
        } else {
          OtherRecord(c, s, ev);
        }
      }
    }
  }
}
