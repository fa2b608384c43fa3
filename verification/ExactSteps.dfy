/** Draining a snapshot and sending rectangles keep the invariant; so does every event of every run. */
module ExactSteps {
  import opened Options
  import opened Pixels
  import opened Wire
  import opened Canonical
  import H = Host
  import R = Reader
  import C = Compositor
  import opened System
  import opened Invariant
  import opened Steps
  import opened ScreenSteps
  import opened HostSteps
  import opened AckSteps
  import opened SendSteps
  import opened TurnSteps

  lemma NumberedConcat(last: nat, epoch: nat, frame: nat, xs: seq<Body>, ys: seq<Body>)
    ensures H.Numbered(last, epoch, frame, xs + ys) ==
            H.Numbered(last, epoch, frame, xs) + H.Numbered(last + |xs|, epoch, frame, ys)
  {
  }

  /** Reading a run of bodies and one more. */
  lemma ReadThenOne(c: Session, r: R.Reader, last: nat, epoch: nat, frame: nat, bodies: seq<Body>, b: Body)
    ensures var first := R.ReadAll(c, r, H.Numbered(last, epoch, frame, bodies));
            var out := R.Receive(c, first.reader, Message(last + |bodies| + 1, epoch, frame, b));
            R.ReadAll(c, r, H.Numbered(last, epoch, frame, bodies + [b])) ==
            R.Reading(out.reader, first.commands + out.commands)
  {
    NumberedConcat(last, epoch, frame, bodies, [b]);
    var ms := H.Numbered(last, epoch, frame, bodies);
    var m := Message(last + |bodies| + 1, epoch, frame, b);
    assert H.Numbered(last + |bodies|, epoch, frame, [b]) == [m];
    R.ReadAllConcat(c, r, ms, [m]);
    R.ReadAllOne(c, R.ReadAll(c, r, ms).reader, m);
  }

  // ---------------------------------------------------------------- the drain

  ghost predicate IsSending(c: Session, v: View, end: R.Reader) {
    c.Valid() && HostSide(c, v, end) && v.host.mode == H.Sending
  }

  lemma SendingExpects(c: Session, v: View, end: R.Reader)
    requires IsSending(c, v, end)
    ensures v.host.draining.Some? && v.host.drained < |v.host.draining.value.pixels|
    ensures Expecting(c, end, v.host.epoch, v.host.snapshotFrame, v.host.draining.value.pixels, v.host.drained)
    ensures end.lastSequence == v.host.sequence && v.host.snapshotEpoch == v.host.epoch
  {
  }

  /** The ranges of the next burst. */
  function NextBurst(c: Session, h: H.Host): seq<H.Range>
    requires c.Valid() && h.draining.Some?
  {
    H.ChunkFits(c.surface.Stride());
    H.Burst(h.drained, |h.draining.value.pixels|, H.ChunkBytes(c.surface.Stride()), 0)
  }

  lemma {:induction false} EndBound(rs: seq<H.Range>, from: nat, total: nat)
    requires H.Abut(rs, from) && RangesFit(rs, total) && from <= total
    ensures from + |rs| <= H.End(rs, from) <= total
    decreases |rs|
  {
    if rs == [] {
    } else {
      EndBound(rs[1..], from + rs[0].size, total);
      assert H.End(rs[1..], from + rs[0].size) == H.End(rs, from);
    }
  }

  lemma BurstReads(c: Session, v: View, end: R.Reader)
    requires IsSending(c, v, end)
    ensures v.host.draining.Some?
    ensures var h := v.host; var rs := NextBurst(c, h); var to := H.End(rs, h.drained); var src := h.draining.value;
            && RangesFit(rs, |src.pixels|) && h.drained < to <= |src.pixels|
            && ChunksRead(c, end, h.epoch, h.snapshotFrame, src.pixels, to, |rs|,
                          R.ReadAll(c, end, H.Numbered(h.sequence, h.epoch, h.snapshotFrame, H.Chunks(c, src, rs))))
  {
    var h := v.host;
    SendingExpects(c, v, end);
    var src := h.draining.value;
    H.ChunkFits(c.surface.Stride());
    H.BurstAbuts(h.drained, |src.pixels|, H.ChunkBytes(c.surface.Stride()), 0);
    var rs := NextBurst(c, h);
    BurstSizes(h.drained, |src.pixels|, H.ChunkBytes(c.surface.Stride()), 0);
    EndBound(rs, h.drained, |src.pixels|);
    ReadChunks(c, end, h.epoch, src, h.snapshotFrame, rs, h.drained);
  }

  lemma {:induction false} BurstSizes(next: nat, total: nat, chunk: nat, used: nat)
    requires chunk > 0 && next <= total
    ensures forall g <- H.Burst(next, total, chunk, used) :: g.size > 0
    decreases total - next
  {
    if next == total {
    } else {
      var size := if chunk < total - next then chunk else total - next;
      BurstSizes(next + size, total, chunk, used + size);
    }
  }

  /** What history records of the snapshot being sent. */
  ghost predicate Recorded(c: Session, v: View, epoch: nat, frame: nat, image: seq<Byte>) {
    && epoch in v.snapshots && v.snapshots[epoch] == frame && frame in v.images && v.images[frame] == image
    && epoch == v.host.epoch && epoch != 0
  }

  lemma PiecesOk(c: Session, v: View, cmds: seq<Command>, epoch: nat, frame: nat, image: seq<Byte>)
    requires Recorded(c, v, epoch, frame, image)
    requires forall cmd <- cmds :: PieceOf(c, epoch, frame, image, cmd)
    ensures forall cmd <- cmds :: CommandOk(c, v.images, v.snapshots, cmd) && cmd.epoch == v.host.epoch &&
                                  !Answers(cmd, v.host.epoch)
  {
  }

  lemma SendingRecorded(c: Session, v: View, end: R.Reader)
    requires IsSending(c, v, end)
    ensures Recorded(c, v, v.host.epoch, v.host.snapshotFrame, v.host.draining.value.pixels)
  {
  }

  /** A burst that is not the last. */
  lemma PartHost(c: Session, v: View, end: R.Reader, h: H.Host, reader: R.Reader, to: nat, n: nat)
    requires IsSending(c, v, end) && v.host.drained < to < |v.host.draining.value.pixels|
    requires h == v.host.(drained := to, sequence := v.host.sequence + n)
    requires Expecting(c, reader, v.host.epoch, v.host.snapshotFrame, v.host.draining.value.pixels, to)
    requires reader == end.(lastSequence := end.lastSequence + n, snapshot := reader.snapshot)
    ensures HostSide(c, v.(host := h), reader)
  {
  }

  lemma PartScreen(c: Session, v: View, h: H.Host, todo: seq<Command>, cmds: seq<Command>)
    requires ScreenSide(c, v, todo) && v.host.mode == H.Sending
    requires h == v.host.(drained := h.drained, sequence := h.sequence)
    requires forall cmd <- cmds :: CommandOk(c, v.images, v.snapshots, cmd) && cmd.epoch == v.host.epoch &&
                                   !Answers(cmd, v.host.epoch)
    ensures ScreenSide(c, v.(host := h), todo + cmds)
  {
    assert Acks(v.(host := h)) == Acks(v);
  }

  /** The last burst and its commit. */
  lemma WholeHost(c: Session, v: View, end: R.Reader, h: H.Host, reader: R.Reader)
    requires IsSending(c, v, end)
    requires h == v.host.(draining := None, drained := 0, mode := H.AwaitingAck, sequence := h.sequence)
    requires h.sequence > v.host.sequence
    requires reader == end.(lastSequence := h.sequence, pixelEpoch := h.epoch, pixels := Some(Snapshot),
                            pixelFrame := h.snapshotFrame, pixelDigest := h.snapshotDigest, digestValid := true,
                            resetEpoch := None, snapshot := None)
    ensures HostSide(c, v.(host := h), reader)
  {
  }

  lemma WholeScreen(c: Session, v: View, h: H.Host, todo: seq<Command>, cmds: seq<Command>, commit: Command)
    requires ScreenSide(c, v, todo) && v.host.mode == H.Sending && v.host.snapshotEpoch == v.host.epoch
    requires h == v.host.(draining := None, drained := 0, mode := H.AwaitingAck, sequence := h.sequence)
    requires forall cmd <- cmds :: CommandOk(c, v.images, v.snapshots, cmd) && cmd.epoch == v.host.epoch &&
                                   !Answers(cmd, v.host.epoch)
    requires commit.CommitSnapshot? && commit.epoch == v.host.epoch && CommandOk(c, v.images, v.snapshots, commit)
    ensures ScreenSide(c, v.(host := h), todo + (cmds + [commit]))
  {
    var t, all := v.(host := h), todo + (cmds + [commit]);
    assert Acks(t) == Acks(v);
    assert forall i | 0 <= i < |todo| :: all[i] in todo;
    assert forall i | |todo| <= i < |all| - 1 :: all[i] in cmds;
    forall cmd | cmd in all ensures CommandOk(c, t.images, t.snapshots, cmd) && cmd.epoch <= h.epoch {
      assert cmd in todo || cmd in cmds || cmd == commit;
    }
  }

  lemma PartTurn(c: Session, s: State, ahead: R.Reading)
    requires c.Valid() && InvAt(c, s, ahead) && s.host.mode == H.Sending && s.host.draining.Some?
    requires H.End(NextBurst(c, s.host), s.host.drained) < |s.host.draining.value.pixels|
    requires s.host.drained <= |s.host.draining.value.pixels|
    ensures InvAt(c, Take(s, H.Drain(c, s.host)), Onto(ahead, R.ReadAll(c, ahead.reader, H.Drain(c, s.host).sent)))
  {
    var turn, h, rs, v := H.Drain(c, s.host), s.host, NextBurst(c, s.host), ViewOf(s);
    var more := R.ReadAll(c, ahead.reader, turn.sent);
    SendingExpects(c, v, ahead.reader);
    BurstReads(c, v, ahead.reader);
    SendingRecorded(c, v, ahead.reader);
    PiecesOk(c, v, more.commands, h.epoch, h.snapshotFrame, h.draining.value.pixels);
    PartHost(c, v, ahead.reader, turn.host, more.reader, H.End(rs, h.drained), |rs|);
    PartScreen(c, v, turn.host, s.queue + ahead.commands, more.commands);
    TurnKeeps(c, s, ahead, turn, more);
  }

  lemma WholeReads(c: Session, v: View, end: R.Reader) returns (cmds: seq<Command>)
    requires IsSending(c, v, end) && v.host.draining.Some?
    requires H.End(NextBurst(c, v.host), v.host.drained) == |v.host.draining.value.pixels|
    ensures forall cmd <- cmds :: PieceOf(c, v.host.epoch, v.host.snapshotFrame, v.host.draining.value.pixels, cmd)
    ensures RangesFit(NextBurst(c, v.host), |v.host.draining.value.pixels|)
    ensures var h := v.host; var bodies := H.Chunks(c, h.draining.value, NextBurst(c, h)) + [FrameCommit(0)];
            var digest := OfImage(h.draining.value.pixels);
            R.ReadAll(c, end, H.Numbered(h.sequence, h.epoch, h.snapshotFrame, bodies)) ==
            R.Reading(end.(lastSequence := h.sequence + |bodies|, pixelEpoch := h.epoch, pixels := Some(Snapshot),
                           pixelFrame := h.snapshotFrame, pixelDigest := digest, digestValid := true,
                           resetEpoch := None, snapshot := None),
                      cmds + [CommitSnapshot(h.epoch, h.snapshotFrame, digest)])
  {
    var h, rs := v.host, NextBurst(c, v.host);
    SendingExpects(c, v, end);
    BurstReads(c, v, end);
    var chunks := H.Chunks(c, h.draining.value, rs);
    var first := R.ReadAll(c, end, H.Numbered(h.sequence, h.epoch, h.snapshotFrame, chunks));
    ReadSnapshotCommit(c, first.reader, h.epoch, h.snapshotFrame, h.draining.value.pixels);
    ReadThenOne(c, end, h.sequence, h.epoch, h.snapshotFrame, chunks, FrameCommit(0));
    cmds := first.commands;
  }

  lemma WholeTurn(c: Session, s: State, ahead: R.Reading)
    requires c.Valid() && InvAt(c, s, ahead) && s.host.mode == H.Sending && s.host.draining.Some?
    requires H.End(NextBurst(c, s.host), s.host.drained) == |s.host.draining.value.pixels|
    requires s.host.drained <= |s.host.draining.value.pixels|
    ensures InvAt(c, Take(s, H.Drain(c, s.host)), Onto(ahead, R.ReadAll(c, ahead.reader, H.Drain(c, s.host).sent)))
  {
    var turn, h, v := H.Drain(c, s.host), s.host, ViewOf(s);
    var more := R.ReadAll(c, ahead.reader, turn.sent);
    SendingExpects(c, v, ahead.reader);
    var cmds := WholeReads(c, v, ahead.reader);
    WholeHost(c, v, ahead.reader, turn.host, more.reader);
    WholeCommands(c, v, ahead.reader, turn.host, s.queue + ahead.commands, cmds);
    TurnKeeps(c, s, ahead, turn, more);
  }

  lemma WholeCommands(c: Session, v: View, end: R.Reader, h: H.Host, todo: seq<Command>, cmds: seq<Command>)
    requires IsSending(c, v, end) && ScreenSide(c, v, todo) && v.host.draining.Some?
    requires h == v.host.(draining := None, drained := 0, mode := H.AwaitingAck, sequence := h.sequence)
    requires forall cmd <- cmds :: PieceOf(c, v.host.epoch, v.host.snapshotFrame, v.host.draining.value.pixels, cmd)
    ensures ScreenSide(c, v.(host := h),
                       todo + (cmds + [CommitSnapshot(v.host.epoch, v.host.snapshotFrame,
                                                      OfImage(v.host.draining.value.pixels))]))
  {
    var image := v.host.draining.value.pixels;
    SendingExpects(c, v, end);
    SendingRecorded(c, v, end);
    PiecesOk(c, v, cmds, v.host.epoch, v.host.snapshotFrame, image);
    WholeScreen(c, v, h, todo, cmds, CommitSnapshot(v.host.epoch, v.host.snapshotFrame, OfImage(image)));
  }

  lemma DrainKeeps(c: Session, s: State)
    requires c.Valid() && Inv(c, s) && Enabled(c, s, Event.Drain)
    ensures Inv(c, Take(s, H.Drain(c, s.host)))
  {
    InvEnd(c, s);
    SendingExpects(c, ViewOf(s), Ahead(c, s).reader);
    BurstReads(c, ViewOf(s), Ahead(c, s).reader);
    if H.End(NextBurst(c, s.host), s.host.drained) == |s.host.draining.value.pixels| {
      WholeTurn(c, s, Ahead(c, s));
    } else {
      PartTurn(c, s, Ahead(c, s));
    }
    TurnAhead(c, s, H.Drain(c, s.host), R.ReadAll(c, Ahead(c, s).reader, H.Drain(c, s.host).sent));
  }

  // --------------------------------------------------------------- rectangles

  ghost predicate IsExact(c: Session, v: View, end: R.Reader, rs: seq<Rect>) {
    && c.Valid() && HostSide(c, v, end) && v.host.mode == H.ExactMode && c.rawRect && H.CanSelect(v.host)
    && H.Candidate(c, v.host.analyzer.canonical.value.pixels, v.host.analyzer.latest.value.pixels, rs)
  }

  lemma ExactCollects(c: Session, v: View, end: R.Reader, rs: seq<Rect>)
    requires IsExact(c, v, end, rs)
    ensures var h := v.host; var target := h.analyzer.latest.value.frame;
            && Sendable(c, h.epoch, h.exactFrame, target, rs) && h.rectEpoch == h.epoch
            && Collecting(c, end, h.epoch, h.exactFrame, target, rs, 0)
            && end.lastSequence == h.sequence && end.pixelDigest == h.exactDigest && end.rects.None?
  {
  }

  function TransactionOf(h: H.Host, target: nat, rs: seq<Rect>): Command {
    RectTransaction(h.epoch, target, h.exactFrame, OfRects(h.exactDigest, target, rs), rs)
  }

  /** A whole transaction read from a reader that holds nothing. */
  lemma TransactionRead(c: Session, r: R.Reader, epoch: nat, base: nat, target: nat, rs: seq<Rect>)
    requires c.Valid() && c.rawRect && Sendable(c, epoch, base, target, rs) && DigestFits(rs)
    requires Collecting(c, r, epoch, base, target, rs, 0)
    ensures R.ReadAll(c, r, H.Numbered(r.lastSequence, epoch, target,
                                       H.RectBodies(base, c.surface, rs) + [FrameCommit(base)])) ==
            R.Reading(r.(lastSequence := r.lastSequence + |rs| + 1, pixelEpoch := epoch, pixels := Some(Rects),
                         pixelFrame := target,
                         pixelDigest := OfRects(r.pixelDigest, target, rs), resetEpoch := None, rects := None),
                      [RectTransaction(epoch, target, base, OfRects(r.pixelDigest, target, rs), rs)])
  {
    var bodies := H.RectBodies(base, c.surface, rs);
    RectsCollected(c, r, epoch, base, target, rs);
    ReadRectCommit(c, Holding(c, r, epoch, base, target, rs, |rs|), epoch, base, target, rs);
    ReadThenOne(c, r, r.lastSequence, epoch, target, bodies, FrameCommit(base));
  }

  /** All rectangles of a transaction, up to its commit. */
  lemma RectsCollected(c: Session, r: R.Reader, epoch: nat, base: nat, target: nat, rs: seq<Rect>)
    requires c.Valid() && c.rawRect && Sendable(c, epoch, base, target, rs)
    requires Collecting(c, r, epoch, base, target, rs, 0)
    ensures Collecting(c, Holding(c, r, epoch, base, target, rs, |rs|), epoch, base, target, rs, |rs|)
    ensures R.ReadAll(c, r, H.Numbered(r.lastSequence, epoch, target, H.RectBodies(base, c.surface, rs))) ==
            R.Reading(Holding(c, r, epoch, base, target, rs, |rs|), [])
  {
    var bodies := H.RectBodies(base, c.surface, rs);
    assert Holding(c, r, epoch, base, target, rs, 0) == r;
    assert bodies[0..] == bodies;
    ReadRects(c, r, epoch, base, target, rs, 0);
  }

  lemma RectsRead(c: Session, v: View, end: R.Reader, rs: seq<Rect>)
    requires IsExact(c, v, end, rs) && DigestFits(rs)
    ensures var h := v.host; var target := h.analyzer.latest.value.frame;
            R.ReadAll(c, end, H.SendRects(c, h, rs).sent) ==
            R.Reading(end.(lastSequence := h.sequence + |rs| + 1, pixelEpoch := h.epoch, pixels := Some(Rects),
                           pixelFrame := target,
                           pixelDigest := OfRects(h.exactDigest, target, rs), resetEpoch := None, rects := None),
                      [TransactionOf(h, target, rs)])
  {
    ExactCollects(c, v, end, rs);
    TransactionRead(c, end, v.host.epoch, v.host.exactFrame, v.host.analyzer.latest.value.frame, rs);
  }

  lemma RectsHost(c: Session, v: View, end: R.Reader, rs: seq<Rect>, h: H.Host, reader: R.Reader)
    requires IsExact(c, v, end, rs)
    requires var target := v.host.analyzer.latest.value;
             && h == v.host.(analyzer := v.host.analyzer.(pending := Some(target)),
                             rectDigest := OfRects(v.host.exactDigest, target.frame, rs), rectTarget := target.frame,
                             mode := H.AwaitingRectAck, sequence := h.sequence)
             && h.sequence > v.host.sequence
             && reader == end.(lastSequence := h.sequence, pixelEpoch := h.epoch, pixels := Some(Rects),
                               pixelFrame := target.frame, pixelDigest := h.rectDigest, resetEpoch := None,
                               rects := None)
    ensures HostSide(c, v.(host := h), reader)
  {
  }

  lemma TransactionOk(c: Session, v: View, end: R.Reader, rs: seq<Rect>)
    requires IsExact(c, v, end, rs)
    ensures CommandOk(c, v.images, v.snapshots, TransactionOf(v.host, v.host.analyzer.latest.value.frame, rs))
  {
  }

  lemma RectsScreenSide(c: Session, v: View, h: H.Host, todo: seq<Command>, tx: Command)
    requires ScreenSide(c, v, todo) && v.host.mode == H.ExactMode && h.mode == H.AwaitingRectAck
    requires h.epoch == v.host.epoch && h.snapshotEpoch == v.host.snapshotEpoch && h.exactFrame == v.host.exactFrame
    requires h.mailbox == v.host.mailbox
    requires CommandOk(c, v.images, v.snapshots, tx) && IsTransaction(h, tx)
    ensures ScreenSide(c, v.(host := h), todo + [tx])
  {
    assert Acks(v.(host := h)) == Acks(v);
  }

  lemma SendRectsKeeps(c: Session, s: State, rs: seq<Rect>)
    requires c.Valid() && Inv(c, s) && Enabled(c, s, Event.SendRects(rs))
    ensures Inv(c, Take(s, H.SendRects(c, s.host, rs)))
  {
    var turn, ahead, v := H.SendRects(c, s.host, rs), Ahead(c, s), ViewOf(s);
    InvEnd(c, s);
    if DigestFits(rs) {
      RectsTurn(c, s, ahead, rs);
      TurnAhead(c, s, turn, R.ReadAll(c, ahead.reader, turn.sent));
    } else {
      HaltedRects(c, v, ahead.reader, s.queue + ahead.commands, turn.host);
      QuietTurnKeeps(c, s, ahead, turn.host);
      SentNone(c, s, turn);
    }
  }

  lemma HaltedRects(c: Session, v: View, end: R.Reader, todo: seq<Command>, h: H.Host)
    requires c.Valid() && HostSide(c, v, end) && ScreenSide(c, v, todo) && v.host.mode == H.ExactMode &&
             H.CanSelect(v.host)
    requires h == v.host.(analyzer := v.host.analyzer.(pending := v.host.analyzer.latest), halted := true)
    ensures HostSide(c, v.(host := h), end) && ScreenSide(c, v.(host := h), todo)
  {
    assert Acks(v.(host := h)) == Acks(v);
  }

  lemma RectsTurn(c: Session, s: State, ahead: R.Reading, rs: seq<Rect>)
    requires c.Valid() && InvAt(c, s, ahead) && IsExact(c, ViewOf(s), ahead.reader, rs) && DigestFits(rs)
    ensures InvAt(c, Take(s, H.SendRects(c, s.host, rs)),
                  Onto(ahead, R.ReadAll(c, ahead.reader, H.SendRects(c, s.host, rs).sent)))
  {
    var turn, v := H.SendRects(c, s.host, rs), ViewOf(s);
    var more := R.ReadAll(c, ahead.reader, turn.sent);
    var tx := TransactionOf(s.host, s.host.analyzer.latest.value.frame, rs);
    ExactCollects(c, v, ahead.reader, rs);
    RectsRead(c, v, ahead.reader, rs);
    RectsHost(c, v, ahead.reader, rs, turn.host, more.reader);
    TransactionOk(c, v, ahead.reader, rs);
    RectsScreenSide(c, v, turn.host, s.queue + ahead.commands, tx);
    TurnKeeps(c, s, ahead, turn, more);
  }

  // -------------------------------------------------------------- every event

  lemma SameWire(c: Session, s: State, t: State)
    requires c.Valid() && t.reader == s.reader && t.channel == s.channel && InvAt(c, t, Ahead(c, s))
    ensures Inv(c, t)
  {
  }

  lemma ComposeEventKeeps(c: Session, s: State, fault: C.Fault)
    requires c.Valid() && Inv(c, s) && Enabled(c, s, Compose(fault))
    ensures Inv(c, Next(c, s, Compose(fault)))
  {
    ComposeKeeps(c, s, Ahead(c, s), fault);
    SameWire(c, s, ComposeOne(s, fault));
  }

  lemma DecodedEventKeeps(c: Session, s: State, index: nat)
    requires c.Valid() && Inv(c, s) && Enabled(c, s, Decoded(index))
    ensures Inv(c, Next(c, s, Decoded(index)))
  {
    DecodedKeeps(c, s, Ahead(c, s), index);
    SameWire(c, s, s.(slot := Some(s.decoder[index]), decoder := s.decoder[index + 1..]));
  }

  lemma ShowEventKeeps(c: Session, s: State, glitch: C.Glitch)
    requires c.Valid() && Inv(c, s) && Enabled(c, s, Show(glitch))
    ensures Inv(c, Next(c, s, Show(glitch)))
  {
    ShowKeeps(c, s, Ahead(c, s), glitch);
    SameWire(c, s, s.(compositor := C.Show(s.compositor, c.surface, s.slot.value, glitch)));
  }

  lemma WatchdogEventKeeps(c: Session, s: State)
    requires c.Valid() && Inv(c, s) && Enabled(c, s, Watchdog)
    ensures Inv(c, Next(c, s, Watchdog))
  {
    WatchdogKeeps(c, s, Ahead(c, s));
    SameWire(c, s, s.(compositor := C.Watchdog(s.compositor, true)));
  }

  lemma AckArrivesEventKeeps(c: Session, s: State)
    requires c.Valid() && Inv(c, s) && Enabled(c, s, AckArrives)
    ensures Inv(c, Next(c, s, AckArrives))
  {
    AckArrivesKeeps(c, s, Ahead(c, s));
    SameWire(c, s, s.(host := s.host.(mailbox := Some(s.acks[0])), acks := s.acks[1..]));
  }

  lemma AckLostEventKeeps(c: Session, s: State, index: nat)
    requires c.Valid() && Inv(c, s) && Enabled(c, s, AckLost(index))
    ensures Inv(c, Next(c, s, AckLost(index)))
  {
    AckLostKeeps(c, s, Ahead(c, s), index);
    SameWire(c, s, s.(acks := s.acks[..index] + s.acks[index + 1..]));
  }

  predicate IsEncoderEvent(ev: Event) { ev.Capture? || ev.Submit? || ev.Encoded? || ev.WriteVideo? || ev.SendCursor? }

  predicate IsExactEvent(ev: Event) {
    ev.Resume? || ev.TakeAck? || ev.EnterQuiescing? || ev.TakeSnapshot? || ev.Drain? || ev.SendRects?
  }

  lemma EncoderEventKeeps(c: Session, s: State, ev: Event)
    requires c.Valid() && Inv(c, s) && Enabled(c, s, ev) && IsEncoderEvent(ev)
    ensures Inv(c, Next(c, s, ev))
  {
    match ev
    case Capture(frame, changed, pixels) => CaptureKeeps(c, s, frame, changed, pixels);
    case Submit(frame, pixels, periodic) => SubmitKeeps(c, s, frame, pixels, periodic);
    case Encoded => EncodedKeeps(c, s);
    case WriteVideo => WriteVideoKeeps(c, s);
    case SendCursor => CursorKeeps(c, s);
  }

  lemma ExactEventKeeps(c: Session, s: State, ev: Event)
    requires c.Valid() && Inv(c, s) && Enabled(c, s, ev) && IsExactEvent(ev)
    ensures Inv(c, Next(c, s, ev))
  {
    match ev
    case Resume => ResumeKeeps(c, s);
    case TakeAck => TakeAckKeeps(c, s);
    case EnterQuiescing => EnterQuiescingKeeps(c, s);
    case TakeSnapshot => TakeSnapshotKeeps(c, s);
    case Drain => DrainKeeps(c, s);
    case SendRects(rects) => SendRectsKeeps(c, s, rects);
  }

  lemma ReadEventKeeps(c: Session, s: State)
    requires c.Valid() && Inv(c, s) && Enabled(c, s, Read)
    ensures Inv(c, Next(c, s, Read))
  {
    ReadKeeps(c, s);
  }

  lemma ViewerEventKeeps(c: Session, s: State, ev: Event)
    requires c.Valid() && Inv(c, s) && Enabled(c, s, ev) && !IsEncoderEvent(ev) && !IsExactEvent(ev)
    ensures Inv(c, Next(c, s, ev))
  {
    match ev
    case Read => ReadEventKeeps(c, s);
    case Compose(fault) => ComposeEventKeeps(c, s, fault);
    case AckArrives => AckArrivesEventKeeps(c, s);
    case AckLost(index) => AckLostEventKeeps(c, s, index);
    case Decoded(index) => DecodedEventKeeps(c, s, index);
    case Show(glitch) => ShowEventKeeps(c, s, glitch);
    case Watchdog => WatchdogEventKeeps(c, s);
  }

  /** Every event keeps the invariant; one that is not enabled changes nothing. */
  lemma NextKeeps(c: Session, s: State, ev: Event)
    requires c.Valid() && Inv(c, s)
    ensures Inv(c, Next(c, s, ev))
  {
    if Enabled(c, s, ev) {
      if IsEncoderEvent(ev) {
        EncoderEventKeeps(c, s, ev);
      } else if IsExactEvent(ev) {
        ExactEventKeeps(c, s, ev);
      } else {
        ViewerEventKeeps(c, s, ev);
      }
    }
  }

  lemma StartInv(c: Session)
    requires c.Valid()
    ensures Inv(c, Start(c))
  {
    assert Ahead(c, Start(c)) == R.Reading(R.START, []);
  }

  /** The invariant holds after every run. */
  lemma {:induction false} RunInv(c: Session, events: seq<Event>)
    requires c.Valid()
    ensures Inv(c, Run(c, events))
  {
    if events == [] {
      StartInv(c);
    } else {
      RunInv(c, events[..|events| - 1]);
      NextKeeps(c, Run(c, events[..|events| - 1]), events[|events| - 1]);
    }
  }
}
