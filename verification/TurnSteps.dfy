/** The host's sending turns and its encoder keep the invariant. */
module TurnSteps {
  import opened Options
  import opened Pixels
  import opened Wire
  import opened Canonical
  import H = Host
  import R = Reader
  import opened System
  import opened Invariant
  import opened Steps
  import opened HostSteps
  import opened AckSteps

  /** Messages of the current epoch that reset nothing. */
  ghost predicate SameEpoch(c: Session, h: H.Host, ms: seq<Message>) {
    forall m <- ms :: m.epoch == h.epoch && !m.body.StateReset? &&
      (m.body.AccessUnit? ==> m.epoch <= VideoBound(h) && |m.body.pixels| == c.surface.Size())
  }

  lemma {:induction false} SameEpochLinked(c: Session, h: H.Host, from: nat, ms: seq<Message>, sent: seq<Message>)
    requires WireLinked(from, ms, h.epoch) && SameEpoch(c, h, sent)
    ensures WireLinked(from, ms + sent, h.epoch)
    decreases |sent|
  {
    if sent == [] {
      assert ms + sent == ms;
    } else {
      WireLinkedAppend(from, ms, h.epoch, sent[0]);
      SameEpochLinked(c, h, from, ms + [sent[0]], sent[1..]);
      assert ms + [sent[0]] + sent[1..] == ms + sent;
    }
  }

  function Onto(ahead: R.Reading, more: R.Reading): R.Reading {
    R.Reading(more.reader, ahead.commands + more.commands)
  }

  /** A turn within its epoch, given what the reader makes of it. */
  lemma TurnKeeps(c: Session, s: State, ahead: R.Reading, turn: H.Turn, more: R.Reading)
    requires c.Valid() && InvAt(c, s, ahead) && turn.host.epoch == s.host.epoch &&
             VideoBound(turn.host) >= VideoBound(s.host)
    requires SameEpoch(c, turn.host, turn.sent)
    requires HostSide(c, ViewOf(s).(host := turn.host), more.reader)
    requires ScreenSide(c, ViewOf(s).(host := turn.host), s.queue + ahead.commands + more.commands)
    ensures InvAt(c, Take(s, turn), Onto(ahead, more))
  {
    var t := Take(s, turn);
    assert ViewOf(t) == ViewOf(s).(host := turn.host);
    assert t.queue + (ahead.commands + more.commands) == s.queue + ahead.commands + more.commands;
    SameEpochLinked(c, turn.host, s.wireEpoch, s.channel, turn.sent);
  }

  lemma TurnAhead(c: Session, s: State, turn: H.Turn, more: R.Reading)
    requires more == R.ReadAll(c, Ahead(c, s).reader, turn.sent)
    ensures Ahead(c, Take(s, turn)) == Onto(Ahead(c, s), more)
  {
    R.ReadAllConcat(c, s.reader, s.channel, turn.sent);
  }

  /** A turn that sends one message the reader answers with no command. */
  lemma SilentTurnKeeps(c: Session, s: State, turn: H.Turn, reader: R.Reader)
    requires c.Valid() && Inv(c, s) && turn.host.epoch == s.host.epoch && VideoBound(turn.host) >= VideoBound(s.host)
    requires SameEpoch(c, turn.host, turn.sent) && |turn.sent| == 1
    requires R.ReadAll(c, Ahead(c, s).reader, turn.sent) == R.Reading(reader, [])
    requires HostSide(c, ViewOf(s).(host := turn.host), reader)
    requires ScreenSide(c, ViewOf(s).(host := turn.host), s.queue + Ahead(c, s).commands)
    ensures Inv(c, Take(s, turn))
  {
    var ahead := Ahead(c, s);
    assert s.queue + ahead.commands + [] == s.queue + ahead.commands;
    TurnKeeps(c, s, ahead, turn, R.Reading(reader, []));
    TurnAhead(c, s, turn, R.Reading(reader, []));
  }

  lemma Sides(c: Session, v: View, end: R.Reader)
    requires c.Valid() && HostSide(c, v, end)
    ensures v.host.epoch >= 1 && end.status == R.Running && end.lastSequence == v.host.sequence && end.rects.None?
    ensures v.host.mode == H.VideoMode ==> end.snapshot.None?
  {
  }

  // ------------------------------------------------------------------- cursor

  lemma CursorRead(c: Session, r: R.Reader, epoch: nat)
    requires r.status == R.Running && epoch != 0
    ensures R.ReadAll(c, r, H.Numbered(r.lastSequence, epoch, 0, [Cursor])) ==
            R.Reading(r.(lastSequence := r.lastSequence + 1), [])
  {
    var m := Message(r.lastSequence + 1, epoch, 0, Cursor);
    assert H.Numbered(r.lastSequence, epoch, 0, [Cursor]) == [m];
    R.ReadAllOne(c, r, m);
  }

  lemma CursorSides(c: Session, v: View, h: H.Host, end: R.Reader, todo: seq<Command>)
    requires c.Valid() && HostSide(c, v, end) && ScreenSide(c, v, todo) && h == v.host.(sequence := v.host.sequence + 1)
    ensures HostSide(c, v.(host := h), end.(lastSequence := end.lastSequence + 1)) && ScreenSide(c, v.(host := h), todo)
  {
    assert Acks(v.(host := h)) == Acks(v);
  }

  lemma CursorKeeps(c: Session, s: State)
    requires c.Valid() && Inv(c, s)
    ensures Inv(c, Take(s, H.Send(s.host, s.host.epoch, 0, [Cursor])))
  {
    var turn := H.Send(s.host, s.host.epoch, 0, [Cursor]);
    var end := Ahead(c, s).reader;
    InvEnd(c, s);
    Sides(c, ViewOf(s), end);
    CursorRead(c, end, s.host.epoch);
    CursorSides(c, ViewOf(s), turn.host, end, s.queue + Ahead(c, s).commands);
    SilentTurnKeeps(c, s, turn, end.(lastSequence := end.lastSequence + 1));
  }

  // -------------------------------------------------------------------- video

  /** Only in video mode can a unit of the current epoch exist. */
  lemma CurrentUnit(c: Session, v: View, end: R.Reader, u: H.Unit)
    requires c.Valid() && HostSide(c, v, end) && u in v.host.encoder.queue && u.epoch == v.host.epoch
    ensures v.host.mode == H.VideoMode && !c.exactOnly
  {
    assert u in v.host.encoder.queue + v.host.encoder.inFlight;
  }

  /** The reader after a video frame of the host's epoch. */
  function Streaming(r: R.Reader, epoch: nat, frame: nat): R.Reader {
    if VideoStarted(r, epoch) then r.(lastSequence := r.lastSequence + 1)
    else r.(lastSequence := r.lastSequence + 1, pixels := Some(Video), pixelEpoch := epoch, digestValid := false,
            pixelFrame := frame, resetEpoch := None)
  }

  lemma VideoRead(c: Session, r: R.Reader, m: Message)
    requires !c.exactOnly && m.body.AccessUnit? && m.epoch != 0 && m.frame != 0 && m.sequence == r.lastSequence + 1
    requires r.status == R.Running && r.snapshot.None? && r.rects.None?
    requires VideoStarted(r, m.epoch) || (m.body.key && (r.pixels.None? || r.resetEpoch == Some(m.epoch)))
    ensures R.Receive(c, r, m).reader == Streaming(r, m.epoch, m.frame) && R.Receive(c, r, m).commands == []
  {
  }

  lemma StaleVideoHost(c: Session, v: View, end: R.Reader, h: H.Host, u: H.Unit)
    requires c.Valid() && HostSide(c, v, end) && v.host.encoder.queue != [] && u == v.host.encoder.queue[0]
    requires u.epoch != v.host.epoch && h == v.host.(encoder := v.host.encoder.(queue := v.host.encoder.queue[1..]))
    ensures HostSide(c, v.(host := h), end)
  {
    var us := v.host.encoder.queue[1..] + v.host.encoder.inFlight;
    assert v.host.encoder.queue + v.host.encoder.inFlight == [] + [u] + us;
    assert forall x <- us :: x in v.host.encoder.queue + v.host.encoder.inFlight;
    FirstIsKeySkip([], u, us, v.host.epoch, v.host.forceIdr || v.host.submitted == 0);
    assert [] + us == us;
  }

  lemma FreshVideoHost(c: Session, v: View, end: R.Reader, h: H.Host, u: H.Unit)
    requires c.Valid() && HostSide(c, v, end) && v.host.encoder.queue != [] && u == v.host.encoder.queue[0]
    requires u.epoch == v.host.epoch
    requires h == v.host.(encoder := v.host.encoder.(queue := v.host.encoder.queue[1..]),
                          sequence := v.host.sequence + 1)
    ensures HostSide(c, v.(host := h), Streaming(end, u.epoch, u.frame))
  {
    var us := v.host.encoder.queue[1..] + v.host.encoder.inFlight;
    assert forall x <- us :: x in v.host.encoder.queue + v.host.encoder.inFlight;
    CurrentUnit(c, v, end, u);
  }

  lemma VideoUnit(c: Session, v: View, end: R.Reader)
    requires c.Valid() && HostSide(c, v, end) && v.host.encoder.queue != []
    requires v.host.encoder.queue[0].epoch == v.host.epoch
    ensures var u := v.host.encoder.queue[0];
            && v.host.mode == H.VideoMode && !c.exactOnly && u.frame != 0 && |u.pixels| == c.surface.Size()
            && (VideoStarted(end, u.epoch) || (u.key && (end.pixels.None? || end.resetEpoch == Some(u.epoch))))
  {
    var u := v.host.encoder.queue[0];
    CurrentUnit(c, v, end, u);
    var us := v.host.encoder.queue + v.host.encoder.inFlight;
    assert us[0] == u && u in us;
  }

  /** Taking units off the encoder's queue is invisible to the screen. */
  lemma EncoderScreen(c: Session, v: View, h: H.Host, todo: seq<Command>)
    requires ScreenSide(c, v, todo)
    requires h == v.host.(encoder := h.encoder, sequence := h.sequence, forceIdr := h.forceIdr,
                          submitted := h.submitted)
    ensures ScreenSide(c, v.(host := h), todo)
  {
    assert Acks(v.(host := h)) == Acks(v);
  }

  lemma UnitReading(c: Session, v: View, end: R.Reader, u: H.Unit)
    requires c.Valid() && HostSide(c, v, end) && v.host.encoder.queue != []
    requires u == v.host.encoder.queue[0] && u.epoch == v.host.epoch
    ensures H.WriteVideo(v.host).sent == [Message(v.host.sequence + 1, u.epoch, u.frame, AccessUnit(u.key, u.pixels))]
    ensures R.ReadAll(c, end, H.WriteVideo(v.host).sent) == R.Reading(Streaming(end, u.epoch, u.frame), [])
  {
    VideoUnit(c, v, end);
    Sides(c, v, end);
    var m := Message(v.host.sequence + 1, u.epoch, u.frame, AccessUnit(u.key, u.pixels));
    assert H.WriteVideo(v.host).sent == [m];
    VideoRead(c, end, m);
    R.ReadAllOne(c, end, m);
  }

  lemma StaleUnitKeeps(c: Session, s: State)
    requires c.Valid() && Inv(c, s) && s.host.encoder.queue != [] && s.host.encoder.queue[0].epoch != s.host.epoch
    ensures Inv(c, Take(s, H.WriteVideo(s.host)))
  {
    var turn, ahead := H.WriteVideo(s.host), Ahead(c, s);
    InvEnd(c, s);
    StaleVideoHost(c, ViewOf(s), ahead.reader, turn.host, s.host.encoder.queue[0]);
    EncoderScreen(c, ViewOf(s), turn.host, s.queue + ahead.commands);
    QuietTurnKeeps(c, s, ahead, turn.host);
    SentNone(c, s, turn);
  }

  lemma FreshUnitSides(c: Session, s: State, turn: H.Turn, u: H.Unit)
    requires c.Valid() && Inv(c, s) && s.host.encoder.queue != [] && u == s.host.encoder.queue[0] &&
             u.epoch == s.host.epoch
    requires turn == H.WriteVideo(s.host)
    ensures turn.host.epoch == s.host.epoch && VideoBound(turn.host) >= VideoBound(s.host)
    ensures SameEpoch(c, turn.host, turn.sent) && |turn.sent| == 1
    ensures HostSide(c, ViewOf(s).(host := turn.host), Streaming(Ahead(c, s).reader, u.epoch, u.frame))
    ensures ScreenSide(c, ViewOf(s).(host := turn.host), s.queue + Ahead(c, s).commands)
  {
    InvEnd(c, s);
    FreshVideoHost(c, ViewOf(s), Ahead(c, s).reader, turn.host, u);
    EncoderScreen(c, ViewOf(s), turn.host, s.queue + Ahead(c, s).commands);
    VideoUnit(c, ViewOf(s), Ahead(c, s).reader);
  }

  lemma WriteVideoKeeps(c: Session, s: State)
    requires c.Valid() && Inv(c, s) && s.host.encoder.queue != []
    ensures Inv(c, Take(s, H.WriteVideo(s.host)))
  {
    var turn, ahead, u := H.WriteVideo(s.host), Ahead(c, s), s.host.encoder.queue[0];
    if u.epoch != s.host.epoch {
      StaleUnitKeeps(c, s);
    } else {
      FreshUnitSides(c, s, turn, u);
      assert HostSide(c, ViewOf(s), ahead.reader);
      UnitReading(c, ViewOf(s), ahead.reader, u);
      SilentTurnKeeps(c, s, turn, Streaming(ahead.reader, u.epoch, u.frame));
    }
  }

  lemma SubmitHost(c: Session, v: View, end: R.Reader, frame: nat, pixels: seq<Byte>, periodic: bool)
    requires c.Valid() && HostSide(c, v, end) && v.host.submissions && frame != 0 && |pixels| == c.surface.Size()
    ensures HostSide(c, v.(host := H.Submit(v.host, frame, pixels, periodic)), end)
  {
    var h := H.Submit(v.host, frame, pixels, periodic);
    var us := v.host.encoder.queue + v.host.encoder.inFlight;
    var unit := H.Unit(v.host.epoch, frame, v.host.forceIdr || v.host.submitted == 0 || periodic, pixels);
    assert h.encoder.queue + h.encoder.inFlight == us + [unit];
    if !VideoStarted(end, v.host.epoch) {
      FirstIsKeyAppend(us, unit, v.host.epoch, v.host.forceIdr || v.host.submitted == 0);
    }
  }

  lemma SubmitKeeps(c: Session, s: State, frame: nat, pixels: seq<Byte>, periodic: bool)
    requires c.Valid() && Inv(c, s) && Enabled(c, s, Event.Submit(frame, pixels, periodic))
    ensures Inv(c, s.(host := H.Submit(s.host, frame, pixels, periodic)))
  {
    var h := H.Submit(s.host, frame, pixels, periodic);
    InvEnd(c, s);
    SubmitHost(c, ViewOf(s), Ahead(c, s).reader, frame, pixels, periodic);
    EncoderScreen(c, ViewOf(s), h, s.queue + Ahead(c, s).commands);
    QuietTurnKeeps(c, s, Ahead(c, s), h);
  }

  lemma EncodedHost(c: Session, v: View, end: R.Reader)
    requires c.Valid() && HostSide(c, v, end) && v.host.encoder.inFlight != []
    ensures HostSide(c, v.(host := v.host.(encoder := v.host.encoder.Complete())), end)
  {
    var e := v.host.encoder;
    var u := e.inFlight[0];
    assert e.inFlight == [u] + e.inFlight[1..];
    assert e.queue + e.inFlight == e.queue + [u] + e.inFlight[1..];
    assert forall x <- e.Complete().queue + e.Complete().inFlight :: x in e.queue + e.inFlight;
    if u.epoch < e.minimumEpoch {
      FirstIsKeySkip(e.queue, u, e.inFlight[1..], v.host.epoch, v.host.forceIdr || v.host.submitted == 0);
    }
  }

  lemma EncodedKeeps(c: Session, s: State)
    requires c.Valid() && Inv(c, s) && s.host.encoder.inFlight != []
    ensures Inv(c, s.(host := s.host.(encoder := s.host.encoder.Complete())))
  {
    var h := s.host.(encoder := s.host.encoder.Complete());
    InvEnd(c, s);
    EncodedHost(c, ViewOf(s), Ahead(c, s).reader);
    EncoderScreen(c, ViewOf(s), h, s.queue + Ahead(c, s).commands);
    QuietTurnKeeps(c, s, Ahead(c, s), h);
  }

  lemma DecodedKeeps(c: Session, s: State, ahead: R.Reading, index: nat)
    requires c.Valid() && InvAt(c, s, ahead) && index < |s.decoder|
    ensures InvAt(c, s.(slot := Some(s.decoder[index]), decoder := s.decoder[index + 1..]), ahead)
  {
    var t := s.(slot := Some(s.decoder[index]), decoder := s.decoder[index + 1..]);
    assert ViewOf(t) == ViewOf(s);
    assert forall f <- t.decoder :: f in s.decoder;
    assert s.decoder[index] in s.decoder;
  }

  // ----------------------------------------------------------------- snapshots

  /** The state after a capture. */
  ghost predicate Captured(c: Session, v: View, h: H.Host, frame: nat, pixels: seq<Byte>) {
    && |pixels| == c.surface.Size() &&
    frame > (if v.host.analyzer.latest.Some? then v.host.analyzer.latest.value.frame else 0)
    && h.analyzer.latest.Some? && h.analyzer.latest.value.frame == frame && h.analyzer.latest.value.pixels == pixels
    && h == v.host.(analyzer := v.host.analyzer.(latest := h.analyzer.latest))
  }

  lemma CaptureHost(c: Session, v: View, end: R.Reader, h: H.Host, frame: nat, pixels: seq<Byte>)
    requires c.Valid() && HostSide(c, v, end) && Captured(c, v, h, frame, pixels)
    ensures frame !in v.images && HostSide(c, v.(host := h, images := v.images[frame := pixels]), end)
  {
    assert frame !in v.images;
  }

  lemma CaptureScreen(c: Session, v: View, todo: seq<Command>, h: H.Host, frame: nat, pixels: seq<Byte>)
    requires c.Valid() && ScreenSide(c, v, todo) && Captured(c, v, h, frame, pixels) && frame !in v.images
    ensures ScreenSide(c, v.(host := h, images := v.images[frame := pixels]), todo)
  {
    var t := v.(host := h, images := v.images[frame := pixels]);
    assert Acks(t) == Acks(v);
    forall cmd | cmd in todo ensures CommandOk(c, t.images, t.snapshots, cmd) {
      assert CommandOk(c, v.images, v.snapshots, cmd);
    }
  }

  lemma CaptureKeepsAt(c: Session, s: State, t: State, ahead: R.Reading, frame: nat, pixels: seq<Byte>)
    requires c.Valid() && InvAt(c, s, ahead) && Captured(c, ViewOf(s), t.host, frame, pixels)
    requires t == s.(host := t.host, images := s.images[frame := pixels])
    ensures InvAt(c, t, ahead)
  {
    CaptureHost(c, ViewOf(s), ahead.reader, t.host, frame, pixels);
    CaptureScreen(c, ViewOf(s), s.queue + ahead.commands, t.host, frame, pixels);
    assert ViewOf(t) == ViewOf(s).(host := t.host, images := t.images);
  }

  lemma CaptureKeeps(c: Session, s: State, frame: nat, changed: bool, pixels: seq<Byte>)
    requires c.Valid() && Inv(c, s) && Enabled(c, s, Event.Capture(frame, changed, pixels))
    ensures Inv(c, Next(c, s, Event.Capture(frame, changed, pixels)))
  {
    var t := Next(c, s, Event.Capture(frame, changed, pixels));
    assert Known(ViewOf(s), s.host.analyzer.latest.GetOr(H.Source(frame, frame, pixels))) ||
           s.host.analyzer.latest.None?;
    CaptureKeepsAt(c, s, t, Ahead(c, s), frame, t.host.analyzer.latest.value.pixels);
  }

  lemma SnapshotSides(c: Session, v: View, end: R.Reader, todo: seq<Command>)
    requires c.Valid() && HostSide(c, v, end) && ScreenSide(c, v, todo)
    requires v.host.mode == H.Quiescing && H.Drained(v.host) && !v.host.halted && v.host.analyzer.latest.Some?
    ensures var h := H.TakeSnapshot(v.host).host;
            var t := v.(host := h, snapshots := v.snapshots[h.epoch := h.snapshotFrame]);
            !h.halted && HostSide(c, t, end) && ScreenSide(c, t, todo)
  {
    var h := H.TakeSnapshot(v.host).host;
    var t := v.(host := h, snapshots := v.snapshots[h.epoch := h.snapshotFrame]);
    assert Acks(t) == Acks(v);
    forall cmd | cmd in todo ensures CommandOk(c, t.images, t.snapshots, cmd) {
      assert CommandOk(c, v.images, v.snapshots, cmd);
    }
  }

  /** A host that ends changes nothing but that. */
  lemma HaltedSides(c: Session, v: View, end: R.Reader, todo: seq<Command>)
    requires c.Valid() && HostSide(c, v, end) && ScreenSide(c, v, todo)
    ensures HostSide(c, v.(host := v.host.(halted := true)), end) &&
            ScreenSide(c, v.(host := v.host.(halted := true)), todo)
  {
    assert Acks(v.(host := v.host.(halted := true))) == Acks(v);
  }

  lemma SnapshotTaken(c: Session, s: State, ahead: R.Reading, t: State)
    requires c.Valid() && InvAt(c, s, ahead) && Enabled(c, s, Event.TakeSnapshot) && s.host.analyzer.latest.Some?
    requires t.host == H.TakeSnapshot(s.host).host
    requires t == s.(host := t.host, snapshots := s.snapshots[t.host.epoch := t.host.snapshotFrame])
    ensures InvAt(c, t, ahead)
  {
    SnapshotSides(c, ViewOf(s), ahead.reader, s.queue + ahead.commands);
    assert ViewOf(t) == ViewOf(s).(host := t.host, snapshots := t.snapshots);
  }

  lemma SnapshotRefused(c: Session, s: State, ahead: R.Reading)
    requires c.Valid() && InvAt(c, s, ahead)
    ensures InvAt(c, s.(host := s.host.(halted := true)), ahead)
  {
    HaltedSides(c, ViewOf(s), ahead.reader, s.queue + ahead.commands);
    QuietTurnKeeps(c, s, ahead, s.host.(halted := true));
  }

  lemma TakeSnapshotNext(c: Session, s: State, ahead: R.Reading)
    requires c.Valid() && InvAt(c, s, ahead) && Enabled(c, s, Event.TakeSnapshot)
    ensures var t := Next(c, s, Event.TakeSnapshot); t.channel == s.channel && t.reader == s.reader
    ensures var t := Next(c, s, Event.TakeSnapshot);
            if s.host.analyzer.latest.None? then t == s.(host := s.host.(halted := true))
            else t == s.(host := H.TakeSnapshot(s.host).host,
                         snapshots := s.snapshots[t.host.epoch := t.host.snapshotFrame])
  {
    assert s.channel + [] == s.channel;
  }

  lemma TakeSnapshotKeeps(c: Session, s: State)
    requires c.Valid() && Inv(c, s) && Enabled(c, s, Event.TakeSnapshot)
    ensures Inv(c, Next(c, s, Event.TakeSnapshot))
  {
    TakeSnapshotNext(c, s, Ahead(c, s));
    if s.host.analyzer.latest.None? {
      SnapshotRefused(c, s, Ahead(c, s));
    } else {
      SnapshotTaken(c, s, Ahead(c, s), Next(c, s, Event.TakeSnapshot));
    }
  }
}
