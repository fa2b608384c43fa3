/** What holds in every state of every run of the session. */
module Invariant {
  import opened Options
  import opened Pixels
  import opened Wire
  import opened Canonical
  import H = Host
  import R = Reader
  import C = Compositor
  import opened System

  /** The part of a state that neither the wire nor the queue touches. */
  datatype View = View(
    host: H.Host, compositor: C.Compositor, acks: seq<Ack>, images: map<nat, seq<Byte>>, snapshots: map<nat, nat>)

  function ViewOf(s: State): View { View(s.host, s.compositor, s.acks, s.images, s.snapshots) }

  /** No video unit or frame of a later epoch than this exists anywhere. */
  function VideoBound(h: H.Host): int {
    if h.mode == H.VideoMode then h.epoch else h.snapshotEpoch - 1
  }

  ghost predicate Known(s: View, src: H.Source) {
    src.frame != 0 && src.frame in s.images && s.images[src.frame] == src.pixels
  }

  /** The history maps agree with the analyzer's textures. */
  ghost predicate HistoryOk(c: Session, s: View) {
    var a := s.host.analyzer;
    && (forall f <- s.images :: |s.images[f]| == c.surface.Size())
    && (forall e <- s.snapshots :: s.snapshots[e] in s.images && e <= s.host.epoch)
    && (a.latest.Some? ==> Known(s, a.latest.value))
    && (forall f <- s.images :: a.latest.Some? && f <= a.latest.value.frame)
    && (a.canonical.Some? ==> Known(s, a.canonical.value))
    && (a.pending.Some? ==> Known(s, a.pending.value))
  }

  ghost predicate ModeOk(c: Session, s: View) {
    var h := s.host;
    match h.mode
    case VideoMode => true
    case Quiescing => h.snapshotEpoch == h.epoch && h.epoch !in s.snapshots
    case Sending =>
      && h.snapshotEpoch == h.epoch && h.draining.Some? && h.analyzer.pending == h.draining
      && h.drained < |h.draining.value.pixels|
      && h.snapshotFrame == h.draining.value.frame && h.snapshotDigest == OfImage(h.draining.value.pixels)
      && h.epoch in s.snapshots && s.snapshots[h.epoch] == h.snapshotFrame
    case AwaitingAck =>
      && h.snapshotEpoch == h.epoch && h.analyzer.pending.Some?
      && h.snapshotFrame == h.analyzer.pending.value.frame &&
      h.snapshotDigest == OfImage(h.analyzer.pending.value.pixels)
      && h.epoch in s.snapshots && s.snapshots[h.epoch] == h.snapshotFrame
    case ExactMode => Held(c, h)
    case AwaitingRectAck =>
      && Held(c, h) && c.rawRect && h.rectTarget > h.exactFrame
      && h.analyzer.pending.Some? && h.analyzer.pending.value.frame == h.rectTarget
  }

  /** The host believes the viewer holds `exactFrame`. */
  ghost predicate Held(c: Session, h: H.Host) {
    && h.rectEpoch == h.epoch && h.snapshotEpoch >= 1
    && h.epoch == h.snapshotEpoch + (if c.rawRect then 1 else 0)
    && h.analyzer.canonical.Some? && h.analyzer.canonical.value.frame == h.exactFrame
  }

  ghost predicate HostOk(c: Session, s: View) {
    var h := s.host;
    && h.epoch >= 1 && h.encoder.minimumEpoch <= h.epoch
    && (h.submissions <==> h.mode == H.VideoMode && !c.exactOnly)
    && (c.exactOnly ==> h.encoder.inFlight == [] && h.encoder.queue == [])
    && (h.mode in {H.VideoMode, H.Quiescing, H.ExactMode} && !h.halted ==> h.analyzer.pending.None?)
    && (h.mode == H.Quiescing && !c.exactOnly ==> h.analyzer.latest.Some?)
    && ModeOk(c, s)
  }

  predicate VideoStarted(r: R.Reader, epoch: nat) {
    r.pixels == Some(Video) && r.pixelEpoch == epoch
  }

  /** The first unit of the epoch is an IDR, or the next submission will be. */
  predicate FirstIsKey(us: seq<H.Unit>, epoch: nat, armed: bool) {
    if us == [] then armed
    else if us[0].epoch == epoch then us[0].key
    else FirstIsKey(us[1..], epoch, armed)
  }

  ghost predicate EncoderOk(c: Session, h: H.Host, end: R.Reader) {
    var us := h.encoder.queue + h.encoder.inFlight;
    && (forall u <- us :: u.epoch <= VideoBound(h) && u.frame != 0 && |u.pixels| == c.surface.Size())
    && (h.mode == H.VideoMode && !c.exactOnly && !VideoStarted(end, h.epoch) ==>
          FirstIsKey(us, h.epoch, h.forceIdr || h.submitted == 0))
  }

  /** A snapshot received up to `next`: everything taken so far is a prefix of the image. */
  ghost predicate Receiving(c: Session, inc: R.Incoming, epoch: nat, frame: nat, image: seq<Byte>, next: nat) {
    && inc.epoch == epoch && inc.frame == frame && inc.surface == c.surface
    && inc.total == |image| == c.surface.Size() && inc.next == next <= |image|
    && inc.hashed == image[..next]
    && c.surface.width > 0 && |inc.upload| < R.UploadLimit(c.surface.Stride()) && |inc.upload| <= next
    && inc.upload == image[next - |inc.upload|..next]
    && (inc.upload != [] ==> inc.uploadOffset + |inc.upload| == next)
    && (next == |image| ==> inc.upload == [])
  }

  /** The reader as it will be once it has read everything in flight. */
  ghost predicate EndOk(c: Session, h: H.Host, end: R.Reader)
    requires c.Valid()
  {
    && end.status == R.Running && end.recoveries == 0 && end.poisoned.None? && end.rects.None?
    && end.lastSequence == h.sequence && end.pixelEpoch <= h.epoch
    && (h.mode != H.Sending ==> end.snapshot.None?)
    && match h.mode
       case VideoMode =>
         VideoStarted(end, h.epoch) ||
         (end.pixelEpoch < h.epoch && (end.pixels.None? || end.resetEpoch == Some(h.epoch)))
       case Quiescing => end.resetEpoch == Some(h.epoch) && end.pixelEpoch < h.epoch
       case Sending =>
         && end.resetEpoch == Some(h.epoch) && end.pixelEpoch < h.epoch && h.draining.Some?
         && (end.snapshot.None? <==> h.drained == 0)
         && (end.snapshot.Some? ==>
               Receiving(c, end.snapshot.value, h.epoch, h.snapshotFrame, h.draining.value.pixels, h.drained))
       case AwaitingAck =>
         && end.pixels == Some(Snapshot) && end.pixelEpoch == h.epoch && end.digestValid
         && end.pixelFrame == h.snapshotFrame && end.pixelDigest == h.snapshotDigest
       case ExactMode =>
         && end.digestValid && end.pixelFrame == h.exactFrame && end.pixelDigest == h.exactDigest
         && (c.rawRect ==>
               (end.pixels == Some(Rects) && end.pixelEpoch == h.epoch) ||
               (end.pixels == Some(Snapshot) && end.resetEpoch == Some(h.epoch) && end.pixelEpoch < h.epoch))
       case AwaitingRectAck =>
         && end.pixels == Some(Rects) && end.pixelEpoch == h.epoch && end.digestValid
         && end.pixelFrame == h.rectTarget && end.pixelDigest == h.rectDigest
  }

  /** A command carries what history says it should. */
  ghost predicate CommandOk(c: Session, images: map<nat, seq<Byte>>, snapshots: map<nat, nat>, cmd: Command) {
    && cmd.epoch != 0
    && match cmd
       case Begin(e, f, surface) => surface == c.surface && e in snapshots && snapshots[e] == f && f in images
       case Upload(e, f, offset, bytes) =>
         && e in snapshots && snapshots[e] == f && f in images
         && offset + |bytes| <= |images[f]| && bytes == images[f][offset..offset + |bytes|]
       case CommitSnapshot(e, f, digest) =>
         e in snapshots && snapshots[e] == f && f in images && digest == OfImage(images[f])
       case RectTransaction(e, f, base, _, rects) =>
         && base in images && f in images && AllFit(c.surface, rects) && c.surface.width > 0
         && images[f] == PaintAll(images[base], c.surface, rects)
       case Cancel(_) => true
  }

  predicate Answers(cmd: Command, epoch: nat) {
    (cmd.CommitSnapshot? || cmd.RectTransaction?) && cmd.epoch == epoch
  }

  /** Everything the compositor has still to do, in the queue or on the way to it. */
  ghost predicate TodoOk(c: Session, s: View, todo: seq<Command>) {
    var h := s.host;
    && (forall cmd <- todo :: CommandOk(c, s.images, s.snapshots, cmd) && cmd.epoch <= h.epoch)
    && match h.mode
       case AwaitingAck =>
         forall i | 0 <= i < |todo| && Answers(todo[i], h.epoch) :: i == |todo| - 1 && todo[i].CommitSnapshot?
       case ExactMode => forall cmd <- todo :: cmd.Cancel?
       case AwaitingRectAck =>
         forall i | 0 <= i < |todo| :: todo[i].Cancel? ||
           (i == |todo| - 1 && IsTransaction(h, todo[i]))
       case _ => forall cmd <- todo :: !Answers(cmd, h.epoch)
  }

  predicate IsTransaction(h: H.Host, cmd: Command) {
    && cmd.RectTransaction? && cmd.epoch == h.epoch && cmd.frame == h.rectTarget && cmd.base == h.exactFrame
    && cmd.digest == h.rectDigest
  }

  /** Queued commands change epoch only at a Cancel of a larger one. */
  ghost predicate Linked(from: nat, q: seq<Command>, to: nat)
    decreases |q|
  {
    if q == [] then from == to
    else (q[0].epoch == from || (q[0].Cancel? && q[0].epoch > from)) && Linked(q[0].epoch, q[1..], to)
  }

  /** Wire epochs change only at a STATE_RESET with a strictly larger one. */
  ghost predicate WireLinked(from: nat, ms: seq<Message>, to: nat)
    decreases |ms|
  {
    if ms == [] then from == to
    else (if ms[0].body.StateReset? then ms[0].epoch > from else ms[0].epoch == from) &&
         WireLinked(ms[0].epoch, ms[1..], to)
  }

  ghost predicate FrameOk(c: Session, s: State, f: VideoFrame) {
    f.epoch <= s.wireEpoch && f.epoch <= VideoBound(s.host) && |f.pixels| == c.surface.Size()
  }

  ghost predicate FramesOk(c: Session, s: State) {
    && (forall f <- s.decoder :: FrameOk(c, s, f))
    && (s.slot.Some? ==> FrameOk(c, s, s.slot.value))
    && (forall m <- s.channel :: m.body.AccessUnit? ==> m.epoch <= VideoBound(s.host) &&
                                                        |m.body.pixels| == c.surface.Size())
  }

  /** The screen shows the frame history says it shows, and a started upload is a prefix of its snapshot. */
  ghost predicate ScreenOk(c: Session, s: View) {
    var v := s.compositor;
    && v.fb.Valid() && !v.fb.updateActive
    && (v.fb.initialized || v.fb.snapshotActive ==> v.fb.surface == c.surface)
    && (v.fb.snapshotActive ==> UploadOk(s))
    && (v.shown.Some? ==> ShownOk(s))
  }

  ghost predicate UploadOk(s: View) {
    var v := s.compositor;
    && v.canonical.representation == Snapshot && v.canonical.epoch == v.lastEpoch
    && v.lastEpoch in s.snapshots && s.snapshots[v.lastEpoch] in s.images
    && v.fb.received <= |v.fb.working| == |s.images[s.snapshots[v.lastEpoch]]|
    && v.fb.working[..v.fb.received] == s.images[s.snapshots[v.lastEpoch]][..v.fb.received]
  }

  ghost predicate ShownOk(s: View)
    requires s.compositor.shown.Some?
  {
    var v := s.compositor;
    && v.fb.initialized && v.shown.value.frame in s.images && v.fb.committed == s.images[v.shown.value.frame]
    && v.canonical.committedFrame == v.shown.value.frame && v.canonical.quality == Exact
    && v.canonical.epoch >= v.shown.value.epoch
  }

  ghost predicate Shows(s: View, frame: nat) {
    && s.compositor.shown.Some? && s.compositor.shown.value.frame == frame
    && s.compositor.shown.value.epoch >= s.host.snapshotEpoch
  }

  /** While the host relies on the exact frame, the screen shows it. */
  ghost predicate BaseOk(s: View, todo: seq<Command>) {
    var h := s.host;
    && (h.mode == H.ExactMode ==> Shows(s, h.exactFrame))
    && (h.mode == H.AwaitingRectAck && todo != [] && todo[|todo| - 1].RectTransaction? ==> Shows(s, h.exactFrame))
  }

  /** Acknowledgements the host may still meet, in the order it meets them. */
  function Acks(s: View): seq<Ack> {
    (if s.host.mailbox.Some? then [s.host.mailbox.value] else []) + s.acks
  }

  /** The acknowledgement the host waits for. */
  predicate Awaited(h: H.Host, ack: Ack) {
    || (h.mode == H.AwaitingAck && ack == Ack(h.snapshotEpoch, h.snapshotFrame, h.snapshotDigest))
    || (h.mode == H.AwaitingRectAck && ack == Ack(h.rectEpoch, h.rectTarget, h.rectDigest))
  }

  ghost predicate AcksOk(s: View, todo: seq<Command>) {
    var waiting := Acks(s);
    forall i | 0 <= i < |waiting| ::
      && waiting[i].epoch <= s.host.epoch
      && (waiting[i].epoch == s.host.epoch ==>
            && i == |waiting| - 1 && Awaited(s.host, waiting[i]) && todo == [] && Shows(s, waiting[i].frame))
  }

  /** The host against the reader that has read everything in flight. */
  ghost predicate HostSide(c: Session, v: View, end: R.Reader)
    requires c.Valid()
  {
    HistoryOk(c, v) && HostOk(c, v) && EncoderOk(c, v.host, end) && EndOk(c, v.host, end)
  }

  /** The host against the screen and what is still to be done to it. */
  ghost predicate ScreenSide(c: Session, v: View, todo: seq<Command>) {
    TodoOk(c, v, todo) && AcksOk(v, todo) && BaseOk(v, todo) && ScreenOk(c, v)
  }

  /** The invariant, given what the reader will make of the messages in flight. */
  ghost predicate InvAt(c: Session, s: State, ahead: R.Reading)
    requires c.Valid()
  {
    && HostSide(c, ViewOf(s), ahead.reader)
    && ScreenSide(c, ViewOf(s), s.queue + ahead.commands)
    && Linked(s.compositor.lastEpoch, s.queue, s.wireEpoch)
    && WireLinked(s.wireEpoch, s.channel, s.host.epoch)
    && FramesOk(c, s)
  }

  function Ahead(c: Session, s: State): R.Reading {
    R.ReadAll(c, s.reader, s.channel)
  }

  ghost predicate Inv(c: Session, s: State)
    requires c.Valid()
  {
    InvAt(c, s, Ahead(c, s))
  }
}
