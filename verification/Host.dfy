/**
 The host's hybrid machine: lossy video, a snapshot transaction that makes one frame exact, and
 rectangle transactions that keep it exact. Every function is one turn of the main loop or of the
 encoder thread; both hold the submission gate while they touch the epoch.
 */
module Host {
  import opened Options
  import opened Pixels
  import opened Wire

  datatype Mode = VideoMode | Quiescing | Sending | AwaitingAck | ExactMode | AwaitingRectAck

  /** A captured frame, and the frame its content first appeared in. */
  datatype Source = Source(frame: nat, content: nat, pixels: seq<Byte>)

  /** The three textures of the exact analyzer. */
  datatype Analyzer = Analyzer(latest: Option<Source>, canonical: Option<Source>, pending: Option<Source>) {
    function Invalidate(): Analyzer { this.(canonical := None, pending := None) }

    predicate CanPromote(frame: nat) { frame != 0 && pending.Some? && pending.value.frame == frame }

    function Promote(): Analyzer
      requires pending.Some?
    {
      this.(canonical := pending, pending := None)
    }
  }

  /** An access unit somewhere between submission and the wire. */
  datatype Unit = Unit(epoch: nat, frame: nat, key: bool, pixels: seq<Byte>)

  datatype Encoder = Encoder(inFlight: seq<Unit>, queue: seq<Unit>, minimumEpoch: nat) {
    function DiscardBefore(epoch: nat): Encoder {
      this.(queue := DropBefore(queue, epoch), minimumEpoch := epoch)
    }

    function Complete(): Encoder
      requires inFlight != []
    {
      var done := inFlight[0];
      this.(inFlight := inFlight[1..], queue := if done.epoch < minimumEpoch then queue else queue + [done])
    }
  }

  function DropBefore(queue: seq<Unit>, epoch: nat): seq<Unit> {
    if queue != [] && queue[0].epoch < epoch then DropBefore(queue[1..], epoch) else queue
  }

  datatype Host = Host(
    halted: bool,
    mode: Mode,
    epoch: nat,                  // the representation epoch
    snapshotEpoch: nat,
    snapshotFrame: nat,
    snapshotDigest: Digest,
    draining: Option<Source>,    // the snapshot on its way to the wire
    drained: nat,
    exactFrame: nat,
    exactDigest: Digest,
    rectEpoch: nat,
    rectTarget: nat,
    rectDigest: Digest,
    submissions: bool,
    forceIdr: bool,
    submitted: nat,
    sequence: nat,
    analyzer: Analyzer,
    encoder: Encoder,
    mailbox: Option<Ack>)

  function Start(c: Session): Host {
    Host(false, VideoMode, 1, 0, 0, Unset, None, 0, 0, Unset, 0, 0, Unset, !c.exactOnly, false, 0, 0,
         Analyzer(None, None, None), Encoder([], [], 0), None)
  }

  datatype Turn = Turn(host: Host, sent: seq<Message>)

  function Numbered(last: nat, epoch: nat, frame: nat, bodies: seq<Body>): seq<Message> {
    seq(|bodies|, i requires 0 <= i < |bodies| => Message(last + 1 + i, epoch, frame, bodies[i]))
  }

  /** Numbers the bodies of one turn and puts them on the wire. */
  function Send(h: Host, epoch: nat, frame: nat, bodies: seq<Body>): Turn {
    Turn(h.(sequence := h.sequence + |bodies|), Numbered(h.sequence, epoch, frame, bodies))
  }

  function Idle(h: Host): Turn { Turn(h, []) }

  /** Leaves the exact path: a new epoch, a reset on the wire, and video again or a fresh snapshot. */
  function Resume(c: Session, h: Host): Turn {
    Send(StartOver(c, BreakOff(c, h)), h.epoch + 1, ResetFrame(h), [StateReset])
  }

  /** The frame a reset names. */
  function ResetFrame(h: Host): nat {
    if h.analyzer.latest.Some? then h.analyzer.latest.value.frame
    else if h.rectTarget != 0 then h.rectTarget
    else if h.snapshotFrame != 0 then h.snapshotFrame else 1
  }

  /** Enters the next epoch and drops whatever was under way. */
  function BreakOff(c: Session, h: Host): Host {
    var epoch := h.epoch + 1;
    h.(epoch := epoch,
       encoder := if c.exactOnly then h.encoder else h.encoder.DiscardBefore(epoch),
       analyzer := h.analyzer.Invalidate(),
       draining := None, drained := 0)
  }

  /** Forgets what was exact; then video again, or at once the next snapshot. */
  function StartOver(c: Session, h: Host): Host {
    var h1 := h.(snapshotFrame := 0, exactFrame := 0, rectEpoch := 0, rectTarget := 0);
    if c.exactOnly then h1.(snapshotEpoch := h.epoch, submissions := false, mode := Quiescing)
    else h1.(snapshotEpoch := 0, forceIdr := true, submissions := true, mode := VideoMode)
  }

  predicate Matches(ack: Ack, epoch: nat, frame: nat, digest: Digest) {
    epoch != 0 && frame != 0 && ack == Ack(epoch, frame, digest)
  }

  /** The snapshot becomes the canonical frame; rectangles get an epoch of their own. */
  function PromoteSnapshot(c: Session, h: Host): Turn {
    if !h.analyzer.CanPromote(h.snapshotFrame) then Resume(c, h)
    else
      var h1 := h.(analyzer := h.analyzer.Promote(), exactFrame := h.snapshotFrame, exactDigest := h.snapshotDigest,
                   rectEpoch := h.snapshotEpoch, mode := ExactMode);
      if c.rawRect then
        var epoch := h.snapshotEpoch + 1;
        Send(h1.(rectEpoch := epoch, epoch := epoch,
                 encoder := if c.exactOnly then h.encoder else h.encoder.DiscardBefore(epoch)),
             epoch, h1.exactFrame, [StateReset])
      else Idle(h1)
  }

  /** The transaction's target becomes the canonical frame. */
  function PromoteRects(c: Session, h: Host): Turn {
    if !h.analyzer.CanPromote(h.rectTarget) then Resume(c, h)
    else Idle(h.(analyzer := h.analyzer.Promote(), exactFrame := h.rectTarget, exactDigest := h.rectDigest,
                 rectTarget := 0, mode := ExactMode))
  }

  /** Takes the acknowledgement out of the mailbox and promotes, gives up, or ignores it. */
  function TakeAck(c: Session, h: Host): Turn
    requires h.mailbox.Some?
  {
    var ack, h1 := h.mailbox.value, h.(mailbox := None);
    if h.mode == AwaitingAck && Matches(ack, h.snapshotEpoch, h.snapshotFrame, h.snapshotDigest)
    then PromoteSnapshot(c, h1)
    else if h.mode == AwaitingRectAck && Matches(ack, h.rectEpoch, h.rectTarget, h.rectDigest) then PromoteRects(c, h1)
    else if (h.mode == AwaitingAck && ack.epoch == h.snapshotEpoch && ack.frame == h.snapshotFrame) ||
            (h.mode == AwaitingRectAck && ack.epoch == h.rectEpoch && ack.frame == h.rectTarget)
    then Resume(c, h1)
    else Idle(h1)
  }

  /** Stops video and reserves the epoch of the next snapshot. */
  function EnterQuiescing(c: Session, h: Host): Turn
    requires h.mode == VideoMode && h.analyzer.latest.Some?
  {
    var epoch := h.epoch + 1;
    Send(h.(submissions := false, snapshotEpoch := epoch, epoch := epoch,
            encoder := if c.exactOnly then h.encoder else h.encoder.DiscardBefore(epoch), mode := Quiescing),
         epoch, h.analyzer.latest.value.frame, [StateReset])
  }

  /** The escape for units still in flight from an epoch not yet reserved. */
  predicate ObsoleteInFlight(h: Host) {
    h.snapshotEpoch != 0 && h.snapshotEpoch > h.epoch
  }

  predicate Drained(h: Host) {
    h.encoder.queue == [] && (h.encoder.inFlight == [] || ObsoleteInFlight(h))
  }

  /** Reads the latest frame back; without one the analyzer throws and the host ends. */
  function TakeSnapshot(h: Host): Turn
    requires h.mode == Quiescing && Drained(h)
  {
    if h.analyzer.latest.None? || h.analyzer.pending.Some? || h.snapshotEpoch == 0 then Idle(h.(halted := true))
    else
      var latest := h.analyzer.latest.value;
      Idle(h.(analyzer := h.analyzer.(pending := Some(latest)), snapshotFrame := latest.frame,
              snapshotDigest := OfImage(latest.pixels), draining := Some(latest), drained := 0, mode := Sending))
  }

  // ------------------------------------------------------------- the wire drain

  const BURST_BYTES := 512 * 1024

  /** Whole rows a wire chunk holds, in bytes. */
  function ChunkBytes(stride: nat): nat
    requires stride > 0
  {
    (MAXIMUM_WIRE_CHUNK_BYTES / stride) * stride
  }

  datatype Range = Range(offset: nat, size: nat)

  /** One burst: chunks in order from `next`, at least one, no more than the burst limit together. */
  function Burst(next: nat, total: nat, chunk: nat, used: nat): seq<Range>
    requires chunk > 0
    decreases total - next
  {
    if next >= total then []
    else
      var size := if chunk < total - next then chunk else total - next;
      var limit := if BURST_BYTES < chunk then chunk else BURST_BYTES;
      if used > 0 && size + used > limit then []
      else [Range(next, size)] + (if used + size >= limit then [] else Burst(next + size, total, chunk, used + size))
  }

  ghost predicate Abut(rs: seq<Range>, from: nat)
    decreases |rs|
  {
    rs == [] || (rs[0].offset == from && rs[0].size > 0 && Abut(rs[1..], from + rs[0].size))
  }

  function End(rs: seq<Range>, from: nat): nat {
    if rs == [] then from else rs[|rs| - 1].offset + rs[|rs| - 1].size
  }

  function Chunks(c: Session, s: Source, rs: seq<Range>): seq<Body>
    requires forall r <- rs :: r.offset + r.size <= |s.pixels|
  {
    seq(|rs|, i requires 0 <= i < |rs| =>
      Chunk(c.surface, |s.pixels|, rs[i].offset, s.pixels[rs[i].offset..rs[i].offset + rs[i].size]))
  }

  lemma {:induction false} BurstAbuts(next: nat, total: nat, chunk: nat, used: nat)
    requires chunk > 0 && next <= total
    ensures var rs := Burst(next, total, chunk, used);
            && Abut(rs, next)
            && (forall r <- rs :: r.size <= chunk && r.offset + r.size <= total)
            && (used == 0 && next < total ==> rs != [])
    decreases total - next
  {
    if next == total {
    } else {
      var size := if chunk < total - next then chunk else total - next;
      BurstAbuts(next + size, total, chunk, used + size);
      AbutMore(Range(next, size), Burst(next + size, total, chunk, used + size));
      AbutMore(Range(next, size), []);
    }
  }

  lemma AbutMore(r: Range, rest: seq<Range>)
    requires r.size > 0 && Abut(rest, r.offset + r.size)
    ensures Abut([r] + rest, r.offset)
  {
    assert ([r] + rest)[1..] == rest;
  }

  /** Writes a burst of the pending snapshot, and its commit once everything is out. */
  function Drain(c: Session, h: Host): Turn
    requires h.mode == Sending && c.Valid()
    requires h.draining.Some? ==> h.drained <= |h.draining.value.pixels|
  {
    if h.draining.None? then Resume(c, h)
    else
      var s := h.draining.value;
      var chunk := ChunkBytes(c.surface.Stride());
      ChunkFits(c.surface.Stride());
      var rs := Burst(h.drained, |s.pixels|, chunk, 0);
      BurstAbuts(h.drained, |s.pixels|, chunk, 0);
      BurstTurn(c, h, s, rs)
  }

  function BurstTurn(c: Session, h: Host, s: Source, rs: seq<Range>): Turn
    requires forall r <- rs :: r.offset + r.size <= |s.pixels|
  {
    var reached := End(rs, h.drained);
    if reached == |s.pixels|
    then Send(h.(draining := None, drained := 0, mode := AwaitingAck),
              h.snapshotEpoch, h.snapshotFrame, Chunks(c, s, rs) + [FrameCommit(0)])
    else Send(h.(drained := reached), h.snapshotEpoch, h.snapshotFrame, Chunks(c, s, rs))
  }

  lemma ChunkFits(stride: nat)
    requires 0 < stride <= MAXIMUM_WIRE_CHUNK_BYTES
    ensures 0 < ChunkBytes(stride) <= MAXIMUM_WIRE_CHUNK_BYTES
    ensures ChunkBytes(stride) % stride == 0
  {
    var q := MAXIMUM_WIRE_CHUNK_BYTES / stride;
    MulOrder(1, q, stride);
    QuotientUnique(q * stride, q, 0, stride);
  }

  // ------------------------------------------------------------- rectangles

  function RectCountLimit(c: Session): nat { if c.exactOnly then MAXIMUM_RECT_COUNT else 8 }
  function RectByteLimit(c: Session): nat { if c.exactOnly then MAXIMUM_RECT_BYTES else 128 * 1024 }

  /** What the analyzer promises about a selected candidate: disjoint rectangles that turn the base into the target. */
  ghost predicate Candidate(c: Session, base: seq<Byte>, target: seq<Byte>, rs: seq<Rect>) {
    && rs != [] && |rs| <= RectCountLimit(c) && RectBytes(rs) <= RectByteLimit(c)
    && AllFit(c.surface, rs) && Disjoint(rs)
    && (|base| > 0 ==> c.surface.width > 0)
    && target == PaintAll(base, c.surface, rs)
  }

  /** Whether the analyzer can select a candidate at all. */
  predicate CanSelect(h: Host) {
    && h.analyzer.canonical.Some? && h.analyzer.canonical.value.frame == h.exactFrame
    && h.analyzer.latest.Some? && h.analyzer.latest.value.frame > h.exactFrame
    && h.analyzer.pending.None?
  }

  function RectBodies(base: nat, surface: Surface, rs: seq<Rect>): seq<Body> {
    seq(|rs|, i requires 0 <= i < |rs| => RawRect(base, surface, rs[i]))
  }

  /** Sends a selected candidate; a digest that refuses it ends the host. */
  function SendRects(c: Session, h: Host, rs: seq<Rect>): Turn
    requires h.mode == ExactMode && c.rawRect && CanSelect(h)
  {
    var target := h.analyzer.latest.value;
    var h1 := h.(analyzer := h.analyzer.(pending := Some(target)));
    if !DigestFits(rs) then Idle(h1.(halted := true))
    else
      Send(h1.(rectDigest := OfRects(h.exactDigest, target.frame, rs), rectTarget := target.frame,
               mode := AwaitingRectAck),
           h.rectEpoch, target.frame, RectBodies(h.exactFrame, c.surface, rs) + [FrameCommit(h.exactFrame)])
  }

  // ------------------------------------------------------------- video

  /** The encoder thread submits a frame; a forced one opens every epoch. */
  function Submit(h: Host, frame: nat, pixels: seq<Byte>, periodic: bool): Host
    requires h.submissions
  {
    var unit := Unit(h.epoch, frame, h.forceIdr || h.submitted == 0 || periodic, pixels);
    h.(encoder := h.encoder.(inFlight := h.encoder.inFlight + [unit]), forceIdr := false, submitted := h.submitted + 1)
  }

  /** Takes the next encoded unit and writes it, unless its epoch is over. */
  function WriteVideo(h: Host): Turn
    requires h.encoder.queue != []
  {
    var unit := h.encoder.queue[0];
    var h1 := h.(encoder := h.encoder.(queue := h.encoder.queue[1..]));
    if unit.epoch != h.epoch then Idle(h1)
    else Send(h1, unit.epoch, unit.frame, [AccessUnit(unit.key, unit.pixels)])
  }

  /** The analyzer sees a captured frame, whose content may be the one it already had. */
  function Capture(h: Host, frame: nat, changed: bool, pixels: seq<Byte>): Host {
    var known := h.analyzer.latest;
    var next := if changed || known.None? then Source(frame, frame, pixels) else known.value.(frame := frame);
    h.(analyzer := h.analyzer.(latest := Some(next)))
  }
}
