/**
 Host and viewer of one session joined by an ordered visual channel and an acknowledgement path
 that may lose messages. A run is any sequence of events; an event that is not enabled does nothing.
 */
module System {
  import opened Options
  import opened Pixels
  import opened Wire
  import H = Host
  import R = Reader
  import C = Compositor

  const COMMAND_QUEUE_LIMIT := 256

  /**
   `images` (frame to captured pixels), `snapshots` (epoch to the frame its snapshot carries) and
   `wireEpoch` (of the last message read) are history; no step looks at them.
   */
  datatype State = State(
    host: H.Host,
    channel: seq<Message>,
    reader: R.Reader,
    stalled: bool,
    queue: seq<Command>,
    decoder: seq<VideoFrame>,
    slot: Option<VideoFrame>,
    compositor: C.Compositor,
    ended: bool,               // the compositor's thread
    acks: seq<Ack>,
    images: map<nat, seq<Byte>>,
    snapshots: map<nat, nat>,
    wireEpoch: nat)

  datatype Event =
    // the host's threads
    | Capture(frame: nat, changed: bool, pixels: seq<Byte>)
    | Submit(frame: nat, pixels: seq<Byte>, periodic: bool)
    | Encoded
    | Resume           // recovery request, timeout, newer source, selector fallback
    | TakeAck
    | EnterQuiescing
    | TakeSnapshot
    | Drain
    | SendRects(rects: seq<Rect>)
    | WriteVideo
    | SendCursor
    // the viewer's threads
    | Read
    | Decoded(index: nat)
    | Compose(fault: C.Fault)
    | Show(glitch: C.Glitch)
    | Watchdog
    // the acknowledgement path
    | AckArrives
    | AckLost(index: nat)

  function Start(c: Session): State {
    State(H.Start(c), [], R.START, false, [], [], None, C.START, false, [], map[], map[], 1)
  }

  function Take(s: State, t: H.Turn): State {
    s.(host := t.host, channel := s.channel + t.sent)
  }

  /** How many commands the queue still takes. */
  function Room(s: State): nat { if |s.queue| < COMMAND_QUEUE_LIMIT then COMMAND_QUEUE_LIMIT - |s.queue| else 0 }

  /** A reset flushes decoder and slot before it queues anything. */
  function Flushed(s: State, effect: R.FrameEffect): State {
    match effect
    case Flush(e) => s.(decoder := [], slot := if s.slot.Some? && s.slot.value.epoch < e then None else s.slot)
    case _ => s
  }

  /**
   Reads one message. Commands that find the queue full throw, which ends the reader for good; those
   queued before stay queued.
   */
  function ReadOne(c: Session, s: State): State
    requires s.channel != []
  {
    var m := s.channel[0];
    var out := R.Receive(c, s.reader, m);
    if |out.commands| > Room(s) then
      Flushed(s, out.effect).(stalled := true, queue := s.queue + out.commands[..Room(s)])
    else
      var s1 := s.(channel := s.channel[1..], reader := out.reader, queue := s.queue + out.commands,
                   wireEpoch := m.epoch);
      match out.effect
      case Decode(f) => s1.(decoder := s.decoder + [f])
      case _ => Flushed(s1, out.effect)
  }

  ghost function ComposeOne(s: State, fault: C.Fault): State
    requires s.queue != [] && s.compositor.fb.Valid()
  {
    var done := C.Execute(s.compositor, s.queue[0], fault);
    s.(queue := s.queue[1..], compositor := done.compositor, ended := C.Ends(s.compositor, s.queue[0], fault),
       acks := if done.ack.Some? then s.acks + [done.ack.value] else s.acks)
  }

  ghost predicate Enabled(c: Session, s: State, ev: Event) {
    var h := s.host;
    match ev
    case Capture(frame, _, pixels) =>
      |pixels| == c.surface.Size() && frame > (if h.analyzer.latest.Some? then h.analyzer.latest.value.frame else 0)
    case Submit(frame, pixels, _) =>
      !h.halted && h.submissions && !c.exactOnly && frame != 0 && |pixels| == c.surface.Size()
    case Encoded => h.encoder.inFlight != []
    case Resume => !h.halted
    case TakeAck => !h.halted && h.mailbox.Some?
    case EnterQuiescing => !h.halted && h.mode == H.VideoMode && h.analyzer.latest.Some?
    case TakeSnapshot => !h.halted && h.mode == H.Quiescing && H.Drained(h)
    case Drain => !h.halted && h.mode == H.Sending && (h.draining.Some? ==> h.drained <= |h.draining.value.pixels|)
    case SendRects(rects) =>
      && !h.halted && h.mode == H.ExactMode && c.rawRect && H.CanSelect(h)
      && H.Candidate(c, h.analyzer.canonical.value.pixels, h.analyzer.latest.value.pixels, rects)
    case WriteVideo => !h.halted && h.encoder.queue != []
    case SendCursor => !h.halted
    case Read => !s.stalled && s.channel != []
    case Decoded(index) => index < |s.decoder|
    case Compose(_) => !s.ended && s.queue != [] && s.compositor.fb.Valid()
    case Show(_) => !s.ended && s.queue == [] && s.slot.Some?
    case Watchdog => !s.ended
    case AckArrives => s.acks != []
    case AckLost(index) => index < |s.acks|
  }

  ghost function Next(c: Session, s: State, ev: Event): State
    requires c.Valid()
  {
    if !Enabled(c, s, ev) then s
    else
      match ev
      case Capture(frame, changed, pixels) =>
        var host := H.Capture(s.host, frame, changed, pixels);
        s.(host := host, images := s.images[frame := host.analyzer.latest.value.pixels])
      case Submit(frame, pixels, periodic) => s.(host := H.Submit(s.host, frame, pixels, periodic))
      case Encoded => s.(host := s.host.(encoder := s.host.encoder.Complete()))
      case Resume => Take(s, H.Resume(c, s.host))
      case TakeAck => Take(s, H.TakeAck(c, s.host))
      case EnterQuiescing => Take(s, H.EnterQuiescing(c, s.host))
      case TakeSnapshot =>
        var t := H.TakeSnapshot(s.host);
        Take(s, t).(snapshots := if t.host.halted then s.snapshots
                                 else s.snapshots[s.host.snapshotEpoch := t.host.snapshotFrame])
      case Drain => Take(s, H.Drain(c, s.host))
      case SendRects(rects) => Take(s, H.SendRects(c, s.host, rects))
      case WriteVideo => Take(s, H.WriteVideo(s.host))
      case SendCursor => Take(s, H.Send(s.host, s.host.epoch, 0, [Cursor]))
      case Read => ReadOne(c, s)
      case Decoded(index) => s.(slot := Some(s.decoder[index]), decoder := s.decoder[index + 1..])
      case Compose(fault) => ComposeOne(s, fault)
      case Show(glitch) => s.(compositor := C.Show(s.compositor, c.surface, s.slot.value, glitch))
      case Watchdog => s.(compositor := C.Watchdog(s.compositor, true))
      case AckArrives => s.(host := s.host.(mailbox := Some(s.acks[0])), acks := s.acks[1..])
      case AckLost(index) => s.(acks := s.acks[..index] + s.acks[index + 1..])
  }

  ghost function Run(c: Session, events: seq<Event>): State
    requires c.Valid()
  {
    if events == [] then Start(c) else Next(c, Run(c, events[..|events| - 1]), events[|events| - 1])
  }
}
