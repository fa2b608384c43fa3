/**
 One iteration of the host's main loop in the order of the source: recovery, mailbox, the turn of the
 mode, cursor, and an encoded unit or the readback. Here is what it chooses, and what that choice reaches:
 where the host is afterwards and what has been put on the wire, mode by mode.
 */
module Iterations {
  import opened Options
  import opened Pixels
  import opened Wire
  import H = Host
  import opened System
  import opened Invariant
  import opened AckSteps
  import E = ExactSteps
  import Runs

  /** Which of its waits the loop finds to be over. */
  datatype Clock = Clock(snapshotLate: bool, rectLate: bool, quiet: bool, cooled: bool)

  /** What the selector says about two images. */
  datatype Decision = NotReady | Unchanged | Selected(rects: seq<Rect>) | TooMuch

  type Selector = (seq<Byte>, seq<Byte>) -> Decision

  /** The contents last shown to the selector, while exact and while waiting for a transaction. */
  datatype Pace = Pace(evaluated: nat, superseded: nat)

  const FRESH_PACE := Pace(0, 0)

  ghost predicate Sound(c: Session, select: Selector) {
    forall base, target :: select(base, target).Selected? ==> H.Candidate(c, base, target, select(base, target).rects)
  }

  /** What one iteration is given by the clock, the other threads and the selector. */
  datatype Inputs = Inputs(recovery: bool, clock: Clock, select: Selector, shape: bool, position: bool)

  // -------------------------------------------------------------- what the loop chooses

  /** The content a texture first appeared with; no texture, no content. */
  function Content(s: Option<H.Source>): nat { if s.Some? then s.value.content else 0 }

  /** Whether the latest content is newer than a texture's and has not been looked at yet. */
  predicate Newer(h: H.Host, than: Option<H.Source>, seen: nat) {
    h.analyzer.latest.Some? && Content(h.analyzer.latest) > Content(than) && Content(h.analyzer.latest) != seen
  }

  function Evaluate(h: H.Host, select: Selector, reserve: bool): Decision {
    var a := h.analyzer;
    if a.canonical.None? || a.canonical.value.frame != h.exactFrame || a.latest.None? ||
       a.latest.value.frame <= h.exactFrame ||
       (reserve && a.pending.Some?)
    then NotReady
    else select(a.canonical.value.pixels, a.latest.value.pixels)
  }

  /** The turn of the mode. */
  function ModeTurn(c: Session, h: H.Host, inputs: Inputs, pace: Pace): seq<Event> {
    match h.mode
    case AwaitingAck => if inputs.clock.snapshotLate then [Resume] else []
    case Sending =>
      if h.draining.None? || (!c.exactOnly && Content(h.analyzer.latest) > Content(h.draining)) then [Resume]
      else [Event.Drain]
    case AwaitingRectAck =>
      if inputs.clock.rectLate ||
         (Newer(h, h.analyzer.pending, pace.superseded) && Evaluate(h, inputs.select, false).TooMuch?)
      then [Resume] else []
    case ExactMode => if Newer(h, h.analyzer.canonical, pace.evaluated) then ExactTurn(c, h, inputs.select) else []
    case VideoMode =>
      if h.analyzer.latest.Some? && (c.exactOnly || inputs.clock.quiet) && inputs.clock.cooled then [EnterQuiescing]
      else []
    case Quiescing => if !c.exactOnly && h.analyzer.latest.Some? && !inputs.clock.quiet then [Resume] else []
  }

  /** New content in exact mode. */
  function ExactTurn(c: Session, h: H.Host, select: Selector): seq<Event> {
    if !c.rawRect then [Resume]
    else
      match Evaluate(h, select, true)
      case Selected(rects) => [Event.SendRects(rects)]
      case TooMuch => [Resume]
      case _ => []
  }

  /** What the turn of the mode has shown to the selector. */
  function PaceAfter(c: Session, h: H.Host, pace: Pace, turn: seq<Event>): Pace {
    if turn == [Resume] then FRESH_PACE
    else if h.mode == H.ExactMode && Newer(h, h.analyzer.canonical, pace.evaluated) then
      Pace(Content(h.analyzer.latest), if turn == [] then pace.superseded else Content(h.analyzer.latest))
    else if h.mode == H.AwaitingRectAck && Newer(h, h.analyzer.pending, pace.superseded) then
      pace.(superseded := Content(h.analyzer.latest))
    else pace
  }

  /** The encoded unit that waits, or the readback once nothing can come any more. */
  function LastTurn(c: Session, h: H.Host): seq<Event> {
    if !c.exactOnly && h.encoder.queue != [] then [WriteVideo]
    else if h.mode == H.Quiescing && H.Drained(h) then [TakeSnapshot] else []
  }

  // ------------------------------------------------------------------- turns and runs

  predicate OfViewer(ev: Event) {
    ev.Read? || ev.Decoded? || ev.Compose? || ev.Show? || ev.Watchdog? || ev.AckLost?
  }

  /** What happens outside the main loop. */
  predicate OfOthers(ev: Event) { OfViewer(ev) || ev.Capture? || ev.Submit? || ev.Encoded? || ev.AckArrives? }

  /** `after` goes on from `past` without the main loop. */
  predicate Elsewhere(past: seq<Event>, after: seq<Event>) {
    past <= after && forall i | |past| <= i < |after| :: OfOthers(after[i])
  }

  lemma Step(c: Session, past: seq<Event>, ev: Event)
    requires c.Valid()
    ensures Run(c, past + [ev]) == Next(c, Run(c, past), ev)
    ensures Runs.Trace(c, past + [ev]) == Runs.Trace(c, past) + Runs.Emitted(c, Run(c, past), ev)
  {
    assert (past + [ev])[..|past|] == past;
  }

  /** An event that is a turn of the host adds that turn to the run. */
  lemma Adds(c: Session, past: seq<Event>, ev: Event, t: H.Turn)
    requires c.Valid() && !ev.Read?
    requires Next(c, Run(c, past), ev).host == t.host &&
             Next(c, Run(c, past), ev).channel == Run(c, past).channel + t.sent
    ensures Run(c, past + [ev]).host == t.host && Runs.Trace(c, past + [ev]) == Runs.Trace(c, past) + t.sent
  {
    var s := Run(c, past);
    Step(c, past, ev);
    assert (s.channel + t.sent)[|s.channel|..] == t.sent;
  }

  /** What every run says about the state a turn of the mode finds. */
  lemma TurnFacts(c: Session, past: seq<Event>)
    requires c.Valid() && !Run(c, past).host.halted
    ensures var h := Run(c, past).host;
            && (h.mode == H.Sending ==> h.draining.Some? && h.drained < |h.draining.value.pixels|)
            && (h.mailbox.Some? && Matched(h) ==> h.analyzer.CanPromote(h.mailbox.value.frame))
  {
    E.RunInv(c, past);
    AskTurn(c, Run(c, past));
  }

  lemma AskTurn(c: Session, s: State)
    requires c.Valid() && Inv(c, s)
    ensures s.host.mode == H.Sending ==> s.host.draining.Some? && s.host.drained < |s.host.draining.value.pixels|
    ensures s.host.mailbox.Some? && Matched(s.host) ==> s.host.analyzer.CanPromote(s.host.mailbox.value.frame)
  {
  }

  // ------------------------------------------------------------------- the iteration

  /** A run the loop has brought about, and its pace. */
  datatype Course = Course(past: seq<Event>, pace: Pace)

  /** After recovery and mailbox; the pace starts afresh when they change the mode. */
  ghost function Mailed(c: Session, past: seq<Event>, pace: Pace, inputs: Inputs): Course
    requires c.Valid()
  {
    var recovered := past + if inputs.recovery then [Resume] else [];
    var h := Run(c, recovered).host;
    var mailed := recovered + if h.mailbox.Some? then [TakeAck] else [];
    Course(mailed, if inputs.recovery || Run(c, mailed).host.mode != h.mode then FRESH_PACE else pace)
  }

  /** The run after the cursor and the encoder. */
  ghost function Finished(c: Session, past: seq<Event>, inputs: Inputs): seq<Event>
    requires c.Valid()
  {
    var shaped := past + if inputs.shape then [Event.SendCursor] else [];
    var placed := shaped + if inputs.position then [Event.SendCursor] else [];
    placed + LastTurn(c, Run(c, placed).host)
  }

  /** The turn of the mode and what follows it, unless the loop starts over at once or ends. */
  ghost function Represented(c: Session, mailed: Course, inputs: Inputs): Course
    requires c.Valid()
  {
    var h := Run(c, mailed.past).host;
    var turn := ModeTurn(c, h, inputs, mailed.pace);
    var past := mailed.past + turn;
    var again := h.mode == H.Sending && turn == [Resume];
    Course(if again || Run(c, past).host.halted then past else Finished(c, past, inputs),
           PaceAfter(c, h, mailed.pace, turn))
  }

  /** The run as an iteration that finds `past` continues it. */
  ghost function Turned(c: Session, past: seq<Event>, pace: Pace, inputs: Inputs): Course
    requires c.Valid()
  {
    Represented(c, Mailed(c, past, pace, inputs), inputs)
  }

  // ---------------------------------------------------------- what an iteration reaches

  predicate Cursors(ms: seq<Message>) { forall m <- ms :: m.body.Cursor? }

  /** The next encoded unit is taken, and written when its epoch is the host's; nothing else happens but cursors. */
  predicate Goes(c: Session, h: H.Host, h': H.Host, sent: seq<Message>) {
    if c.exactOnly || h.encoder.queue == [] then h' == h.(sequence := h'.sequence) && Cursors(sent)
    else
      var u := h.encoder.queue[0];
      && h' == h.(sequence := h'.sequence, encoder := h.encoder.(queue := h.encoder.queue[1..]))
      && if u.epoch != h.epoch then Cursors(sent)
         else
           && sent != [] && Cursors(sent[..|sent| - 1])
           && sent[|sent| - 1] == Message(h'.sequence, h.epoch, u.frame, AccessUnit(u.key, u.pixels))
  }

  /** The frame of a texture is on its way as a snapshot, from its first byte on. */
  predicate Sends(h: H.Host, source: Option<H.Source>) {
    && !h.halted && h.mode == H.Sending && h.draining == source && h.analyzer.pending == source && source.Some?
    && h.drained == 0 && h.snapshotEpoch == h.epoch && h.snapshotFrame == source.value.frame
    && h.snapshotDigest == OfImage(source.value.pixels)
  }

  /** A drained encoder lets the latest frame be read back; without one the host ends. */
  predicate ReadsBack(h: H.Host, h': H.Host, sent: seq<Message>) {
    && h'.epoch == h.epoch && h'.analyzer.latest == h.analyzer.latest && Cursors(sent)
    && h'.analyzer.canonical == h.analyzer.canonical && h'.submissions == h.submissions
    && if h.analyzer.latest.Some? then Sends(h', h.analyzer.latest) else h'.halted
  }

  predicate Resets(h: H.Host, sent: seq<Message>) {
    sent != [] && sent[0].body.StateReset? && sent[0].epoch == h.epoch + 1 && Cursors(sent[1..])
  }

  /** The exact path is given up in a larger epoch: video again, or at once the next snapshot. */
  predicate StartsOver(c: Session, h: H.Host, h': H.Host, sent: seq<Message>) {
    && Resets(h, sent) && h'.epoch == h.epoch + 1 && h'.analyzer.canonical.None?
    && h'.analyzer.latest == h.analyzer.latest
    && if !c.exactOnly then
         !h'.halted && h'.mode == H.VideoMode && h'.submissions && h'.forceIdr && h'.analyzer.pending.None?
       else if h.analyzer.latest.Some? then Sends(h', h.analyzer.latest) else h'.halted
  }

  /** Video stops in a larger epoch; the frame is read back as soon as nothing is left in the encoder. */
  predicate Quiets(h: H.Host, h': H.Host, sent: seq<Message>) {
    && Resets(h, sent) && h'.epoch == h.epoch + 1 == h'.snapshotEpoch && !h'.halted && !h'.submissions
    && h'.analyzer.latest == h.analyzer.latest
    && if h.encoder.inFlight == [] then Sends(h', h.analyzer.latest)
       else h'.mode == H.Quiescing && h'.encoder.queue == []
  }

  /** Chunks that carry an image's bytes `from..to` one behind the other. */
  predicate Carries(c: Session, h: H.Host, image: seq<Byte>, from: nat, to: nat, ms: seq<Message>)
    decreases |ms|
  {
    if ms == [] then from == to
    else
      && ms[0].epoch == h.snapshotEpoch && ms[0].frame == h.snapshotFrame && ms[0].body.Chunk?
      && var next := from + |ms[0].body.bytes|;
         && from < next <= |image| && ms[0].body == Chunk(c.surface, |image|, from, image[from..next])
         && Carries(c, h, image, next, to, ms[1..])
  }

  /** The snapshot moves on by `n` messages, up to its commit. */
  predicate Bursts(c: Session, h: H.Host, h': H.Host, sent: seq<Message>, n: nat) {
    && h.draining.Some? && !h'.halted && h'.epoch == h.epoch && h'.analyzer == h.analyzer && 0 < n <= |sent|
    && h'.snapshotEpoch == h.snapshotEpoch && h'.snapshotFrame == h.snapshotFrame
    && h'.snapshotDigest == h.snapshotDigest
    && var image := h.draining.value.pixels;
       if h'.mode == H.AwaitingAck then
         && h'.draining.None? && Carries(c, h, image, h.drained, |image|, sent[..n])
         && n < |sent| && sent[n].epoch == h.snapshotEpoch && sent[n].frame == h.snapshotFrame
         && sent[n].body == FrameCommit(0) && Cursors(sent[n + 1..])
       else
         && h'.mode == H.Sending && h'.draining == h.draining && h.drained < h'.drained < |image|
         && Carries(c, h, image, h.drained, h'.drained, sent[..n]) && Cursors(sent[n..])
  }

  /** The rectangles and their commit are out, and the host waits for their acknowledgement. */
  predicate Awaits(c: Session, h: H.Host, rects: seq<Rect>, h': H.Host, sent: seq<Message>) {
    && h.analyzer.latest.Some?
    && var frame := h.analyzer.latest.value.frame;
       && !h'.halted && h'.mode == H.AwaitingRectAck && h'.rectTarget == frame
       && h'.epoch == h.epoch == h.rectEpoch == h'.rectEpoch && h'.exactFrame == h.exactFrame
       && h'.analyzer == h.analyzer.(pending := h.analyzer.latest)
       && h'.rectDigest == OfRects(h.exactDigest, frame, rects)
       && |sent| > |rects|
       && (forall i | 0 <= i < |rects| ::
             sent[i] == Message(h.sequence + 1 + i, h.epoch, frame, RawRect(h.exactFrame, c.surface, rects[i])))
       && sent[|rects|] == Message(h.sequence + 1 + |rects|, h.epoch, frame, FrameCommit(h.exactFrame))
       && Cursors(sent[|rects| + 1..])
  }

  /** New content in exact mode: what the selector says is done. */
  predicate Updates(c: Session, h: H.Host, select: Selector, h': H.Host, sent: seq<Message>) {
    && h.analyzer.canonical.Some? && h.analyzer.latest.Some?
    && match select(h.analyzer.canonical.value.pixels, h.analyzer.latest.value.pixels)
       case Selected(rects) => if DigestFits(rects) then Awaits(c, h, rects, h', sent) else h'.halted
       case TooMuch => StartsOver(c, h, h', sent)
       case _ => Goes(c, h, h', sent)
  }

  /** New content while a transaction is out is too much for another one. */
  predicate Overtaken(h: H.Host, select: Selector, seen: nat) {
    && Newer(h, h.analyzer.pending, seen) && h.analyzer.canonical.Some?
    && select(h.analyzer.canonical.value.pixels, h.analyzer.latest.value.pixels).TooMuch?
  }

  /** Where an iteration leaves a host that found no request and no mail, and what it has sent. */
  ghost predicate Reaches(c: Session, h: H.Host, inputs: Inputs, pace: Pace, h': H.Host, sent: seq<Message>) {
    var a := h.analyzer;
    match h.mode
    case AwaitingAck =>
      if inputs.clock.snapshotLate then StartsOver(c, h, h', sent) else Goes(c, h, h', sent)
    case AwaitingRectAck =>
      if inputs.clock.rectLate || Overtaken(h, inputs.select, pace.superseded) then StartsOver(c, h, h', sent)
      else Goes(c, h, h', sent)
    case Sending =>
      if !c.exactOnly && Content(a.latest) > Content(h.draining) then StartsOver(c, h, h', sent)
      else exists n: nat :: Bursts(c, h, h', sent, n)
    case ExactMode =>
      if !Newer(h, a.canonical, pace.evaluated) then Goes(c, h, h', sent)
      else if !c.rawRect then StartsOver(c, h, h', sent)
      else Updates(c, h, inputs.select, h', sent)
    case VideoMode =>
      if a.latest.Some? && (c.exactOnly || inputs.clock.quiet) && inputs.clock.cooled then Quiets(h, h', sent)
      else Goes(c, h, h', sent)
    case Quiescing =>
      if !c.exactOnly && a.latest.Some? && !inputs.clock.quiet then StartsOver(c, h, h', sent)
      else if h.encoder.queue == [] && h.encoder.inFlight == [] then ReadsBack(h, h', sent)
      else Goes(c, h, h', sent)
  }

  /** The host as request and mail leave it to the turn of the mode. */
  function Prepared(c: Session, h: H.Host, recovery: bool): H.Turn {
    var resumed := if recovery then H.Resume(c, h) else H.Idle(h);
    var taken := if resumed.host.mailbox.Some? then H.TakeAck(c, resumed.host) else H.Idle(resumed.host);
    H.Turn(taken.host, resumed.sent + taken.sent)
  }

  /** The whole iteration: request and mail, and then what they leave reaches. */
  ghost predicate Iterated(c: Session, h: H.Host, inputs: Inputs, pace: Pace, h': H.Host, sent: seq<Message>) {
    var prepared := Prepared(c, h, inputs.recovery);
    var kept := !inputs.recovery && prepared.host.mode == h.mode;
    && prepared.sent <= sent
    && Reaches(c, prepared.host, inputs, if kept then pace else FRESH_PACE, h', sent[|prepared.sent|..])
  }

  // ------------------------------------------------- what every run provides an iteration

  /** A texture is at most as new as the latest one, and is that one when it is as new. */
  predicate Behind(h: H.Host, s: Option<H.Source>) {
    s.Some? ==> h.analyzer.latest.Some? && s.value.frame <= h.analyzer.latest.value.frame &&
                (s.value.frame == h.analyzer.latest.value.frame ==> s == h.analyzer.latest)
  }

  predicate Ordered(h: H.Host) { Behind(h, h.analyzer.canonical) && Behind(h, h.analyzer.pending) }

  lemma ResumeOrders(c: Session, h: H.Host)
    ensures Ordered(H.Resume(c, h).host)
  {
  }

  lemma TakeAckOrders(c: Session, h: H.Host)
    requires Ordered(h) && h.mailbox.Some?
    ensures Ordered(H.TakeAck(c, h).host)
  {
    ResumeOrders(c, h.(mailbox := None));
  }

  /** Events that change a texture otherwise. */
  predicate Paints(ev: Event) { ev.TakeSnapshot? || ev.SendRects? }

  lemma CaptureOrders(c: Session, s: State, ev: Event)
    requires c.Valid() && Ordered(s.host) && Enabled(c, s, ev) && ev.Capture?
    ensures Ordered(Next(c, s, ev).host)
  {
  }

  lemma DrainOrders(c: Session, s: State)
    requires c.Valid() && Ordered(s.host) && Enabled(c, s, Event.Drain)
    ensures Ordered(Next(c, s, Event.Drain).host)
  {
    ResumeOrders(c, s.host);
  }

  lemma PaintingOrders(c: Session, s: State, ev: Event)
    requires c.Valid() && Ordered(s.host) && Enabled(c, s, ev) && Paints(ev)
    ensures Ordered(Next(c, s, ev).host)
  {
  }

  lemma OthersOrder(c: Session, s: State, ev: Event)
    requires c.Valid() && Ordered(s.host) && Enabled(c, s, ev) && !Paints(ev)
    requires !ev.Resume? && !ev.TakeAck? && !ev.Drain? && !ev.Capture?
    ensures Ordered(Next(c, s, ev).host)
  {
  }

  lemma NextOrders(c: Session, s: State, ev: Event)
    requires c.Valid() && Ordered(s.host)
    ensures Ordered(Next(c, s, ev).host)
  {
    if Enabled(c, s, ev) {
      if ev.Resume? {
        ResumeOrders(c, s.host);
      } else if ev.TakeAck? {
        TakeAckOrders(c, s.host);
      } else if ev.Drain? {
        DrainOrders(c, s);
      } else if ev.Capture? {
        CaptureOrders(c, s, ev);
      } else if Paints(ev) {
        PaintingOrders(c, s, ev);
      } else {
        OthersOrder(c, s, ev);
      }
    }
  }

  lemma {:induction false} RunOrders(c: Session, events: seq<Event>)
    requires c.Valid()
    ensures Ordered(Run(c, events).host)
  {
    if events == [] {
    } else {
      RunOrders(c, events[..|events| - 1]);
      NextOrders(c, Run(c, events[..|events| - 1]), events[|events| - 1]);
    }
  }

  /** What the turn of a mode needs to know about the host it finds. */
  ghost predicate Ready(c: Session, h: H.Host) {
    && !h.halted && Ordered(h)
    && (c.exactOnly ==> h.encoder.inFlight == [] && h.encoder.queue == [])
    && (forall u <- h.encoder.queue :: u.epoch <= h.epoch && (h.mode != H.VideoMode ==> u.epoch < h.epoch))
    && (h.mode in {H.VideoMode, H.Quiescing, H.ExactMode} ==> h.analyzer.pending.None?)
    && (h.mode != H.VideoMode ==> !H.ObsoleteInFlight(h))
    && (h.mode in {H.Quiescing, H.Sending} ==> h.snapshotEpoch == h.epoch >= 1)
    && (h.mode == H.Sending ==> h.draining.Some? && h.drained < |h.draining.value.pixels|)
    && (h.mode in {H.ExactMode, H.AwaitingRectAck} ==>
          h.rectEpoch == h.epoch && h.analyzer.canonical.Some? && h.analyzer.canonical.value.frame == h.exactFrame)
    && (h.mode == H.AwaitingRectAck ==> h.analyzer.pending.Some? && h.analyzer.pending.value.frame > h.exactFrame)
  }

  lemma InvReady(c: Session, s: State)
    requires c.Valid() && Inv(c, s) && !s.host.halted && Ordered(s.host)
    ensures Ready(c, s.host)
  {
    var h := s.host;
    forall u | u in h.encoder.queue ensures u.epoch <= h.epoch && (h.mode != H.VideoMode ==> u.epoch < h.epoch) {
      assert u in h.encoder.queue + h.encoder.inFlight;
    }
  }

  lemma RunReady(c: Session, past: seq<Event>)
    requires c.Valid() && !Run(c, past).host.halted
    ensures Ready(c, Run(c, past).host)
  {
    E.RunInv(c, past);
    RunOrders(c, past);
    InvReady(c, Run(c, past));
  }

  // -------------------------------------------------------------- the end of an iteration

  /** What the stages after the turn of the mode do. */
  predicate Closes(c: Session, h: H.Host, h': H.Host, sent: seq<Message>) {
    if h.mode == H.Quiescing && h.encoder.queue == [] && h.encoder.inFlight == [] then ReadsBack(h, h', sent)
    else Goes(c, h, h', sent)
  }

  /** The messages of a turn and of the stages behind it. */
  lemma Together(trace: seq<Message>, first: seq<Message>, second: seq<Message>)
    ensures trace + first + second == trace + (first + second)
  {
  }

  lemma CursorAdds(c: Session, past: seq<Event>, pending: bool) returns (sent: seq<Message>)
    requires c.Valid() && !Run(c, past).host.halted
    ensures var after := past + if pending then [Event.SendCursor] else [];
            && Runs.Trace(c, after) == Runs.Trace(c, past) + sent && Cursors(sent)
            && Run(c, after).host == Run(c, past).host.(sequence := Run(c, after).host.sequence)
  {
    sent := [];
    assert past + [] == past && Runs.Trace(c, past) + [] == Runs.Trace(c, past);
    if pending {
      var h := Run(c, past).host;
      sent := H.Send(h, h.epoch, 0, [Cursor]).sent;
      Adds(c, past, Event.SendCursor, H.Send(h, h.epoch, 0, [Cursor]));
    }
  }

  lemma VideoGoes(c: Session, h: H.Host)
    requires Ready(c, h) && !c.exactOnly && h.encoder.queue != []
    ensures Goes(c, h, H.WriteVideo(h).host, H.WriteVideo(h).sent)
  {
  }

  lemma SnapshotReads(c: Session, h: H.Host)
    requires Ready(c, h) && h.mode == H.Quiescing && H.Drained(h)
    ensures ReadsBack(h, H.TakeSnapshot(h).host, H.TakeSnapshot(h).sent)
  {
  }

  lemma UnitCloses(c: Session, past: seq<Event>)
    requires c.Valid() && !Run(c, past).host.halted && !c.exactOnly && Run(c, past).host.encoder.queue != []
    ensures var h, after := Run(c, past).host, past + [WriteVideo];
            && Runs.Trace(c, after) == Runs.Trace(c, past) + H.WriteVideo(h).sent
            && Closes(c, h, Run(c, after).host, H.WriteVideo(h).sent)
  {
    RunReady(c, past);
    Adds(c, past, WriteVideo, H.WriteVideo(Run(c, past).host));
    VideoGoes(c, Run(c, past).host);
  }

  lemma SnapshotCloses(c: Session, past: seq<Event>)
    requires c.Valid() && !Run(c, past).host.halted
    requires Run(c, past).host.mode == H.Quiescing && H.Drained(Run(c, past).host)
    ensures var h, after := Run(c, past).host, past + [TakeSnapshot];
            && Runs.Trace(c, after) == Runs.Trace(c, past) + H.TakeSnapshot(h).sent
            && Closes(c, h, Run(c, after).host, H.TakeSnapshot(h).sent)
  {
    RunReady(c, past);
    Adds(c, past, TakeSnapshot, H.TakeSnapshot(Run(c, past).host));
    SnapshotReads(c, Run(c, past).host);
  }

  lemma NothingCloses(c: Session, past: seq<Event>)
    requires c.Valid() && !Run(c, past).host.halted && LastTurn(c, Run(c, past).host) == []
    ensures Closes(c, Run(c, past).host, Run(c, past).host, [])
  {
    RunReady(c, past);
  }

  lemma LastCloses(c: Session, past: seq<Event>) returns (sent: seq<Message>)
    requires c.Valid() && !Run(c, past).host.halted
    ensures var h := Run(c, past).host; var after := past + LastTurn(c, h);
            Runs.Trace(c, after) == Runs.Trace(c, past) + sent && Closes(c, h, Run(c, after).host, sent)
  {
    var h := Run(c, past).host;
    if !c.exactOnly && h.encoder.queue != [] {
      sent := H.WriteVideo(h).sent;
      UnitCloses(c, past);
    } else if h.mode == H.Quiescing && H.Drained(h) {
      sent := H.TakeSnapshot(h).sent;
      SnapshotCloses(c, past);
    } else {
      sent := [];
      NothingCloses(c, past);
      assert past + [] == past && Runs.Trace(c, past) + [] == Runs.Trace(c, past);
    }
  }

  /** Cursors sent before change nothing. */
  lemma ClosesLater(c: Session, h: H.Host, placed: H.Host, h': H.Host, cursors: seq<Message>, sent: seq<Message>)
    requires placed == h.(sequence := placed.sequence) && Cursors(cursors) && Closes(c, placed, h', sent)
    ensures Closes(c, h, h', cursors + sent)
  {
    if sent != [] {
      assert (cursors + sent)[..|cursors + sent| - 1] == cursors + sent[..|sent| - 1];
    }
  }

  /** The stages before the encoder's. */
  lemma PlacedCloses(c: Session, past: seq<Event>, inputs: Inputs) returns (placed: seq<Event>, sent: seq<Message>)
    requires c.Valid() && !Run(c, past).host.halted
    ensures Finished(c, past, inputs) == placed + LastTurn(c, Run(c, placed).host)
    ensures Runs.Trace(c, placed) == Runs.Trace(c, past) + sent && Cursors(sent)
    ensures Run(c, placed).host == Run(c, past).host.(sequence := Run(c, placed).host.sequence)
  {
    var shapes := CursorAdds(c, past, inputs.shape);
    var shaped := past + if inputs.shape then [Event.SendCursor] else [];
    var positions := CursorAdds(c, shaped, inputs.position);
    placed := shaped + if inputs.position then [Event.SendCursor] else [];
    Together(Runs.Trace(c, past), shapes, positions);
    sent := shapes + positions;
  }

  lemma FinishedCloses(c: Session, past: seq<Event>, inputs: Inputs) returns (sent: seq<Message>)
    requires c.Valid() && !Run(c, past).host.halted
    ensures var after := Finished(c, past, inputs);
            && Runs.Trace(c, after) == Runs.Trace(c, past) + sent
            && Closes(c, Run(c, past).host, Run(c, after).host, sent)
  {
    var placed, cursors := PlacedCloses(c, past, inputs);
    var rest := LastCloses(c, placed);
    Together(Runs.Trace(c, past), cursors, rest);
    ClosesLater(c, Run(c, past).host, Run(c, placed).host, Run(c, Finished(c, past, inputs)).host, cursors, rest);
    sent := cursors + rest;
  }

  // ------------------------------------------------------------------ turns of the modes

  lemma {:induction false} AllDropped(us: seq<H.Unit>, epoch: nat)
    requires forall u <- us :: u.epoch < epoch
    ensures H.DropBefore(us, epoch) == []
  {
    if us == [] {
    } else {
      AllDropped(us[1..], epoch);
    }
  }

  lemma ResetGoesFirst(h: H.Host, reset: seq<Message>, rest: seq<Message>)
    requires |reset| == 1 && reset[0].body.StateReset? && reset[0].epoch == h.epoch + 1 && Cursors(rest)
    ensures Resets(h, reset + rest)
  {
    assert (reset + rest)[1..] == rest;
  }

  lemma ResumedHost(c: Session, h: H.Host)
    requires Ready(c, h)
    ensures var t := H.Resume(c, h).host;
            && t.epoch == h.epoch + 1 && t.analyzer == H.Analyzer(h.analyzer.latest, None, None) && !t.halted
            && t.encoder.queue == []
            && if c.exactOnly then t.mode == H.Quiescing && t.snapshotEpoch == t.epoch && t.encoder.inFlight == []
               else t.mode == H.VideoMode && t.submissions && t.forceIdr
  {
    AllDropped(h.encoder.queue, h.epoch + 1);
  }

  lemma QuietHost(c: Session, h: H.Host)
    requires Ready(c, h) && h.mode == H.VideoMode && h.analyzer.latest.Some?
    ensures var t := H.EnterQuiescing(c, h).host;
            && t.epoch == h.epoch + 1 == t.snapshotEpoch && t.analyzer == h.analyzer && !t.halted && !t.submissions
            && t.encoder.queue == [] && t.encoder.inFlight == h.encoder.inFlight && t.mode == H.Quiescing
  {
    AllDropped(h.encoder.queue, h.epoch + 1);
  }

  /** Starting over leaves nothing in the encoder that could still be written. */
  lemma ResumeStartsOver(c: Session, h: H.Host, h': H.Host, sent: seq<Message>)
    requires Ready(c, h)
    requires Closes(c, H.Resume(c, h).host, h', sent) || (!c.exactOnly && h' == H.Resume(c, h).host && sent == [])
    ensures StartsOver(c, h, h', H.Resume(c, h).sent + sent)
  {
    ResumedHost(c, h);
    ResetGoesFirst(h, H.Resume(c, h).sent, sent);
  }

  lemma QuiescingQuiets(c: Session, h: H.Host, h': H.Host, sent: seq<Message>)
    requires Ready(c, h) && h.mode == H.VideoMode && h.analyzer.latest.Some?
    requires Closes(c, H.EnterQuiescing(c, h).host, h', sent)
    ensures Quiets(h, h', H.EnterQuiescing(c, h).sent + sent)
  {
    QuietHost(c, h);
    ResetGoesFirst(h, H.EnterQuiescing(c, h).sent, sent);
  }

  /** The chunks of ranges that abut carry the image on. */
  lemma {:induction false} AbuttingCarries(c: Session, h: H.Host, source: H.Source, last: nat, rs: seq<H.Range>,
                                           from: nat)
    requires H.Abut(rs, from) && from <= |source.pixels| && forall r <- rs :: r.offset + r.size <= |source.pixels|
    ensures Carries(c, h, source.pixels, from, H.End(rs, from),
                    H.Numbered(last, h.snapshotEpoch, h.snapshotFrame, H.Chunks(c, source, rs)))
    decreases |rs|
  {
    var bodies := H.Chunks(c, source, rs);
    var ms := H.Numbered(last, h.snapshotEpoch, h.snapshotFrame, bodies);
    if rs == [] {
      assert ms == [];
    } else {
      AbuttingCarries(c, h, source, last + 1, rs[1..], from + rs[0].size);
      assert bodies[1..] == H.Chunks(c, source, rs[1..]);
      assert ms[1..] == H.Numbered(last + 1, h.snapshotEpoch, h.snapshotFrame, bodies[1..]);
      assert H.End(rs, from) == H.End(rs[1..], from + rs[0].size);
    }
  }

  lemma DrainBursts(c: Session, h: H.Host) returns (rs: seq<H.Range>)
    requires c.Valid() && Ready(c, h) && h.mode == H.Sending
    ensures rs != [] && H.Abut(rs, h.drained) && forall r <- rs :: r.offset + r.size <= |h.draining.value.pixels|
    ensures h.drained < H.End(rs, h.drained) <= |h.draining.value.pixels|
    ensures H.Drain(c, h) == H.BurstTurn(c, h, h.draining.value, rs)
  {
    var total, chunk := |h.draining.value.pixels|, H.ChunkBytes(c.surface.Stride());
    H.ChunkFits(c.surface.Stride());
    rs := H.Burst(h.drained, total, chunk, 0);
    H.BurstAbuts(h.drained, total, chunk, 0);
    E.BurstSizes(h.drained, total, chunk, 0);
    E.EndBound(rs, h.drained, total);
  }

  lemma {:induction false} BurstReaches(c: Session, h: H.Host, rs: seq<H.Range>, h': H.Host, sent: seq<Message>)
    requires c.Valid() && Ready(c, h) && h.mode == H.Sending && rs != [] && H.Abut(rs, h.drained)
    requires forall r <- rs :: r.offset + r.size <= |h.draining.value.pixels|
    requires h.drained < H.End(rs, h.drained) <= |h.draining.value.pixels|
    requires var turn := H.BurstTurn(c, h, h.draining.value, rs); Closes(c, turn.host, h', sent)
    ensures var turn := H.BurstTurn(c, h, h.draining.value, rs); Bursts(c, h, h', turn.sent + sent, |rs|)
  {
    var turn, source := H.BurstTurn(c, h, h.draining.value, rs), h.draining.value;
    var chunks := H.Chunks(c, source, rs);
    var ms := H.Numbered(h.sequence, h.snapshotEpoch, h.snapshotFrame, chunks);
    AbuttingCarries(c, h, source, h.sequence, rs, h.drained);
    assert turn.sent[..|rs|] == ms;
    assert (turn.sent + sent)[..|rs|] == ms;
    if turn.host.mode == H.AwaitingAck {
      assert (turn.sent + sent)[|rs| + 1..] == sent;
    } else {
      assert (turn.sent + sent)[|rs|..] == sent;
    }
  }

  /** The analyzer is ready whenever the loop asks it. */
  lemma EvaluateSelects(c: Session, h: H.Host, select: Selector, seen: nat)
    requires Ready(c, h)
    ensures h.mode == H.ExactMode && Newer(h, h.analyzer.canonical, seen) ==>
              H.CanSelect(h) &&
              Evaluate(h, select, true) == select(h.analyzer.canonical.value.pixels, h.analyzer.latest.value.pixels)
    ensures h.mode == H.AwaitingRectAck && Newer(h, h.analyzer.pending, seen) ==>
              Evaluate(h, select, false) == select(h.analyzer.canonical.value.pixels, h.analyzer.latest.value.pixels)
  {
  }

  lemma ResumeAdds(c: Session, past: seq<Event>)
    requires c.Valid() && !Run(c, past).host.halted
    ensures var t := H.Resume(c, Run(c, past).host);
            && Run(c, past + [Resume]).host == t.host
            && Runs.Trace(c, past + [Resume]) == Runs.Trace(c, past) + t.sent && !t.host.halted
  {
    Runs.ResumeLeavesMail(c, Run(c, past).host);
    Adds(c, past, Resume, H.Resume(c, Run(c, past).host));
  }

  lemma ResumedReaches(c: Session, past: seq<Event>, inputs: Inputs) returns (sent: seq<Message>)
    requires c.Valid() && !Run(c, past).host.halted
    ensures var h, after := Run(c, past).host, Finished(c, past + [Resume], inputs);
            Runs.Trace(c, after) == Runs.Trace(c, past) + sent && StartsOver(c, h, Run(c, after).host, sent)
    ensures var h := Run(c, past).host;
            !c.exactOnly ==> Runs.Trace(c, past + [Resume]) == Runs.Trace(c, past) + H.Resume(c, h).sent &&
                             StartsOver(c, h, Run(c, past + [Resume]).host, H.Resume(c, h).sent)
  {
    var h := Run(c, past).host;
    RunReady(c, past);
    ResumeAdds(c, past);
    var rest := FinishedCloses(c, past + [Resume], inputs);
    var after := Finished(c, past + [Resume], inputs);
    ResumeStartsOver(c, h, Run(c, after).host, rest);
    Together(Runs.Trace(c, past), H.Resume(c, h).sent, rest);
    sent := H.Resume(c, h).sent + rest;
    if !c.exactOnly {
      ResumeStartsOver(c, h, H.Resume(c, h).host, []);
      assert H.Resume(c, h).sent + [] == H.Resume(c, h).sent;
    }
  }

  lemma QuietedReaches(c: Session, past: seq<Event>, inputs: Inputs) returns (sent: seq<Message>)
    requires c.Valid() && Enabled(c, Run(c, past), EnterQuiescing)
    ensures var h, after := Run(c, past).host, Finished(c, past + [EnterQuiescing], inputs);
            Runs.Trace(c, after) == Runs.Trace(c, past) + sent && Quiets(h, Run(c, after).host, sent)
    ensures !Run(c, past + [EnterQuiescing]).host.halted
  {
    var h := Run(c, past).host;
    RunReady(c, past);
    Adds(c, past, EnterQuiescing, H.EnterQuiescing(c, h));
    var rest := FinishedCloses(c, past + [EnterQuiescing], inputs);
    QuiescingQuiets(c, h, Run(c, Finished(c, past + [EnterQuiescing], inputs)).host, rest);
    Together(Runs.Trace(c, past), H.EnterQuiescing(c, h).sent, rest);
    sent := H.EnterQuiescing(c, h).sent + rest;
  }

  lemma DrainedReaches(c: Session, past: seq<Event>, inputs: Inputs) returns (sent: seq<Message>, n: nat)
    requires c.Valid() && !Run(c, past).host.halted && Run(c, past).host.mode == H.Sending
    ensures var h, after := Run(c, past).host, Finished(c, past + [Event.Drain], inputs);
            Runs.Trace(c, after) == Runs.Trace(c, past) + sent && Bursts(c, h, Run(c, after).host, sent, n)
    ensures !Run(c, past + [Event.Drain]).host.halted
  {
    var h := Run(c, past).host;
    RunReady(c, past);
    var rs := DrainBursts(c, h);
    Adds(c, past, Event.Drain, H.Drain(c, h));
    var rest := FinishedCloses(c, past + [Event.Drain], inputs);
    BurstReaches(c, h, rs, Run(c, Finished(c, past + [Event.Drain], inputs)).host, rest);
    Together(Runs.Trace(c, past), H.Drain(c, h).sent, rest);
    sent, n := H.Drain(c, h).sent + rest, |rs|;
  }

  lemma RectsAwait(c: Session, h: H.Host, rects: seq<Rect>, h': H.Host, sent: seq<Message>)
    requires Ready(c, h) && h.mode == H.ExactMode && c.rawRect && H.CanSelect(h) && DigestFits(rects)
    requires Closes(c, H.SendRects(c, h, rects).host, h', sent)
    ensures Awaits(c, h, rects, h', H.SendRects(c, h, rects).sent + sent)
  {
    var turn := H.SendRects(c, h, rects);
    assert (turn.sent + sent)[|rects| + 1..] == sent;
  }

  lemma SelectedReaches(c: Session, past: seq<Event>, inputs: Inputs, rects: seq<Rect>) returns (sent: seq<Message>)
    requires c.Valid() && Enabled(c, Run(c, past), Event.SendRects(rects))
    ensures var h, sending := Run(c, past).host, past + [Event.SendRects(rects)];
            var after := if Run(c, sending).host.halted then sending else Finished(c, sending, inputs);
            && Runs.Trace(c, after) == Runs.Trace(c, past) + sent
            && if DigestFits(rects) then Awaits(c, h, rects, Run(c, after).host, sent) else Run(c, after).host.halted
  {
    var h, sending := Run(c, past).host, past + [Event.SendRects(rects)];
    RunReady(c, past);
    sent := H.SendRects(c, h, rects).sent;
    Adds(c, past, Event.SendRects(rects), H.SendRects(c, h, rects));
    if DigestFits(rects) {
      var rest := FinishedCloses(c, sending, inputs);
      RectsAwait(c, h, rects, Run(c, Finished(c, sending, inputs)).host, rest);
      Together(Runs.Trace(c, past), sent, rest);
      sent := sent + rest;
    }
  }

  /** No event before the cursors: the modes in which nothing is to be done. */
  lemma NothingReaches(c: Session, h: H.Host, inputs: Inputs, pace: Pace, h': H.Host, sent: seq<Message>)
    requires Ready(c, h) && ModeTurn(c, h, inputs, pace) == [] && Closes(c, h, h', sent)
    ensures Reaches(c, h, inputs, pace, h', sent)
  {
    EvaluateSelects(c, h, inputs.select, pace.evaluated);
    EvaluateSelects(c, h, inputs.select, pace.superseded);
  }

  lemma OverReaches(c: Session, h: H.Host, inputs: Inputs, pace: Pace, h': H.Host, sent: seq<Message>)
    requires Ready(c, h) && ModeTurn(c, h, inputs, pace) == [Resume] && StartsOver(c, h, h', sent)
    ensures Reaches(c, h, inputs, pace, h', sent)
  {
    EvaluateSelects(c, h, inputs.select, pace.evaluated);
    EvaluateSelects(c, h, inputs.select, pace.superseded);
  }

  lemma SelectionReaches(c: Session, h: H.Host, inputs: Inputs, pace: Pace, rects: seq<Rect>, h': H.Host,
                         sent: seq<Message>)
    requires Ready(c, h) && ModeTurn(c, h, inputs, pace) == [Event.SendRects(rects)]
    requires if DigestFits(rects) then Awaits(c, h, rects, h', sent) else h'.halted
    ensures Reaches(c, h, inputs, pace, h', sent)
  {
    EvaluateSelects(c, h, inputs.select, pace.evaluated);
  }

  lemma SelectionEnabled(c: Session, past: seq<Event>, inputs: Inputs, pace: Pace, rects: seq<Rect>)
    requires c.Valid() && !Run(c, past).host.halted && Sound(c, inputs.select)
    requires ModeTurn(c, Run(c, past).host, inputs, pace) == [Event.SendRects(rects)]
    ensures Enabled(c, Run(c, past), Event.SendRects(rects))
  {
    RunReady(c, past);
    EvaluateSelects(c, Run(c, past).host, inputs.select, pace.evaluated);
  }

  lemma NothingTurned(c: Session, mailed: Course, inputs: Inputs) returns (sent: seq<Message>)
    requires c.Valid() && !Run(c, mailed.past).host.halted
    requires ModeTurn(c, Run(c, mailed.past).host, inputs, mailed.pace) == []
    ensures Shown(c, mailed, inputs, sent)
  {
    var h := Run(c, mailed.past).host;
    RunReady(c, mailed.past);
    assert mailed.past + [] == mailed.past;
    sent := FinishedCloses(c, mailed.past, inputs);
    NothingReaches(c, h, inputs, mailed.pace, Run(c, Represented(c, mailed, inputs).past).host, sent);
  }

  lemma ResumedTurned(c: Session, mailed: Course, inputs: Inputs) returns (sent: seq<Message>)
    requires c.Valid() && !Run(c, mailed.past).host.halted
    requires ModeTurn(c, Run(c, mailed.past).host, inputs, mailed.pace) == [Resume]
    ensures Shown(c, mailed, inputs, sent)
  {
    var h := Run(c, mailed.past).host;
    RunReady(c, mailed.past);
    ResumeAdds(c, mailed.past);
    sent := ResumedReaches(c, mailed.past, inputs);
    if h.mode == H.Sending {
      sent := H.Resume(c, h).sent;
    }
    OverReaches(c, h, inputs, mailed.pace, Run(c, Represented(c, mailed, inputs).past).host, sent);
  }

  lemma QuietedTurned(c: Session, mailed: Course, inputs: Inputs) returns (sent: seq<Message>)
    requires c.Valid() && !Run(c, mailed.past).host.halted
    requires ModeTurn(c, Run(c, mailed.past).host, inputs, mailed.pace) == [EnterQuiescing]
    ensures Shown(c, mailed, inputs, sent)
  {
    sent := QuietedReaches(c, mailed.past, inputs);
  }

  lemma DrainedTurned(c: Session, mailed: Course, inputs: Inputs) returns (sent: seq<Message>)
    requires c.Valid() && !Run(c, mailed.past).host.halted
    requires ModeTurn(c, Run(c, mailed.past).host, inputs, mailed.pace) == [Event.Drain]
    ensures Shown(c, mailed, inputs, sent)
  {
    var n;
    sent, n := DrainedReaches(c, mailed.past, inputs);
  }

  lemma SelectedTurned(c: Session, mailed: Course, inputs: Inputs, rects: seq<Rect>) returns (sent: seq<Message>)
    requires c.Valid() && !Run(c, mailed.past).host.halted && Sound(c, inputs.select)
    requires ModeTurn(c, Run(c, mailed.past).host, inputs, mailed.pace) == [Event.SendRects(rects)]
    ensures Shown(c, mailed, inputs, sent)
  {
    var h := Run(c, mailed.past).host;
    RunReady(c, mailed.past);
    SelectionEnabled(c, mailed.past, inputs, mailed.pace, rects);
    sent := SelectedReaches(c, mailed.past, inputs, rects);
    SelectionReaches(c, h, inputs, mailed.pace, rects, Run(c, Represented(c, mailed, inputs).past).host, sent);
  }

  /** The turn of the mode has sent this and reached what it should. */
  ghost predicate Shown(c: Session, mailed: Course, inputs: Inputs, sent: seq<Message>)
    requires c.Valid()
  {
    var h, after := Run(c, mailed.past).host, Represented(c, mailed, inputs).past;
    && Runs.Trace(c, after) == Runs.Trace(c, mailed.past) + sent
    && Reaches(c, h, inputs, mailed.pace, Run(c, after).host, sent)
  }

  /** From the host that request and mail have left. */
  lemma RepresentedReaches(c: Session, mailed: Course, inputs: Inputs) returns (sent: seq<Message>)
    requires c.Valid() && !Run(c, mailed.past).host.halted && Sound(c, inputs.select)
    ensures Shown(c, mailed, inputs, sent)
  {
    var turn := ModeTurn(c, Run(c, mailed.past).host, inputs, mailed.pace);
    if turn == [] {
      sent := NothingTurned(c, mailed, inputs);
    } else if turn == [Resume] {
      sent := ResumedTurned(c, mailed, inputs);
    } else if turn == [EnterQuiescing] {
      sent := QuietedTurned(c, mailed, inputs);
    } else if turn == [Event.Drain] {
      sent := DrainedTurned(c, mailed, inputs);
    } else {
      sent := SelectedTurned(c, mailed, inputs, turn[0].rects);
    }
  }

  lemma RequestPrepares(c: Session, past: seq<Event>, recovery: bool)
    requires c.Valid() && !Run(c, past).host.halted
    ensures var h, recovered := Run(c, past).host, past + if recovery then [Resume] else [];
            var resumed := if recovery then H.Resume(c, h) else H.Idle(h);
            && Run(c, recovered).host == resumed.host && !resumed.host.halted
            && Runs.Trace(c, recovered) == Runs.Trace(c, past) + resumed.sent
  {
    if recovery {
      ResumeAdds(c, past);
    } else {
      assert past + [] == past && Runs.Trace(c, past) + [] == Runs.Trace(c, past);
    }
  }

  lemma MailPrepares(c: Session, past: seq<Event>)
    requires c.Valid() && !Run(c, past).host.halted
    ensures var h := Run(c, past).host; var mailed := past + if h.mailbox.Some? then [TakeAck] else [];
            var taken := if h.mailbox.Some? then H.TakeAck(c, h) else H.Idle(h);
            && Run(c, mailed).host == taken.host && !taken.host.halted
            && Runs.Trace(c, mailed) == Runs.Trace(c, past) + taken.sent
  {
    var h := Run(c, past).host;
    if h.mailbox.Some? {
      Runs.TakeAckEmpties(c, h);
      Adds(c, past, TakeAck, H.TakeAck(c, h));
    } else {
      assert past + [] == past && Runs.Trace(c, past) + [] == Runs.Trace(c, past);
    }
  }

  /** Request and mail, as events of the run. */
  lemma MailedPrepares(c: Session, past: seq<Event>, pace: Pace, inputs: Inputs)
    requires c.Valid() && !Run(c, past).host.halted
    ensures var h, mailed := Run(c, past).host, Mailed(c, past, pace, inputs);
            var prepared := Prepared(c, h, inputs.recovery);
            && Run(c, mailed.past).host == prepared.host && !prepared.host.halted
            && Runs.Trace(c, mailed.past) == Runs.Trace(c, past) + prepared.sent
            && mailed.pace == if !inputs.recovery && prepared.host.mode == h.mode then pace else FRESH_PACE
  {
    var recovered := past + if inputs.recovery then [Resume] else [];
    RequestPrepares(c, past, inputs.recovery);
    MailPrepares(c, recovered);
    var resumed := if inputs.recovery then H.Resume(c, Run(c, past).host) else H.Idle(Run(c, past).host);
    var taken := if resumed.host.mailbox.Some? then H.TakeAck(c, resumed.host) else H.Idle(resumed.host);
    Together(Runs.Trace(c, past), resumed.sent, taken.sent);
  }

  /**
   What an iteration reaches, in every mode and whatever it finds: the request and the mail first, and
   then the turn of the mode they leave.
   */
  lemma TurnedIterates(c: Session, past: seq<Event>, pace: Pace, inputs: Inputs) returns (sent: seq<Message>)
    requires c.Valid() && !Run(c, past).host.halted && Sound(c, inputs.select)
    ensures var h, after := Run(c, past).host, Turned(c, past, pace, inputs).past;
            && Runs.Trace(c, after) == Runs.Trace(c, past) + sent
            && Iterated(c, h, inputs, pace, Run(c, after).host, sent)
  {
    MailedPrepares(c, past, pace, inputs);
    var mailed, prepared := Mailed(c, past, pace, inputs), Prepared(c, Run(c, past).host, inputs.recovery);
    var rest := RepresentedReaches(c, mailed, inputs);
    sent := prepared.sent + rest;
    Together(Runs.Trace(c, past), prepared.sent, rest);
    assert sent[|prepared.sent|..] == rest;
  }
}
