/**
 What a rectangle transaction does when nothing gets in its way: from any exact state a selected change
 is read, painted, verified and acknowledged, so that the host's next frame becomes exact. And when a
 transaction fails, and what its failure can cost the viewer.
 */
module Updates {
  import opened Options
  import opened Pixels
  import opened Wire
  import opened Canonical
  import FramebufferSpec
  import H = Host
  import R = Reader
  import C = Compositor
  import opened System
  import opened Invariant
  import A = HostSteps
  import E = ExactSteps
  import I = Iterations
  import P = Progress
  import opened Records
  import Runs
  import T = TurnSteps

  // ------------------------------------------------------------------ the transaction

  function Transaction(h: H.Host, rs: seq<Rect>): Command {
    RectTransaction(h.rectEpoch, h.rectTarget, h.exactFrame, h.rectDigest, rs)
  }

  function Todo(c: Session, s: State): seq<Command> { s.queue + Ahead(c, s).commands }

  /** Nothing is wrong with the viewer, and the transaction is the last thing it has to do. */
  ghost predicate Underway(c: Session, s: State, rs: seq<Rect>) {
    && s.host.mode == H.AwaitingRectAck && !s.host.halted && !s.stalled && !s.ended && Disjoint(rs) && rs != []
    && Todo(c, s) != [] && Todo(c, s)[|Todo(c, s)| - 1] == Transaction(s.host, rs)
  }

  /** A screen that a transaction of these rectangles can be painted on. */
  ghost predicate Paintable(v: C.Compositor, cmd: Command) {
    && cmd.RectTransaction? && v.fb.Valid() && v.fb.initialized && !v.fb.updateActive
    && v.canonical.CanEnter(Rects, cmd.epoch) && v.canonical.quality == Exact
    && v.canonical.committedFrame == cmd.base != 0 && cmd.frame > cmd.base && v.canonical.pendingTarget == 0
    && cmd.rects != [] && Disjoint(cmd.rects) && forall r <- cmd.rects :: v.fb.Accepts(r)
  }

  /** What goes wrong with a command that is itself in order. */
  predicate Fails(fault: C.Fault) { fault.graphicsFails || fault.presentFails || fault.ackRejected }

  lemma PaintableAnswers(v: C.Compositor, cmd: Command, fault: C.Fault)
    requires Paintable(v, cmd)
    ensures C.DoRects(v, cmd, fault).ack == if Fails(fault) then None else Some(Ack(cmd.epoch, cmd.frame, cmd.digest))
  {
    FramebufferSpec.RectTransactionCommits(v.fb, cmd.rects, cmd.frame);
  }

  /** The watchdog gives the command up before it is looked at. */
  predicate Abandoned(v: C.Compositor, fault: C.Fault) { fault.timedOut && v.uploading && fault.dropped }

  lemma WatchedPaintable(v: C.Compositor, cmd: Command, fault: C.Fault)
    requires Paintable(v, cmd)
    ensures Paintable(C.Watchdog(v, fault.timedOut).(lastEpoch := cmd.epoch), cmd)
  {
  }

  lemma TransactionAnswers(v: C.Compositor, cmd: Command, fault: C.Fault)
    requires Paintable(v, cmd)
    ensures C.Execute(v, cmd, fault).ack ==
            if Abandoned(v, fault) || Fails(fault) then None else Some(Ack(cmd.epoch, cmd.frame, cmd.digest))
  {
    WatchedPaintable(v, cmd, fault);
    PaintableAnswers(C.Watchdog(v, fault.timedOut).(lastEpoch := cmd.epoch), cmd, fault);
  }

  // -------------------------------------------------------------- what every run provides

  /** The awaited transaction, once it is the only thing left to do, finds its screen. */
  lemma AwaitedIsPaintable(c: Session, s: State, rs: seq<Rect>)
    requires c.Valid() && Inv(c, s) && RecordOk(c, s) && Underway(c, s, rs) && |Todo(c, s)| == 1
    ensures Paintable(s.compositor, Transaction(s.host, rs))
  {
    A.InvEnd(c, s);
    var cmd := Transaction(s.host, rs);
    assert Todo(c, s)[0] == cmd && cmd in Todo(c, s);
    HeldScreen(c, ViewOf(s), Todo(c, s), cmd);
    RectEpochEntered(c, s);
  }

  lemma HeldScreen(c: Session, v: View, todo: seq<Command>, cmd: Command)
    requires c.Valid() && HistoryOk(c, v) && HostOk(c, v) && ScreenSide(c, v, todo) && v.host.mode == H.AwaitingRectAck
    requires todo == [cmd] && cmd.RectTransaction? && cmd.base == v.host.exactFrame && cmd.frame == v.host.rectTarget
    ensures var w := v.compositor;
            && w.fb.Valid() && w.fb.initialized && !w.fb.updateActive && w.fb.surface == c.surface
            && w.canonical.quality == Exact && w.canonical.committedFrame == cmd.base != 0 && cmd.frame > cmd.base
            && AllFit(c.surface, cmd.rects)
  {
    assert todo[|todo| - 1] == cmd && cmd in todo;
  }

  lemma RectEpochEntered(c: Session, s: State)
    requires c.Valid() && Inv(c, s) && RecordOk(c, s) && s.host.mode == H.AwaitingRectAck
    ensures s.compositor.canonical.CanEnter(Rects, s.host.rectEpoch)
  {
    A.InvEnd(c, s);
    assert ModeOk(c, ViewOf(s));
  }

  /**
   When the thread survives the transaction the host waits for: unless the handler's request is refused
   after a fault, with the command not given up before.
   */
  lemma AwaitedEndsExactlyWhen(c: Session, events: seq<Event>, rs: seq<Rect>, fault: C.Fault)
    requires c.Valid() && Underway(c, Run(c, events), rs) && |Todo(c, Run(c, events))| == 1
    requires Run(c, events).queue != []
    ensures var s := Run(c, events);
            Run(c, events + [Compose(fault)]).ended <==>
              fault.requestRefused && Fails(fault) && !Abandoned(s.compositor, fault)
  {
    var s := Run(c, events);
    E.RunInv(c, events);
    RunRecord(c, events);
    AwaitedIsPaintable(c, s, rs);
    var cmd := Transaction(s.host, rs);
    assert s.queue[0] == Todo(c, s)[0] == cmd;
    TransactionAnswers(s.compositor, cmd, fault);
    I.Step(c, events, Compose(fault));
    P.ComposeNext(c, s, fault);
  }

  /** A viewer whose control queue always takes the handler's request keeps its compositor. */
  lemma {:induction false} NeverEnds(c: Session, events: seq<Event>)
    requires c.Valid() && forall ev <- events :: ev.Compose? ==> !ev.fault.requestRefused
    ensures !Run(c, events).ended
  {
    if events == [] {
    } else {
      NeverEnds(c, events[..|events| - 1]);
      NextGoesOn(c, Run(c, events[..|events| - 1]), events[|events| - 1]);
    }
  }

  lemma NextGoesOn(c: Session, s: State, ev: Event)
    requires c.Valid() && !s.ended && (ev.Compose? ==> !ev.fault.requestRefused)
    ensures !Next(c, s, ev).ended
  {
  }

  // ------------------------------------------------------------------------- progress

  lemma ReadOn(c: Session, s: State, rs: seq<Rect>)
    requires c.Valid() && Underway(c, s, rs) && s.queue == []
    ensures s.channel != []
    ensures var t := Next(c, s, Read);
            Underway(c, t, rs) && t.channel == s.channel[1..] && t.host == s.host && t.acks == s.acks
  {
    assert s.queue + Ahead(c, s).commands == Ahead(c, s).commands;
    P.AheadNeedsChannel(c, s);
    P.ReadMoves(c, s);
    StillUnderway(c, s, Next(c, s, Read), rs);
  }

  lemma StillUnderway(c: Session, s: State, t: State, rs: seq<Rect>)
    requires Underway(c, s, rs) && t.host == s.host && t.stalled == s.stalled && t.ended == s.ended
    requires Todo(c, t) == Todo(c, s)
    ensures Underway(c, t, rs)
  {
  }

  /** The acknowledgement the host waits for has been sent, and none behind it. */
  ghost predicate Answered(s: State) {
    && s.host.mode == H.AwaitingRectAck && !s.host.halted && !s.stalled && !s.ended
    && s.acks != [] && s.acks[|s.acks| - 1] == Ack(s.host.rectEpoch, s.host.rectTarget, s.host.rectDigest)
  }

  /** A command that is not the last only cancels. */
  lemma EarlierCancels(c: Session, s: State, rs: seq<Rect>)
    requires c.Valid() && Inv(c, s) && Underway(c, s, rs) && |Todo(c, s)| > 1 && s.queue != []
    ensures s.queue[0].Cancel?
  {
    A.InvEnd(c, s);
    assert s.queue[0] == Todo(c, s)[0];
  }

  lemma CancelOn(c: Session, s: State, rs: seq<Rect>)
    requires c.Valid() && Inv(c, s) && Underway(c, s, rs) && |Todo(c, s)| > 1 && s.queue != []
    ensures s.compositor.fb.Valid()
    ensures var t := ComposeOne(s, C.NO_FAULT); Underway(c, t, rs) && t.host == s.host && t.acks == s.acks
  {
    EarlierCancels(c, s, rs);
    ScreenValid(c, s);
    CancelRest(s, Ahead(c, s).commands);
    CancelQuiet(s.compositor, s.queue[0]);
    assert Ahead(c, ComposeOne(s, C.NO_FAULT)) == Ahead(c, s);
  }

  lemma CancelQuiet(v: C.Compositor, cmd: Command)
    requires v.fb.Valid() && cmd.Cancel?
    ensures C.Execute(v, cmd, C.NO_FAULT).ack.None? && !C.Ends(v, cmd, C.NO_FAULT)
  {
  }

  lemma ScreenValid(c: Session, s: State)
    requires c.Valid() && Inv(c, s)
    ensures s.compositor.fb.Valid()
  {
    A.InvEnd(c, s);
    assert ScreenOk(c, ViewOf(s));
  }

  lemma CancelRest(s: State, ahead: seq<Command>)
    requires s.queue != [] && |s.queue + ahead| > 1
    ensures var rest := s.queue[1..] + ahead;
            rest != [] && rest[|rest| - 1] == (s.queue + ahead)[|s.queue + ahead| - 1]
  {
    assert s.queue[1..] + ahead == (s.queue + ahead)[1..];
  }

  lemma TransactionOn(c: Session, s: State, rs: seq<Rect>)
    requires c.Valid() && Inv(c, s) && RecordOk(c, s) && Underway(c, s, rs) && |Todo(c, s)| == 1 && s.queue != []
    ensures s.compositor.fb.Valid()
    ensures var t := ComposeOne(s, C.NO_FAULT); Answered(t) && t.host == s.host
  {
    AwaitedIsPaintable(c, s, rs);
    assert s.queue[0] == Todo(c, s)[0];
    TransactionAnswers(s.compositor, s.queue[0], C.NO_FAULT);
  }

  lemma ReadStep(c: Session, past: seq<Event>, rs: seq<Rect>)
    requires c.Valid() && Underway(c, Run(c, past), rs) && Run(c, past).queue == []
    ensures var s, t := Run(c, past), Run(c, past + [Read]);
            s.channel != [] && Underway(c, t, rs) && t.channel == s.channel[1..] && t.host == s.host
  {
    ReadOn(c, Run(c, past), rs);
    I.Step(c, past, Read);
  }

  lemma CancelStep(c: Session, past: seq<Event>, rs: seq<Rect>)
    requires c.Valid() && Underway(c, Run(c, past), rs) && Run(c, past).queue != [] && |Todo(c, Run(c, past))| > 1
    ensures var s, t := Run(c, past), Run(c, past + [Compose(C.NO_FAULT)]);
            Underway(c, t, rs) && t.channel == s.channel && |t.queue| < |s.queue| && t.host == s.host
  {
    E.RunInv(c, past);
    CancelOn(c, Run(c, past), rs);
    I.Step(c, past, Compose(C.NO_FAULT));
    P.ComposeNext(c, Run(c, past), C.NO_FAULT);
  }

  lemma TransactionStep(c: Session, past: seq<Event>, rs: seq<Rect>)
    requires c.Valid() && Underway(c, Run(c, past), rs) && Run(c, past).queue != [] && |Todo(c, Run(c, past))| == 1
    ensures var s, t := Run(c, past), Run(c, past + [Compose(C.NO_FAULT)]); Answered(t) && t.host == s.host
  {
    E.RunInv(c, past);
    RunRecord(c, past);
    TransactionOn(c, Run(c, past), rs);
    I.Step(c, past, Compose(C.NO_FAULT));
    P.ComposeNext(c, Run(c, past), C.NO_FAULT);
  }

  /** Reading and executing what is left ends with the acknowledgement. */
  lemma {:induction false} Answers(c: Session, past: seq<Event>, rs: seq<Rect>) returns (after: seq<Event>)
    requires c.Valid() && Underway(c, Run(c, past), rs)
    ensures I.Elsewhere(past, after) && Answered(Run(c, after)) && Run(c, after).host == Run(c, past).host
    decreases |Run(c, past).channel|, |Run(c, past).queue|
  {
    var s := Run(c, past);
    if s.queue == [] {
      ReadStep(c, past, rs);
      after := Answers(c, past + [Read], rs);
    } else if |Todo(c, s)| > 1 {
      CancelStep(c, past, rs);
      after := Answers(c, past + [Compose(C.NO_FAULT)], rs);
    } else {
      TransactionStep(c, past, rs);
      after := past + [Compose(C.NO_FAULT)];
    }
  }

  /** Every acknowledgement arrives; the last one stays in the mailbox. */
  lemma {:induction false} Arrives(c: Session, past: seq<Event>) returns (after: seq<Event>)
    requires c.Valid() && Run(c, past).acks != []
    ensures I.Elsewhere(past, after)
    ensures var s := Run(c, past);
            Run(c, after) == s.(host := s.host.(mailbox := Some(s.acks[|s.acks| - 1])), acks := [])
    decreases |Run(c, past).acks|
  {
    var s := Run(c, past);
    after := past + [AckArrives];
    ArriveStep(c, past);
    if |s.acks| == 1 {
    } else {
      after := Arrives(c, after);
    }
  }

  lemma ArriveStep(c: Session, past: seq<Event>)
    requires c.Valid() && Run(c, past).acks != []
    ensures var s := Run(c, past);
            && Run(c, past + [AckArrives]) == s.(host := s.host.(mailbox := Some(s.acks[0])), acks := s.acks[1..])
            && (|s.acks| > 1 ==> s.acks[1..][|s.acks| - 2] == s.acks[|s.acks| - 1])
  {
    I.Step(c, past, AckArrives);
    P.ArrivesNext(c, Run(c, past));
  }

  /** The state after a candidate has been sent. */
  lemma SentUnderway(c: Session, s: State, rs: seq<Rect>)
    requires c.Valid() && Inv(c, s) && !s.stalled && !s.ended && Enabled(c, s, Event.SendRects(rs)) && DigestFits(rs)
    ensures var t := Next(c, s, Event.SendRects(rs)); var target := s.host.analyzer.latest.value;
            && Underway(c, t, rs) && t.host.rectTarget == target.frame && t.host.rectEpoch == t.host.epoch
            && t.host.analyzer.pending == Some(target) && t.host.analyzer.latest == s.host.analyzer.latest
  {
    A.InvEnd(c, s);
    var turn, ahead := H.SendRects(c, s.host, rs), Ahead(c, s);
    E.RectsRead(c, ViewOf(s), ahead.reader, rs);
    T.TurnAhead(c, s, turn, R.ReadAll(c, ahead.reader, turn.sent));
    E.ExactCollects(c, ViewOf(s), ahead.reader, rs);
    SentTodo(c, s, rs, turn);
  }

  lemma SentTodo(c: Session, s: State, rs: seq<Rect>, turn: H.Turn)
    requires c.Valid() && !s.stalled && !s.ended && Enabled(c, s, Event.SendRects(rs)) && DigestFits(rs)
    requires turn == H.SendRects(c, s.host, rs) && s.host.rectEpoch == s.host.epoch
    requires var tx := E.TransactionOf(s.host, s.host.analyzer.latest.value.frame, rs);
             Ahead(c, Take(s, turn)).commands == Ahead(c, s).commands + [tx]
    ensures var t := Next(c, s, Event.SendRects(rs)); var target := s.host.analyzer.latest.value;
            && Underway(c, t, rs) && t.host.rectTarget == target.frame && t.host.rectEpoch == t.host.epoch
            && t.host.analyzer.pending == Some(target) && t.host.analyzer.latest == s.host.analyzer.latest
  {
    assert Next(c, s, Event.SendRects(rs)) == Take(s, turn);
  }

  /** Taking the awaited acknowledgement makes the target exact. */
  lemma Promotes(c: Session, past: seq<Event>, target: H.Source)
    requires c.Valid()
    requires var s := Run(c, past);
             && s.host.mode == H.AwaitingRectAck && !s.host.halted && s.host.analyzer.pending == Some(target)
             && s.host.rectEpoch == s.host.epoch && s.host.rectTarget == target.frame
             && s.host.mailbox == Some(Ack(s.host.rectEpoch, s.host.rectTarget, s.host.rectDigest))
    ensures var s, t := Run(c, past), Run(c, past + [TakeAck]);
            && HoldsExactly(t, target) && t.host.analyzer.latest == s.host.analyzer.latest &&
            t.host.halted == s.host.halted
            && t.stalled == s.stalled && t.ended == s.ended
  {
    I.Step(c, past, TakeAck);
    Runs.PromotionIsShown(c, past);
    E.RunInv(c, past);
    Runs.CurrentAckMatches(c, Run(c, past));
    TargetPromoted(c, Run(c, past).host, target);
  }

  lemma TargetPromoted(c: Session, h: H.Host, target: H.Source)
    requires h.mode == H.AwaitingRectAck && h.analyzer.pending == Some(target) && h.mailbox.Some?
    requires h.rectTarget == target.frame != 0 && H.Matches(h.mailbox.value, h.rectEpoch, h.rectTarget, h.rectDigest)
    ensures var t := H.TakeAck(c, h).host;
            && t.analyzer == H.Analyzer(h.analyzer.latest, Some(target), None) && t.halted == h.halted
  {
  }

  /** A frame is exact on both sides. */
  ghost predicate HoldsExactly(s: State, frame: H.Source) {
    && s.host.mode == H.ExactMode && s.host.exactFrame == frame.frame && s.host.analyzer.canonical == Some(frame)
    && Runs.InAgreement(s, frame.frame, frame.pixels)
  }

  /** What the host has sent and waits for. */
  predicate Awaits(h: H.Host, target: H.Source) {
    h.analyzer.pending == Some(target) && h.rectTarget == target.frame && h.rectEpoch == h.epoch
  }

  lemma AnswerPromotes(c: Session, past: seq<Event>, target: H.Source) returns (after: seq<Event>)
    requires c.Valid() && Answered(Run(c, past)) && Awaits(Run(c, past).host, target)
    ensures past <= after
    ensures var s, t := Run(c, past), Run(c, after);
            HoldsExactly(t, target) && t.host.analyzer.latest == s.host.analyzer.latest &&
            !t.host.halted && !t.stalled && !t.ended
  {
    after := Arrives(c, past);
    Promotes(c, after, target);
    after := after + [TakeAck];
  }

  /** From the transaction on the wire to the exact frame. */
  lemma UnderwayBecomesExact(c: Session, past: seq<Event>, rs: seq<Rect>, target: H.Source) returns (after: seq<Event>)
    requires c.Valid() && Underway(c, Run(c, past), rs) && Awaits(Run(c, past).host, target)
    ensures past <= after
    ensures var s, t := Run(c, past), Run(c, after);
            HoldsExactly(t, target) && t.host.analyzer.latest == s.host.analyzer.latest &&
            !t.host.halted && !t.stalled && !t.ended
  {
    var answered := Answers(c, past, rs);
    after := AnswerPromotes(c, answered, target);
  }

  /**
   From any reachable exact state with a working viewer, any candidate whose digest fits becomes exact:
   some run sends it, and ends with the latest frame canonical on the host and on the screen.
   */
  lemma EveryUpdateBecomesExact(c: Session, past: seq<Event>, rs: seq<Rect>) returns (after: seq<Event>)
    requires c.Valid() && !Run(c, past).stalled && !Run(c, past).ended
    requires Enabled(c, Run(c, past), Event.SendRects(rs)) && DigestFits(rs)
    ensures past + [Event.SendRects(rs)] <= after
    ensures var s, t := Run(c, past), Run(c, after);
            && HoldsExactly(t, s.host.analyzer.latest.value) && t.host.analyzer.latest == s.host.analyzer.latest
            && !t.host.halted && !t.stalled && !t.ended
  {
    E.RunInv(c, past);
    I.Step(c, past, Event.SendRects(rs));
    SentUnderway(c, Run(c, past), rs);
    after := UnderwayBecomesExact(c, past + [Event.SendRects(rs)], rs, Run(c, past).host.analyzer.latest.value);
  }

  // ---------------------------------------------------------------------------- films

  /** An image and the rectangles that make it out of the one before. */
  datatype Change = Change(image: seq<Byte>, rects: seq<Rect>)

  /** Every change is a legal candidate on the image before it, and its digest fits. */
  ghost predicate Playable(c: Session, image: seq<Byte>, changes: seq<Change>)
    decreases |changes|
  {
    changes == [] ||
    (&& |changes[0].image| == c.surface.Size() && DigestFits(changes[0].rects)
     && H.Candidate(c, image, changes[0].image, changes[0].rects)
     && Playable(c, changes[0].image, changes[1..]))
  }

  /** An exact frame that is the latest one, and a viewer that works. */
  ghost predicate Settled(s: State, frame: H.Source) {
    && HoldsExactly(s, frame) && s.host.analyzer.latest == Some(frame)
    && !s.host.halted && !s.stalled && !s.ended
  }

  lemma CaptureReady(c: Session, s: State, frame: H.Source, change: Change)
    requires c.Valid() && c.rawRect && Inv(c, s) && Settled(s, frame) && |change.image| == c.surface.Size()
    requires H.Candidate(c, frame.pixels, change.image, change.rects)
    ensures var t := Next(c, s, Capture(frame.frame + 1, true, change.image));
            && Enabled(c, t, Event.SendRects(change.rects)) && !t.stalled && !t.ended
            && t.host.analyzer.latest == Some(H.Source(frame.frame + 1, frame.frame + 1, change.image))
  {
    A.InvEnd(c, s);
  }

  lemma ChangeBecomesExact(c: Session, past: seq<Event>, frame: H.Source, change: Change) returns (after: seq<Event>)
    requires c.Valid() && c.rawRect && Settled(Run(c, past), frame) && |change.image| == c.surface.Size()
    requires H.Candidate(c, frame.pixels, change.image, change.rects) && DigestFits(change.rects)
    ensures past <= after && Settled(Run(c, after), H.Source(frame.frame + 1, frame.frame + 1, change.image))
  {
    var n := frame.frame + 1;
    E.RunInv(c, past);
    CaptureReady(c, Run(c, past), frame, change);
    I.Step(c, past, Capture(n, true, change.image));
    after := EveryUpdateBecomesExact(c, past + [Capture(n, true, change.image)], change.rects);
  }

  /** From an exact frame every playable sequence of changes is shown exactly, change by change. */
  lemma {:induction false} EveryFilmBecomesExact(c: Session, past: seq<Event>, frame: H.Source, changes: seq<Change>)
    returns (after: seq<Event>, last: H.Source)
    requires c.Valid() && c.rawRect && Settled(Run(c, past), frame) && Playable(c, frame.pixels, changes)
    ensures past <= after
    ensures Settled(Run(c, after), last)
    ensures last.pixels == if changes == [] then frame.pixels else changes[|changes| - 1].image
    decreases |changes|
  {
    if changes == [] {
      after, last := past, frame;
    } else {
      var n, change := frame.frame + 1, changes[0];
      after := ChangeBecomesExact(c, past, frame, change);
      after, last := EveryFilmBecomesExact(c, after, H.Source(n, n, change.image), changes[1..]);
      assert changes[1..] != [] ==> changes[1..][|changes[1..]| - 1] == changes[|changes| - 1];
    }
  }
}
