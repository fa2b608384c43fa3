/**
 Where the host's main loop gets by its own choices, with the other threads at work between its
 iterations: a frame becomes exact, changes of it follow one by one, and video is shown.
 */
module LoopProgress {
  import opened Options
  import opened Pixels
  import opened Wire
  import opened Canonical
  import H = Host
  import R = Reader
  import C = Compositor
  import opened System
  import opened Iterations
  import E = ExactSteps
  import P = Progress
  import Runs
  import U = Updates

  // ---------------------------------------------------------- iterations and other threads

  datatype Act = Iteration(inputs: Inputs) | Other(ev: Event)

  /** The loop goes on by an iteration, and finds what other threads have done in between. */
  ghost function Continued(c: Session, course: Course, a: Act): Course
    requires c.Valid()
  {
    match a
    case Iteration(inputs) =>
      if Run(c, course.past).host.halted then course else Turned(c, course.past, course.pace, inputs)
    case Other(ev) => if OfOthers(ev) then course.(past := course.past + [ev]) else course
  }

  ghost function Acted(c: Session, acts: seq<Act>): Course
    requires c.Valid()
  {
    if acts == [] then Course([], FRESH_PACE) else Continued(c, Acted(c, acts[..|acts| - 1]), acts[|acts| - 1])
  }

  /** The state the loop and the others have brought about. */
  ghost function Reached(c: Session, acts: seq<Act>): State
    requires c.Valid()
  {
    Run(c, Acted(c, acts).past)
  }

  lemma ActsMore(c: Session, acts: seq<Act>, a: Act)
    requires c.Valid()
    ensures Acted(c, acts + [a]) == Continued(c, Acted(c, acts), a)
  {
    assert (acts + [a])[..|acts|] == acts;
  }

  lemma NextElsewhere(past: seq<Event>, after: seq<Event>)
    requires Elsewhere(past, after) && after != past
    ensures |past| < |after| && OfOthers(after[|past|]) && Elsewhere(past + [after[|past|]], after)
  {
  }

  /** What the other threads do, taken into the course. */
  lemma {:induction false} OthersAct(c: Session, acts: seq<Act>, after: seq<Event>) returns (more: seq<Act>)
    requires c.Valid() && Elsewhere(Acted(c, acts).past, after)
    ensures acts <= more && Acted(c, more) == Acted(c, acts).(past := after)
    decreases |after| - |Acted(c, acts).past|
  {
    var past := Acted(c, acts).past;
    if after == past {
      more := acts;
    } else {
      NextElsewhere(past, after);
      ActsMore(c, acts, Other(after[|past|]));
      more := OthersAct(c, acts + [Other(after[|past|])], after);
    }
  }

  /** An iteration without requests and cursors. */
  function Plain(clock: Clock, select: Selector): Inputs { Inputs(false, clock, select, false, false) }

  /** An iteration of which only the turn of the mode and the encoder's stage matter. */
  lemma PlainRepresented(c: Session, mailed: Course, clock: Clock, select: Selector)
    requires c.Valid()
    ensures var h, inputs := Run(c, mailed.past).host, Plain(clock, select);
            var turn := ModeTurn(c, h, inputs, mailed.pace); var turned := Run(c, mailed.past + turn).host;
            !(h.mode == H.Sending && turn == [Resume]) && !turned.halted ==>
              Represented(c, mailed, inputs) ==
              Course(mailed.past + turn + LastTurn(c, turned), PaceAfter(c, h, mailed.pace, turn))
  {
    var turn := ModeTurn(c, Run(c, mailed.past).host, Plain(clock, select), mailed.pace);
    assert mailed.past + turn + [] + [] == mailed.past + turn;
  }

  lemma PlainTurn(c: Session, past: seq<Event>, pace: Pace, clock: Clock, select: Selector)
    requires c.Valid() && Run(c, past).host.mailbox.None?
    ensures var h, inputs := Run(c, past).host, Plain(clock, select);
            var turn := ModeTurn(c, h, inputs, pace); var turned := Run(c, past + turn).host;
            !(h.mode == H.Sending && turn == [Resume]) && !turned.halted ==>
              Turned(c, past, pace, inputs) == Course(past + turn + LastTurn(c, turned), PaceAfter(c, h, pace, turn))
  {
    assert past + [] == past;
    PlainRepresented(c, Course(past, pace), clock, select);
  }

  // ------------------------------------------------------------------------ the first frame

  const QUIET := Clock(false, false, true, true)
  const WAITING := Clock(false, false, true, false)

  /** The iteration that stops video and reads the frame back at once. */
  lemma OpeningTurn(c: Session, p: seq<Byte>, select: Selector)
    requires c.Valid() && |p| == c.surface.Size()
    ensures Turned(c, [Capture(1, true, p)], FRESH_PACE, Plain(QUIET, select)) == Course(P.Opening(p), FRESH_PACE)
  {
    var captured, quieted := [Capture(1, true, p)], [Capture(1, true, p), EnterQuiescing];
    P.CaptureFirst(c, p);
    P.QuietRun(c, p);
    assert captured + [EnterQuiescing] == quieted && quieted + [TakeSnapshot] == P.Opening(p);
    PlainTurn(c, captured, FRESH_PACE, QUIET, select);
  }

  lemma LoopOpens(c: Session, p: seq<Byte>, select: Selector) returns (acts: seq<Act>)
    requires c.Valid() && |p| == c.surface.Size()
    ensures Acted(c, acts) == Course(P.Opening(p), FRESH_PACE)
  {
    var ev := Capture(1, true, p);
    ActsMore(c, [], Other(ev));
    assert [] + [ev] == [ev];
    P.CaptureFirst(c, p);
    OpeningTurn(c, p, select);
    acts := [] + [Other(ev)] + [Iteration(Plain(QUIET, select))];
    ActsMore(c, [] + [Other(ev)], Iteration(Plain(QUIET, select)));
  }

  /** What the loop finds to do while a snapshot is being sent, and afterwards. */
  lemma DrainChosen(c: Session, h: H.Host, p: seq<Byte>, pace: Pace, select: Selector)
    requires P.Sends(h, p) && h.mode == H.Sending && h.draining == Some(H.Source(1, 1, p))
    ensures ModeTurn(c, h, Plain(WAITING, select), pace) == [Event.Drain]
    ensures PaceAfter(c, h, pace, [Event.Drain]) == pace
  {
  }

  lemma BurstLeaves(c: Session, h: H.Host, p: seq<Byte>, rs: seq<H.Range>)
    requires h.mode == H.Sending && !h.halted && h.encoder.queue == [] && forall r <- rs :: r.offset + r.size <= |p|
    ensures var t := H.BurstTurn(c, h, H.Source(1, 1, p), rs).host;
            !t.halted && LastTurn(c, t) == [] && t.encoder.queue == []
  {
  }

  /** An iteration while a snapshot is being sent is a burst. */
  lemma LoopBursts(c: Session, course: Course, p: seq<Byte>, select: Selector) returns (rs: seq<H.Range>)
    requires c.Valid() && P.Draining(c, Run(c, course.past), p) && Run(c, course.past).host.encoder.queue == []
    ensures P.Readable(rs, Run(c, course.past).host.drained, |p|, c.surface.Stride())
    ensures var s, next := Run(c, course.past), Turned(c, course.past, course.pace, Plain(WAITING, select));
            var t, end := Run(c, next.past), H.End(rs, s.host.drained);
            && s.host.drained < end <= |p| && next.pace == course.pace && t.host.encoder.queue == []
            && if end == |p| then P.Sent(c, t, p) else P.Draining(c, t, p) && t.host.drained == end
  {
    rs := P.DrainTurn(c, Run(c, course.past), p);
    Step(c, course.past, Event.Drain);
    BurstCourse(c, course, p, rs, select);
    BurstReached(c, course.past, p, rs);
  }

  lemma BurstCourse(c: Session, course: Course, p: seq<Byte>, rs: seq<H.Range>, select: Selector)
    requires c.Valid() && P.Draining(c, Run(c, course.past), p) && Run(c, course.past).host.encoder.queue == []
    requires forall r <- rs :: r.offset + r.size <= |p|
    requires Run(c, course.past + [Event.Drain]).host ==
             H.BurstTurn(c, Run(c, course.past).host, H.Source(1, 1, p), rs).host
    ensures Turned(c, course.past, course.pace, Plain(WAITING, select)) ==
            Course(course.past + [Event.Drain], course.pace)
    ensures Run(c, course.past + [Event.Drain]).host.encoder.queue == []
  {
    var past := course.past + [Event.Drain];
    DrainChosen(c, Run(c, course.past).host, p, course.pace, select);
    BurstLeaves(c, Run(c, course.past).host, p, rs);
    PlainTurn(c, course.past, course.pace, WAITING, select);
    assert past + [] == past;
  }

  lemma BurstReached(c: Session, past: seq<Event>, p: seq<Byte>, rs: seq<H.Range>)
    requires c.Valid() && P.Draining(c, Run(c, past), p)
    requires P.Readable(rs, Run(c, past).host.drained, |p|, c.surface.Stride())
    requires rs == E.NextBurst(c, Run(c, past).host) && forall r <- rs :: r.offset + r.size <= |p|
    requires Run(c, past + [Event.Drain]) ==
             Take(Run(c, past), H.BurstTurn(c, Run(c, past).host, H.Source(1, 1, p), rs))
    requires var end := H.End(rs, Run(c, past).host.drained);
             Run(c, past).host.drained < end <= |p| && P.Whole(end, c.surface.Stride())
    ensures var t, end := Run(c, past + [Event.Drain]), H.End(rs, Run(c, past).host.drained);
            if end == |p| then P.Sent(c, t, p) else P.Draining(c, t, p) && t.host.drained == end
  {
    var s := Run(c, past);
    E.RunInv(c, past);
    if H.End(rs, s.host.drained) == |p| {
      P.DrainWhole(c, s, p, rs, Run(c, past + [Event.Drain]));
    } else {
      P.DrainPart(c, s, p, rs, Run(c, past + [Event.Drain]));
    }
  }

  /** Iterations alone bring a snapshot onto the wire. */
  lemma {:induction false} LoopDrains(c: Session, acts: seq<Act>, p: seq<Byte>, select: Selector)
    returns (more: seq<Act>)
    requires c.Valid() && P.Draining(c, Reached(c, acts), p) && Reached(c, acts).host.encoder.queue == []
    ensures acts <= more && P.Sent(c, Reached(c, more), p) && Reached(c, more).host.encoder.queue == []
    ensures Acted(c, more).pace == Acted(c, acts).pace
    decreases |p| - Reached(c, acts).host.drained
  {
    more := acts + [Iteration(Plain(WAITING, select))];
    ActsMore(c, acts, Iteration(Plain(WAITING, select)));
    var rs := LoopBursts(c, Acted(c, acts), p, select);
    if H.End(rs, Reached(c, acts).host.drained) < |p| {
      more := LoopDrains(c, more, p, select);
    }
  }

  /** An exact host whose canonical frame is the latest has nothing to do. */
  lemma ExactIdles(c: Session, h: H.Host, pace: Pace, select: Selector)
    requires h.mode == H.ExactMode && h.analyzer.latest == h.analyzer.canonical
    ensures ModeTurn(c, h, Plain(WAITING, select), pace) == [] && PaceAfter(c, h, pace, []) == pace
  {
  }

  /** The iteration that takes the snapshot's acknowledgement. */
  lemma LoopPromotes(c: Session, course: Course, p: seq<Byte>, select: Selector)
    requires c.Valid() && course.pace == FRESH_PACE
    requires var h := Run(c, course.past).host;
             && P.Sends(h, p) && h.mode == H.AwaitingAck && !h.halted && h.mailbox == Some(Ack(2, 1, OfImage(p)))
             && h.encoder.queue == []
    ensures Turned(c, course.past, course.pace, Plain(WAITING, select)) ==
            Course(course.past + [TakeAck], FRESH_PACE)
  {
    var taken := course.past + [TakeAck];
    P.TakesAck(c, course.past, p);
    TakenQueue(c, course.past);
    ExactIdles(c, Run(c, taken).host, FRESH_PACE, select);
    PlainRepresented(c, Course(taken, FRESH_PACE), WAITING, select);
    assert course.past + [] == course.past && taken + [] == taken;
  }

  lemma PromotedQueue(c: Session, h: H.Host)
    requires h.encoder.queue == []
    ensures H.Resume(c, h).host.encoder.queue == []
    ensures H.PromoteSnapshot(c, h).host.encoder.queue == [] && H.PromoteRects(c, h).host.encoder.queue == []
  {
  }

  /** Taking mail leaves an empty encoder empty. */
  lemma TakenQueue(c: Session, past: seq<Event>)
    requires c.Valid() && Enabled(c, Run(c, past), TakeAck) && Run(c, past).host.encoder.queue == []
    ensures Run(c, past + [TakeAck]).host.encoder.queue == []
  {
    var h := Run(c, past).host;
    Step(c, past, TakeAck);
    PromotedQueue(c, h.(mailbox := None));
    Runs.TakeAckBranches(c, h, h.(mailbox := None));
  }

  /** The loop brings a frame onto the wire, and its acknowledgement comes back. */
  lemma LoopAsks(c: Session, p: seq<Byte>, select: Selector) returns (acts: seq<Act>)
    requires c.Valid() && |p| == c.surface.Size()
    ensures Acted(c, acts).pace == FRESH_PACE && P.Acknowledged(Reached(c, acts), p)
    ensures Reached(c, acts).host.encoder.queue == [] && !Reached(c, acts).stalled && !Reached(c, acts).ended
  {
    acts := LoopOpens(c, p, select);
    P.OpeningDrains(c, p);
    OpeningQueue(c, p);
    acts := LoopDrains(c, acts, p, select);
    P.SentWaits(c, Reached(c, acts), p);
    var past := P.Acknowledges(c, Acted(c, acts).past, p);
    acts := OthersAct(c, acts, past);
  }

  /** Every image of every session becomes exact by the loop's own choices, once the screen is quiet. */
  lemma LoopMakesExact(c: Session, p: seq<Byte>, select: Selector) returns (acts: seq<Act>)
    requires c.Valid() && |p| == c.surface.Size()
    ensures P.Exact(Reached(c, acts), p) && Acted(c, acts).pace == FRESH_PACE
    ensures !Reached(c, acts).stalled && !Reached(c, acts).ended && Reached(c, acts).host.mailbox.None?
  {
    acts := LoopAsks(c, p, select);
    var past := Acted(c, acts).past;
    P.Arrives(c, past, p);
    ArrivalWorks(c, past);
    ActsMore(c, acts, Other(AckArrives));
    acts := acts + [Other(AckArrives)];
    LoopTakes(c, acts, p, select);
    acts := acts + [Iteration(Plain(WAITING, select))];
  }

  lemma LoopTakes(c: Session, acts: seq<Act>, p: seq<Byte>, select: Selector)
    requires c.Valid() && Acted(c, acts).pace == FRESH_PACE
    requires var h := Reached(c, acts).host;
             && P.Sends(h, p) && h.mode == H.AwaitingAck && !h.halted && h.mailbox == Some(Ack(2, 1, OfImage(p)))
             && h.encoder.queue == []
    ensures var s, more := Reached(c, acts), acts + [Iteration(Plain(WAITING, select))];
            && P.Exact(Reached(c, more), p) && Acted(c, more).pace == FRESH_PACE
            && Reached(c, more).stalled == s.stalled && Reached(c, more).ended == s.ended
            && Reached(c, more).host.mailbox.None?
  {
    var past := Acted(c, acts).past;
    ActsMore(c, acts, Iteration(Plain(WAITING, select)));
    LoopPromotes(c, Acted(c, acts), p, select);
    P.TakesAck(c, past, p);
    MailTaken(c, past);
  }

  lemma MailTaken(c: Session, past: seq<Event>)
    requires c.Valid() && Enabled(c, Run(c, past), TakeAck)
    ensures var s, t := Run(c, past), Run(c, past + [TakeAck]);
            t.stalled == s.stalled && t.ended == s.ended && t.host.mailbox.None?
  {
    Step(c, past, TakeAck);
    Runs.TakeAckEmpties(c, Run(c, past).host);
  }

  lemma OpeningQueue(c: Session, p: seq<Byte>)
    requires c.Valid() && |p| == c.surface.Size()
    ensures Run(c, P.Opening(p)).host.encoder.queue == []
  {
    var quieted := [Capture(1, true, p), EnterQuiescing];
    P.QuietRun(c, p);
    Step(c, quieted, TakeSnapshot);
    assert quieted + [TakeSnapshot] == P.Opening(p);
  }

  lemma ArrivalWorks(c: Session, past: seq<Event>)
    requires c.Valid() && Run(c, past).acks != []
    ensures var s, t := Run(c, past), Run(c, past + [AckArrives]);
            t.stalled == s.stalled && t.ended == s.ended && t.host.encoder == s.host.encoder
  {
    Step(c, past, AckArrives);
    P.ArrivesNext(c, Run(c, past));
  }

  // ---------------------------------------------------------------------------- updates

  lemma StaleUnit(c: Session, s: State)
    requires c.Valid() && Enabled(c, s, WriteVideo) && s.host.encoder.queue[0].epoch != s.host.epoch
    ensures var t := Next(c, s, WriteVideo); t == s.(host := s.host.(encoder := t.host.encoder))
  {
    assert s.channel + [] == s.channel;
  }

  /** The encoder's stage drops at most a unit that is over, while the exact path is held. */
  lemma LastDrops(c: Session, past: seq<Event>)
    requires c.Valid() && !Run(c, past).host.halted && Run(c, past).host.mode in {H.ExactMode, H.AwaitingRectAck}
    ensures var s := Run(c, past); var t := Run(c, past + LastTurn(c, s.host));
            t == s.(host := s.host.(encoder := t.host.encoder))
  {
    var s := Run(c, past);
    assert past + [] == past;
    RunReady(c, past);
    if LastTurn(c, s.host) == [WriteVideo] {
      assert s.host.encoder.queue[0] in s.host.encoder.queue;
      StaleUnit(c, s);
      Step(c, past, WriteVideo);
    }
  }

  /** What an exact host finds in its mailbox changes nothing. */
  lemma StaleTaken(c: Session, past: seq<Event>)
    requires c.Valid() && Enabled(c, Run(c, past), TakeAck) && Run(c, past).host.mode == H.ExactMode
    ensures var s := Run(c, past); Run(c, past + [TakeAck]) == s.(host := s.host.(mailbox := None))
  {
    E.RunInv(c, past);
    Runs.CurrentAckMatches(c, Run(c, past));
    Runs.PromotionIsShown(c, past);
    Step(c, past, TakeAck);
  }

  lemma StaleMail(c: Session, past: seq<Event>, pace: Pace, inputs: Inputs)
    requires c.Valid() && !Run(c, past).host.halted && Run(c, past).host.mode == H.ExactMode && !inputs.recovery
    ensures var s, mailed := Run(c, past), Mailed(c, past, pace, inputs);
            Run(c, mailed.past) == s.(host := s.host.(mailbox := None)) && mailed.pace == pace
  {
    assert past + [] == past;
    if Run(c, past).host.mailbox.Some? {
      StaleTaken(c, past);
    }
  }

  /** An exact frame, a working viewer, and newer content for which a transaction is selected. */
  ghost predicate Outdated(s: State, pace: Pace, frame: H.Source, select: Selector, rs: seq<Rect>) {
    && U.HoldsExactly(s, frame) && !s.host.halted && !s.stalled && !s.ended
    && Newer(s.host, Some(frame), pace.evaluated)
    && select(frame.pixels, s.host.analyzer.latest.value.pixels) == Selected(rs) && DigestFits(rs)
  }

  /** The iteration that finds new content sends it. */
  lemma LoopSends(c: Session, course: Course, frame: H.Source, select: Selector, rs: seq<Rect>)
    requires c.Valid() && c.rawRect && Sound(c, select) && Outdated(Run(c, course.past), course.pace, frame, select, rs)
    ensures var s := Run(c, course.past); var target := s.host.analyzer.latest.value;
            var t := Run(c, Turned(c, course.past, course.pace, Plain(WAITING, select)).past);
            && U.Underway(c, t, rs) && U.Awaits(t.host, target) && t.host.analyzer.latest == Some(target)
  {
    var inputs := Plain(WAITING, select);
    var mailed := Mailed(c, course.past, course.pace, inputs);
    StaleMail(c, course.past, course.pace, inputs);
    RunReady(c, mailed.past);
    EvaluateSelects(c, Run(c, mailed.past).host, select, mailed.pace.evaluated);
    SelectionEnabled(c, mailed.past, inputs, mailed.pace, rs);
    E.RunInv(c, mailed.past);
    U.SentUnderway(c, Run(c, mailed.past), rs);
    Step(c, mailed.past, Event.SendRects(rs));
    PlainRepresented(c, mailed, WAITING, select);
    LastDrops(c, mailed.past + [Event.SendRects(rs)]);
    UnderwayStays(c, Run(c, mailed.past + [Event.SendRects(rs)]),
                  Run(c, Turned(c, course.past, course.pace, inputs).past), rs);
  }

  lemma UnderwayStays(c: Session, s: State, t: State, rs: seq<Rect>)
    requires U.Underway(c, s, rs) && t == s.(host := s.host.(encoder := t.host.encoder))
    ensures U.Underway(c, t, rs)
  {
    assert U.Todo(c, t) == U.Todo(c, s);
  }

  /** The iteration that takes the transaction's acknowledgement. */
  lemma LoopConfirms(c: Session, course: Course, target: H.Source, select: Selector)
    requires c.Valid()
    requires var s := Run(c, course.past);
             && s.host.mode == H.AwaitingRectAck && !s.host.halted && U.Awaits(s.host, target)
             && s.host.analyzer.latest == Some(target) && !s.stalled && !s.ended
             && s.host.mailbox == Some(Ack(s.host.rectEpoch, s.host.rectTarget, s.host.rectDigest))
    ensures var next := Turned(c, course.past, course.pace, Plain(WAITING, select)); var t := Run(c, next.past);
            && U.Settled(t, target) && next.pace == FRESH_PACE
  {
    var taken := course.past + [TakeAck];
    assert course.past + [] == course.past && taken + [] == taken;
    U.Promotes(c, course.past, target);
    MailTaken(c, course.past);
    PlainRepresented(c, Course(taken, FRESH_PACE), WAITING, select);
    LastDrops(c, taken);
  }

  /** The viewer answers, and the answer arrives. */
  lemma LoopHears(c: Session, acts: seq<Act>, rs: seq<Rect>) returns (more: seq<Act>)
    requires c.Valid() && U.Underway(c, Reached(c, acts), rs)
    ensures acts <= more && Acted(c, more).pace == Acted(c, acts).pace
    ensures var h, t := Reached(c, acts).host, Reached(c, more);
            && t.host == h.(mailbox := Some(Ack(h.rectEpoch, h.rectTarget, h.rectDigest)))
            && t.host.mode == H.AwaitingRectAck && !t.host.halted && !t.stalled && !t.ended
  {
    var past := U.Answers(c, Acted(c, acts).past, rs);
    more := OthersAct(c, acts, past);
    past := U.Arrives(c, past);
    more := OthersAct(c, more, past);
  }

  /**
   From any exact state the loop has brought about, newer content for which a transaction is selected becomes
   exact by the loop's own next two iterations, with the viewer at work in between.
   */
  lemma LoopUpdates(c: Session, acts: seq<Act>, frame: H.Source, select: Selector, rs: seq<Rect>)
    returns (more: seq<Act>)
    requires c.Valid() && c.rawRect && Sound(c, select)
    requires Outdated(Reached(c, acts), Acted(c, acts).pace, frame, select, rs)
    ensures acts <= more && Acted(c, more).pace == FRESH_PACE
    ensures U.Settled(Reached(c, more), Reached(c, acts).host.analyzer.latest.value)
  {
    var target, turn := Reached(c, acts).host.analyzer.latest.value, Iteration(Plain(WAITING, select));
    ActsMore(c, acts, turn);
    LoopSends(c, Acted(c, acts), frame, select, rs);
    more := LoopHears(c, acts + [turn], rs);
    ActsMore(c, more, turn);
    LoopConfirms(c, Acted(c, more), target, select);
    more := more + [turn];
  }

  // ------------------------------------------------------------------------------ films

  /** The selector finds the rectangles of every change. */
  ghost predicate Finds(select: Selector, image: seq<Byte>, changes: seq<U.Change>)
    decreases |changes|
  {
    changes == [] ||
    (select(image, changes[0].image) == Selected(changes[0].rects) && Finds(select, changes[0].image, changes[1..]))
  }

  /** Every change is playable, and the selector finds it. */
  ghost predicate Wanted(c: Session, image: seq<Byte>, changes: seq<U.Change>, select: Selector) {
    U.Playable(c, image, changes) && Finds(select, image, changes)
  }

  /** The image after the last change. */
  function Last(image: seq<Byte>, changes: seq<U.Change>): seq<Byte> {
    if changes == [] then image else changes[|changes| - 1].image
  }

  /** The loop has made a frame exact, and nothing newer is there. */
  ghost predicate Showing(c: Session, acts: seq<Act>, frame: H.Source)
    requires c.Valid()
  {
    && Acted(c, acts).pace == FRESH_PACE && U.Settled(Reached(c, acts), frame) && frame.content <= frame.frame
  }

  lemma LoopChanges(c: Session, acts: seq<Act>, frame: H.Source, change: U.Change, select: Selector)
    returns (more: seq<Act>)
    requires c.Valid() && c.rawRect && Sound(c, select) && Showing(c, acts, frame)
    requires |change.image| == c.surface.Size() && DigestFits(change.rects)
    requires select(frame.pixels, change.image) == Selected(change.rects)
    ensures acts <= more && Showing(c, more, H.Source(frame.frame + 1, frame.frame + 1, change.image))
  {
    var ev := Capture(frame.frame + 1, true, change.image);
    var past := Acted(c, acts).past;
    E.RunInv(c, past);
    U.CaptureReady(c, Run(c, past), frame, change);
    Step(c, past, ev);
    ActsMore(c, acts, Other(ev));
    CaptureOutdates(c, Run(c, past), frame, change, select);
    more := LoopUpdates(c, acts + [Other(ev)], frame, select, change.rects);
  }

  lemma CaptureOutdates(c: Session, s: State, frame: H.Source, change: U.Change, select: Selector)
    requires c.Valid() && U.Settled(s, frame) && frame.content <= frame.frame && |change.image| == c.surface.Size()
    requires select(frame.pixels, change.image) == Selected(change.rects) && DigestFits(change.rects)
    ensures var n := frame.frame + 1; var t := Next(c, s, Capture(n, true, change.image));
            && Outdated(t, FRESH_PACE, frame, select, change.rects)
            && t.host.analyzer.latest == Some(H.Source(n, n, change.image))
  {
  }

  lemma FirstChange(c: Session, image: seq<Byte>, changes: seq<U.Change>, select: Selector)
    requires changes != [] && Wanted(c, image, changes, select)
    ensures var first, rest := changes[0], changes[1..];
            && |first.image| == c.surface.Size() && DigestFits(first.rects)
            && select(image, first.image) == Selected(first.rects)
            && Wanted(c, first.image, rest, select) && Last(first.image, rest) == Last(image, changes)
  {
  }

  /** The loop shows every playable sequence of changes exactly, change by change. */
  lemma {:induction false} LoopPlays(c: Session, acts: seq<Act>, frame: H.Source, changes: seq<U.Change>,
                                     select: Selector) returns (more: seq<Act>, last: H.Source)
    requires c.Valid() && c.rawRect && Sound(c, select) && Showing(c, acts, frame)
    requires Wanted(c, frame.pixels, changes, select)
    ensures acts <= more && Showing(c, more, last) && last.pixels == Last(frame.pixels, changes)
    decreases |changes|
  {
    if changes == [] {
      more, last := acts, frame;
    } else {
      var n, change := frame.frame + 1, changes[0];
      FirstChange(c, frame.pixels, changes, select);
      more := LoopChanges(c, acts, frame, change, select);
      more, last := LoopPlays(c, more, H.Source(n, n, change.image), changes[1..], select);
    }
  }

  /**
   From the start of a session the loop makes any image exact and then shows every change of it, each as
   soon as it is captured.
   */
  lemma LoopShowsEveryFilm(c: Session, image: seq<Byte>, changes: seq<U.Change>, select: Selector)
    returns (acts: seq<Act>, last: H.Source)
    requires c.Valid() && c.rawRect && Sound(c, select) && |image| == c.surface.Size()
    requires Wanted(c, image, changes, select)
    ensures Showing(c, acts, last) && last.pixels == Last(image, changes)
  {
    acts := LoopMakesExact(c, image, select);
    Runs.ExactMeansShown(c, Acted(c, acts).past);
    acts, last := LoopPlays(c, acts, H.Source(1, 1, image), changes, select);
  }

  // ------------------------------------------------------------------------------ video

  const BUSY := Clock(false, false, false, false)

  /** Video under way, with nothing in the encoder; the first unit will be a key frame. */
  ghost predicate Filming(s: State, n: nat) {
    var h := s.host;
    && !h.halted && h.mode == H.VideoMode && h.epoch == 1 && h.submissions && h.mailbox.None? && !s.stalled && !s.ended
    && h.encoder.inFlight == [] && h.encoder.queue == [] && h.encoder.minimumEpoch <= 1 && (n == 0 ==> h.submitted == 0)
    && s.queue == []
  }

  /** The reader has taken the units of `n` frames, and the screen shows the last of them. */
  ghost predicate Following(s: State, n: nat, shown: seq<Byte>) {
    var r, v := s.reader, s.compositor;
    && r.status == R.Running && r.snapshot.None? && r.rects.None? && v.fb.Valid()
    && if n == 0 then r.pixels.None? && v == C.START
       else
         && r.pixels == Some(Video) && r.pixelEpoch == 1 && v.canonical.representation == Video
         && v.canonical.epoch == 1 && v.canonical.committedFrame == v.lastFrame == n
         && v.fb.initialized && v.fb.committed == shown
  }

  /** All of `n` video frames have been shown. */
  ghost predicate Streaming(s: State, n: nat, shown: seq<Byte>) {
    && Filming(s, n) && Following(s, n, shown) && s.channel == [] && s.decoder == []
    && s.reader.lastSequence == s.host.sequence
  }

  lemma StartStreams(c: Session)
    requires c.Valid() && !c.exactOnly
    ensures Streaming(Start(c), 0, [])
  {
  }

  /** One more frame is on the wire. */
  ghost predicate OnTheWire(s: State, n: nat, shown: seq<Byte>, p: seq<Byte>, key: bool) {
    && Filming(s, n + 1) && Following(s, n, shown) && s.decoder == [] && (n == 0 ==> key)
    && s.channel == [Message(s.reader.lastSequence + 1, 1, n + 1, AccessUnit(key, p))]
    && s.host.sequence == s.reader.lastSequence + 1
  }

  function Submitted(n: nat, p: seq<Byte>): Event { Submit(n + 1, p, false) }

  /** The frame is submitted and encoded. */
  lemma FrameEncoded(c: Session, s: State, n: nat, shown: seq<Byte>, p: seq<Byte>)
    requires c.Valid() && !c.exactOnly && Streaming(s, n, shown) && |p| == c.surface.Size()
    ensures var key := s.host.forceIdr || s.host.submitted == 0;
            var t := Next(c, Next(c, s, Submitted(n, p)), Encoded);
            && t.host.encoder.queue == [H.Unit(1, n + 1, key, p)]
            && t == s.(host := s.host.(encoder := s.host.encoder.(queue := t.host.encoder.queue), forceIdr := false,
                                       submitted := s.host.submitted + 1))
  {
  }

  lemma FrameWritten(c: Session, s: State, t: State, n: nat, shown: seq<Byte>, p: seq<Byte>, key: bool)
    requires c.Valid() && !c.exactOnly && Streaming(s, n, shown) && (n == 0 ==> key)
    requires t == s.(host := s.host.(encoder := s.host.encoder.(queue := [H.Unit(1, n + 1, key, p)]),
                                     forceIdr := false, submitted := s.host.submitted + 1))
    ensures OnTheWire(Next(c, t, WriteVideo), n, shown, p, key)
  {
  }

  /** The loop's iteration writes the unit. */
  lemma LoopWrites(c: Session, course: Course, select: Selector)
    requires c.Valid() && !c.exactOnly
    requires var h := Run(c, course.past).host;
             !h.halted && h.mode == H.VideoMode && h.mailbox.None? && h.encoder.queue != []
    ensures Turned(c, course.past, course.pace, Plain(BUSY, select)) ==
            Course(course.past + [WriteVideo], course.pace)
  {
    assert course.past + [] == course.past;
    PlainTurn(c, course.past, course.pace, BUSY, select);
  }

  lemma FrameRead(c: Session, s: State, n: nat, shown: seq<Byte>, p: seq<Byte>, key: bool)
    requires c.Valid() && !c.exactOnly && OnTheWire(s, n, shown, p, key)
    ensures var t := Next(c, Next(c, s, Read), Decoded(0));
            && t.slot == Some(VideoFrame(1, n + 1, key, p)) && t.host == s.host && t.compositor == s.compositor
            && t.channel == [] && t.decoder == [] && t.queue == [] && !t.stalled && !t.ended
            && t.reader.status == R.Running && t.reader.snapshot.None? && t.reader.rects.None?
            && t.reader.pixels == Some(Video) && t.reader.pixelEpoch == 1
            && t.reader.lastSequence == t.host.sequence
  {
  }

  lemma FrameShown(c: Session, s: State, n: nat, shown: seq<Byte>, p: seq<Byte>, key: bool)
    requires c.Valid() && |p| == c.surface.Size() && Filming(s, n + 1) && s.channel == [] && s.decoder == []
    requires s.slot == Some(VideoFrame(1, n + 1, key, p)) && (n == 0 ==> key)
    requires s.reader.status == R.Running && s.reader.snapshot.None? && s.reader.rects.None?
    requires s.reader.pixels == Some(Video) && s.reader.pixelEpoch == 1 && s.reader.lastSequence == s.host.sequence
    requires s.compositor.fb.Valid()
    requires var v := s.compositor;
             if n == 0 then v == C.START
             else
               && v.canonical.representation == Video && v.canonical.epoch == 1
               && v.canonical.committedFrame == v.lastFrame == n
    ensures Streaming(Next(c, s, Show(C.Smooth)), n + 1, p)
  {
  }

  lemma OtherActs(c: Session, acts: seq<Act>, ev: Event)
    requires c.Valid() && OfOthers(ev)
    ensures Acted(c, acts + [Other(ev)]) == Acted(c, acts).(past := Acted(c, acts).past + [ev])
    ensures Reached(c, acts + [Other(ev)]) == Next(c, Reached(c, acts), ev)
  {
    ActsMore(c, acts, Other(ev));
    Step(c, Acted(c, acts).past, ev);
  }

  /** A frame is submitted and encoded, and the loop writes it. */
  lemma LoopFilms(c: Session, acts: seq<Act>, n: nat, shown: seq<Byte>, p: seq<Byte>, select: Selector)
    returns (more: seq<Act>, key: bool)
    requires c.Valid() && !c.exactOnly && Streaming(Reached(c, acts), n, shown) && |p| == c.surface.Size()
    ensures acts <= more && OnTheWire(Reached(c, more), n, shown, p, key)
  {
    var s := Reached(c, acts);
    key := s.host.forceIdr || s.host.submitted == 0;
    FrameEncoded(c, s, n, shown, p);
    OtherActs(c, acts, Submitted(n, p));
    more := acts + [Other(Submitted(n, p))];
    OtherActs(c, more, Encoded);
    more := more + [Other(Encoded)];
    LoopWrites(c, Acted(c, more), select);
    ActsMore(c, more, Iteration(Plain(BUSY, select)));
    Step(c, Acted(c, more).past, WriteVideo);
    FrameWritten(c, s, Reached(c, more), n, shown, p, key);
    more := more + [Iteration(Plain(BUSY, select))];
  }

  lemma LoopShowsFrame(c: Session, acts: seq<Act>, n: nat, shown: seq<Byte>, p: seq<Byte>, select: Selector)
    returns (more: seq<Act>)
    requires c.Valid() && !c.exactOnly && Streaming(Reached(c, acts), n, shown) && |p| == c.surface.Size()
    ensures acts <= more && Streaming(Reached(c, more), n + 1, p)
  {
    var key;
    more, key := LoopFilms(c, acts, n, shown, p, select);
    FrameRead(c, Reached(c, more), n, shown, p, key);
    OtherActs(c, more, Read);
    OtherActs(c, more + [Other(Read)], Decoded(0));
    more := more + [Other(Read)] + [Other(Decoded(0))];
    FrameShown(c, Reached(c, more), n, shown, p, key);
    OtherActs(c, more, Show(C.Smooth));
    more := more + [Other(Show(C.Smooth))];
  }

  /** A hybrid session whose screen keeps moving shows every submitted frame, one after the other. */
  lemma {:induction false} LoopShowsVideo(c: Session, frames: seq<seq<Byte>>, select: Selector)
    returns (acts: seq<Act>)
    requires c.Valid() && !c.exactOnly && forall p <- frames :: |p| == c.surface.Size()
    ensures Streaming(Reached(c, acts), |frames|, if frames == [] then [] else frames[|frames| - 1])
  {
    if frames == [] {
      acts := [];
      StartStreams(c);
    } else {
      var before := frames[..|frames| - 1];
      acts := LoopShowsVideo(c, before, select);
      acts := LoopShowsFrame(c, acts, |before|, if before == [] then [] else before[|before| - 1],
                             frames[|frames| - 1], select);
    }
  }
}
