/**
 One iteration of the host's main loop in the order of the source: recovery, mailbox, the turn of the
 mode, cursor, and an encoded unit or the readback. Proved to be a run of the protocol's events, so
 that everything said about runs is said about the loop, whatever other threads do in between.
 */
module MainLoops {
  import opened Options
  import opened Pixels
  import opened Wire
  import H = Host
  import R = Reader
  import opened System
  import opened HostLoops
  import opened Iterations
  import Runs

  class MainLoop {
    const host: HostLoop
    var pace: Pace

    /** The object is the host of the run, and has written what the run has put on the wire. */
    ghost predicate Tracks(past: seq<Event>)
      reads host
    {
      && host.session.Valid() && host.Value() == Run(host.session, past).host
      && host.wire == Runs.Trace(host.session, past)
    }

    constructor (c: Session)
      requires c.Valid()
      ensures fresh(host) && host.session == c && pace == FRESH_PACE && Tracks([])
    {
      host := new HostLoop(c);
      pace := FRESH_PACE;
    }

    method Resumed(ghost past: seq<Event>)
      requires Tracks(past) && !host.halted
      modifies this, host
      ensures Tracks(past + [Resume]) && pace == FRESH_PACE && !host.halted
    {
      Adds(host.session, past, Resume, H.Resume(host.session, host.Value()));
      host.ResumeForcedIdr();
      pace := FRESH_PACE;
    }

    /** A recovery request of the viewer. */
    method Recover(requested: bool, ghost past: seq<Event>) returns (ghost done: seq<Event>)
      requires Tracks(past) && !host.halted
      modifies this, host
      ensures done == (if requested then [Resume] else []) && Tracks(past + done)
      ensures pace == (if requested then FRESH_PACE else old(pace)) && !host.halted
    {
      done := [];
      assert past + [] == past;
      if requested {
        Resumed(past);
        done := [Resume];
      }
    }

    /** The mailbox, which is empty afterwards; the pace starts afresh when it changes the mode. */
    method Acknowledge(ghost past: seq<Event>) returns (ghost done: seq<Event>)
      requires Tracks(past) && !host.halted
      modifies this, host
      ensures done == (if old(host.mailbox).Some? then [TakeAck] else []) && Tracks(past + done)
      ensures pace == (if host.mode == old(host.mode) then old(pace) else FRESH_PACE)
      ensures host.mailbox.None? && !host.halted
    {
      done := [];
      assert past + [] == past;
      if host.mailbox.Some? {
        Adds(host.session, past, TakeAck, H.TakeAck(host.session, host.Value()));
        Runs.TakeAckEmpties(host.session, host.Value());
        var before := host.mode;
        host.AcceptAck();
        if host.mode != before {
          pace := FRESH_PACE;
        }
        done := [TakeAck];
      }
    }

    /** The turn of the mode; `again` when the loop starts over at once. */
    method Represent(inputs: Inputs, ghost past: seq<Event>) returns (again: bool, ghost done: seq<Event>)
      requires Tracks(past) && !host.halted && Sound(host.session, inputs.select)
      modifies this, host
      ensures done == ModeTurn(host.session, old(host.Value()), inputs, old(pace)) && Tracks(past + done)
      ensures pace == PaceAfter(host.session, old(host.Value()), old(pace), done)
      ensures again <==> old(host.mode) == H.Sending && done == [Resume]
    {
      again, done := false, [];
      assert past + [] == past;
      if host.mode == H.AwaitingAck || host.mode == H.AwaitingRectAck {
        done := Await(inputs, past);
      } else if host.mode == H.Sending {
        again, done := Transmit(past);
      } else if host.mode == H.ExactMode && Newer(host.Value(), host.analyzer.canonical, pace.evaluated) {
        done := Update(inputs.select, past);
      } else if host.mode == H.VideoMode || host.mode == H.Quiescing {
        done := Settle(inputs, past);
      }
    }

    /** Waiting for an acknowledgement, which may take too long or be overtaken by too much new content. */
    method Await(inputs: Inputs, ghost past: seq<Event>) returns (ghost done: seq<Event>)
      requires Tracks(past) && !host.halted && host.mode in {H.AwaitingAck, H.AwaitingRectAck}
      modifies this, host
      ensures done == ModeTurn(host.session, old(host.Value()), inputs, old(pace)) && Tracks(past + done)
      ensures pace == PaceAfter(host.session, old(host.Value()), old(pace), done)
    {
      done := [];
      assert past + [] == past;
      if (host.mode == H.AwaitingAck && inputs.clock.snapshotLate) ||
         (host.mode == H.AwaitingRectAck && inputs.clock.rectLate) {
        Resumed(past);
        done := [Resume];
      } else if host.mode == H.AwaitingRectAck && Newer(host.Value(), host.analyzer.pending, pace.superseded) {
        done := Supersede(inputs.select, past);
      }
    }

    /** A quiet screen stops the video; one that moves again brings it back. */
    method Settle(inputs: Inputs, ghost past: seq<Event>) returns (ghost done: seq<Event>)
      requires Tracks(past) && !host.halted && host.mode in {H.VideoMode, H.Quiescing}
      modifies this, host
      ensures done == ModeTurn(host.session, old(host.Value()), inputs, old(pace)) && Tracks(past + done)
      ensures pace == if done == [Resume] then FRESH_PACE else old(pace)
    {
      done := [];
      assert past + [] == past;
      if host.mode == H.VideoMode && host.analyzer.latest.Some? &&
         (host.session.exactOnly || inputs.clock.quiet) && inputs.clock.cooled {
        Adds(host.session, past, EnterQuiescing, H.EnterQuiescing(host.session, host.Value()));
        host.StopVideo();
        done := [EnterQuiescing];
      } else if !host.session.exactOnly && host.mode == H.Quiescing && host.analyzer.latest.Some? &&
             !inputs.clock.quiet {
        Resumed(past);
        done := [Resume];
      }
    }

    /** A burst of the snapshot, unless newer content has made it pointless. */
    method Transmit(ghost past: seq<Event>) returns (again: bool, ghost done: seq<Event>)
      requires Tracks(past) && !host.halted && host.mode == H.Sending
      modifies this, host
      ensures again <==> !host.session.exactOnly && Content(old(host.analyzer).latest) > Content(old(host.draining))
      ensures old(host.draining).Some? && done == (if again then [Resume] else [Event.Drain]) && Tracks(past + done)
      ensures pace == (if again then FRESH_PACE else old(pace))
    {
      TurnFacts(host.session, past);
      again := !host.session.exactOnly && Content(host.analyzer.latest) > Content(host.draining);
      if again {
        Resumed(past);
        done := [Resume];
      } else {
        Adds(host.session, past, Event.Drain, H.Drain(host.session, host.Value()));
        host.DrainBurst();
        done := [Event.Drain];
      }
    }

    /** Newer content while a transaction is out: only one that is too much ends the wait. */
    method Supersede(select: Selector, ghost past: seq<Event>) returns (ghost done: seq<Event>)
      requires Tracks(past) && !host.halted && host.analyzer.latest.Some?
      modifies this, host
      ensures done == (if Evaluate(old(host.Value()), select, false).TooMuch? then [Resume] else []) &&
              Tracks(past + done)
      ensures pace == if done == [] then old(pace).(superseded := Content(old(host.analyzer).latest)) else FRESH_PACE
    {
      done := [];
      assert past + [] == past;
      pace := pace.(superseded := Content(host.analyzer.latest));
      if Evaluate(host.Value(), select, false).TooMuch? {
        Resumed(past);
        done := [Resume];
      }
    }

    /** Newer content in exact mode: a transaction, or the exact path is given up. */
    method Update(select: Selector, ghost past: seq<Event>) returns (ghost done: seq<Event>)
      requires Tracks(past) && !host.halted && Sound(host.session, select)
      requires host.mode == H.ExactMode && host.analyzer.latest.Some?
      modifies this, host
      ensures done == ExactTurn(host.session, old(host.Value()), select) && Tracks(past + done)
      ensures var seen := Content(old(host.analyzer).latest);
              pace == if done == [Resume] then FRESH_PACE
                      else Pace(seen, if done == [] then old(pace).superseded else seen)
    {
      done := [];
      assert past + [] == past;
      if !host.session.rawRect {
        Resumed(past);
        return [Resume];
      }
      var seen := Content(host.analyzer.latest);
      pace := pace.(evaluated := seen);
      var decision := Evaluate(host.Value(), select, true);
      match decision
      case Selected(rects) =>
        Adds(host.session, past, Event.SendRects(rects), H.SendRects(host.session, host.Value(), rects));
        host.SendCandidate(rects);
        pace := pace.(superseded := seen);
        done := [Event.SendRects(rects)];
      case TooMuch =>
        Resumed(past);
        done := [Resume];
      case _ =>
    }

    /** A cursor shape or position. */
    method SendCursor(pending: bool, ghost past: seq<Event>) returns (ghost done: seq<Event>)
      requires Tracks(past) && !host.halted
      modifies host
      ensures done == (if pending then [Event.SendCursor] else []) && Tracks(past + done)
      ensures host.Value() == old(host.Value()).(sequence := host.sequence)
    {
      done := [];
      assert past + [] == past;
      if pending {
        Adds(host.session, past, Event.SendCursor, H.Send(host.Value(), host.epoch, 0, [Cursor]));
        host.WriteVisualMessage(host.epoch, 0, Cursor);
        done := [Event.SendCursor];
      }
    }

    /** The next encoded unit, or the readback once the encoder has been drained. */
    method Deliver(ghost past: seq<Event>) returns (ghost done: seq<Event>)
      requires Tracks(past) && !host.halted
      modifies host
      ensures done == LastTurn(host.session, old(host.Value())) && Tracks(past + done)
    {
      done := [];
      assert past + [] == past;
      if !host.session.exactOnly && host.encoder.queue != [] {
        Adds(host.session, past, WriteVideo, H.WriteVideo(host.Value()));
        host.WriteEncoded();
        done := [WriteVideo];
      } else if host.mode == H.Quiescing && H.Drained(host.Value()) {
        Adds(host.session, past, TakeSnapshot, H.TakeSnapshot(host.Value()));
        host.ReadSnapshot();
        done := [TakeSnapshot];
      }
    }

    /** Request and mail. */
    method Prepare(inputs: Inputs, ghost past: seq<Event>) returns (ghost turned: seq<Event>)
      requires Tracks(past) && !host.halted
      modifies this, host
      ensures Tracks(turned) && !host.halted && Course(turned, pace) == Mailed(host.session, past, old(pace), inputs)
    {
      ghost var turn := Recover(inputs.recovery, past);
      turned := past + turn;
      turn := Acknowledge(turned);
      turned := turned + turn;
    }

    /** The stages that do not. */
    method Finish(inputs: Inputs, ghost past: seq<Event>) returns (ghost turned: seq<Event>)
      requires Tracks(past) && !host.halted
      modifies host
      ensures Tracks(turned) && turned == Finished(host.session, past, inputs)
    {
      ghost var turn := SendCursor(inputs.shape, past);
      turned := past + turn;
      turn := SendCursor(inputs.position, turned);
      turned := turned + turn;
      turn := Deliver(turned);
      turned := turned + turn;
    }

    /**
     One iteration: the run goes on by events, each chosen in the state the one before it left, and
     the host and the wire are where an iteration of its mode takes them.
     */
    method Iterate(inputs: Inputs, ghost past: seq<Event>) returns (ghost after: seq<Event>)
      requires Tracks(past) && !host.halted && Sound(host.session, inputs.select)
      modifies this, host
      ensures Tracks(after) && Course(after, pace) == Turned(host.session, past, old(pace), inputs)
      ensures old(host.wire) <= host.wire
      ensures Iterated(host.session, old(host.Value()), inputs, old(pace), host.Value(),
                       host.wire[|old(host.wire)|..])
    {
      ghost var sent := TurnedIterates(host.session, past, pace, inputs);
      var again;
      ghost var turn;
      after := Prepare(inputs, past);
      again, turn := Represent(inputs, after);
      after := after + turn;
      if !again && !host.halted {
        after := Finish(inputs, after);
      }
    }

    // ------------------------------------------------------- the host's other threads

    method Captured(frame: nat, changed: bool, pixels: seq<Byte>, ghost past: seq<Event>)
      requires Tracks(past) && Enabled(host.session, Run(host.session, past), Capture(frame, changed, pixels))
      modifies host
      ensures Tracks(past + [Capture(frame, changed, pixels)])
    {
      Adds(host.session, past, Capture(frame, changed, pixels),
           H.Idle(H.Capture(host.Value(), frame, changed, pixels)));
      host.CaptureFrame(frame, changed, pixels);
    }

    method Submitted(frame: nat, pixels: seq<Byte>, periodic: bool, ghost past: seq<Event>)
      requires Tracks(past) && Enabled(host.session, Run(host.session, past), Submit(frame, pixels, periodic))
      modifies host
      ensures Tracks(past + [Submit(frame, pixels, periodic)])
    {
      Adds(host.session, past, Submit(frame, pixels, periodic),
           H.Idle(H.Submit(host.Value(), frame, pixels, periodic)));
      var taken := host.SubmitLatest(frame, pixels, periodic);
    }

    method Completed(ghost past: seq<Event>)
      requires Tracks(past) && host.encoder.inFlight != []
      modifies host
      ensures Tracks(past + [Encoded])
    {
      Adds(host.session, past, Encoded, H.Idle(host.Value().(encoder := host.encoder.Complete())));
      host.FinishUnit();
    }

    method Received(ack: Ack, ghost past: seq<Event>)
      requires Tracks(past) && Run(host.session, past).acks != [] && Run(host.session, past).acks[0] == ack
      modifies host
      ensures Tracks(past + [AckArrives])
    {
      Adds(host.session, past, AckArrives, H.Idle(host.Value().(mailbox := Some(ack))));
      host.ReceiveAck(ack);
    }
  }

  // --------------------------------------------------------- what runs say about the loop

  /** The viewer, and the loss of an acknowledgement, leave the host alone. */
  lemma ViewerKeepsTrack(loop: MainLoop, past: seq<Event>, ev: Event)
    requires loop.Tracks(past) && OfViewer(ev)
    ensures loop.Tracks(past + [ev])
  {
    var c := loop.host.session;
    Step(c, past, ev);
    ViewerLeavesHost(c, Run(c, past), ev);
    assert loop.host.wire + [] == loop.host.wire;
  }

  lemma ViewerLeavesHost(c: Session, s: State, ev: Event)
    requires c.Valid() && OfViewer(ev)
    ensures Next(c, s, ev).host == s.host && Runs.Emitted(c, s, ev) == []
  {
  }

  /**
   Whatever the loop and the other threads have done: an exact loop's canonical frame is on the
   screen, everything written is numbered without a gap and is accepted by the viewer's reader.
   */
  lemma LoopIsSafe(loop: MainLoop, past: seq<Event>)
    requires loop.Tracks(past)
    ensures loop.host.mode == H.ExactMode ==> (
              && loop.host.analyzer.canonical.Some?
              && Runs.InAgreement(Run(loop.host.session, past), loop.host.exactFrame,
                                  loop.host.analyzer.canonical.value.pixels))
    ensures forall i | 0 <= i < |loop.host.wire| :: loop.host.wire[i].sequence == i + 1
    ensures var r := R.ReadAll(loop.host.session, R.START, loop.host.wire).reader;
            r.status == R.Running && r.recoveries == 0
  {
    Runs.ExactMeansShown(loop.host.session, past);
    Runs.NoSequenceGap(loop.host.session, past);
    Runs.EveryTraceIsAccepted(loop.host.session, past);
  }
}
