/**
 The host's main loop and its encoder thread as they run: modes, epochs and frame identifiers
 changed in place, every message numbered as it is written. Proved against the host of the
 protocol model.
 */
module HostLoops {
  import opened Options
  import opened Pixels
  import opened Wire
  import H = Host
  import Machines

  /** Writing bodies one at a time is sending them together. */
  lemma NumberedMore(last: nat, epoch: nat, frame: nat, bodies: seq<Body>, b: Body)
    ensures H.Numbered(last, epoch, frame, bodies + [b]) ==
            H.Numbered(last, epoch, frame, bodies) + [Message(last + |bodies| + 1, epoch, frame, b)]
  {
  }

  class HostLoop {
    const session: Session
    var halted: bool
    var mode: H.Mode
    var epoch: nat
    var snapshotEpoch: nat
    var snapshotFrame: nat
    var snapshotDigest: Digest
    var draining: Option<H.Source>
    var drained: nat
    var exactFrame: nat
    var exactDigest: Digest
    var rectEpoch: nat
    var rectTarget: nat
    var rectDigest: Digest
    var submissions: bool
    var forceIdr: bool
    var submitted: nat
    var sequence: nat
    var analyzer: H.Analyzer
    var encoder: H.Encoder
    var mailbox: Option<Ack>
    /** Everything written so far. */
    var wire: seq<Message>

    function Value(): H.Host
      reads this
    {
      H.Host(halted, mode, epoch, snapshotEpoch, snapshotFrame, snapshotDigest, draining, drained, exactFrame,
             exactDigest,
             rectEpoch, rectTarget, rectDigest, submissions, forceIdr, submitted, sequence, analyzer, encoder, mailbox)
    }

    /** What a turn made of the host, and what it wrote beyond `before`. */
    predicate Did(turn: H.Turn, before: seq<Message>)
      reads this
    {
      Value() == turn.host && wire == before + turn.sent
    }

    constructor (c: Session)
      ensures session == c && Value() == H.Start(c) && wire == []
    {
      session := c;
      halted, mode, epoch := false, H.VideoMode, 1;
      snapshotEpoch, snapshotFrame, snapshotDigest, draining, drained := 0, 0, Unset, None, 0;
      exactFrame, exactDigest, rectEpoch, rectTarget, rectDigest := 0, Unset, 0, 0, Unset;
      submissions, forceIdr, submitted, sequence := !c.exactOnly, false, 0, 0;
      analyzer, encoder, mailbox, wire := H.Analyzer(None, None, None), H.Encoder([], [], 0), None, [];
    }

    method WriteVisualMessage(e: nat, frame: nat, body: Body)
      modifies this`sequence, this`wire
      ensures Did(H.Send(old(Value()), e, frame, [body]), old(wire))
    {
      sequence := sequence + 1;
      wire := wire + [Message(sequence, e, frame, body)];
    }

    /** Enters an epoch, which makes the encoder drop what is older. */
    method EnterEpoch(e: nat)
      modifies this`epoch, this`encoder
      ensures Value() == old(Value()).(epoch := e, encoder := if session.exactOnly then old(encoder)
                                                              else old(encoder).DiscardBefore(e))
    {
      epoch := e;
      if !session.exactOnly {
        encoder := encoder.DiscardBefore(e);
      }
    }

    method DropSnapshot()
      modifies this`analyzer, this`draining, this`drained
      ensures Value() == old(Value()).(analyzer := old(analyzer).Invalidate(), draining := None, drained := 0)
    {
      analyzer, draining, drained := analyzer.Invalidate(), None, 0;
    }

    method BreakOff()
      modifies this`epoch, this`encoder, this`analyzer, this`draining, this`drained
      ensures Value() == H.BreakOff(session, old(Value()))
    {
      EnterEpoch(epoch + 1);
      DropSnapshot();
    }

    method ForgetFrames()
      modifies this`snapshotFrame, this`exactFrame, this`rectEpoch, this`rectTarget
      ensures Value() == old(Value()).(snapshotFrame := 0, exactFrame := 0, rectEpoch := 0, rectTarget := 0)
    {
      snapshotFrame, exactFrame, rectEpoch, rectTarget := 0, 0, 0, 0;
    }

    /** Video again, or at once the next snapshot. */
    method Restart()
      modifies this`snapshotEpoch, this`submissions, this`forceIdr, this`mode
      ensures Value() == if session.exactOnly
                         then old(Value()).(snapshotEpoch := epoch, submissions := false, mode := H.Quiescing)
                         else old(Value()).(snapshotEpoch := 0, forceIdr := true, submissions := true,
                                            mode := H.VideoMode)
    {
      if session.exactOnly {
        snapshotEpoch, submissions, mode := epoch, false, H.Quiescing;
      } else {
        snapshotEpoch, forceIdr, submissions, mode := 0, true, true, H.VideoMode;
      }
    }

    /** The frame a reset names. */
    method ResetFrame() returns (frame: nat)
      ensures frame == H.ResetFrame(Value())
    {
      if analyzer.latest.Some? { return analyzer.latest.value.frame; }
      if rectTarget != 0 { return rectTarget; }
      frame := if snapshotFrame != 0 then snapshotFrame else 1;
    }

    /** Ends the exact path, with video again or a fresh snapshot. */
    method ResumeForcedIdr()
      modifies this
      ensures Did(H.Resume(session, old(Value())), old(wire))
    {
      var frame := ResetFrame();
      BreakOff();
      WriteVisualMessage(epoch, frame, StateReset);
      StartOver();
    }

    method StartOver()
      modifies this`snapshotFrame, this`exactFrame, this`rectEpoch, this`rectTarget
      modifies this`snapshotEpoch, this`submissions, this`forceIdr, this`mode
      ensures Value() == H.StartOver(session, old(Value()))
    {
      ForgetFrames();
      Restart();
    }

    /** Takes the mailbox and promotes, gives the exact path up, or ignores what it held. */
    method AcceptAck()
      requires mailbox.Some?
      modifies this
      ensures Did(H.TakeAck(session, old(Value())), old(wire))
    {
      var ack := mailbox.value;
      mailbox := None;
      if mode == H.AwaitingAck && H.Matches(ack, snapshotEpoch, snapshotFrame, snapshotDigest) {
        PromoteSnapshot();
      } else if mode == H.AwaitingRectAck && H.Matches(ack, rectEpoch, rectTarget, rectDigest) {
        PromoteRects();
      } else if (mode == H.AwaitingAck && ack.epoch == snapshotEpoch && ack.frame == snapshotFrame) ||
                (mode == H.AwaitingRectAck && ack.epoch == rectEpoch && ack.frame == rectTarget) {
        ResumeForcedIdr();
      }
    }

    method PromoteSnapshot()
      requires mailbox.None?
      modifies this
      ensures Did(H.PromoteSnapshot(session, old(Value())), old(wire))
    {
      if !analyzer.CanPromote(snapshotFrame) {
        ResumeForcedIdr();
        return;
      }
      Promote(snapshotFrame, snapshotDigest);
      rectEpoch := snapshotEpoch;
      if session.rawRect {
        rectEpoch := snapshotEpoch + 1;
        EnterEpoch(rectEpoch);
        WriteVisualMessage(rectEpoch, exactFrame, StateReset);
      }
    }

    /** The pending frame becomes the canonical one. */
    method Promote(frame: nat, digest: Digest)
      requires analyzer.pending.Some?
      modifies this`analyzer, this`exactFrame, this`exactDigest, this`mode
      ensures Value() == old(Value()).(analyzer := old(analyzer).Promote(), exactFrame := frame, exactDigest := digest,
                                       mode := H.ExactMode)
    {
      analyzer := analyzer.Promote();
      exactFrame, exactDigest, mode := frame, digest, H.ExactMode;
    }

    method PromoteRects()
      requires mailbox.None?
      modifies this
      ensures Did(H.PromoteRects(session, old(Value())), old(wire))
    {
      if !analyzer.CanPromote(rectTarget) {
        ResumeForcedIdr();
        return;
      }
      Promote(rectTarget, rectDigest);
      rectTarget := 0;
    }

    /** Stops video and reserves the epoch of the next snapshot. */
    method StopVideo()
      requires mode == H.VideoMode && analyzer.latest.Some?
      modifies this
      ensures Did(H.EnterQuiescing(session, old(Value())), old(wire))
    {
      ReserveEpoch();
      WriteVisualMessage(snapshotEpoch, analyzer.latest.value.frame, StateReset);
      mode := H.Quiescing;
    }

    method ReserveEpoch()
      modifies this`submissions, this`snapshotEpoch, this`epoch, this`encoder
      ensures Value() == old(Value()).(submissions := false, snapshotEpoch := old(epoch) + 1, epoch := old(epoch) + 1,
                           encoder := if session.exactOnly then old(encoder)
                                      else old(encoder).DiscardBefore(old(epoch) + 1))
    {
      submissions, snapshotEpoch := false, epoch + 1;
      EnterEpoch(snapshotEpoch);
    }

    /** Reads the latest frame back once the encoder has been drained; `halted` stands for an exception. */
    method ReadSnapshot()
      requires mode == H.Quiescing && H.Drained(Value())
      modifies this
      ensures Did(H.TakeSnapshot(old(Value())), old(wire))
    {
      if analyzer.latest.None? || analyzer.pending.Some? || snapshotEpoch == 0 {
        halted := true;
        return;
      }
      var latest := analyzer.latest.value;
      analyzer := analyzer.(pending := Some(latest));
      snapshotFrame, snapshotDigest := latest.frame, OfImage(latest.pixels);
      BeginDraining(latest);
    }

    method BeginDraining(s: H.Source)
      modifies this`draining, this`drained, this`mode
      ensures Value() == old(Value()).(draining := Some(s), drained := 0, mode := H.Sending)
    {
      draining, drained, mode := Some(s), 0, H.Sending;
    }

    /** Writes the chunks of one burst. */
    method WriteChunks(s: H.Source, ranges: seq<H.Range>)
      requires forall r <- ranges :: r.offset + r.size <= |s.pixels|
      modifies this`sequence, this`wire
      ensures Did(H.Send(old(Value()), snapshotEpoch, snapshotFrame, H.Chunks(session, s, ranges)), old(wire))
    {
      ghost var bodies := H.Chunks(session, s, ranges);
      for i := 0 to |ranges|
        invariant Did(H.Send(old(Value()), snapshotEpoch, snapshotFrame, bodies[..i]), old(wire))
      {
        var range := ranges[i];
        NumberedMore(old(sequence), snapshotEpoch, snapshotFrame, bodies[..i], bodies[i]);
        assert bodies[..i + 1] == bodies[..i] + [bodies[i]];
        WriteVisualMessage(snapshotEpoch, snapshotFrame,
                           Chunk(session.surface, |s.pixels|, range.offset,
                                 s.pixels[range.offset..range.offset + range.size]));
      }
      assert bodies[..|bodies|] == bodies;
    }

    /** Writes a burst of the pending snapshot, and its commit once everything is out. */
    method DrainBurst()
      requires session.Valid() && mode == H.Sending && (draining.Some? ==> drained <= |draining.value.pixels|)
      modifies this
      ensures Did(H.Drain(session, old(Value())), old(wire))
    {
      if draining.None? {
        ResumeForcedIdr();
        return;
      }
      var s := draining.value;
      H.ChunkFits(session.surface.Stride());
      var chunk := H.ChunkBytes(session.surface.Stride());
      H.BurstAbuts(drained, |s.pixels|, chunk, 0);
      var ranges, reached := Machines.CutBurst(drained, |s.pixels|, chunk, Machines.Larger(H.BURST_BYTES, chunk));
      WriteBurst(s, ranges, reached);
    }

    method WriteBurst(s: H.Source, ranges: seq<H.Range>, reached: nat)
      requires (forall r <- ranges :: r.offset + r.size <= |s.pixels|) && reached == H.End(ranges, drained)
      modifies this`sequence, this`wire, this`draining, this`drained, this`mode
      ensures Did(H.BurstTurn(session, old(Value()), s, ranges), old(wire))
    {
      WriteChunks(s, ranges);
      if reached == |s.pixels| {
        NumberedMore(old(sequence), snapshotEpoch, snapshotFrame, H.Chunks(session, s, ranges), FrameCommit(0));
        FinishSnapshot();
      } else {
        drained := reached;
      }
    }

    method FinishSnapshot()
      modifies this`sequence, this`wire, this`draining, this`drained, this`mode
      ensures Did(H.Send(old(Value()).(draining := None, drained := 0, mode := H.AwaitingAck),
                         snapshotEpoch, snapshotFrame, [FrameCommit(0)]), old(wire))
    {
      WriteVisualMessage(snapshotEpoch, snapshotFrame, FrameCommit(0));
      draining, drained, mode := None, 0, H.AwaitingAck;
    }

    method WriteRects(base: nat, target: nat, rects: seq<Rect>)
      modifies this`sequence, this`wire
      ensures Did(H.Send(old(Value()), rectEpoch, target, H.RectBodies(base, session.surface, rects)), old(wire))
    {
      ghost var bodies := H.RectBodies(base, session.surface, rects);
      for i := 0 to |rects|
        invariant Did(H.Send(old(Value()), rectEpoch, target, bodies[..i]), old(wire))
      {
        NumberedMore(old(sequence), rectEpoch, target, bodies[..i], bodies[i]);
        assert bodies[..i + 1] == bodies[..i] + [bodies[i]];
        WriteVisualMessage(rectEpoch, target, RawRect(base, session.surface, rects[i]));
      }
      assert bodies[..|bodies|] == bodies;
    }

    /** Writes a selected candidate and its commit, unless its digest is refused. */
    method SendCandidate(rects: seq<Rect>)
      requires mode == H.ExactMode && session.rawRect && H.CanSelect(Value())
      modifies this
      ensures Did(H.SendRects(session, old(Value()), rects), old(wire))
    {
      var target := analyzer.latest.value;
      analyzer := analyzer.(pending := Some(target));
      if !DigestFits(rects) {
        halted := true;
        return;
      }
      rectDigest := OfRects(exactDigest, target.frame, rects);
      WriteRects(exactFrame, target.frame, rects);
      NumberedMore(old(sequence), rectEpoch, target.frame, H.RectBodies(exactFrame, session.surface, rects),
                   FrameCommit(exactFrame));
      WriteVisualMessage(rectEpoch, target.frame, FrameCommit(exactFrame));
      rectTarget, mode := target.frame, H.AwaitingRectAck;
    }

    /** The encoder thread, under the gate. */
    method SubmitLatest(frame: nat, pixels: seq<Byte>, periodic: bool) returns (taken: bool)
      modifies this
      ensures taken <==> old(submissions)
      ensures wire == old(wire) && Value() == if taken then H.Submit(old(Value()), frame, pixels, periodic)
                                              else old(Value())
    {
      if !submissions { return false; }
      var force := forceIdr || submitted == 0 || periodic;
      encoder := encoder.(inFlight := encoder.inFlight + [H.Unit(epoch, frame, force, pixels)]);
      forceIdr, submitted := false, submitted + 1;
      taken := true;
    }

    /** The analysis thread has seen a frame. */
    method CaptureFrame(frame: nat, changed: bool, pixels: seq<Byte>)
      modifies this`analyzer
      ensures Value() == H.Capture(old(Value()), frame, changed, pixels)
    {
      var latest := analyzer.latest;
      if changed || latest.None? {
        analyzer := analyzer.(latest := Some(H.Source(frame, frame, pixels)));
      } else {
        analyzer := analyzer.(latest := Some(latest.value.(frame := frame)));
      }
    }

    /** The encoder's callback: a unit whose epoch has been discarded is not queued. */
    method FinishUnit()
      requires encoder.inFlight != []
      modifies this`encoder
      ensures Value() == old(Value()).(encoder := old(encoder).Complete())
    {
      var unit := encoder.inFlight[0];
      encoder := encoder.(inFlight := encoder.inFlight[1..]);
      if unit.epoch >= encoder.minimumEpoch {
        encoder := encoder.(queue := encoder.queue + [unit]);
      }
    }

    /** The control thread puts an acknowledgement into the mailbox, over whatever was there. */
    method ReceiveAck(ack: Ack)
      modifies this`mailbox
      ensures Value() == old(Value()).(mailbox := Some(ack))
    {
      mailbox := Some(ack);
    }

    /** Writes the next encoded unit, unless its epoch is over. */
    method WriteEncoded()
      requires encoder.queue != []
      modifies this
      ensures Did(H.WriteVideo(old(Value())), old(wire))
    {
      var unit := encoder.queue[0];
      encoder := encoder.(queue := encoder.queue[1..]);
      if unit.epoch == epoch {
        WriteVisualMessage(unit.epoch, unit.frame, AccessUnit(unit.key, unit.pixels));
      }
    }
  }
}
