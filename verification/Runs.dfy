/** What the invariant means for whole runs of a session. */
module Runs {
  import opened Options
  import opened Pixels
  import opened Wire
  import opened Canonical
  import H = Host
  import R = Reader
  import C = Compositor
  import opened System
  import opened Invariant
  import opened Steps
  import opened ScreenSteps
  import opened HostSteps
  import opened AckSteps
  import opened ExactSteps

  // ------------------------------------------------------------- the exact path

  /** The host's exact path and the screen hold the same image. */
  ghost predicate InAgreement(s: State, frame: nat, image: seq<Byte>) {
    && s.compositor.fb.initialized && s.compositor.fb.committed == image
    && s.compositor.canonical.committedFrame == frame && s.compositor.canonical.quality == Exact
    && frame in s.images && s.images[frame] == image
  }

  /**
   Whenever the host is in its exact mode, the viewer's committed framebuffer is the host's canonical
   frame, and the viewer's reader, once it has read what is in flight, holds the host's digest of it.
   */
  lemma ExactMeansShown(c: Session, events: seq<Event>)
    requires c.Valid()
    ensures var s := Run(c, events); s.host.mode == H.ExactMode ==>
              && s.host.analyzer.canonical.Some? && s.host.analyzer.canonical.value.frame == s.host.exactFrame
              && InAgreement(s, s.host.exactFrame, s.host.analyzer.canonical.value.pixels)
    ensures var s := Run(c, events); var r := R.ReadAll(c, s.reader, s.channel).reader; s.host.mode == H.ExactMode ==>
              r.digestValid && r.pixelFrame == s.host.exactFrame && r.pixelDigest == s.host.exactDigest
  {
    var s := Run(c, events);
    RunInv(c, events);
    InvEnd(c, s);
  }

  lemma PromotesAt(c: Session, s: State)
    requires c.Valid() && Inv(c, s) && Matched(s.host)
    ensures s.queue == [] && s.acks == []
    ensures var h := H.TakeAck(c, s.host).host;
            && h.mode == H.ExactMode && h.exactFrame == s.host.mailbox.value.frame
            && h.exactDigest == s.host.mailbox.value.digest && h.analyzer.canonical.Some?
            && InAgreement(s, h.exactFrame, h.analyzer.canonical.value.pixels)
  {
    InvEnd(c, s);
    MatchedIsShown(c, ViewOf(s), s.queue + Ahead(c, s).commands, Ahead(c, s).reader);
  }

  /** Every waiting acknowledgement of the host's epoch is the awaited one, and no other is still on its way. */
  lemma CurrentAckMatches(c: Session, s: State)
    requires c.Valid() && Inv(c, s) && s.host.mailbox.Some?
    ensures s.host.mailbox.value.epoch <= s.host.epoch
    ensures s.host.mailbox.value.epoch == s.host.epoch <==> Matched(s.host)
  {
    InvEnd(c, s);
    assert Acks(ViewOf(s))[0] == s.host.mailbox.value;
    if Matched(s.host) {
      MatchedIsShown(c, ViewOf(s), s.queue + Ahead(c, s).commands, Ahead(c, s).reader);
    }
  }

  /**
   Taking an acknowledgement of the host's epoch promotes the frame the screen shows; taking any
   other one changes nothing but the mailbox. So the host neither promotes a stale, late or
   overwritten acknowledgement nor gives the exact path up because of one.
   */
  lemma PromotionIsShown(c: Session, events: seq<Event>)
    requires c.Valid() && Enabled(c, Run(c, events), TakeAck)
    ensures var s := Run(c, events); var t := Next(c, s, TakeAck); var ack := s.host.mailbox.value;
            && (ack.epoch == s.host.epoch ==>
                  && t.host.mode == H.ExactMode && t.host.exactFrame == ack.frame && t.host.exactDigest == ack.digest
                  && t.host.analyzer.canonical.Some? && s.queue == [] && s.acks == []
                  && InAgreement(t, ack.frame, t.host.analyzer.canonical.value.pixels))
            && (ack.epoch != s.host.epoch ==> t == s.(host := s.host.(mailbox := None)))
  {
    var s := Run(c, events);
    RunInv(c, events);
    CurrentAckMatches(c, s);
    if Matched(s.host) {
      PromotesAt(c, s);
    } else {
      StaleIgnored(c, s);
    }
  }

  lemma StaleIgnored(c: Session, s: State)
    requires c.Valid() && Inv(c, s) && s.host.mailbox.Some? && s.host.mailbox.value.epoch < s.host.epoch
    ensures Take(s, H.TakeAck(c, s.host)) == s.(host := s.host.(mailbox := None))
  {
    assert ModeOk(c, ViewOf(s));
    SentNone(c, s, H.Idle(NoMail(s.host)));
  }

  /** An arriving acknowledgement never pushes the awaited one out of the one-slot mailbox. */
  lemma MailboxNeverLosesAwaited(c: Session, events: seq<Event>)
    requires c.Valid() && Enabled(c, Run(c, events), AckArrives)
    ensures var s := Run(c, events); s.host.mailbox.Some? ==> !Awaited(s.host, s.host.mailbox.value)
  {
    var s := Run(c, events);
    RunInv(c, events);
    if s.host.mailbox.Some? {
      CurrentAckMatches(c, s);
      if Matched(s.host) {
        PromotesAt(c, s);
      }
    }
  }

  // ------------------------------------------------------------------- epochs

  /** The epochs the modes rely on, and the escape for obsolete units that can never be taken. */
  lemma EpochDiscipline(c: Session, events: seq<Event>)
    requires c.Valid()
    ensures var h := Run(c, events).host;
            && (h.mode in {H.Quiescing, H.Sending, H.AwaitingAck} ==> h.snapshotEpoch == h.epoch)
            && (h.mode in {H.ExactMode, H.AwaitingRectAck} ==> h.rectEpoch == h.epoch)
            && (h.mode != H.VideoMode ==> !H.ObsoleteInFlight(h))
  {
    RunInv(c, events);
    InvEnd(c, Run(c, events));
  }

  /** No access unit of another epoch than the host's is ever written. */
  lemma OnlyCurrentUnits(c: Session, events: seq<Event>)
    requires c.Valid() && Enabled(c, Run(c, events), WriteVideo)
    ensures var s := Run(c, events); var sent := H.WriteVideo(s.host).sent;
            sent == [] || (|sent| == 1 && sent[0].epoch == s.host.epoch && s.host.mode == H.VideoMode &&
                           s.host.submissions)
  {
    var s := Run(c, events);
    RunInv(c, events);
    InvEnd(c, s);
    var u := s.host.encoder.queue[0];
    if u.epoch == s.host.epoch {
      TurnStepsCurrent(c, ViewOf(s), Ahead(c, s).reader, u);
    }
  }

  lemma TurnStepsCurrent(c: Session, v: View, end: R.Reader, u: H.Unit)
    requires c.Valid() && HostSide(c, v, end) && u in v.host.encoder.queue && u.epoch == v.host.epoch
    ensures v.host.mode == H.VideoMode && v.host.submissions
  {
    assert u in v.host.encoder.queue + v.host.encoder.inFlight;
  }

  // ------------------------------------------------------------- the wire trace

  /** The messages an event puts on the wire. */
  ghost function Emitted(c: Session, s: State, ev: Event): seq<Message>
    requires c.Valid()
  {
    var t := Next(c, s, ev);
    if ev.Read? || |t.channel| < |s.channel| then [] else t.channel[|s.channel|..]
  }

  /** Every message a run has put on the wire, in order. */
  ghost function Trace(c: Session, events: seq<Event>): seq<Message>
    requires c.Valid()
  {
    if events == [] then []
    else
      var before := events[..|events| - 1];
      Trace(c, before) + Emitted(c, Run(c, before), events[|events| - 1])
  }

  /** The messages the viewer's reader has taken off the wire. */
  ghost function Taken(c: Session, events: seq<Event>): seq<Message>
    requires c.Valid()
  {
    if events == [] then []
    else
      var before, ev := events[..|events| - 1], events[|events| - 1];
      var s := Run(c, before);
      Taken(c, before) + (if ev.Read? && Enabled(c, s, ev) && !Next(c, s, ev).stalled then [s.channel[0]] else [])
  }

  lemma EventOnWire(c: Session, s: State, ev: Event)
    requires c.Valid() && !ev.Read?
    ensures var t := Next(c, s, ev);
            t.channel == s.channel + Emitted(c, s, ev) && t.reader == s.reader && t.wireEpoch == s.wireEpoch
  {
    assert s.channel + [] == s.channel;
  }

  lemma ReadOnWire(c: Session, s: State)
    requires c.Valid() && Enabled(c, s, Read)
    ensures var t := Next(c, s, Read);
            if t.stalled then t.channel == s.channel && t.reader == s.reader && t.wireEpoch == s.wireEpoch
            else t.channel == s.channel[1..] && t.reader == R.Receive(c, s.reader, s.channel[0]).reader &&
                 t.wireEpoch == s.channel[0].epoch
  {
  }

  /** The reader's state is what the messages it has taken make of it. */
  ghost predicate Follows(c: Session, s: State, taken: seq<Message>, trace: seq<Message>) {
    && trace == taken + s.channel && s.reader == R.ReadAll(c, R.START, taken).reader
    && WireLinked(1, taken, s.wireEpoch)
  }

  lemma FollowsRead(c: Session, s: State, taken: seq<Message>, trace: seq<Message>)
    requires c.Valid() && Inv(c, s) && Follows(c, s, taken, trace) && Enabled(c, s, Read) && !Next(c, s, Read).stalled
    ensures Follows(c, Next(c, s, Read), taken + [s.channel[0]], trace)
  {
    ReadOnWire(c, s);
    HeadLinked(c, s, taken);
    FollowsTaken(c, s, Next(c, s, Read), taken, trace, s.channel[0]);
  }

  lemma FollowsTaken(c: Session, s: State, t: State, taken: seq<Message>, trace: seq<Message>, m: Message)
    requires Follows(c, s, taken, trace) && s.channel != [] && m == s.channel[0] && WireLinked(1, taken + [m], m.epoch)
    requires t.channel == s.channel[1..] && t.reader == R.Receive(c, s.reader, m).reader && t.wireEpoch == m.epoch
    ensures Follows(c, t, taken + [m], trace)
  {
    ReadMore(c, taken, s.reader, m);
    assert taken + [m] + s.channel[1..] == taken + s.channel;
  }

  lemma ReadMore(c: Session, taken: seq<Message>, r: R.Reader, m: Message)
    requires r == R.ReadAll(c, R.START, taken).reader
    ensures R.ReadAll(c, R.START, taken + [m]).reader == R.Receive(c, r, m).reader
  {
    R.ReadAllConcat(c, R.START, taken, [m]);
    R.ReadAllOne(c, r, m);
  }

  lemma HeadLinked(c: Session, s: State, taken: seq<Message>)
    requires c.Valid() && Inv(c, s) && s.channel != [] && WireLinked(1, taken, s.wireEpoch)
    ensures WireLinked(1, taken + [s.channel[0]], s.channel[0].epoch)
  {
    WireLinkedAppend(1, taken, s.wireEpoch, s.channel[0]);
  }

  lemma FollowsOther(c: Session, s: State, ev: Event, taken: seq<Message>, trace: seq<Message>)
    requires c.Valid() && Follows(c, s, taken, trace) && !ev.Read?
    ensures Follows(c, Next(c, s, ev), taken, trace + Emitted(c, s, ev))
  {
    EventOnWire(c, s, ev);
    FollowsSent(c, s, Next(c, s, ev), taken, trace, Emitted(c, s, ev));
  }

  lemma FollowsSent(c: Session, s: State, t: State, taken: seq<Message>, trace: seq<Message>, sent: seq<Message>)
    requires Follows(c, s, taken, trace)
    requires t.channel == s.channel + sent && t.reader == s.reader && t.wireEpoch == s.wireEpoch
    ensures Follows(c, t, taken, trace + sent)
  {
    assert taken + (s.channel + sent) == trace + sent;
  }

  lemma FollowsStalled(c: Session, s: State, taken: seq<Message>, trace: seq<Message>)
    requires c.Valid() && Follows(c, s, taken, trace) && (!Enabled(c, s, Read) || Next(c, s, Read).stalled)
    ensures Follows(c, Next(c, s, Read), taken, trace)
  {
    if Enabled(c, s, Read) {
      ReadOnWire(c, s);
    }
  }

  lemma {:induction false} RunFollows(c: Session, events: seq<Event>)
    requires c.Valid()
    ensures Follows(c, Run(c, events), Taken(c, events), Trace(c, events))
  {
    if events == [] {
    } else {
      var before, ev := events[..|events| - 1], events[|events| - 1];
      var s, taken, trace := Run(c, before), Taken(c, before), Trace(c, before);
      RunFollows(c, before);
      assert taken + [] == taken && trace + [] == trace;
      if !ev.Read? {
        FollowsOther(c, s, ev, taken, trace);
      } else if Enabled(c, s, Read) && !Next(c, s, Read).stalled {
        RunInv(c, before);
        FollowsRead(c, s, taken, trace);
      } else {
        FollowsStalled(c, s, taken, trace);
      }
    }
  }

  /** The reader accepts every trace the host can emit: it never fails, never asks for recovery, is never poisoned. */
  lemma EveryTraceIsAccepted(c: Session, events: seq<Event>)
    requires c.Valid()
    ensures var r := R.ReadAll(c, R.START, Trace(c, events)).reader;
            r.status == R.Running && r.recoveries == 0 && r.poisoned.None?
    ensures var r := Run(c, events).reader; r.status == R.Running && r.recoveries == 0
  {
    var s, taken := Run(c, events), Taken(c, events);
    RunFollows(c, events);
    RunInv(c, events);
    InvEnd(c, s);
    R.ReadAllConcat(c, R.START, taken, s.channel);
    R.TroubleStays(c, s.reader, s.channel);
  }

  lemma {:induction false} WireLinkedConcat(from: nat, xs: seq<Message>, mid: nat, ys: seq<Message>, to: nat)
    requires WireLinked(from, xs, mid) && WireLinked(mid, ys, to)
    ensures WireLinked(from, xs + ys, to)
    decreases |xs|
  {
    if xs == [] {
      assert xs + ys == ys;
    } else {
      WireLinkedConcat(xs[0].epoch, xs[1..], mid, ys, to);
      assert (xs + ys)[1..] == xs[1..] + ys;
    }
  }

  /** On the whole wire an epoch changes only at a STATE_RESET with a strictly larger one. */
  lemma EpochsOnlyReset(c: Session, events: seq<Event>)
    requires c.Valid()
    ensures WireLinked(1, Trace(c, events), Run(c, events).host.epoch)
  {
    var s := Run(c, events);
    RunFollows(c, events);
    RunInv(c, events);
    WireLinkedConcat(1, Taken(c, events), s.wireEpoch, s.channel, s.host.epoch);
  }

  /** A stream read without trouble is numbered without gaps, and so is its beginning. */
  lemma LastAccepted(c: Session, ms: seq<Message>)
    requires ms != []
    requires R.ReadAll(c, R.START, ms).reader.status == R.Running && R.ReadAll(c, R.START, ms).reader.recoveries == 0
    ensures var init, m := ms[..|ms| - 1], ms[|ms| - 1]; var r := R.ReadAll(c, R.START, init).reader;
            && r.status == R.Running && r.recoveries == 0
            && R.ReadAll(c, R.START, ms).reader == R.Receive(c, r, m).reader
            && m.sequence == r.lastSequence + 1 && R.Receive(c, r, m).reader.lastSequence == m.sequence
  {
    var init, m := ms[..|ms| - 1], ms[|ms| - 1];
    assert init + [m] == ms;
    R.ReadAllConcat(c, R.START, init, [m]);
    R.ReadAllOne(c, R.ReadAll(c, R.START, init).reader, m);
    AcceptedNumber(c, R.ReadAll(c, R.START, init).reader, m);
  }

  lemma AcceptedNumber(c: Session, r: R.Reader, m: Message)
    requires R.Receive(c, r, m).reader.status == R.Running && R.Receive(c, r, m).reader.recoveries == 0
    ensures r.status == R.Running && r.recoveries == 0
    ensures m.sequence == r.lastSequence + 1 && R.Receive(c, r, m).reader.lastSequence == m.sequence
  {
    R.TroubleStaysOne(c, r, m);
  }

  lemma {:induction false} AcceptedIsNumbered(c: Session, ms: seq<Message>)
    requires R.ReadAll(c, R.START, ms).reader.status == R.Running && R.ReadAll(c, R.START, ms).reader.recoveries == 0
    ensures R.ReadAll(c, R.START, ms).reader.lastSequence == |ms|
    ensures forall i | 0 <= i < |ms| :: ms[i].sequence == i + 1
  {
    if ms == [] {
    } else {
      LastAccepted(c, ms);
      AcceptedIsNumbered(c, ms[..|ms| - 1]);
    }
  }

  /** Visual sequence numbers start at one and have no gap. */
  lemma NoSequenceGap(c: Session, events: seq<Event>)
    requires c.Valid()
    ensures forall i | 0 <= i < |Trace(c, events)| :: Trace(c, events)[i].sequence == i + 1
  {
    EveryTraceIsAccepted(c, events);
    AcceptedIsNumbered(c, Trace(c, events));
  }

  predicate UnitOf(m: Message, epoch: nat) { m.body.AccessUnit? && m.epoch == epoch }

  lemma VideoNeedsUnit(c: Session, r: R.Reader, m: Message)
    requires r.status == R.Running && R.Receive(c, r, m).reader.status == R.Running
    ensures var r' := R.Receive(c, r, m).reader;
            r'.pixels == Some(Video) ==> (r.pixels == Some(Video) && r'.pixelEpoch == r.pixelEpoch) ||
                                         UnitOf(m, r'.pixelEpoch)
    ensures m.body.AccessUnit? && !(r.pixels == Some(Video) && r.pixelEpoch == m.epoch) &&
            m.sequence == r.lastSequence + 1 ==>
              m.body.key
  {
  }

  /** A reader that has begun with an epoch's video has read a unit of it. */
  lemma {:induction false} VideoHasUnit(c: Session, ms: seq<Message>)
    requires R.ReadAll(c, R.START, ms).reader.status == R.Running && R.ReadAll(c, R.START, ms).reader.recoveries == 0
    ensures var r := R.ReadAll(c, R.START, ms).reader;
            r.pixels == Some(Video) ==> exists j | 0 <= j < |ms| :: UnitOf(ms[j], r.pixelEpoch)
  {
    if ms == [] {
    } else {
      var init, m := ms[..|ms| - 1], ms[|ms| - 1];
      LastAccepted(c, ms);
      VideoHasUnit(c, init);
      var r := R.ReadAll(c, R.START, init).reader;
      VideoNeedsUnit(c, r, m);
      if r.pixels == Some(Video) {
        var j :| 0 <= j < |init| && UnitOf(init[j], r.pixelEpoch);
        assert UnitOf(ms[j], r.pixelEpoch);
      }
      assert ms[|ms| - 1] == m;
    }
  }

  /** In an accepted stream the first access unit of every epoch is a key frame. */
  lemma {:induction false} AcceptedStartsWithKey(c: Session, ms: seq<Message>, i: nat)
    requires R.ReadAll(c, R.START, ms).reader.status == R.Running && R.ReadAll(c, R.START, ms).reader.recoveries == 0
    requires i < |ms| && ms[i].body.AccessUnit? && forall j | 0 <= j < i :: !UnitOf(ms[j], ms[i].epoch)
    ensures ms[i].body.key
    decreases |ms|
  {
    var init := ms[..|ms| - 1];
    LastAccepted(c, ms);
    if i == |init| {
      VideoHasUnit(c, init);
      VideoNeedsUnit(c, R.ReadAll(c, R.START, init).reader, ms[i]);
    } else {
      AcceptedStartsWithKey(c, init, i);
    }
  }

  /** On the whole wire the first access unit of every epoch is a forced key frame. */
  lemma FirstUnitIsKey(c: Session, events: seq<Event>, i: nat)
    requires c.Valid() && i < |Trace(c, events)| && Trace(c, events)[i].body.AccessUnit?
    requires forall j | 0 <= j < i :: !UnitOf(Trace(c, events)[j], Trace(c, events)[i].epoch)
    ensures Trace(c, events)[i].body.key
  {
    EveryTraceIsAccepted(c, events);
    AcceptedStartsWithKey(c, Trace(c, events), i);
  }

  // ------------------------------------------------------------------ the screen

  /** No video frame is rendered between the begin of a snapshot and its commit or cancel. */
  lemma NoVideoDuringUpload(c: Session, events: seq<Event>, glitch: C.Glitch)
    requires c.Valid() && Enabled(c, Run(c, events), Event.Show(glitch))
    requires Run(c, events).compositor.fb.snapshotActive
    ensures Next(c, Run(c, events), Event.Show(glitch)).compositor.fb == Run(c, events).compositor.fb
  {
    var s := Run(c, events);
    RunInv(c, events);
    ShowScreen(c, s, glitch);
  }

  /** What has been uploaded of a snapshot is a prefix of the frame it carries, and a commit shows that frame whole. */
  lemma UploadsArePrefixes(c: Session, events: seq<Event>)
    requires c.Valid() && Run(c, events).compositor.fb.snapshotActive
    ensures var s := Run(c, events); var fb := s.compositor.fb; var e := s.compositor.canonical.epoch;
            && e in s.snapshots && s.snapshots[e] in s.images &&
            fb.received <= |s.images[s.snapshots[e]]| == |fb.working|
            && fb.working[..fb.received] == s.images[s.snapshots[e]][..fb.received]
            && (fb.received == fb.total ==> fb.working == s.images[s.snapshots[e]])
  {
    var s := Run(c, events);
    RunInv(c, events);
    assert UploadOk(ViewOf(s));
    var image := s.images[s.snapshots[s.compositor.canonical.epoch]];
    assert s.compositor.fb.working[..|image|] == s.compositor.fb.working && image[..|image|] == image;
  }

  // ----------------------------------------------------------------- host's end

  /** What the invariant says about the two turns that can end the host. */
  lemma QuiescingFacts(c: Session, v: View)
    requires HostOk(c, v) && !v.host.halted && v.host.mode == H.Quiescing
    ensures v.host.analyzer.pending.None? && v.host.snapshotEpoch != 0 &&
            (!c.exactOnly ==> v.host.analyzer.latest.Some?)
  {
  }

  /** Turns that end an exact path, or a promotion. */
  predicate Answering(ev: Event) { ev.Resume? || ev.TakeAck? }

  /** Turns that stop video or write a burst. */
  predicate Snapshotting(ev: Event) { ev.EnterQuiescing? || ev.Drain? }

  predicate MayEnd(ev: Event) { ev.TakeSnapshot? || ev.SendRects? }

  predicate SameMail(h: H.Host, t: H.Turn) { t.host.mailbox == h.mailbox && t.host.halted == h.halted }

  lemma ResumeLeavesMail(c: Session, h: H.Host)
    ensures SameMail(h, H.Resume(c, h))
  {
  }

  lemma PromotionLeavesMail(c: Session, h: H.Host)
    ensures SameMail(h, H.PromoteSnapshot(c, h)) && SameMail(h, H.PromoteRects(c, h))
  {
    ResumeLeavesMail(c, h);
  }

  lemma TakeAckBranches(c: Session, h: H.Host, h1: H.Host)
    requires h.mailbox.Some? && h1 == h.(mailbox := None)
    ensures H.TakeAck(c, h) in {H.PromoteSnapshot(c, h1), H.PromoteRects(c, h1), H.Resume(c, h1), H.Idle(h1)}
  {
  }

  /** Taking an acknowledgement empties the mailbox, whatever else it does. */
  lemma TakeAckEmpties(c: Session, h: H.Host)
    requires h.mailbox.Some?
    ensures H.TakeAck(c, h).host.mailbox.None? && H.TakeAck(c, h).host.halted == h.halted
  {
    var h1 := h.(mailbox := None);
    ResumeLeavesMail(c, h1);
    PromotionLeavesMail(c, h1);
    TakeAckBranches(c, h, h1);
  }

  lemma AnsweringGoesOn(c: Session, s: State, ev: Event)
    requires c.Valid() && !s.host.halted && Enabled(c, s, ev) && Answering(ev)
    ensures !Next(c, s, ev).host.halted
  {
    if ev.Resume? {
      ResumeLeavesMail(c, s.host);
    } else {
      TakeAckEmpties(c, s.host);
    }
  }

  lemma SnapshottingGoesOn(c: Session, s: State, ev: Event)
    requires c.Valid() && !s.host.halted && Enabled(c, s, ev) && Snapshotting(ev)
    ensures !Next(c, s, ev).host.halted
  {
    ResumeLeavesMail(c, s.host);
  }

  lemma OthersGoOn(c: Session, s: State, ev: Event)
    requires c.Valid() && !s.host.halted && Enabled(c, s, ev) && !Answering(ev) && !Snapshotting(ev) && !MayEnd(ev)
    ensures !Next(c, s, ev).host.halted
  {
  }

  lemma TakeSnapshotEnds(c: Session, s: State)
    requires c.Valid() && Enabled(c, s, TakeSnapshot)
    ensures Next(c, s, TakeSnapshot).host.halted <==> H.TakeSnapshot(s.host).host.halted
  {
  }

  lemma SendRectsEnds(c: Session, s: State, rects: seq<Rect>)
    requires c.Valid() && Enabled(c, s, Event.SendRects(rects))
    ensures Next(c, s, Event.SendRects(rects)).host.halted <==> !DigestFits(rects)
  {
  }

  lemma OnlyTwoTurnsEnd(c: Session, s: State, ev: Event)
    requires c.Valid() && !s.host.halted && Enabled(c, s, ev)
    ensures !MayEnd(ev) ==> !Next(c, s, ev).host.halted
    ensures ev.TakeSnapshot? ==> (Next(c, s, ev).host.halted <==> H.TakeSnapshot(s.host).host.halted)
    ensures ev.SendRects? ==> (Next(c, s, ev).host.halted <==> !DigestFits(ev.rects))
  {
    if Answering(ev) {
      AnsweringGoesOn(c, s, ev);
    } else if Snapshotting(ev) {
      SnapshottingGoesOn(c, s, ev);
    } else if ev.TakeSnapshot? {
      TakeSnapshotEnds(c, s);
    } else if ev.SendRects? {
      SendRectsEnds(c, s, ev.rects);
    } else {
      OthersGoOn(c, s, ev);
    }
  }

  lemma HaltsAt(c: Session, s: State, ev: Event)
    requires c.Valid() && Inv(c, s) && !s.host.halted && Enabled(c, s, ev)
    ensures Next(c, s, ev).host.halted <==>
              (ev.TakeSnapshot? && c.exactOnly && s.host.analyzer.latest.None?) ||
              (ev.SendRects? && !DigestFits(ev.rects))
  {
    OnlyTwoTurnsEnd(c, s, ev);
    if ev.TakeSnapshot? {
      QuiescingFacts(c, ViewOf(s));
    }
  }

  /**
   An event ends the host exactly when an exact-only session snapshots before its first frame was
   captured, or selects rectangles whose digest would exceed the protocol's limit.
   */
  lemma HostEndsExactlyWhen(c: Session, events: seq<Event>, ev: Event)
    requires c.Valid() && !Run(c, events).host.halted && Enabled(c, Run(c, events), ev)
    ensures Next(c, Run(c, events), ev).host.halted <==>
              (ev.TakeSnapshot? && c.exactOnly && Run(c, events).host.analyzer.latest.None?) ||
              (ev.SendRects? && !DigestFits(ev.rects))
  {
    RunInv(c, events);
    HaltsAt(c, Run(c, events), ev);
  }

  /** A hybrid session's rectangles are too small to be refused, so its host never ends. */
  lemma {:induction false} HybridNeverEnds(c: Session, events: seq<Event>)
    requires c.Valid() && !c.exactOnly
    ensures !Run(c, events).host.halted
  {
    if events == [] {
    } else {
      var before, ev := events[..|events| - 1], events[|events| - 1];
      HybridNeverEnds(c, before);
      if Enabled(c, Run(c, before), ev) {
        HostEndsExactlyWhen(c, before, ev);
      }
    }
  }

  /** The smallest failing case: a recovery request that overtakes the first captured frame. */
  lemma RecoveryBeforeFirstFrameEndsHost(c: Session)
    requires c.Valid() && c.exactOnly
    ensures Run(c, [Resume, TakeSnapshot]).host.halted
  {
    assert [Resume, TakeSnapshot][..1] == [Resume] && [Resume][..0] == [];
    assert Run(c, []) == Start(c);
    var s := Run(c, [Resume]);
    assert s == Take(Start(c), H.Resume(c, Start(c).host));
    assert s.host.mode == H.Quiescing && s.host.analyzer.latest.None?;
  }
}
