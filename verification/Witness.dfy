/**
 A complete run of the smallest session, so that what is proved about exact modes is proved about
 something: one pixel becomes exact by a snapshot and then stays exact by a rectangle.
 */
module Witness {
  import opened Options
  import opened Pixels
  import opened Wire
  import opened Canonical
  import opened FramebufferSpec
  import H = Host
  import R = Reader
  import C = Compositor
  import opened System

  const ONE_PIXEL := Surface(1, 1)
  const SMALL := Session(ONE_PIXEL, false, true)

  /** The host alone, up to the whole snapshot on the wire. */
  function Opening(p: seq<Byte>): seq<Message> {
    [Message(1, 2, 1, StateReset), Message(2, 2, 1, Chunk(ONE_PIXEL, 4, 0, p)), Message(3, 2, 1, FrameCommit(0))]
  }

  lemma OneChunk(p: seq<Byte>)
    requires |p| == 4
    ensures H.ChunkBytes(4) == 64 * 1024
    ensures H.Burst(0, 4, 64 * 1024, 0) == [H.Range(0, 4)] && H.End([H.Range(0, 4)], 0) == 4
    ensures H.Chunks(SMALL, H.Source(1, 1, p), [H.Range(0, 4)]) == [Chunk(ONE_PIXEL, 4, 0, p)]
  {
    assert p[0..4] == p;
  }

  lemma Snapshotted(p: seq<Byte>, s: State)
    requires |p| == 4
    requires s == Next(SMALL, Next(SMALL, Next(SMALL, Next(SMALL, Start(SMALL), Capture(1, true, p)), EnterQuiescing),
                                   TakeSnapshot), Event.Drain)
    ensures s.channel == Opening(p) && !s.stalled && !s.ended && s.queue == [] && s.acks == []
    ensures s.reader == R.START && s.compositor == C.START
    ensures var h := s.host; !h.halted && h.mode == H.AwaitingAck && h.epoch == 2 && h.snapshotEpoch == 2 &&
                             h.snapshotFrame == 1 && h.snapshotDigest == OfImage(p) && h.sequence == 3 &&
                             h.mailbox.None? &&
                             h.analyzer == H.Analyzer(Some(H.Source(1, 1, p)), None, Some(H.Source(1, 1, p)))
  {
    OneChunk(p);
    var s1 := Next(SMALL, Start(SMALL), Capture(1, true, p));
    assert s1.host == H.Start(SMALL).(analyzer := H.Analyzer(Some(H.Source(1, 1, p)), None, None));
    var s2 := Next(SMALL, s1, EnterQuiescing);
    assert s2.host.mode == H.Quiescing && s2.host.epoch == 2 && s2.channel == [Message(1, 2, 1, StateReset)];
    var s3 := Next(SMALL, s2, TakeSnapshot);
    assert s3.host.mode == H.Sending && s3.host.draining == Some(H.Source(1, 1, p)) && s3.channel == s2.channel;
  }

  /** Reads everything on the wire. */
  ghost function ReadThree(s: State): State { Next(SMALL, Next(SMALL, Next(SMALL, s, Read), Read), Read) }

  function Commands(p: seq<Byte>): seq<Command> {
    [Cancel(2), Begin(2, 1, ONE_PIXEL), Upload(2, 1, 0, p), CommitSnapshot(2, 1, OfImage(p))]
  }

  lemma SnapshotRead(p: seq<Byte>, s: State)
    requires |p| == 4 && s.channel == Opening(p) && !s.stalled && s.queue == [] && s.reader == R.START
    ensures var t := ReadThree(s);
            t.queue == Commands(p) && t.channel == [] && t.host == s.host && t.compositor == s.compositor &&
            t.acks == s.acks && !t.stalled && t.ended == s.ended
    ensures var r := ReadThree(s).reader;
            r.status == R.Running && r.lastSequence == 3 && r.snapshot.None? && r.rects.None? &&
            r.pixelEpoch == 2 && r.pixelFrame == 1 && r.pixelDigest == OfImage(p) && r.digestValid &&
            r.pixels == Some(Snapshot) && r.poisoned.None?
  {
    var s1 := Next(SMALL, s, Read);
    assert s1.queue == [Cancel(2)] && s1.channel == Opening(p)[1..] &&
           s1.reader == R.START.(lastSequence := 1, resetEpoch := Some(2));
    ChunkRead(p, s1);
    CommitRead(p, Next(SMALL, s1, Read));
  }

  lemma CommitRead(p: seq<Byte>, s: State)
    requires |p| == 4 && s.channel == [Message(3, 2, 1, FrameCommit(0))] && !s.stalled
    requires s.queue == [Cancel(2), Begin(2, 1, ONE_PIXEL), Upload(2, 1, 0, p)]
    requires s.reader == R.START.(lastSequence := 2, resetEpoch := Some(2),
                                  snapshot := Some(R.Incoming(2, 1, ONE_PIXEL, 4, 4, 0, [], p)))
    ensures var t := Next(SMALL, s, Read);
            && t == s.(channel := [], wireEpoch := 2, queue := Commands(p), reader := t.reader)
            && t.reader == R.START.(lastSequence := 3, pixelEpoch := 2, pixels := Some(Snapshot), pixelFrame := 1,
                                    pixelDigest := OfImage(p), digestValid := true)
  {
  }

  lemma ChunkRead(p: seq<Byte>, s: State)
    requires |p| == 4 && s.channel == Opening(p)[1..] && !s.stalled && s.queue == [Cancel(2)]
    requires s.reader == R.START.(lastSequence := 1, resetEpoch := Some(2))
    ensures var t := Next(SMALL, s, Read); t == s.(channel := [Message(3, 2, 1, FrameCommit(0))], wireEpoch := 2,
                                                   queue := [Cancel(2), Begin(2, 1, ONE_PIXEL), Upload(2, 1, 0, p)],
                                                   reader := t.reader)
    ensures Next(SMALL, s, Read).reader ==
            s.reader.(lastSequence := 2, snapshot := Some(R.Incoming(2, 1, ONE_PIXEL, 4, 4, 0, [], p)))
  {
    OneBatch(p);
  }

  lemma OneBatch(p: seq<Byte>)
    requires |p| == 4
    ensures R.UploadLimit(4) == 1024 * 1024
    ensures R.Rebatch(0, [], 0, p, 1024 * 1024, true) == R.Batching([R.Batch(0, p)], 0, [])
    ensures R.Uploads(2, 1, [R.Batch(0, p)]) == [Upload(2, 1, 0, p)] && [] + p == p
  {
    assert p[..4] == p && p[4..] == [] && [] + p == p;
    assert R.Rebatch(0, [], 4, [], 1024 * 1024, true) == R.Batching([], 0, []);
  }

  ghost function ComposeTwo(s: State): State {
    Next(SMALL, Next(SMALL, s, Compose(C.NO_FAULT)), Compose(C.NO_FAULT))
  }

  const UPLOADING := EMPTY.EnsureSurface(ONE_PIXEL).(snapshotActive := true, received := 0, total := 4)

  lemma UploadBegun(p: seq<Byte>, s: State)
    requires |p| == 4 && s.queue == Commands(p) && s.compositor == C.START && s.acks == [] && !s.ended
    ensures var t := ComposeTwo(s); t == s.(queue := Commands(p)[2..], compositor := t.compositor)
    ensures var v := ComposeTwo(s).compositor; v.fb == UPLOADING && v.uploading &&
                                               v.canonical == FRESH.(representation := Snapshot, epoch := 2)
  {
    var s1 := Next(SMALL, s, Compose(C.NO_FAULT));
    assert s1.compositor.fb == EMPTY && s1.compositor.canonical == FRESH && s1.queue == Commands(p)[1..];
  }

  lemma UploadEnded(p: seq<Byte>, s: State)
    requires |p| == 4 && s.queue == Commands(p)[2..] && s.acks == [] && !s.ended && s.compositor.fb == UPLOADING &&
             s.compositor.uploading
    requires s.compositor.canonical == FRESH.(representation := Snapshot, epoch := 2)
    ensures var t := ComposeTwo(s); t == s.(queue := [], acks := [Ack(2, 1, OfImage(p))], compositor := t.compositor)
    ensures Shows(p, ComposeTwo(s).compositor)
  {
    var s1 := Next(SMALL, s, Compose(C.NO_FAULT));
    assert UPLOADING.working[..0] + p + UPLOADING.working[4..] == p;
    assert s1.compositor.fb == s.compositor.fb.(working := p, received := 4);
    assert s1.compositor.canonical == s.compositor.canonical && s1.queue == Commands(p)[3..] && s1.acks == [];
  }

  /** The screen shows the first image, exactly. */
  ghost predicate Shows(p: seq<Byte>, v: C.Compositor) {
    && v.fb.Valid() && v.fb.initialized && v.fb.committed == p && v.fb.surface == ONE_PIXEL
    && !v.fb.updateActive && !v.fb.snapshotActive && v.canonical == Canonical(Snapshot, Exact, 2, 1, 0, 0, None) &&
    !v.uploading
  }

  ghost function ComposeFour(s: State): State { ComposeTwo(ComposeTwo(s)) }

  lemma SnapshotShown(p: seq<Byte>, s: State)
    requires |p| == 4 && s.queue == Commands(p) && s.compositor == C.START && s.acks == [] && !s.ended
    ensures var t := ComposeFour(s); t == s.(queue := [], acks := [Ack(2, 1, OfImage(p))], compositor := t.compositor)
    ensures Shows(p, ComposeFour(s).compositor)
  {
    UploadBegun(p, s);
    UploadEnded(p, ComposeTwo(s));
  }

  function Change(q: seq<Byte>): seq<Rect>
    requires |q| == 4
  {
    [Rect(0, 0, 1, 1, q)]
  }

  lemma ChangePaints(p: seq<Byte>, q: seq<Byte>)
    requires |p| == |q| == 4
    ensures AllFit(ONE_PIXEL, Change(q)) && Disjoint(Change(q)) && RectBytes(Change(q)) == 4
    ensures PaintAll(p, ONE_PIXEL, Change(q)) == q
    ensures H.Candidate(SMALL, p, q, Change(q)) && DigestFits(Change(q))
  {
    assert Change(q)[..0] == [];
    forall k | 0 <= k < 4 ensures Painted(p, ONE_PIXEL, Change(q)[0])[k] == q[k] {
      PaintedAt(p, ONE_PIXEL, Change(q)[0], 0, k);
    }
    assert PaintAll(p, ONE_PIXEL, []) == p;
  }

  /** The first promotion, the second capture and its rectangle. */
  ghost function Promote(s: State, q: seq<Byte>): State
    requires |q| == 4
  {
    Next(SMALL, Next(SMALL, Next(SMALL, Next(SMALL, s, AckArrives), TakeAck), Capture(2, true, q)),
         Event.SendRects(Change(q)))
  }

  function Updating(q: seq<Byte>): seq<Message>
    requires |q| == 4
  {
    [Message(4, 3, 1, StateReset), Message(5, 3, 2, RawRect(1, ONE_PIXEL, Change(q)[0])),
     Message(6, 3, 2, FrameCommit(1))]
  }

  lemma Promoted(p: seq<Byte>, q: seq<Byte>, s: State)
    requires |p| == |q| == 4 && s.acks == [Ack(2, 1, OfImage(p))] && s.channel == []
    requires var h := s.host; !h.halted && h.mode == H.AwaitingAck && h.epoch == 2 && h.snapshotEpoch == 2 &&
                              h.snapshotFrame == 1 && h.snapshotDigest == OfImage(p) && h.sequence == 3 &&
                              h.mailbox.None? &&
                              h.analyzer == H.Analyzer(Some(H.Source(1, 1, p)), None, Some(H.Source(1, 1, p)))
    ensures var t := Promote(s, q);
            t.channel == Updating(q) && t.acks == [] && t.queue == s.queue && t.reader == s.reader &&
            t.compositor == s.compositor && t.stalled == s.stalled && t.ended == s.ended
    ensures var h := Promote(s, q).host;
            !h.halted && h.mode == H.AwaitingRectAck && h.rectEpoch == 3 && h.rectTarget == 2 &&
            h.rectDigest == OfRects(OfImage(p), 2, Change(q)) && h.mailbox.None? &&
            h.analyzer.pending == Some(H.Source(2, 2, q))
  {
    var s1 := Next(SMALL, s, AckArrives);
    assert s1.host.mailbox == Some(Ack(2, 1, OfImage(p))) && s1.acks == [];
    var s2 := Next(SMALL, s1, TakeAck);
    FirstPromotion(p, s1);
    ChangeSent(p, q, s2);
  }

  lemma FirstPromotion(p: seq<Byte>, s: State)
    requires |p| == 4 && s.host.mailbox == Some(Ack(2, 1, OfImage(p))) && s.channel == []
    requires var h := s.host; !h.halted && h.mode == H.AwaitingAck && h.epoch == 2 && h.snapshotEpoch == 2 &&
                              h.snapshotFrame == 1 && h.snapshotDigest == OfImage(p) && h.sequence == 3 &&
                              h.analyzer == H.Analyzer(Some(H.Source(1, 1, p)), None, Some(H.Source(1, 1, p)))
    ensures var t := Next(SMALL, s, TakeAck); t == s.(host := t.host, channel := [Message(4, 3, 1, StateReset)])
    ensures OnFirst(p, Next(SMALL, s, TakeAck).host)
  {
  }

  predicate OnFirst(p: seq<Byte>, h: H.Host) {
    && !h.halted && h.mode == H.ExactMode && h.epoch == 3 && h.rectEpoch == 3 && h.exactFrame == 1 && h.mailbox.None?
    && h.exactDigest == OfImage(p) && h.sequence == 4
    && h.analyzer == H.Analyzer(Some(H.Source(1, 1, p)), Some(H.Source(1, 1, p)), None)
  }

  lemma ChangeSent(p: seq<Byte>, q: seq<Byte>, s: State)
    requires |p| == |q| == 4 && OnFirst(p, s.host) && s.channel == [Message(4, 3, 1, StateReset)]
    ensures var t := Next(SMALL, Next(SMALL, s, Capture(2, true, q)), Event.SendRects(Change(q)));
            && t.channel == Updating(q) && t == s.(host := t.host, channel := t.channel, images := t.images)
            && var h := t.host;
               !h.halted && h.mode == H.AwaitingRectAck && h.rectEpoch == 3 && h.rectTarget == 2 &&
               h.rectDigest == OfRects(OfImage(p), 2, Change(q)) && h.mailbox.None? &&
               h.analyzer.pending == Some(H.Source(2, 2, q))
  {
    var s1 := Next(SMALL, s, Capture(2, true, q));
    assert s1.host == s.host.(analyzer := H.Analyzer(Some(H.Source(2, 2, q)), Some(H.Source(1, 1, p)), None));
    ChangePaints(p, q);
    assert Enabled(SMALL, s1, Event.SendRects(Change(q)));
    assert H.RectBodies(1, ONE_PIXEL, Change(q)) +
           [FrameCommit(1)] == [RawRect(1, ONE_PIXEL, Change(q)[0]), FrameCommit(1)];
  }

  lemma RectRead(p: seq<Byte>, q: seq<Byte>, s: State)
    requires |p| == |q| == 4 && s.channel == Updating(q) && !s.stalled && s.queue == []
    requires var r := s.reader; r.status == R.Running && r.lastSequence == 3 && r.snapshot.None? && r.rects.None? &&
                                r.pixelEpoch == 2 && r.pixelFrame == 1 && r.pixelDigest == OfImage(p) &&
                                r.digestValid &&
                                r.pixels == Some(Snapshot) && r.poisoned.None?
    ensures var t := ReadThree(s); t.host == s.host && t.compositor == s.compositor && t.acks == s.acks &&
                                   t.ended == s.ended &&
                                   t.queue == [Cancel(3), RectTransaction(3, 2, 1, OfRects(OfImage(p), 2, Change(q)),
                                       Change(q))]
  {
    ChangePaints(p, q);
    var s1 := Next(SMALL, s, Read);
    assert s1.queue == [Cancel(3)] && s1.channel == Updating(q)[1..];
    assert s1.reader == s.reader.(lastSequence := 4, resetEpoch := Some(3));
    ChangeRead(p, q, s1);
    var s2 := Next(SMALL, s1, Read);
    assert s2.channel == Updating(q)[2..];
  }

  lemma ChangeRead(p: seq<Byte>, q: seq<Byte>, s: State)
    requires |p| == |q| == 4 && s.channel == Updating(q)[1..] && !s.stalled && s.queue == [Cancel(3)]
    requires var r := s.reader; r.status == R.Running && r.lastSequence == 4 && r.snapshot.None? && r.rects.None? &&
                                r.pixelFrame == 1 && r.digestValid && r.pixels == Some(Snapshot) && r.poisoned.None? &&
                                r.resetEpoch == Some(3)
    ensures var t := Next(SMALL, s, Read);
            && t == s.(channel := s.channel[1..], wireEpoch := 3, reader := t.reader)
            && t.reader == s.reader.(lastSequence := 5, rects := Some(R.IncomingRects(3, 1, 2, ONE_PIXEL, Change(q))))
  {
    ChangePaints(p, q);
    assert [] + [Change(q)[0]] == Change(q);
    assert s.queue + [] == s.queue;
  }

  lemma RectShown(p: seq<Byte>, q: seq<Byte>, d: Digest, s: State)
    requires |p| == |q| == 4 && s.queue == [Cancel(3), RectTransaction(3, 2, 1, d, Change(q))] && s.acks == [] &&
             !s.ended
    requires Shows(p, s.compositor)
    ensures var t := ComposeTwo(s); t.acks == [Ack(3, 2, d)] && t.host == s.host && t.compositor.fb.committed == q
  {
    ChangePaints(p, q);
    var s1 := Next(SMALL, s, Compose(C.NO_FAULT));
    assert s1.compositor.canonical == s.compositor.canonical && s1.queue == s.queue[1..];
    RectTransactionCommits(s1.compositor.fb, Change(q), 2);
    PatchAllPaints(s1.compositor.fb, Change(q));
    var s2 := Next(SMALL, s1, Compose(C.NO_FAULT));
    assert s2.compositor.fb.committed == q;
  }

  ghost function Finish(s: State): State { Next(SMALL, Next(SMALL, s, AckArrives), TakeAck) }

  lemma Finished(q: seq<Byte>, s: State)
    requires s.acks == [Ack(3, 2, s.host.rectDigest)]
    requires var h := s.host; !h.halted && h.mode == H.AwaitingRectAck && h.rectEpoch == 3 && h.rectTarget == 2 &&
                              h.mailbox.None? && h.analyzer.pending == Some(H.Source(2, 2, q))
    ensures var t := Finish(s); t.host.mode == H.ExactMode && t.host.exactFrame == 2 && t.compositor == s.compositor &&
                                t.host.analyzer.canonical == Some(H.Source(2, 2, q))
  {
    var s1 := Next(SMALL, s, AckArrives);
    assert s1.host == s.host.(mailbox := Some(Ack(3, 2, s.host.rectDigest)));
  }

  function Events(p: seq<Byte>, q: seq<Byte>): seq<Event>
    requires |p| == |q| == 4
  {
    [Capture(1, true, p), EnterQuiescing, TakeSnapshot, Event.Drain] + [Read, Read, Read] +
    [Compose(C.NO_FAULT), Compose(C.NO_FAULT), Compose(C.NO_FAULT), Compose(C.NO_FAULT)] +
    [AckArrives, TakeAck, Capture(2, true, q), Event.SendRects(Change(q))] + [Read, Read, Read] +
    [Compose(C.NO_FAULT), Compose(C.NO_FAULT)] + [AckArrives, TakeAck]
  }

  lemma RunMore(events: seq<Event>, ev: Event)
    ensures Run(SMALL, events + [ev]) == Next(SMALL, Run(SMALL, events), ev)
  {
    assert (events + [ev])[..|events|] == events;
  }

  ghost function After(s: State, events: seq<Event>): State
    decreases |events|
  {
    if events == [] then s else After(Next(SMALL, s, events[0]), events[1..])
  }

  lemma {:induction false} RunAfter(before: seq<Event>, events: seq<Event>)
    ensures Run(SMALL, before + events) == After(Run(SMALL, before), events)
    decreases |events|
  {
    if events == [] {
      assert before + events == before;
    } else {
      assert before + [events[0]] + events[1..] == before + events;
      RunMore(before, events[0]);
      RunAfter(before + [events[0]], events[1..]);
    }
  }

  lemma {:induction false} AfterConcat(s: State, xs: seq<Event>, ys: seq<Event>)
    ensures After(s, xs + ys) == After(After(s, xs), ys)
    decreases |xs|
  {
    if xs == [] {
      assert xs + ys == ys;
    } else {
      assert (xs + ys)[1..] == xs[1..] + ys && (xs + ys)[0] == xs[0];
      AfterConcat(Next(SMALL, s, xs[0]), xs[1..], ys);
    }
  }

  lemma AfterOne(s: State, a: Event)
    ensures After(s, [a]) == Next(SMALL, s, a)
  {
    assert [a][1..] == [] && After(Next(SMALL, s, a), []) == Next(SMALL, s, a);
  }

  lemma AfterTwo(s: State, a: Event, b: Event)
    ensures After(s, [a, b]) == Next(SMALL, Next(SMALL, s, a), b)
  {
    assert [a, b][1..] == [b];
    AfterOne(Next(SMALL, s, a), b);
  }

  lemma AfterThree(s: State, a: Event, b: Event, c: Event)
    ensures After(s, [a, b, c]) == Next(SMALL, Next(SMALL, Next(SMALL, s, a), b), c)
  {
    assert [a, b, c][1..] == [b, c];
    AfterTwo(Next(SMALL, s, a), b, c);
  }

  lemma AfterFour(s: State, a: Event, b: Event, c: Event, d: Event)
    ensures After(s, [a, b, c, d]) == Next(SMALL, Next(SMALL, Next(SMALL, Next(SMALL, s, a), b), c), d)
  {
    assert [a, b, c, d][1..] == [b, c, d];
    AfterThree(Next(SMALL, s, a), b, c, d);
  }

  lemma AfterAll(p: seq<Byte>, q: seq<Byte>)
    requires |p| == |q| == 4
    ensures After(Start(SMALL), Events(p, q)) ==
            Finish(ComposeTwo(ReadThree(Promote(ComposeFour(ReadThree(
              Next(SMALL, Next(SMALL, Next(SMALL, Next(SMALL, Start(SMALL), Capture(1, true, p)), EnterQuiescing),
                               TakeSnapshot), Event.Drain))), q))))
  {
    var start, n := Start(SMALL), Compose(C.NO_FAULT);
    var a, b, c := [Capture(1, true, p), EnterQuiescing, TakeSnapshot, Event.Drain], [Read, Read, Read], [n, n, n, n];
    var d, e, f := [AckArrives, TakeAck, Capture(2, true, q), Event.SendRects(Change(q))], [n, n],
                   [AckArrives, TakeAck];
    AfterConcat(start, a + b + c + d + b + e, f);
    AfterConcat(start, a + b + c + d + b, e);
    AfterConcat(start, a + b + c + d, b);
    AfterConcat(start, a + b + c, d);
    AfterConcat(start, a + b, c);
    AfterConcat(start, a, b);
    AfterFour(start, Capture(1, true, p), EnterQuiescing, TakeSnapshot, Event.Drain);
    var s1 := After(start, a);
    AfterThree(s1, Read, Read, Read);
    var s2 := ReadThree(s1);
    AfterFour(s2, n, n, n, n);
    var s3 := ComposeFour(s2);
    AfterFour(s3, AckArrives, TakeAck, Capture(2, true, q), Event.SendRects(Change(q)));
    var s4 := Promote(s3, q);
    AfterThree(s4, Read, Read, Read);
    var s5 := ReadThree(s4);
    AfterTwo(s5, n, n);
    var s6 := ComposeTwo(s5);
    AfterTwo(s6, AckArrives, TakeAck);
  }

  /** Any two images of one pixel: the run ends with the host exact on the second and the screen showing it. */
  lemma ExactIsReachable(p: seq<Byte>, q: seq<Byte>)
    requires |p| == |q| == 4
    ensures var s := Run(SMALL, Events(p, q));
            && s.host.mode == H.ExactMode && s.host.exactFrame == 2
            && s.host.analyzer.canonical == Some(H.Source(2, 2, q)) && s.compositor.fb.committed == q
  {
    RunAfter([], Events(p, q));
    assert [] + Events(p, q) == Events(p, q) && Run(SMALL, []) == Start(SMALL);
    var s1 := Next(SMALL, Next(SMALL, Next(SMALL, Next(SMALL, Start(SMALL), Capture(1, true, p)), EnterQuiescing),
                               TakeSnapshot), Event.Drain);
    Snapshotted(p, s1);
    var s2 := ReadThree(s1);
    SnapshotRead(p, s1);
    var s3 := ComposeFour(s2);
    SnapshotShown(p, s2);
    var s4 := Promote(s3, q);
    Promoted(p, q, s3);
    var s5 := ReadThree(s4);
    RectRead(p, q, s4);
    var s6 := ComposeTwo(s5);
    RectShown(p, q, OfRects(OfImage(p), 2, Change(q)), s5);
    Finished(q, s6);
    AfterAll(p, q);
  }
}
