/**
 What the viewer's reader lets through, whatever arrives: for any sequence of messages, well-formed or not,
 every command it queues is in order with those before it. A snapshot is committed only after uploads that
 fill its surface from the first byte on, under the hash of exactly these bytes; rectangles only on top of
 what was committed last, under the digest advanced from it.
 */
module ReaderStreams {
  import opened Options
  import opened Pixels
  import opened Wire
  import opened Canonical
  import opened Reader
  import C = Compositor

  /** What has been uploaded since the last begin. */
  datatype Partial = Partial(epoch: nat, frame: nat, surface: Surface, bytes: seq<Byte>)

  /** The last commit. */
  datatype Made = Made(epoch: nat, frame: nat, digest: Digest)

  /** What a list of commands amounts to. */
  datatype Ledger = Ledger(open: Option<Partial>, made: Option<Made>)

  const NOTHING_YET := Ledger(None, None)

  predicate Continues(open: Option<Partial>, cmd: Command)
    requires cmd.Upload?
  {
    && open.Some? && open.value.epoch == cmd.epoch && open.value.frame == cmd.frame
    && |open.value.bytes| == cmd.offset
  }

  function Advance(l: Ledger, cmd: Command): Ledger {
    match cmd
    case Begin(e, f, s) => l.(open := Some(Partial(e, f, s, [])))
    case Upload(_, _, _, bytes) =>
      l.(open := if Continues(l.open, cmd) then Some(l.open.value.(bytes := l.open.value.bytes + bytes)) else None)
    case CommitSnapshot(e, f, digest) => Ledger(None, Some(Made(e, f, digest)))
    case RectTransaction(e, f, _, digest, _) => l.(made := Some(Made(e, f, digest)))
    case Cancel(_) => l.(open := None)
  }

  function After(l: Ledger, cmds: seq<Command>): Ledger
    decreases |cmds|
  {
    if cmds == [] then l else After(Advance(l, cmds[0]), cmds[1..])
  }

  /** A begin opens a snapshot in an epoch beyond that of the last commit, and none is open. */
  predicate ProperBegin(l: Ledger, cmd: Command)
    requires cmd.Begin?
  {
    l.open.None? && (l.made.Some? ==> l.made.value.epoch < cmd.epoch)
  }

  /** An upload goes on where the open snapshot stopped and stays within its surface. */
  predicate ProperUpload(l: Ledger, cmd: Command)
    requires cmd.Upload?
  {
    && Continues(l.open, cmd) && cmd.bytes != []
    && cmd.offset + |cmd.bytes| <= l.open.value.surface.Size()
  }

  /** A commit is of the whole surface and names the hash of what was uploaded. */
  predicate ProperCommit(l: Ledger, cmd: Command)
    requires cmd.CommitSnapshot?
  {
    && l.open.Some? && l.open.value.epoch == cmd.epoch && l.open.value.frame == cmd.frame
    && |l.open.value.bytes| == l.open.value.surface.Size()
    && cmd.digest == OfImage(l.open.value.bytes)
    && (l.made.Some? ==> l.made.value.epoch <= cmd.epoch)
  }

  /** Rectangles go on top of the last commit, to a later frame, fit one surface and do not overlap. */
  ghost predicate ProperRects(l: Ledger, cmd: Command)
    requires cmd.RectTransaction?
  {
    && l.made.Some? && l.made.value.frame == cmd.base < cmd.frame && l.made.value.epoch <= cmd.epoch
    && cmd.digest == OfRects(l.made.value.digest, cmd.frame, cmd.rects)
    && 0 < |cmd.rects| <= MAXIMUM_RECT_COUNT && DigestFits(cmd.rects) && Disjoint(cmd.rects)
    && (exists s :: AllFit(s, cmd.rects))
    && (l.open.Some? ==> cmd.epoch <= l.open.value.epoch)
  }

  ghost predicate Proper(l: Ledger, cmd: Command) {
    match cmd
    case Begin(_, _, _) => ProperBegin(l, cmd)
    case Upload(_, _, _, _) => ProperUpload(l, cmd)
    case CommitSnapshot(_, _, _) => ProperCommit(l, cmd)
    case RectTransaction(_, _, _, _, _) => ProperRects(l, cmd)
    case Cancel(_) => true
  }

  ghost predicate AllProper(l: Ledger, cmds: seq<Command>)
    decreases |cmds|
  {
    cmds == [] || (Proper(l, cmds[0]) && AllProper(Advance(l, cmds[0]), cmds[1..]))
  }

  lemma {:induction false} ProperConcat(l: Ledger, xs: seq<Command>, ys: seq<Command>)
    requires AllProper(l, xs) && AllProper(After(l, xs), ys)
    ensures AllProper(l, xs + ys) && After(l, xs + ys) == After(After(l, xs), ys)
    decreases |xs|
  {
    if xs == [] {
      assert xs + ys == ys;
    } else {
      ProperConcat(Advance(l, xs[0]), xs[1..], ys);
      assert (xs + ys)[1..] == xs[1..] + ys;
    }
  }

  lemma ProperOne(l: Ledger, cmd: Command)
    requires Proper(l, cmd)
    ensures AllProper(l, [cmd]) && After(l, [cmd]) == Advance(l, cmd)
  {
    assert [cmd][1..] == [];
  }

  // ------------------------------------------------- the reader's state and the ledger

  ghost predicate SnapshotAgrees(inc: Incoming, p: Partial) {
    && p.epoch == inc.epoch && p.frame == inc.frame && p.surface == inc.surface
    && inc.hashed == p.bytes + inc.upload && |inc.hashed| == inc.next <= inc.total == inc.surface.Size()
    && (inc.upload != [] ==> inc.uploadOffset == |p.bytes|)
    && 0 < inc.surface.width <= 7680 && |inc.upload| < UploadLimit(inc.surface.Stride())
  }

  ghost predicate RectsAgree(r: Reader, t: IncomingRects) {
    && r.digestValid && t.base == r.pixelFrame < t.target
    && 0 < |t.rects| <= MAXIMUM_RECT_COUNT && AllFit(t.surface, t.rects) && Disjoint(t.rects)
    && (t.epoch == r.pixelEpoch || r.resetEpoch == Some(t.epoch))
    && (r.snapshot.Some? ==> t.epoch <= r.snapshot.value.epoch)
  }

  ghost predicate Agrees(r: Reader, l: Ledger) {
    && (r.snapshot.Some? <==> l.open.Some?)
    && (r.snapshot.Some? ==> SnapshotAgrees(r.snapshot.value, l.open.value) && r.snapshot.value.epoch >= r.pixelEpoch)
    && (r.rects.Some? ==> RectsAgree(r, r.rects.value))
    && (r.digestValid ==> l.made == Some(Made(r.pixelEpoch, r.pixelFrame, r.pixelDigest)))
    && (l.made.Some? ==> l.made.value.epoch <= r.pixelEpoch && r.pixels.Some?)
    && (r.resetEpoch.Some? ==> r.resetEpoch.value > r.pixelEpoch)
  }

  /** What a message makes of both. */
  ghost predicate Goes(l: Ledger, out: Outcome) {
    AllProper(l, out.commands) && Agrees(out.reader, After(l, out.commands))
  }

  // ------------------------------------------------------------------ message by message

  lemma RecoverGoes(r: Reader, l: Ledger)
    requires Agrees(r, l)
    ensures Goes(l, Recover(r))
  {
    ProperOne(l, Cancel(0));
  }

  lemma PoisonGoes(r: Reader, l: Ledger, epoch: nat)
    requires Agrees(r, l)
    ensures Goes(l, Poison(r, epoch))
  {
    ProperOne(l, Cancel(0));
  }

  lemma ResetGoes(r: Reader, l: Ledger, m: Message)
    requires Agrees(r, l)
    ensures Goes(l, OnStateReset(r, m))
  {
    ProperOne(l, Cancel(m.epoch));
  }

  lemma CollectGoes(r: Reader, l: Ledger, m: Message)
    requires Agrees(r, l) && m.body.RawRect? && Decodable(m) && r.digestValid && r.snapshot.None?
    requires m.epoch == r.pixelEpoch || r.resetEpoch == Some(m.epoch)
    ensures Goes(l, Collect(r, m))
  {
    var incoming := if r.rects.Some? then r.rects.value
                    else IncomingRects(m.epoch, m.body.base, m.frame, m.body.surface, []);
    if incoming.base != r.pixelFrame || !incoming.Admits(m) {
      PoisonGoes(r, l, m.epoch);
    } else {
      OneMoreRect(incoming, m);
    }
  }

  lemma OneMoreRect(t: IncomingRects, m: Message)
    requires m.body.RawRect? && Decodable(m) && t.Admits(m)
    requires t.rects == [] ==> t.surface == m.body.surface
    requires AllFit(t.surface, t.rects) && Disjoint(t.rects)
    ensures AllFit(t.surface, t.rects + [m.body.rect]) && Disjoint(t.rects + [m.body.rect])
  {
    var r := m.body.rect;
    forall i | 0 <= i < |t.rects| ensures !t.rects[i].Overlaps(r) {
      assert t.rects[i] in t.rects;
    }
  }

  lemma RectGoes(c: Session, r: Reader, l: Ledger, m: Message)
    requires Agrees(r, l) && m.body.RawRect? && Decodable(m)
    ensures Goes(l, OnRawRect(c, r, m))
  {
    PoisonGoes(r, l, m.epoch);
    if c.rawRect && r.snapshot.None? && r.digestValid &&
       (m.epoch == r.pixelEpoch || r.resetEpoch == Some(m.epoch))
    {
      CollectGoes(r, l, m);
    }
  }

  lemma {:induction false} UploadsGo(l: Ledger, bs: seq<Batch>)
    requires l.open.Some? && Contiguous(bs, |l.open.value.bytes|)
    requires |l.open.value.bytes| + |BatchBytes(bs)| <= l.open.value.surface.Size()
    ensures var p := l.open.value; var cmds := Uploads(p.epoch, p.frame, bs);
            AllProper(l, cmds) && After(l, cmds) == l.(open := Some(p.(bytes := p.bytes + BatchBytes(bs))))
    decreases |bs|
  {
    var p := l.open.value;
    if bs == [] {
      assert p.bytes + [] == p.bytes;
    } else {
      var cmds := Uploads(p.epoch, p.frame, bs);
      assert cmds[0] == Upload(p.epoch, p.frame, bs[0].offset, bs[0].bytes);
      assert cmds[1..] == Uploads(p.epoch, p.frame, bs[1..]);
      UploadsGo(Advance(l, cmds[0]), bs[1..]);
      assert p.bytes + bs[0].bytes + BatchBytes(bs[1..]) == p.bytes + BatchBytes(bs);
    }
  }

  lemma LimitHolds(stride: nat)
    requires 0 < stride <= 4 * 7680
    ensures 0 < UploadLimit(stride)
  {
    assert GPU_UPLOAD_BATCH_BYTES / stride > 0;
  }

  lemma ContinueGoes(r: Reader, l: Ledger, m: Message, inc: Incoming)
    requires Agrees(r, l) && r.snapshot == Some(inc) && m.body.Chunk? && Decodable(m)
    requires inc.epoch == m.epoch && inc.frame == m.frame && inc.surface == m.body.surface
    requires inc.total == m.body.total && inc.next == m.body.offset
    ensures Goes(l, Continue(r, m, inc))
  {
    var p := l.open.value;
    var next := inc.next + |m.body.bytes|;
    var b := Rebatch(inc.uploadOffset, inc.upload, m.body.offset, m.body.bytes, UploadLimit(inc.surface.Stride()),
                     next == inc.total);
    RebatchKeepsBytes(inc.uploadOffset, inc.upload, m.body.offset, m.body.bytes, UploadLimit(inc.surface.Stride()),
                      next == inc.total);
    RebatchKeepsOffsets(inc.uploadOffset, inc.upload, m.body.offset, m.body.bytes, UploadLimit(inc.surface.Stride()),
                        next == inc.total);
    BatchLengths(p.bytes, inc.upload, m.body.bytes, b);
    UploadsGo(l, b.batches);
  }

  lemma BatchLengths(sent: seq<Byte>, held: seq<Byte>, data: seq<Byte>, b: Batching)
    requires BatchBytes(b.batches) + b.buffer == held + data
    ensures |sent| + |BatchBytes(b.batches)| + |b.buffer| == |sent| + |held| + |data|
    ensures sent + held + data == sent + BatchBytes(b.batches) + b.buffer
  {
    assert sent + held + data == sent + (held + data);
    assert sent + BatchBytes(b.batches) + b.buffer == sent + (BatchBytes(b.batches) + b.buffer);
  }

  lemma BeginGoes(r: Reader, l: Ledger, m: Message)
    requires Agrees(r, l) && m.body.Chunk? && Decodable(m) && r.snapshot.None? && r.resetEpoch == Some(m.epoch)
    requires m.body.offset == 0
    ensures var inc := Incoming(m.epoch, m.frame, m.body.surface, m.body.total, 0, 0, [], []);
            var cmd := Begin(m.epoch, m.frame, m.body.surface);
            AllProper(l, [cmd]) && Agrees(r.(snapshot := Some(inc)), After(l, [cmd]))
  {
    ProperOne(l, Begin(m.epoch, m.frame, m.body.surface));
    LimitHolds(m.body.surface.Stride());
  }

  lemma GoesBehind(l: Ledger, first: seq<Command>, out: Outcome)
    requires AllProper(l, first) && Goes(After(l, first), out)
    ensures Goes(l, out.(commands := first + out.commands))
  {
    ProperConcat(l, first, out.commands);
  }

  lemma ChunkGoes(r: Reader, l: Ledger, m: Message)
    requires Agrees(r, l) && m.body.Chunk? && Decodable(m)
    ensures Goes(l, OnChunk(r, m))
  {
    if r.resetEpoch != Some(m.epoch) || (r.snapshot.None? && m.body.offset != 0) {
      RecoverGoes(r, l);
    } else if r.snapshot.None? {
      var inc := Incoming(m.epoch, m.frame, m.body.surface, m.body.total, 0, 0, [], []);
      var begun := [Begin(m.epoch, m.frame, m.body.surface)];
      BeginGoes(r, l, m);
      var r' := r.(snapshot := Some(inc));
      ContinueGoes(r', After(l, begun), m, inc);
      GoesBehind(l, begun, Continue(r', m, inc));
    } else {
      var inc := r.snapshot.value;
      if inc.epoch != m.epoch || inc.frame != m.frame || inc.surface != m.body.surface ||
         inc.total != m.body.total || inc.next != m.body.offset
      {
        RecoverGoes(r, l);
        GoesBehind(l, [], Recover(r));
      } else {
        ContinueGoes(r, l, m, inc);
        assert r.(snapshot := Some(inc)) == r;
        GoesBehind(l, [], Continue(r, m, inc));
      }
    }
  }

  lemma CommitGoes(r: Reader, l: Ledger, m: Message)
    requires Agrees(r, l) && m.body.FrameCommit?
    ensures Goes(l, OnCommit(r, m))
  {
    var out := OnCommit(r, m);
    PoisonGoes(r, l, m.epoch);
    RecoverGoes(r, l);
    if r.rects.Some? && r.rects.value.ReadyToCommit(m) && DigestFits(r.rects.value.rects) {
      assert AllFit(r.rects.value.surface, r.rects.value.rects);
      ProperOne(l, out.commands[0]);
    } else if r.rects.None? && out.commands != [Cancel(0)] {
      var inc := r.snapshot.value;
      assert inc.hashed == l.open.value.bytes + inc.upload == l.open.value.bytes;
      ProperOne(l, out.commands[0]);
    }
  }

  lemma DroppedGoes(r: Reader, l: Ledger, epoch: nat)
    requires Agrees(r, l)
    ensures AllProper(l, Dropped(r, epoch))
    ensures Agrees(r.(snapshot := None, rects := None), After(l, Dropped(r, epoch)))
  {
    var first, second := if r.snapshot.Some? then [Cancel(0)] else [], if r.rects.Some? then [Cancel(epoch)] else [];
    ProperOne(l, Cancel(0));
    ProperOne(After(l, first), Cancel(epoch));
    ProperConcat(l, first, second);
  }

  lemma VideoGoes(c: Session, r: Reader, l: Ledger, m: Message)
    requires Agrees(r, l) && m.body.AccessUnit?
    ensures Goes(l, OnAccessUnit(c, r, m))
  {
    DroppedGoes(r, l, m.epoch);
  }

  lemma MessageGoes(c: Session, r: Reader, l: Ledger, m: Message)
    requires Agrees(r, l)
    ensures Goes(l, Receive(c, r, m))
  {
    var r1 := r.(lastSequence := m.sequence);
    RecoverGoes(r, l);
    if r.status == Running && Decodable(m) && !(c.exactOnly && m.body.AccessUnit?) && m.sequence == r.lastSequence + 1 {
      match m.body
      case Cursor =>
      case StateReset => ResetGoes(r1, l, m);
      case RawRect(_, _, _) => RectGoes(c, r1, l, m);
      case Chunk(_, _, _, _) => ChunkGoes(r1, l, m);
      case FrameCommit(_) => CommitGoes(r1, l, m);
      case AccessUnit(_, _) => VideoGoes(c, r1, l, m);
    }
  }

  // ----------------------------------------------------------------------- any stream

  lemma {:induction false} StreamGoes(c: Session, ms: seq<Message>)
    ensures var all := ReadAll(c, START, ms);
            AllProper(NOTHING_YET, all.commands) && Agrees(all.reader, After(NOTHING_YET, all.commands))
  {
    if ms == [] {
    } else {
      var init, last := ms[..|ms| - 1], ms[|ms| - 1];
      StreamGoes(c, init);
      var before := ReadAll(c, START, init);
      var l := After(NOTHING_YET, before.commands);
      MessageGoes(c, before.reader, l, last);
      ProperConcat(NOTHING_YET, before.commands, Receive(c, before.reader, last).commands);
      assert init + [last] == ms;
      ReadAllConcat(c, START, init, [last]);
      ReadAllOne(c, before.reader, last);
    }
  }

  lemma {:induction false} ProperAt(l: Ledger, cmds: seq<Command>, i: nat)
    requires AllProper(l, cmds) && i < |cmds|
    ensures Proper(After(l, cmds[..i]), cmds[i])
    decreases i
  {
    if i > 0 {
      ProperAt(Advance(l, cmds[0]), cmds[1..], i - 1);
      assert cmds[..i][1..] == cmds[1..][..i - 1];
    }
  }

  /** Whatever the reader is sent, each command it queues is in order with what it has queued before. */
  lemma EveryCommandIsProper(c: Session, ms: seq<Message>, i: nat)
    requires i < |ReadAll(c, START, ms).commands|
    ensures var cmds := ReadAll(c, START, ms).commands; Proper(After(NOTHING_YET, cmds[..i]), cmds[i])
  {
    StreamGoes(c, ms);
    ProperAt(NOTHING_YET, ReadAll(c, START, ms).commands, i);
  }

  // ------------------------------------------------------------------- the screen behind it

  /** The compositor after these commands, with any fault at any of them, and no video in between. */
  ghost function Screen(cmds: seq<Command>, faults: nat -> C.Fault): C.Compositor
    decreases |cmds|
  {
    if cmds == [] then C.START
    else
      var n := |cmds| - 1;
      var v := Screen(cmds[..n], faults);
      if v.fb.Valid() then C.Execute(v, cmds[n], faults(n)).compositor else v
  }

  /** An upload that is still open on the screen holds what the commands have brought so far. */
  ghost predicate Keeps(v: C.Compositor, l: Ledger) {
    && v.fb.Valid() && !v.fb.updateActive
    && (v.fb.snapshotActive ==>
          && l.open.Some? && v.fb.surface == l.open.value.surface
          && v.canonical.epoch == l.open.value.epoch && v.canonical.representation == Snapshot
          && v.fb.working[..v.fb.received] == l.open.value.bytes)
  }

  lemma BeginKeeps(v: C.Compositor, l: Ledger, cmd: Command, fault: C.Fault)
    requires Keeps(v, l) && cmd.Begin?
    ensures Keeps(C.DoBegin(v, cmd, fault).compositor, Advance(l, cmd))
  {
  }

  lemma UploadKeeps(v: C.Compositor, l: Ledger, cmd: Command)
    requires Keeps(v, l) && cmd.Upload? && Proper(l, cmd)
    ensures Keeps(C.DoUpload(v, cmd).compositor, Advance(l, cmd))
  {
    var fb := v.fb.WriteChunk(cmd.offset, cmd.bytes);
    if fb.Some? {
      assert fb.value.working[..fb.value.received] == v.fb.working[..v.fb.received] + cmd.bytes;
    }
  }

  lemma CommitKeeps(v: C.Compositor, l: Ledger, cmd: Command, fault: C.Fault)
    requires Keeps(v, l) && cmd.CommitSnapshot? && Proper(l, cmd)
    ensures var done := C.DoCommitSnapshot(v, cmd, fault);
            && Keeps(done.compositor, Advance(l, cmd))
            && (done.ack.Some? ==> done.ack.value.digest == OfImage(done.compositor.fb.committed))
  {
    assert v.fb.received == |v.fb.working| ==> v.fb.working[..v.fb.received] == v.fb.working;
  }

  lemma RectsKeep(v: C.Compositor, l: Ledger, cmd: Command, fault: C.Fault)
    requires Keeps(v, l) && cmd.RectTransaction? && Proper(l, cmd)
    ensures Keeps(C.DoRects(v, cmd, fault).compositor, Advance(l, cmd))
  {
    if v.fb.PatchAll(cmd.rects).Some? {
      assert v.fb.Patching(cmd.rects) == v.fb.PatchAll(cmd.rects).value;
    }
  }

  lemma PerformKeeps(v: C.Compositor, l: Ledger, cmd: Command, fault: C.Fault)
    requires Keeps(v, l) && Proper(l, cmd)
    ensures var done := C.Perform(v, cmd, fault);
            && Keeps(done.compositor, Advance(l, cmd))
            && (cmd.CommitSnapshot? && done.ack.Some? ==>
                  done.ack.value.digest == OfImage(done.compositor.fb.committed))
  {
    match cmd
    case Begin(_, _, _) => BeginKeeps(v, l, cmd, fault);
    case Upload(_, _, _, _) => UploadKeeps(v, l, cmd);
    case CommitSnapshot(_, _, _) => CommitKeeps(v, l, cmd, fault);
    case RectTransaction(_, _, _, _, _) => RectsKeep(v, l, cmd, fault);
    case Cancel(_) =>
  }

  lemma ExecuteKeeps(v: C.Compositor, l: Ledger, cmd: Command, fault: C.Fault)
    requires Keeps(v, l) && Proper(l, cmd)
    ensures var done := C.Execute(v, cmd, fault);
            && Keeps(done.compositor, Advance(l, cmd))
            && (cmd.CommitSnapshot? && done.ack.Some? ==>
                  done.ack.value.digest == OfImage(done.compositor.fb.committed))
  {
    var w := C.Watchdog(v, fault.timedOut).(lastEpoch := cmd.epoch);
    if v.uploading ==> fault.timedOut ==> !fault.dropped {
      PerformKeeps(w, l, cmd, fault);
    }
  }

  lemma {:induction false} AfterMore(l: Ledger, cmds: seq<Command>, cmd: Command)
    ensures After(l, cmds + [cmd]) == Advance(After(l, cmds), cmd)
    decreases |cmds|
  {
    if cmds == [] {
      assert [cmd][1..] == [];
    } else {
      AfterMore(Advance(l, cmds[0]), cmds[1..], cmd);
      assert (cmds + [cmd])[1..] == cmds[1..] + [cmd];
    }
  }

  lemma {:induction false} ScreenKeeps(c: Session, ms: seq<Message>, faults: nat -> C.Fault, i: nat)
    requires i <= |ReadAll(c, START, ms).commands|
    ensures var past := ReadAll(c, START, ms).commands[..i]; Keeps(Screen(past, faults), After(NOTHING_YET, past))
  {
    if i > 0 {
      var cmds := ReadAll(c, START, ms).commands;
      ScreenKeeps(c, ms, faults, i - 1);
      EveryCommandIsProper(c, ms, i - 1);
      assert cmds[..i] == cmds[..i - 1] + [cmds[i - 1]];
      ExecuteKeeps(Screen(cmds[..i - 1], faults), After(NOTHING_YET, cmds[..i - 1]), cmds[i - 1], faults(i - 1));
      AfterMore(NOTHING_YET, cmds[..i - 1], cmds[i - 1]);
    }
  }

  /**
   Whatever the reader is sent and whatever fails on the way, a snapshot that is acknowledged is
   acknowledged with the hash of the image that is then on the screen.
   */
  lemma SnapshotAckIsOfTheImage(c: Session, ms: seq<Message>, faults: nat -> C.Fault, i: nat)
    requires i < |ReadAll(c, START, ms).commands| && ReadAll(c, START, ms).commands[i].CommitSnapshot?
    ensures var cmds := ReadAll(c, START, ms).commands; var v := Screen(cmds[..i], faults);
            v.fb.Valid() &&
            var done := C.Execute(v, cmds[i], faults(i));
            done.ack.Some? ==> done.ack.value.digest == OfImage(done.compositor.fb.committed)
  {
    var cmds := ReadAll(c, START, ms).commands;
    ScreenKeeps(c, ms, faults, i);
    EveryCommandIsProper(c, ms, i);
    ExecuteKeeps(Screen(cmds[..i], faults), After(NOTHING_YET, cmds[..i]), cmds[i], faults(i));
  }
}
