/** The compositor's events keep the invariant. */
module ScreenSteps {
  import opened Options
  import opened Pixels
  import opened Wire
  import opened Canonical
  import FramebufferSpec
  import H = Host
  import R = Reader
  import C = Compositor
  import opened System
  import opened Invariant

  ghost predicate ImagesOk(c: Session, v: View) {
    forall f <- v.images :: |v.images[f]| == c.surface.Size()
  }

  /** What a command may do to the record of the shown frame, and what an acknowledgement stands for. */
  ghost predicate Recorded(v: View, cmd: Command, done: C.Executed) {
    && (cmd.Begin? || cmd.Upload? || cmd.Cancel? ==> done.ack.None? && done.compositor.shown == v.compositor.shown)
    && (done.ack.Some? ==> done.ack.value == Ack(cmd.epoch, cmd.frame, cmd.digest))
    && (done.ack.Some? && cmd.CommitSnapshot? ==>
          done.compositor.shown == Some(C.Shown(cmd.epoch, cmd.frame)))
    && (done.ack.Some? && cmd.RectTransaction? && v.compositor.shown.Some? &&
        v.compositor.shown.value.frame == cmd.base ==>
          done.compositor.shown == Some(C.Shown(cmd.epoch, cmd.frame)))
  }

  lemma AbortScreen(c: Session, v: View, comp: C.Compositor, epoch: nat)
    requires comp.fb.Valid() && (comp.fb.initialized || comp.fb.snapshotActive ==> comp.fb.surface == c.surface)
    requires comp.shown.Some? ==> ShownOk(v.(compositor := comp))
    ensures ScreenOk(c, v.(compositor := C.Abort(comp, epoch).compositor))
  {
  }

  lemma BeginScreen(c: Session, v: View, cmd: Command, fault: C.Fault)
    requires cmd.Begin? && ScreenOk(c, v) && ImagesOk(c, v) && CommandOk(c, v.images, v.snapshots, cmd)
    requires v.compositor.lastEpoch == cmd.epoch
    ensures ScreenOk(c, v.(compositor := C.DoBegin(v.compositor, cmd, fault).compositor))
    ensures Recorded(v, cmd, C.DoBegin(v.compositor, cmd, fault))
  {
    var comp := v.compositor;
    if !comp.canonical.CanEnter(Snapshot, cmd.epoch) {
      AbortScreen(c, v, comp, cmd.epoch);
    } else {
      var c1 := comp.(canonical := comp.canonical.Enter(Snapshot, cmd.epoch));
      if c1.fb.BeginSnapshot(cmd.surface).None? || fault.graphicsFails {
        AbortScreen(c, v, c1, cmd.epoch);
      }
    }
  }

  lemma UploadScreen(c: Session, v: View, cmd: Command)
    requires cmd.Upload? && ScreenOk(c, v) && ImagesOk(c, v) && CommandOk(c, v.images, v.snapshots, cmd)
    requires v.compositor.lastEpoch == cmd.epoch
    ensures ScreenOk(c, v.(compositor := C.DoUpload(v.compositor, cmd).compositor))
    ensures Recorded(v, cmd, C.DoUpload(v.compositor, cmd))
  {
    var comp := v.compositor;
    var fb := comp.fb.WriteChunk(cmd.offset, cmd.bytes);
    if fb.None? {
      AbortScreen(c, v, comp, cmd.epoch);
    } else {
      var image := v.images[cmd.frame];
      assert fb.value.working[..fb.value.received] == comp.fb.working[..cmd.offset] + cmd.bytes;
      assert image[..fb.value.received] == image[..cmd.offset] + image[cmd.offset..cmd.offset + |cmd.bytes|];
    }
  }

  lemma CommitScreen(c: Session, v: View, cmd: Command, fault: C.Fault)
    requires cmd.CommitSnapshot? && ScreenOk(c, v) && ImagesOk(c, v) && CommandOk(c, v.images, v.snapshots, cmd)
    requires v.compositor.lastEpoch == cmd.epoch
    ensures ScreenOk(c, v.(compositor := C.DoCommitSnapshot(v.compositor, cmd, fault).compositor))
    ensures Recorded(v, cmd, C.DoCommitSnapshot(v.compositor, cmd, fault))
  {
    var comp := v.compositor;
    if !comp.canonical.CanCommitSnapshot(cmd.epoch, cmd.frame) {
      AbortScreen(c, v, comp, cmd.epoch);
    } else {
      var fb := comp.fb.CommitSnapshot(cmd.frame);
      if fb.None? {
        AbortScreen(c, v, comp, cmd.epoch);
      } else {
        assert comp.fb.working[..comp.fb.received] == comp.fb.working;
        assert fb.value.committed == v.images[cmd.frame];
        if fault.presentFails {
          AbortScreen(c, v, comp.(fb := fb.value, shown := None), cmd.epoch);
        } else {
          var canonical := comp.canonical.CommitSnapshot(cmd.frame);
          var c1 := comp.(fb := fb.value, canonical := canonical.TakeAck(),
                          shown := Some(C.Shown(cmd.epoch, cmd.frame)), uploading := false);
          AbortScreen(c, v, c1, cmd.epoch);
        }
      }
    }
  }

  lemma RectsScreen(c: Session, v: View, cmd: Command, fault: C.Fault)
    requires cmd.RectTransaction? && ScreenOk(c, v) && ImagesOk(c, v) && CommandOk(c, v.images, v.snapshots, cmd)
    requires v.compositor.lastEpoch == cmd.epoch
    ensures ScreenOk(c, v.(compositor := C.DoRects(v.compositor, cmd, fault).compositor))
    ensures Recorded(v, cmd, C.DoRects(v.compositor, cmd, fault))
  {
    var comp := v.compositor;
    if !comp.canonical.CanEnter(Rects, cmd.epoch) {
      AbortScreen(c, v, comp, cmd.epoch);
    } else {
      var c1 := comp.(canonical := comp.canonical.Enter(Rects, cmd.epoch));
      if !c1.canonical.CanBeginRects(cmd.epoch, cmd.base, cmd.frame) {
        AbortScreen(c, v, c1, cmd.epoch);
      } else {
        var c2 := c1.(canonical := c1.canonical.BeginRects(cmd.base, cmd.frame));
        AbortScreen(c, v, c2.(fb := c2.fb.Patching(cmd.rects)), cmd.epoch);
        PatchedBuffer(c2.fb, cmd.rects);
        PatchedScreen(c, v, c2, cmd, fault);
      }
    }
  }

  /** What a run of patches that can be verified has made of an idle framebuffer. */
  lemma PatchedBuffer(fb: FramebufferSpec.Framebuffer, rs: seq<Rect>)
    requires fb.Valid() && !fb.updateActive && (forall r <- rs :: r.WellFormed()) &&
             (|fb.committed| > 0 ==> fb.surface.width > 0)
    ensures var patched := fb.PatchAll(rs);
            patched.Some? && patched.value.Verifiable(rs) ==>
              patched.value == fb.(working := PaintAll(fb.committed, fb.surface, rs), updateActive := true) &&
              fb.initialized
  {
    if fb.initialized {
      FramebufferSpec.PatchAllPaints(fb, rs);
    } else {
      NothingPatched(fb, rs);
    }
  }

  /** Without a framebuffer no rectangle is accepted and nothing becomes active. */
  lemma {:induction false} NothingPatched(fb: FramebufferSpec.Framebuffer, rs: seq<Rect>)
    requires fb.Valid() && !fb.initialized
    ensures fb.PatchAll(rs).Some? ==> fb.PatchAll(rs).value == fb
  {
    if rs == [] {
    } else {
      NothingPatched(fb, rs[..|rs| - 1]);
    }
  }

  lemma PatchedScreen(c: Session, v: View, c2: C.Compositor, cmd: Command, fault: C.Fault)
    requires cmd.RectTransaction? && CommandOk(c, v.images, v.snapshots, cmd)
    requires c2.fb.Valid() && !c2.fb.updateActive &&
             (c2.fb.initialized || c2.fb.snapshotActive ==> c2.fb.surface == c.surface)
    requires c2.shown.Some? ==> ShownOk(v.(compositor := c2))
    requires c2.canonical.representation == Rects && c2.canonical.epoch == cmd.epoch && c2.canonical.quality == Exact
    requires var patched := c2.fb.PatchAll(cmd.rects);
             && patched.Some? && patched.value.Verifiable(cmd.rects) ==>
                patched.value == c2.fb.(working := PaintAll(c2.fb.committed, c2.fb.surface, cmd.rects),
                                        updateActive := true)
                && c2.fb.initialized
    ensures var patched := c2.fb.PatchAll(cmd.rects);
            patched.Some? && patched.value.Verifiable(cmd.rects) && patched.value.CommitUpdate(cmd.frame).Some? ==>
              && ScreenOk(c, v.(compositor :=
                   C.Abort(c2.(fb := patched.value.CommitUpdate(cmd.frame).value, shown := None),
                           cmd.epoch).compositor))
              && (var shown := if c2.shown.Some? && c2.shown.value.frame == cmd.base
                               then Some(C.Shown(cmd.epoch, cmd.frame)) else None;
                  var c3 := c2.(fb := patched.value.CommitUpdate(cmd.frame).value,
                                canonical := c2.canonical.CommitRects(cmd.frame).TakeAck(), shown := shown);
                  (!c2.fb.snapshotActive ==> ScreenOk(c, v.(compositor := c3))) &&
                  ScreenOk(c, v.(compositor := C.Abort(c3, cmd.epoch).compositor)))
  {
  }

  /** The screen as the command finds it, after the watchdog. */
  function Before(v: View, cmd: Command, fault: C.Fault): View {
    v.(compositor := C.Watchdog(v.compositor, fault.timedOut).(lastEpoch := cmd.epoch))
  }

  lemma BeforeScreen(c: Session, v: View, cmd: Command, fault: C.Fault)
    requires ScreenOk(c, v) && (v.compositor.lastEpoch == cmd.epoch || cmd.Cancel?)
    ensures var b := Before(v, cmd, fault);
            && b.compositor.shown == v.compositor.shown && b.compositor.lastEpoch == cmd.epoch
            && (v.compositor.lastEpoch == cmd.epoch ==> ScreenOk(c, b))
            && (fault.timedOut && v.compositor.uploading ==> ScreenOk(c, b))
            && (cmd.Cancel? ==> ScreenOk(c, b.(compositor := C.DoCancel(b.compositor, cmd).compositor)))
  {
    if cmd.Cancel? {
      AbortScreen(c, v, Before(v, cmd, fault).compositor, cmd.epoch);
    }
  }

  /** The command itself, once the watchdog is out of the way. */
  lemma CommandScreen(c: Session, v: View, cmd: Command, fault: C.Fault)
    requires ScreenOk(c, v) && ImagesOk(c, v) && CommandOk(c, v.images, v.snapshots, cmd)
    requires v.compositor.lastEpoch == cmd.epoch && !cmd.Cancel?
    ensures var done := C.Perform(v.compositor, cmd, fault);
            ScreenOk(c, v.(compositor := done.compositor)) && Recorded(v, cmd, done)
  {
    match cmd
    case Begin(_, _, _) => BeginScreen(c, v, cmd, fault);
    case Upload(_, _, _, _) => UploadScreen(c, v, cmd);
    case CommitSnapshot(_, _, _) => CommitScreen(c, v, cmd, fault);
    case RectTransaction(_, _, _, _, _) => RectsScreen(c, v, cmd, fault);
  }

  lemma ExecuteScreen(c: Session, v: View, cmd: Command, fault: C.Fault)
    requires ScreenOk(c, v) && ImagesOk(c, v) && CommandOk(c, v.images, v.snapshots, cmd)
    requires v.compositor.lastEpoch == cmd.epoch || cmd.Cancel?
    ensures var done := C.Execute(v.compositor, cmd, fault);
            ScreenOk(c, v.(compositor := done.compositor)) && Recorded(v, cmd, done)
  {
    var b := Before(v, cmd, fault);
    BeforeScreen(c, v, cmd, fault);
    assert b.(compositor := C.Execute(v.compositor, cmd, fault).compositor) ==
           v.(compositor := C.Execute(v.compositor, cmd, fault).compositor);
    if !cmd.Cancel? {
      CommandScreen(c, b, cmd, fault);
    }
  }

  /** Commands leave `lastEpoch` alone once it is set. */
  lemma ExecuteEpoch(comp: C.Compositor, cmd: Command, fault: C.Fault)
    requires comp.fb.Valid()
    ensures C.Execute(comp, cmd, fault).compositor.lastEpoch == cmd.epoch
  {
  }

  /** Taking the first command off the list leaves a list in order. */
  lemma TodoTail(c: Session, v: View, t: View, cmd: Command, rest: seq<Command>)
    requires TodoOk(c, v, [cmd] + rest) && t.host == v.host && t.images == v.images && t.snapshots == v.snapshots
    ensures TodoOk(c, t, rest)
  {
    var todo := [cmd] + rest;
    forall i | 0 <= i < |rest| ensures rest[i] == todo[i + 1] && rest[i] in todo {}
  }

  lemma BaseTail(v: View, t: View, c: Session, cmd: Command, rest: seq<Command>, done: C.Executed)
    requires TodoOk(c, v, [cmd] + rest) && BaseOk(v, [cmd] + rest) && Recorded(v, cmd, done)
    requires t.host == v.host && t.compositor == done.compositor
    ensures BaseOk(t, rest)
  {
    var todo := [cmd] + rest;
    assert todo[0] == cmd && cmd in todo;
    assert rest != [] ==> todo[|todo| - 1] == rest[|rest| - 1];
    if v.host.mode == H.AwaitingRectAck && rest != [] {
      assert |todo| > 1;
      assert cmd.Cancel?;
    }
  }

  lemma ExecuteTodo(v: View, c: Session, cmd: Command, rest: seq<Command>, done: C.Executed)
    requires TodoOk(c, v, [cmd] + rest) && BaseOk(v, [cmd] + rest) && Recorded(v, cmd, done)
    ensures var t := v.(compositor := done.compositor, acks := if done.ack.Some? then v.acks + [done.ack.value]
                                                               else v.acks);
            TodoOk(c, t, rest) && BaseOk(t, rest)
  {
    var t := v.(compositor := done.compositor, acks := if done.ack.Some? then v.acks + [done.ack.value] else v.acks);
    TodoTail(c, v, t, cmd, rest);
    BaseTail(v, t, c, cmd, rest, done);
  }

  /** An acknowledgement of the current epoch answers what the host waits for, and ends the todo list. */
  lemma NewAckAwaited(v: View, c: Session, cmd: Command, rest: seq<Command>, done: C.Executed)
    requires TodoOk(c, v, [cmd] + rest) && BaseOk(v, [cmd] + rest) && Recorded(v, cmd, done)
    requires done.ack.Some? && cmd.epoch == v.host.epoch && Consistent(v)
    ensures rest == [] && Awaited(v.host, done.ack.value)
    ensures Shows(v.(compositor := done.compositor), done.ack.value.frame)
  {
    var todo := [cmd] + rest;
    assert todo[0] == cmd && cmd in todo;
    assert Answers(todo[0], v.host.epoch);
    assert |todo| == 1;
  }

  lemma ExecuteAcks(v: View, c: Session, cmd: Command, rest: seq<Command>, done: C.Executed)
    requires TodoOk(c, v, [cmd] + rest) && BaseOk(v, [cmd] + rest) && Recorded(v, cmd, done)
    requires AcksOk(v, [cmd] + rest) && cmd.epoch <= v.host.epoch && Consistent(v)
    ensures var t := v.(compositor := done.compositor, acks := if done.ack.Some? then v.acks + [done.ack.value]
                                                               else v.acks);
            AcksOk(t, rest)
  {
    var t := v.(compositor := done.compositor, acks := if done.ack.Some? then v.acks + [done.ack.value] else v.acks);
    var waiting := Acks(v);
    forall i | 0 <= i < |waiting| ensures waiting[i].epoch < v.host.epoch {
      assert [cmd] + rest != [];
    }
    if done.ack.Some? {
      assert Acks(t) == waiting + [done.ack.value];
      if cmd.epoch == v.host.epoch {
        NewAckAwaited(v, c, cmd, rest, done);
      }
    } else {
      assert Acks(t) == waiting;
    }
  }

  /** A snapshot the host waits for is the one history records for its epoch. */
  ghost predicate Consistent(v: View) {
    var h := v.host;
    && (h.mode == H.AwaitingAck ==>
          && h.snapshotEpoch == h.epoch && h.epoch in v.snapshots && v.snapshots[h.epoch] == h.snapshotFrame
          && h.snapshotFrame in v.images && h.snapshotDigest == OfImage(v.images[h.snapshotFrame]))
    && (h.mode == H.AwaitingRectAck ==> h.rectEpoch == h.epoch && h.snapshotEpoch <= h.epoch)
  }

  lemma {:induction false} LinkedBound(from: nat, q: seq<Command>, to: nat)
    requires Linked(from, q, to)
    ensures from <= to && forall cmd <- q :: from <= cmd.epoch <= to
    decreases |q|
  {
    if q == [] {
    } else {
      LinkedBound(q[0].epoch, q[1..], to);
    }
  }

  lemma {:induction false} WireLinkedBound(from: nat, ms: seq<Message>, to: nat)
    requires WireLinked(from, ms, to)
    ensures from <= to
    decreases |ms|
  {
    if ms == [] {
    } else {
      WireLinkedBound(ms[0].epoch, ms[1..], to);
    }
  }

  lemma HostSideFrame(c: Session, v: View, t: View, end: R.Reader)
    requires c.Valid() && HostSide(c, v, end)
    requires t.host == v.host && t.images == v.images && t.snapshots == v.snapshots
    ensures HostSide(c, t, end)
  {
  }

  lemma HostSideConsistent(c: Session, v: View, end: R.Reader)
    requires c.Valid() && HostSide(c, v, end)
    ensures Consistent(v) && ImagesOk(c, v)
  {
  }

  lemma ComposeKeeps(c: Session, s: State, ahead: R.Reading, fault: C.Fault)
    requires c.Valid() && InvAt(c, s, ahead) && s.queue != []
    ensures InvAt(c, ComposeOne(s, fault), ahead)
  {
    var cmd, v := s.queue[0], ViewOf(s);
    var t := ComposeOne(s, fault);
    var rest := t.queue + ahead.commands;
    assert s.queue + ahead.commands == [cmd] + rest;
    assert ([cmd] + rest)[0] == cmd;
    LinkedBound(s.compositor.lastEpoch, s.queue, s.wireEpoch);
    WireLinkedBound(s.wireEpoch, s.channel, s.host.epoch);
    HostSideConsistent(c, v, ahead.reader);
    HostSideFrame(c, v, ViewOf(t), ahead.reader);
    ExecuteScreen(c, v, cmd, fault);
    ExecuteEpoch(v.compositor, cmd, fault);
    ExecuteTodo(v, c, cmd, rest, C.Execute(v.compositor, cmd, fault));
    ExecuteAcks(v, c, cmd, rest, C.Execute(v.compositor, cmd, fault));
  }

  /** A video frame the viewer can hold is too old to touch an upload or an exact frame in use. */
  lemma ShowKeeps(c: Session, s: State, ahead: R.Reading, glitch: C.Glitch)
    requires c.Valid() && InvAt(c, s, ahead) && s.queue == [] && s.slot.Some?
    ensures InvAt(c, s.(compositor := C.Show(s.compositor, c.surface, s.slot.value, glitch)), ahead)
  {
    var v := ViewOf(s);
    var t := s.(compositor := C.Show(s.compositor, c.surface, s.slot.value, glitch));
    HostSideConsistent(c, v, ahead.reader);
    HostSideFrame(c, v, ViewOf(t), ahead.reader);
    assert Acks(ViewOf(t)) == Acks(v);
    ShowScreen(c, s, glitch);
  }

  lemma ShowScreen(c: Session, s: State, glitch: C.Glitch)
    requires ScreenOk(c, ViewOf(s)) && s.slot.Some? && |s.slot.value.pixels| == c.surface.Size()
    requires c.Valid() && s.slot.value.epoch <= s.compositor.lastEpoch
    ensures var t := s.(compositor := C.Show(s.compositor, c.surface, s.slot.value, glitch));
            && ScreenOk(c, ViewOf(t)) && t.compositor.lastEpoch == s.compositor.lastEpoch
            && (s.compositor.fb.snapshotActive ==> t.compositor.fb == s.compositor.fb)
            && (s.compositor.shown.Some? && s.slot.value.epoch < s.compositor.shown.value.epoch ==>
                  t.compositor.shown == s.compositor.shown)
  {
  }

  lemma WatchdogKeeps(c: Session, s: State, ahead: R.Reading)
    requires c.Valid() && InvAt(c, s, ahead)
    ensures InvAt(c, s.(compositor := C.Watchdog(s.compositor, true)), ahead)
  {
    var t := s.(compositor := C.Watchdog(s.compositor, true));
    HostSideFrame(c, ViewOf(s), ViewOf(t), ahead.reader);
    assert Acks(ViewOf(t)) == Acks(ViewOf(s));
  }

  lemma AcksDrop(v: View, t: View, todo: seq<Command>, at: nat)
    requires AcksOk(v, todo) && at < |Acks(v)| && Acks(t) == Acks(v)[..at] + Acks(v)[at + 1..]
    requires t.host.(mailbox := None) == v.host.(mailbox := None) && t.compositor == v.compositor
    ensures AcksOk(t, todo)
  {
    var waiting, left := Acks(v), Acks(t);
    forall i | 0 <= i < |left| ensures left[i] == waiting[if i < at then i else i + 1] {}
  }

  /** The rest of the screen side does not look at the acknowledgements. */
  lemma AcksElsewhere(c: Session, v: View, t: View, todo: seq<Command>, end: R.Reader)
    requires c.Valid() && HostSide(c, v, end) && ScreenSide(c, v, todo) && AcksOk(t, todo)
    requires t == v.(host := v.host.(mailbox := t.host.mailbox), acks := t.acks)
    ensures HostSide(c, t, end) && ScreenSide(c, t, todo)
  {
  }

  lemma AckArrivesAcks(v: View, t: View, todo: seq<Command>)
    requires AcksOk(v, todo) && v.acks != []
    requires t == v.(host := v.host.(mailbox := Some(v.acks[0])), acks := v.acks[1..])
    ensures AcksOk(t, todo)
  {
    assert Acks(t) == v.acks;
    if v.host.mailbox.Some? {
      assert Acks(v)[..0] + Acks(v)[1..] == v.acks;
      AcksDrop(v, t, todo, 0);
    } else {
      assert Acks(v) == v.acks;
    }
  }

  lemma AcksChange(c: Session, s: State, t: State, ahead: R.Reading)
    requires c.Valid() && InvAt(c, s, ahead) && AcksOk(ViewOf(t), s.queue + ahead.commands)
    requires t == s.(host := s.host.(mailbox := t.host.mailbox), acks := t.acks)
    ensures InvAt(c, t, ahead)
  {
    AcksElsewhere(c, ViewOf(s), ViewOf(t), s.queue + ahead.commands, ahead.reader);
  }

  lemma AckArrivesKeeps(c: Session, s: State, ahead: R.Reading)
    requires c.Valid() && InvAt(c, s, ahead) && s.acks != []
    ensures InvAt(c, s.(host := s.host.(mailbox := Some(s.acks[0])), acks := s.acks[1..]), ahead)
  {
    var t := s.(host := s.host.(mailbox := Some(s.acks[0])), acks := s.acks[1..]);
    AckArrivesAcks(ViewOf(s), ViewOf(t), s.queue + ahead.commands);
    AcksChange(c, s, t, ahead);
  }

  lemma AckLostAcks(v: View, t: View, todo: seq<Command>, index: nat)
    requires AcksOk(v, todo) && index < |v.acks| && t == v.(acks := v.acks[..index] + v.acks[index + 1..])
    ensures AcksOk(t, todo)
  {
    var at := index + if v.host.mailbox.Some? then 1 else 0;
    var waiting := Acks(v);
    assert Acks(t) == waiting[..at] + waiting[at + 1..];
    AcksDrop(v, t, todo, at);
  }

  lemma AckLostKeeps(c: Session, s: State, ahead: R.Reading, index: nat)
    requires c.Valid() && InvAt(c, s, ahead) && index < |s.acks|
    ensures InvAt(c, s.(acks := s.acks[..index] + s.acks[index + 1..]), ahead)
  {
    var t := s.(acks := s.acks[..index] + s.acks[index + 1..]);
    AckLostAcks(ViewOf(s), ViewOf(t), s.queue + ahead.commands, index);
    AcksChange(c, s, t, ahead);
  }
}
