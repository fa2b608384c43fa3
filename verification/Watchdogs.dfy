/**
 The viewer's upload watchdog over whole runs: it watches every open upload, and an upload it has ended is
 over. Nothing of it is shown or acknowledged any more, and the next snapshot finds the screen ready for it.
 */
module Watchdogs {
  import opened Pixels
  import opened FramebufferSpec
  import opened Wire
  import opened Canonical
  import C = Compositor
  import opened System
  import opened Invariant
  import E = ExactSteps

  ghost predicate Watched(v: C.Compositor) { v.uploading <==> v.fb.snapshotActive }

  /** A command that the watchdog's full queue does not make the thread abandon. */
  predicate Abandoned(v: C.Compositor, fault: C.Fault) { fault.timedOut && v.uploading && fault.dropped }

  // ----------------------------------------------------------- one event at a time

  lemma BeginWatched(v: C.Compositor, cmd: Command, fault: C.Fault)
    requires v.fb.Valid() && !v.fb.updateActive && Watched(v) && cmd.Begin?
    requires v.fb.initialized ==> v.fb.surface == cmd.surface
    requires 0 < cmd.surface.width && 0 < cmd.surface.height &&
             cmd.surface.width * cmd.surface.height <= MAXIMUM_SNAPSHOT_TOTAL_BYTES / 4
    ensures var w := C.DoBegin(v, cmd, fault).compositor;
            && Watched(w)
            && (w.uploading <==> v.canonical.CanEnter(Snapshot, cmd.epoch) && !fault.graphicsFails && !v.uploading)
            && (w.uploading ==> w.fb.received == 0 && w.fb.total == cmd.surface.Size())
            && (v.fb.initialized ==> w.fb.committed == v.fb.committed)
  {
  }

  /** Patches touch the working image and nothing of a snapshot. */
  lemma PatchesKeepSnapshots(fb: Framebuffer, rs: seq<Rect>)
    requires fb.Valid() && fb.PatchAll(rs).Some?
    ensures fb.PatchAll(rs).value.snapshotActive == fb.snapshotActive
  {
    assert fb.Patching(rs) == fb.PatchAll(rs).value;
  }

  lemma RectsWatched(v: C.Compositor, cmd: Command, fault: C.Fault)
    requires v.fb.Valid() && !v.fb.updateActive && Watched(v) && cmd.RectTransaction?
    ensures var w := C.DoRects(v, cmd, fault).compositor; Watched(w) && (w.uploading ==> v.uploading)
  {
    if v.fb.PatchAll(cmd.rects).Some? {
      PatchesKeepSnapshots(v.fb, cmd.rects);
    }
  }

  lemma PerformWatched(v: C.Compositor, cmd: Command, fault: C.Fault)
    requires v.fb.Valid() && !v.fb.updateActive && Watched(v) && !cmd.Begin?
    ensures var w := C.Perform(v, cmd, fault).compositor; Watched(w) && (w.uploading ==> v.uploading)
  {
    if cmd.RectTransaction? {
      RectsWatched(v, cmd, fault);
    }
  }

  /** Without an open upload neither its bytes nor its commit do anything to the image, and nothing is acknowledged. */
  lemma UploadIsRefused(v: C.Compositor, cmd: Command, fault: C.Fault)
    requires v.fb.Valid() && Watched(v) && !v.uploading && (cmd.Upload? || cmd.CommitSnapshot?)
    ensures var done := C.Execute(v, cmd, fault);
            done.ack.None? && done.compositor.fb.committed == v.fb.committed &&
            done.compositor.canonical.committedFrame == v.canonical.committedFrame &&
            done.compositor.shown == v.shown
  {
  }

  /** What the screen of every run offers a command. */
  lemma Screen(c: Session, events: seq<Event>)
    requires c.Valid()
    ensures var s := Run(c, events); var fb := s.compositor.fb;
            && fb.Valid() && !fb.updateActive
            && (fb.initialized || fb.snapshotActive ==> fb.surface == c.surface)
            && (s.queue != [] && s.queue[0].Begin? ==> s.queue[0].surface == c.surface)
            && c.surface.width * c.surface.height <= MAXIMUM_SNAPSHOT_TOTAL_BYTES / 4
  {
    var s := Run(c, events);
    E.RunInv(c, events);
    if s.queue != [] {
      assert s.queue[0] in s.queue + Ahead(c, s).commands;
    }
  }

  /** Whether the event executes the command that begins an upload. */
  ghost predicate Begins(s: State, ev: Event) { ev.Compose? && s.queue != [] && s.queue[0].Begin? }

  lemma Step(c: Session, events: seq<Event>, ev: Event)
    requires c.Valid()
    ensures Run(c, events + [ev]) == Next(c, Run(c, events), ev)
  {
    assert (events + [ev])[..|events|] == events;
  }

  lemma ComposeWatched(c: Session, events: seq<Event>, fault: C.Fault)
    requires c.Valid() && Watched(Run(c, events).compositor) && Enabled(c, Run(c, events), Compose(fault))
    ensures var s := Run(c, events); var w := ComposeOne(s, fault).compositor;
            && Watched(w) && (w.uploading && !s.compositor.uploading ==> s.queue[0].Begin?)
  {
    Screen(c, events);
    var s := Run(c, events);
    var v := C.Watchdog(s.compositor, fault.timedOut).(lastEpoch := s.queue[0].epoch);
    if s.queue[0].Begin? {
      BeginWatched(v, s.queue[0], fault);
    } else {
      PerformWatched(v, s.queue[0], fault);
    }
  }

  lemma FrameWatched(v: C.Compositor, surface: Surface, f: VideoFrame, glitch: C.Glitch)
    requires Watched(v) && (v.fb.snapshotActive ==> v.fb.surface == surface)
    ensures var w := C.Show(v, surface, f, glitch); Watched(w) && w.uploading == v.uploading
  {
  }

  lemma ShowWatched(c: Session, events: seq<Event>, glitch: C.Glitch)
    requires c.Valid() && Watched(Run(c, events).compositor) && Enabled(c, Run(c, events), Event.Show(glitch))
    ensures var s := Run(c, events); var w := C.Show(s.compositor, c.surface, s.slot.value, glitch);
            Watched(w) && w.uploading == s.compositor.uploading
  {
    Screen(c, events);
    FrameWatched(Run(c, events).compositor, c.surface, Run(c, events).slot.value, glitch);
  }

  lemma NextWatched(c: Session, events: seq<Event>, ev: Event)
    requires c.Valid() && Watched(Run(c, events).compositor)
    ensures var s, t := Run(c, events), Run(c, events + [ev]);
            Watched(t.compositor) && (t.compositor.uploading && !s.compositor.uploading ==> Begins(s, ev))
  {
    Step(c, events, ev);
    var s := Run(c, events);
    if Enabled(c, s, ev) {
      match ev
      case Compose(fault) => ComposeWatched(c, events, fault);
      case Show(glitch) => ShowWatched(c, events, glitch);
      case _ =>
    }
  }

  // ----------------------------------------------------------------------- whole runs

  /** The watchdog's clock runs exactly while the framebuffer has a snapshot open. */
  lemma {:induction false} EveryUploadIsWatched(c: Session, events: seq<Event>)
    requires c.Valid()
    ensures Watched(Run(c, events).compositor)
  {
    if events != [] {
      var past, ev := events[..|events| - 1], events[|events| - 1];
      EveryUploadIsWatched(c, past);
      NextWatched(c, past, ev);
      assert past + [ev] == events;
    }
  }

  /** The watchdog ends an upload and leaves the image on the screen, and what is recorded of it, alone. */
  lemma ExpiredUploadIsEnded(c: Session, events: seq<Event>)
    requires c.Valid() && !Run(c, events).ended
    ensures var v, w := Run(c, events).compositor, Run(c, events + [Watchdog]).compositor;
            && !w.uploading && !w.fb.snapshotActive
            && w.fb.committed == v.fb.committed && w.fb.initialized == v.fb.initialized
            && w.canonical == v.canonical && w.lastFrame == v.lastFrame && w.shown == v.shown
  {
    EveryUploadIsWatched(c, events);
    Step(c, events, Watchdog);
  }

  /** No command that begins an upload is executed. */
  ghost predicate NoBegin(c: Session, past: seq<Event>, more: seq<Event>)
    requires c.Valid()
  {
    forall i | 0 <= i < |more| :: !Begins(Run(c, past + more[..i]), more[i])
  }

  ghost predicate Uploading(c: Session, events: seq<Event>)
    requires c.Valid()
  {
    Run(c, events).compositor.uploading
  }

  lemma OnlyBeginOpens(c: Session, events: seq<Event>, ev: Event)
    requires c.Valid() && !Uploading(c, events) && !Begins(Run(c, events), ev)
    ensures !Uploading(c, events + [ev])
  {
    EveryUploadIsWatched(c, events);
    NextWatched(c, events, ev);
  }

  lemma EndedBefore(c: Session, past: seq<Event>, more: seq<Event>, n: nat)
    requires c.Valid() && n < |more| && NoBegin(c, past, more) && !Uploading(c, past + more[..n])
    ensures !Uploading(c, past + more[..n + 1])
  {
    OnlyBeginOpens(c, past + more[..n], more[n]);
    assert past + more[..n] + [more[n]] == past + more[..n + 1];
  }

  lemma {:induction false} EndedStaysEnded(c: Session, past: seq<Event>, more: seq<Event>, n: nat)
    requires c.Valid() && !Uploading(c, past) && NoBegin(c, past, more) && n <= |more|
    ensures !Uploading(c, past + more[..n])
  {
    if n == 0 {
      assert past + more[..0] == past;
    } else {
      EndedStaysEnded(c, past, more, n - 1);
      EndedBefore(c, past, more, n - 1);
    }
  }

  /**
   Until another upload begins, whatever else happens, executing what is left of the expired one, its bytes
   or its commit, changes nothing that is shown and acknowledges nothing.
   */
  lemma NothingOfItIsShown(c: Session, events: seq<Event>, more: seq<Event>, fault: C.Fault)
    requires c.Valid() && !Run(c, events).ended
    requires NoBegin(c, events + [Watchdog], more)
    requires var s := Run(c, events + [Watchdog] + more);
             Enabled(c, s, Compose(fault)) && (s.queue[0].Upload? || s.queue[0].CommitSnapshot?)
    ensures var s := Run(c, events + [Watchdog] + more); var t := Next(c, s, Compose(fault));
            && t.acks == s.acks && t.compositor.fb.committed == s.compositor.fb.committed
            && t.compositor.canonical.committedFrame == s.compositor.canonical.committedFrame
            && t.compositor.shown == s.compositor.shown
  {
    var past := events + [Watchdog];
    ExpiredUploadIsEnded(c, events);
    EndedStaysEnded(c, past, more, |more|);
    assert more[..|more|] == more;
    EveryUploadIsWatched(c, past + more);
    Screen(c, past + more);
    var s := Run(c, past + more);
    UploadIsRefused(s.compositor, s.queue[0], fault);
  }

  /**
   A begin opens a new upload from its first byte exactly when its epoch can be entered, the graphics work,
   and no upload is open or the open one has expired and its recovery request found room. It never changes
   the image shown.
   */
  lemma BeginIsTakenExactlyWhen(c: Session, events: seq<Event>, fault: C.Fault)
    requires c.Valid()
    requires var s := Run(c, events); Enabled(c, s, Compose(fault)) && s.queue[0].Begin?
    ensures var s := Run(c, events); var v, w := s.compositor, Next(c, s, Compose(fault)).compositor;
            && (w.uploading <==>
                  && v.canonical.CanEnter(Snapshot, s.queue[0].epoch) && !fault.graphicsFails
                  && (v.uploading ==> fault.timedOut && !fault.dropped))
            && (w.uploading <==> w.fb.snapshotActive)
            && (w.uploading ==> w.fb.received == 0 && w.fb.total == c.surface.Size())
            && (v.fb.initialized ==> w.fb.committed == v.fb.committed)
  {
    EveryUploadIsWatched(c, events);
    Screen(c, events);
    var s := Run(c, events);
    BeginWatched(C.Watchdog(s.compositor, fault.timedOut).(lastEpoch := s.queue[0].epoch), s.queue[0], fault);
  }
}
