/** The viewer's compositor thread: what one queued command or one video frame does to the screen. */
module Compositor {
  import opened Options
  import opened Pixels
  import opened FramebufferSpec
  import opened Wire
  import opened Canonical

  /** What can go wrong while a command runs, besides the checks the code makes itself. */
  datatype Fault = Fault(
    graphicsFails: bool, // the renderer is not ready, or one of its calls fails, before the buffers are swapped
    timedOut: bool,      // the upload watchdog fires before the command is looked at
    dropped: bool,       // and its recovery request cannot be queued, which abandons the command
    presentFails: bool,  // presenting fails after the buffers were swapped
    ackRejected: bool,   // the acknowledgement cannot be queued
    requestRefused: bool) // and neither can the recovery request of the handler

  /**
   Where rendering a video frame fails: before the textures are looked at, before the swap, or presenting
   after it.
   */
  datatype Glitch = Smooth | BeforeTextures | BeforeSwap | Presenting

  /**
   `lastFrame` is the last video frame shown. `shown` is history: the epoch and frame of the last exact
   commit, forgotten when any other pixels are swapped in. `lastEpoch` is the epoch of the last command
   taken from the queue.
   */
  datatype Shown = Shown(epoch: nat, frame: nat)

  datatype Compositor = Compositor(
    fb: Framebuffer,
    canonical: Canonical,
    uploading: bool,
    lastFrame: nat,
    shown: Option<Shown>,
    lastEpoch: nat)

  /** No fault at all. */
  const NO_FAULT := Fault(false, false, false, false, false, false)

  const START := Compositor(EMPTY, FRESH, false, 0, None, 1)

  datatype Executed = Executed(compositor: Compositor, ack: Option<Ack>)

  /** The exception handler shared by every command. */
  function Abort(c: Compositor, epoch: nat): Executed {
    Executed(c.(fb := c.fb.CancelSnapshot().CancelUpdate(), canonical := c.canonical.CancelRects(epoch),
                uploading := false),
             None)
  }

  function DoBegin(c: Compositor, cmd: Command, fault: Fault): Executed
    requires cmd.Begin?
  {
    if !c.canonical.CanEnter(Snapshot, cmd.epoch) then Abort(c, cmd.epoch)
    else
      var c1 := c.(canonical := c.canonical.Enter(Snapshot, cmd.epoch));
      var fb := c1.fb.BeginSnapshot(cmd.surface);
      if fb.None? || fault.graphicsFails then Abort(c1, cmd.epoch)
      else Executed(c1.(fb := fb.value, uploading := true), None)
  }

  function DoUpload(c: Compositor, cmd: Command): Executed
    requires cmd.Upload? && c.fb.Valid()
  {
    var fb := c.fb.WriteChunk(cmd.offset, cmd.bytes);
    if fb.None? then Abort(c, cmd.epoch) else Executed(c.(fb := fb.value), None)
  }

  function DoCommitSnapshot(c: Compositor, cmd: Command, fault: Fault): Executed
    requires cmd.CommitSnapshot?
  {
    if !c.canonical.CanCommitSnapshot(cmd.epoch, cmd.frame) then Abort(c, cmd.epoch)
    else
      var fb := c.fb.CommitSnapshot(cmd.frame);
      if fb.None? then Abort(c, cmd.epoch)
      else if fault.presentFails then Abort(c.(fb := fb.value, shown := None), cmd.epoch)
      else
        var canonical := c.canonical.CommitSnapshot(cmd.frame);
        var c1 := c.(fb := fb.value, canonical := canonical.TakeAck(), shown := Some(Shown(cmd.epoch, cmd.frame)),
                     uploading := false);
        if fault.ackRejected then Abort(c1, cmd.epoch) else Executed(c1, canonical.PendingAck(cmd.digest))
  }

  ghost function DoRects(c: Compositor, cmd: Command, fault: Fault): Executed
    requires cmd.RectTransaction? && c.fb.Valid()
  {
    if !c.canonical.CanEnter(Rects, cmd.epoch) then Abort(c, cmd.epoch)
    else
      var c1 := c.(canonical := c.canonical.Enter(Rects, cmd.epoch));
      if !c1.canonical.CanBeginRects(cmd.epoch, cmd.base, cmd.frame) then Abort(c1, cmd.epoch)
      else
        var c2 := c1.(canonical := c1.canonical.BeginRects(cmd.base, cmd.frame));
        var patched := c2.fb.PatchAll(cmd.rects);
        if patched.None? || fault.graphicsFails || !patched.value.Verifiable(cmd.rects) ||
           !patched.value.Verified(cmd.rects)
        then
          Abort(c2.(fb := c2.fb.Patching(cmd.rects)), cmd.epoch)
        else
          var fb := patched.value.CommitUpdate(cmd.frame);
          if fb.None? then Abort(c2.(fb := patched.value), cmd.epoch)
          else AfterSwap(c2.(fb := fb.value), cmd, fault)
  }

  /** The rest of a rectangle transaction whose pixels have been swapped in. */
  function AfterSwap(c: Compositor, cmd: Command, fault: Fault): Executed
    requires cmd.RectTransaction?
  {
    if fault.presentFails || !c.canonical.CanCommitRects(cmd.epoch, cmd.base, cmd.frame)
    then Abort(c.(shown := None), cmd.epoch)
    else
      var canonical := c.canonical.CommitRects(cmd.frame);
      // The commit is exact as far as the image it was painted on was.
      var shown := if c.shown.Some? && c.shown.value.frame == cmd.base then Some(Shown(cmd.epoch, cmd.frame)) else None;
      var c1 := c.(canonical := canonical.TakeAck(), shown := shown);
      if fault.ackRejected then Abort(c1, cmd.epoch) else Executed(c1, canonical.PendingAck(cmd.digest))
  }

  function DoCancel(c: Compositor, cmd: Command): Executed {
    Abort(c, cmd.epoch)
  }

  /** The watchdog: an upload that started too long ago is cancelled. */
  function Watchdog(c: Compositor, fires: bool): Compositor {
    if fires && c.uploading then c.(fb := c.fb.CancelSnapshot(), uploading := false) else c
  }

  /** The command itself, once the watchdog is out of the way. */
  ghost function Perform(c: Compositor, cmd: Command, fault: Fault): Executed
    requires c.fb.Valid()
  {
    match cmd
    case Begin(_, _, _) => DoBegin(c, cmd, fault)
    case Upload(_, _, _, _) => DoUpload(c, cmd)
    case CommitSnapshot(_, _, _) => DoCommitSnapshot(c, cmd, fault)
    case RectTransaction(_, _, _, _, _) => DoRects(c, cmd, fault)
    case Cancel(_) => DoCancel(c, cmd)
  }

  /** One command taken from the queue. */
  ghost function Execute(c: Compositor, cmd: Command, fault: Fault): Executed
    requires c.fb.Valid()
  {
    var c1 := Watchdog(c, fault.timedOut).(lastEpoch := cmd.epoch);
    if fault.timedOut && c.uploading && fault.dropped then Executed(c1, None) else Perform(c1, cmd, fault)
  }

  /**
   The handler asks for recovery after a rectangle command. That request may throw as well, which ends
   the thread; a command the watchdog has given up does not get that far.
   */
  ghost predicate Ends(c: Compositor, cmd: Command, fault: Fault)
    requires c.fb.Valid()
  {
    && cmd.RectTransaction? && fault.requestRefused && !(fault.timedOut && c.uploading && fault.dropped)
    && Execute(c, cmd, fault).ack.None?
  }

  /**
   One decoded video frame, looked at only while no command waits. The frame shown last is not
   rendered again; the committed texture is presented once more.
   */
  function Show(c: Compositor, surface: Surface, f: VideoFrame, glitch: Glitch): Compositor {
    if (f.frame == c.lastFrame && c.fb.initialized) || f.epoch < c.canonical.epoch ||
       !c.canonical.CanEnter(Video, f.epoch) then c
    else
      var c1 := c.(canonical := c.canonical.Enter(Video, f.epoch));
      if (c.canonical.epoch != f.epoch || c.canonical.representation != Video) && !f.key then c1
      else RenderFrame(c1, surface, f, glitch)
  }

  /** The frame is converted, swapped in, presented and recorded. */
  function RenderFrame(c: Compositor, surface: Surface, f: VideoFrame, glitch: Glitch): Compositor {
    match glitch
    case BeforeTextures => c
    case BeforeSwap => c.(fb := c.fb.EnsureSurface(surface))
    case _ =>
      var c1 := c.(fb := c.fb.RenderVideo(surface, f.pixels), shown := None);
      if glitch == Presenting || !c.canonical.CanCommitVideo(f.epoch, f.frame) then c1
      else c1.(canonical := c.canonical.CommitVideo(f.frame), lastFrame := f.frame)
  }

  /**
   Video reopened by an IDR in a newer epoch. An IDR of the frame shown last reopens nothing, and the
   frame behind it is thrown away; any other IDR is shown, and so is the frame behind it.
   */
  lemma ReopeningIsShown(c: Compositor, surface: Surface, key: VideoFrame, next: VideoFrame)
    requires key.key && !next.key && key.epoch == next.epoch > c.canonical.epoch
    requires c.canonical.committedFrame <= key.frame < next.frame && 0 < key.frame
    ensures var reopened := Show(c, surface, key, Smooth); var followed := Show(reopened, surface, next, Smooth);
            if key.frame == c.lastFrame && c.fb.initialized
            then reopened == c && followed.fb == c.fb && followed.canonical.committedFrame == c.canonical.committedFrame
            else
              && reopened.fb.committed == key.pixels && reopened.canonical.committedFrame == key.frame
              && followed.fb.committed == next.pixels && followed.canonical.committedFrame == next.frame
  {
    var reopened := Show(c, surface, key, Smooth);
    if !(key.frame == c.lastFrame && c.fb.initialized) {
      assert reopened.canonical == c.canonical.Enter(Video, key.epoch).CommitVideo(key.frame);
    }
  }
}
