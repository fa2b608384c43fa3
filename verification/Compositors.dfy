/**
 The compositor thread as it runs: a renderer and a canonical record changed in place, with one
 handler for everything a command can throw. Proved against the compositor of the protocol model.
 */
module Compositors {
  import opened Options
  import opened Pixels
  import opened Wire
  import opened Canonical
  import C = Compositor
  import Spec = FramebufferSpec
  import Framebuffers
  import Machines
  import Verifier

  /** A refused rectangle ends the run, whatever comes after it. */
  lemma {:induction false} RefusedEnds(fb: Spec.Framebuffer, rs: seq<Rect>, k: nat)
    requires fb.Valid() && k < |rs| && fb.PatchAll(rs[..k]).Some? && fb.PatchAll(rs[..k + 1]).None?
    ensures fb.PatchAll(rs).None? && fb.Patching(rs) == fb.Patching(rs[..k])
    decreases |rs|
  {
    var init := rs[..|rs| - 1];
    if k + 1 == |rs| {
      assert rs[..k + 1] == rs && rs[..k] == init;
    } else {
      assert init[..k] == rs[..k] && init[..k + 1] == rs[..k + 1];
      RefusedEnds(fb, init, k);
    }
  }

  lemma PatchedAll(fb: Spec.Framebuffer, rs: seq<Rect>)
    requires fb.Valid() && fb.PatchAll(rs).Some?
    ensures fb.Patching(rs) == fb.PatchAll(rs).value
  {
  }

  /** One rectangle more. */
  lemma PatchStep(fb: Spec.Framebuffer, rs: seq<Rect>, k: nat)
    requires fb.Valid() && k < |rs| && fb.PatchAll(rs[..k]).Some?
    ensures fb.PatchAll(rs[..k + 1]) == fb.PatchAll(rs[..k]).value.Patch(rs[k])
  {
    assert rs[..k + 1][..k] == rs[..k];
  }

  /** The handler's part in ending the thread. */
  lemma EndedByHandler(c: C.Compositor, cmd: Command, fault: C.Fault, ack: Option<Ack>)
    requires c.fb.Valid() && !(fault.timedOut && c.uploading && fault.dropped) && ack == C.Execute(c, cmd, fault).ack
    ensures C.Ends(c, cmd, fault) <==> cmd.RectTransaction? && fault.requestRefused && ack.None?
  {
  }

  class CompositorLoop {
    const fb: Framebuffers.Framebuffer
    const canonical: Machines.CanonicalState
    var uploading: bool
    var lastFrame: nat
    ghost var shown: Option<C.Shown>
    ghost var lastEpoch: nat

    ghost function Value(): C.Compositor
      reads this, fb, fb.Buffers(), canonical
    {
      C.Compositor(fb.Model(), canonical.Value(), uploading, lastFrame, shown, lastEpoch)
    }

    constructor ()
      ensures fb.Valid() && fresh(fb) && fresh(fb.Buffers()) && fresh(canonical) && Value() == C.START
    {
      fb := new Framebuffers.Framebuffer();
      canonical := new Machines.CanonicalState();
      uploading, lastFrame, shown, lastEpoch := false, 0, None, 1;
    }

    /** How a command ends: with what it did, or with the handler for what it threw. */
    static function Ended(ok: bool, c: C.Compositor, ack: Option<Ack>, epoch: nat): C.Executed {
      if ok then C.Executed(c, ack) else C.Abort(c, epoch)
    }

    method Abort(epoch: nat)
      requires fb.Valid()
      modifies this`uploading, fb`snapshotActive, fb`received, fb`total, fb`updateActive, canonical
      ensures fb.Valid() && Value() == C.Abort(old(Value()), epoch).compositor
    {
      fb.CancelSnapshot();
      fb.CancelUpdate();
      canonical.CancelRects(epoch);
      uploading := false;
    }

    method StartUpload(cmd: Command, fault: C.Fault) returns (ok: bool)
      requires fb.Valid() && cmd.Begin?
      modifies this`uploading, fb, canonical
      ensures fb.Valid() && fresh(fb.Buffers() - old(fb.Buffers()))
      ensures Ended(ok, Value(), None, cmd.epoch) == C.DoBegin(old(Value()), cmd, fault)
    {
      ok := canonical.Enter(Snapshot, cmd.epoch);
      if !ok { return; }
      ok := fb.BeginSnapshot(cmd.surface, !fault.graphicsFails);
      if ok {
        uploading := true;
      }
    }

    method Upload(cmd: Command) returns (ok: bool)
      requires fb.Valid() && cmd.Upload?
      modifies fb`received, fb.working
      ensures fb.Valid() && fb.Buffers() == old(fb.Buffers())
      ensures Ended(ok, Value(), None, cmd.epoch) == C.DoUpload(old(Value()), cmd)
    {
      ok := fb.WriteChunk(cmd.offset, cmd.bytes);
    }

    method CommitUpload(cmd: Command, fault: C.Fault) returns (ok: bool, ack: Option<Ack>)
      requires fb.Valid() && cmd.CommitSnapshot?
      modifies this`uploading, this`shown, fb`working, fb`committed, fb`snapshotActive, fb`initialized, canonical
      ensures fb.Valid() && fb.Buffers() == old(fb.Buffers())
      ensures Ended(ok, Value(), ack, cmd.epoch) == C.DoCommitSnapshot(old(Value()), cmd, fault)
    {
      ack := None;
      ok := canonical.Value().CanCommitSnapshot(cmd.epoch, cmd.frame);
      if !ok { return; }
      ok := fb.CommitSnapshot(cmd.frame);
      if !ok { return; }
      shown := None;
      if fault.presentFails { return false, None; }
      ok := canonical.CommitSnapshot(cmd.epoch, cmd.frame);
      shown := Some(C.Shown(cmd.epoch, cmd.frame));
      ack := canonical.TakeAck(cmd.digest);
      if fault.ackRejected { return false, None; }
      uploading := false;
    }

    /** Patches one rectangle after the other; stops at the first that is refused. */
    method PatchEach(rects: seq<Rect>) returns (ok: bool)
      requires fb.Valid()
      modifies fb`updateActive, fb.working
      ensures fb.Valid() && ok == old(fb.Model()).PatchAll(rects).Some?
      ensures fb.Model() == old(fb.Model()).Patching(rects)
    {
      ghost var before := fb.Model();
      for k := 0 to |rects|
        invariant fb.Valid() && fb.working == old(fb.working) && before.PatchAll(rects[..k]) == Some(fb.Model())
      {
        var r := rects[k];
        PatchStep(before, rects, k);
        ghost var image := fb.Model();
        ok := fb.Patch(r.x, r.y, r.width, r.height, 4 * r.width, r.bgra);
        if ok {
          Framebuffers.GatheredTight(r.bgra, 4 * r.width, r.height);
        } else {
          PatchedAll(before, rects[..k]);
          RefusedEnds(before, rects, k);
          return;
        }
      }
      assert rects[..|rects|] == rects;
      PatchedAll(before, rects);
      ok := true;
    }

    /** Patches, verifies and swaps; verifying needs the staging texture mapped. */
    method PaintRects(cmd: Command, fault: C.Fault) returns (ok: bool)
      requires fb.Valid() && cmd.RectTransaction?
      modifies fb`updateActive, fb`working, fb`committed, fb.working, fb.staging
      ensures fb.Valid() && fb.Buffers() == old(fb.Buffers())
      ensures var before := old(fb.Model()); var patched := before.PatchAll(cmd.rects);
              if patched.None? || fault.graphicsFails || !patched.value.Verifiable(cmd.rects) ||
                 !patched.value.Verified(cmd.rects)
              then !ok && fb.Model() == before.Patching(cmd.rects)
              else ok == patched.value.CommitUpdate(cmd.frame).Some? &&
                   fb.Model() == if ok then patched.value.CommitUpdate(cmd.frame).value else patched.value
    {
      ok := PatchEach(cmd.rects);
      if !ok { return; }
      PatchedAll(old(fb.Model()), cmd.rects);
      if fault.graphicsFails { return false; }
      var receipt := Verifier.Verify(fb, cmd.rects);
      if receipt.None? || receipt.value.tally.mismatched != 0 { return false; }
      ok := fb.CommitUpdate(cmd.frame);
    }

    method CommitRects(cmd: Command, fault: C.Fault) returns (ok: bool, ack: Option<Ack>)
      requires fb.Valid() && cmd.RectTransaction?
      modifies this`shown, fb`updateActive, fb`working, fb`committed, fb.working, fb.staging, canonical
      ensures fb.Valid() && fb.Buffers() == old(fb.Buffers())
      ensures Ended(ok, Value(), ack, cmd.epoch) == C.DoRects(old(Value()), cmd, fault) && (ok ==> ack.Some?)
    {
      ack := None;
      ok := canonical.Enter(Rects, cmd.epoch);
      if !ok { return; }
      ok := canonical.BeginRects(cmd.epoch, cmd.base, cmd.frame);
      if !ok { return; }
      ok := PaintRects(cmd, fault);
      if !ok { return; }
      ok, ack := FinishRects(cmd, fault);
    }

    /** Once the pixels are swapped. */
    method FinishRects(cmd: Command, fault: C.Fault) returns (ok: bool, ack: Option<Ack>)
      requires fb.Valid() && cmd.RectTransaction?
      modifies this`shown, canonical
      ensures fb.Valid()
      ensures Ended(ok, Value(), ack, cmd.epoch) == C.AfterSwap(old(Value()), cmd, fault) && (ok ==> ack.Some?)
    {
      ack := None;
      ghost var base := shown;
      shown := None;
      if fault.presentFails { return false, None; }
      ok := canonical.CommitRects(cmd.epoch, cmd.base, cmd.frame);
      if !ok { return; }
      shown := if base.Some? && base.value.frame == cmd.base then Some(C.Shown(cmd.epoch, cmd.frame)) else None;
      ack := canonical.TakeAck(cmd.digest);
      if fault.ackRejected { return false, None; }
    }

    /** What the command asks for; cancelling is what the handler does anyway. */
    method Dispatch(cmd: Command, fault: C.Fault) returns (ok: bool, ack: Option<Ack>)
      requires fb.Valid()
      modifies this`uploading, this`shown, fb, fb.Buffers(), canonical
      ensures fb.Valid() && fresh(fb.Buffers() - old(fb.Buffers()))
      ensures Ended(ok, Value(), ack, cmd.epoch) == C.Perform(old(Value()), cmd, fault)
      ensures ok && cmd.RectTransaction? ==> ack.Some?
    {
      ok, ack := false, None;
      match cmd
      case Begin(_, _, _) => ok := StartUpload(cmd, fault);
      case Upload(_, _, _, _) => ok := Upload(cmd);
      case CommitSnapshot(_, _, _) => ok, ack := CommitUpload(cmd, fault);
      case RectTransaction(_, _, _, _, _) => ok, ack := CommitRects(cmd, fault);
      case Cancel(_) =>
    }

    /** The handler runs for whatever was thrown, and may throw itself. */
    method Perform(cmd: Command, fault: C.Fault) returns (ack: Option<Ack>, ended: bool)
      requires fb.Valid()
      modifies this`uploading, this`shown, fb, fb.Buffers(), canonical
      ensures fb.Valid() && fresh(fb.Buffers() - old(fb.Buffers()))
      ensures C.Executed(Value(), ack) == C.Perform(old(Value()), cmd, fault)
      ensures ended <==> cmd.RectTransaction? && fault.requestRefused && ack.None?
    {
      var ok;
      ok, ack := Dispatch(cmd, fault);
      ended := !ok && cmd.RectTransaction? && fault.requestRefused;
      if !ok {
        Abort(cmd.epoch);
        ack := None;
      }
    }

    /** Cancels an upload that started too long ago. */
    method Watchdog(timedOut: bool) returns (expired: bool)
      requires fb.Valid()
      modifies this`uploading, fb`snapshotActive, fb`received, fb`total
      ensures fb.Valid() && expired == (timedOut && old(uploading))
      ensures Value() == C.Watchdog(old(Value()), timedOut)
    {
      expired := timedOut && uploading;
      if expired {
        fb.CancelSnapshot();
        uploading := false;
      }
    }

    /** One command taken from the queue; `ended` when the handler's own request ends the thread. */
    method ExecuteCommand(cmd: Command, fault: C.Fault) returns (ack: Option<Ack>, ended: bool)
      requires fb.Valid()
      modifies this, fb, fb.Buffers(), canonical
      ensures fb.Valid() && fresh(fb.Buffers() - old(fb.Buffers()))
      ensures C.Executed(Value(), ack) == C.Execute(old(Value()), cmd, fault)
      ensures ended <==> C.Ends(old(Value()), cmd, fault)
    {
      ghost var before := Value();
      lastEpoch := cmd.epoch;
      var expired := Watchdog(fault.timedOut);
      if expired && fault.dropped { return None, false; }
      ack, ended := Perform(cmd, fault);
      EndedByHandler(before, cmd, fault, ack);
    }

    /** One decoded video frame; the one shown last is only presented again. */
    method ShowFrame(surface: Surface, f: VideoFrame, glitch: C.Glitch)
      requires fb.Valid() && |f.pixels| == surface.Size() && surface.width > 0 && surface.height > 0
      modifies this`shown, this`lastFrame, fb, fb.Buffers(), canonical
      ensures fb.Valid() && fresh(fb.Buffers() - old(fb.Buffers()))
      ensures Value() == C.Show(old(Value()), surface, f, glitch)
    {
      if f.frame == lastFrame && fb.initialized { return; }
      var previousEpoch, previous := canonical.epoch, canonical.representation;
      if f.epoch < previousEpoch { return; }
      var entered := canonical.Enter(Video, f.epoch);
      if !entered { return; }
      if (previousEpoch != f.epoch || previous != Video) && !f.key { return; }
      RenderFrame(surface, f, glitch);
    }

    method RenderFrame(surface: Surface, f: VideoFrame, glitch: C.Glitch)
      requires fb.Valid() && |f.pixels| == surface.Size() && surface.width > 0 && surface.height > 0
      modifies this`shown, this`lastFrame, fb, fb.Buffers(), canonical
      ensures fb.Valid() && fresh(fb.Buffers() - old(fb.Buffers()))
      ensures Value() == C.RenderFrame(old(Value()), surface, f, glitch)
    {
      if glitch == C.BeforeTextures { return; }
      if glitch == C.BeforeSwap {
        fb.EnsureSurface(surface);
        return;
      }
      fb.RenderVideo(surface, f.pixels);
      shown := None;
      if glitch == C.Presenting { return; }
      var committed := canonical.CommitVideo(f.epoch, f.frame);
      if committed {
        lastFrame := f.frame;
      }
    }
  }
}
