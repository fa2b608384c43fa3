/** The viewer's record of which exact or lossy frame its committed framebuffer holds. */
module Canonical {
  import opened Options
  import opened Wire

  datatype Representation = Recovery | Video | Snapshot | Rects
  datatype Quality = Unavailable | Lossy | Exact

  datatype Canonical = Canonical(
    representation: Representation,
    quality: Quality,
    epoch: nat,
    committedFrame: nat,
    pendingBase: nat,
    pendingTarget: nat,
    ackFrame: Option<nat>)
  {
    predicate CanEnter(r: Representation, e: nat) {
      e != 0 && e >= epoch && (e == epoch ==> r == representation)
    }

    function Enter(r: Representation, e: nat): Canonical {
      if !CanEnter(r, e) || e == epoch then this
      else this.(representation := r, epoch := e, pendingBase := 0, pendingTarget := 0, ackFrame := None)
    }

    predicate CanCommitVideo(e: nat, frame: nat) {
      e == epoch && representation == Video && frame != 0 && frame >= committedFrame
    }

    function CommitVideo(frame: nat): Canonical {
      this.(committedFrame := frame, quality := Lossy, pendingBase := 0, pendingTarget := 0, ackFrame := None)
    }

    predicate CanCommitSnapshot(e: nat, frame: nat) {
      e == epoch && representation == Snapshot && frame != 0 && frame >= committedFrame
    }

    function CommitSnapshot(frame: nat): Canonical {
      this.(committedFrame := frame, quality := Exact, pendingBase := 0, pendingTarget := 0, ackFrame := Some(frame))
    }

    predicate CanBeginRects(e: nat, base: nat, target: nat) {
      && e == epoch && representation == Rects && quality == Exact && base != 0
      && target > base && committedFrame == base && pendingTarget == 0
    }

    function BeginRects(base: nat, target: nat): Canonical {
      this.(pendingBase := base, pendingTarget := target)
    }

    predicate CanCommitRects(e: nat, base: nat, target: nat) {
      && e == epoch && representation == Rects && quality == Exact
      && pendingBase == base && pendingTarget == target && committedFrame == base
    }

    function CommitRects(target: nat): Canonical {
      this.(committedFrame := target, pendingBase := 0, pendingTarget := 0, ackFrame := Some(target))
    }

    function CancelRects(e: nat): Canonical {
      if e != epoch then this else this.(pendingBase := 0, pendingTarget := 0, ackFrame := None)
    }

    function PendingAck(digest: Digest): Option<Ack> {
      if ackFrame.None? then None else Some(Ack(epoch, ackFrame.value, digest))
    }

    function TakeAck(): Canonical { this.(ackFrame := None) }
  }

  const FRESH := Canonical(Recovery, Unavailable, 0, 0, 0, 0, None)
}
