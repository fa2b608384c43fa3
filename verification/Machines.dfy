/**
 The helper objects of the protocol as they are kept: fields and buffers changed in place, each
 proved against the value or function the protocol model uses.
 */
module Machines {
  import opened Options
  import opened Pixels
  import opened Wire
  import opened Canonical
  import H = Host
  import R = Reader

  /** The viewer's record of its committed frame. */
  class CanonicalState {
    var representation: Representation
    var quality: Quality
    var epoch: nat
    var committedFrame: nat
    var pendingBase: nat
    var pendingTarget: nat
    var ackFrame: Option<nat>

    function Value(): Canonical
      reads this
    {
      Canonical(representation, quality, epoch, committedFrame, pendingBase, pendingTarget, ackFrame)
    }

    constructor ()
      ensures Value() == FRESH
    {
      representation, quality, epoch, committedFrame := Recovery, Unavailable, 0, 0;
      pendingBase, pendingTarget, ackFrame := 0, 0, None;
    }

    method Enter(r: Representation, e: nat) returns (ok: bool)
      modifies this
      ensures ok <==> old(Value()).CanEnter(r, e)
      ensures Value() == old(Value()).Enter(r, e)
    {
      if e == 0 || e < epoch { return false; }
      if e == epoch { return r == representation; }
      representation, epoch := r, e;
      pendingBase, pendingTarget, ackFrame := 0, 0, None;
      ok := true;
    }

    method CommitVideo(e: nat, frame: nat) returns (ok: bool)
      modifies this
      ensures ok <==> old(Value()).CanCommitVideo(e, frame)
      ensures Value() == if ok then old(Value()).CommitVideo(frame) else old(Value())
    {
      if e != epoch || representation != Video || frame == 0 || frame < committedFrame { return false; }
      committedFrame, quality := frame, Lossy;
      pendingBase, pendingTarget, ackFrame := 0, 0, None;
      ok := true;
    }

    method CommitSnapshot(e: nat, frame: nat) returns (ok: bool)
      modifies this
      ensures ok <==> old(Value()).CanCommitSnapshot(e, frame)
      ensures Value() == if ok then old(Value()).CommitSnapshot(frame) else old(Value())
      ensures ok ==> forall digest :: Value().PendingAck(digest) == Some(Ack(e, frame, digest))
    {
      if e != epoch || representation != Snapshot || frame == 0 || frame < committedFrame { return false; }
      committedFrame, quality := frame, Exact;
      pendingBase, pendingTarget, ackFrame := 0, 0, Some(frame);
      ok := true;
    }

    method BeginRects(e: nat, base: nat, target: nat) returns (ok: bool)
      modifies this
      ensures ok <==> old(Value()).CanBeginRects(e, base, target)
      ensures Value() == if ok then old(Value()).BeginRects(base, target) else old(Value())
    {
      if e != epoch || representation != Rects || quality != Exact || base == 0 || target <= base ||
         committedFrame != base || pendingTarget != 0 { return false; }
      pendingBase, pendingTarget := base, target;
      ok := true;
    }

    method CommitRects(e: nat, base: nat, target: nat) returns (ok: bool)
      modifies this
      ensures ok <==> old(Value()).CanCommitRects(e, base, target)
      ensures Value() == if ok then old(Value()).CommitRects(target) else old(Value())
    {
      if e != epoch || representation != Rects || quality != Exact || pendingBase != base ||
         pendingTarget != target || committedFrame != base { return false; }
      committedFrame, pendingBase, pendingTarget, ackFrame := target, 0, 0, Some(target);
      ok := true;
    }

    method CancelRects(e: nat)
      modifies this
      ensures Value() == old(Value()).CancelRects(e)
    {
      if e == epoch {
        pendingBase, pendingTarget, ackFrame := 0, 0, None;
      }
    }

    /** Takes the one pending acknowledgement, if any; a second call finds none. */
    method TakeAck(digest: Digest) returns (ack: Option<Ack>)
      modifies this`ackFrame
      ensures ack == old(Value()).PendingAck(digest) && Value() == old(Value()).TakeAck()
    {
      if ackFrame.None? { return None; }
      ack := Some(Ack(epoch, ackFrame.value, digest));
      ackFrame := None;
    }
  }

  function Larger(a: nat, b: nat): nat { if a < b then b else a }

  /** The host's plan for putting one snapshot on the wire. */
  class DrainPlan {
    var active: bool
    var total: nat
    var chunk: nat
    var limit: nat
    var next: nat

    predicate Valid()
      reads this
    {
      active ==> 0 < chunk && limit == Larger(H.BURST_BYTES, chunk) && next <= total
    }

    constructor ()
      ensures Valid() && !active
    {
      active, total, chunk, limit, next := false, 0, 0, 0, 0;
    }

    method Begin(frame: nat, bytes: nat, stride: nat) returns (ok: bool)
      requires Valid()
      modifies this
      ensures Valid()
      ensures ok <==> !old(active) && frame != 0 && 0 < bytes <= 32 * 1024 * 1024 &&
                      0 < stride <= MAXIMUM_WIRE_CHUNK_BYTES &&
                      bytes % stride == 0
      ensures ok ==> active && total == bytes && next == 0 && chunk == H.ChunkBytes(stride)
      ensures !ok ==> active == old(active) && total == old(total) && chunk == old(chunk) && next == old(next)
    {
      if active || frame == 0 || bytes == 0 || bytes > 32 * 1024 * 1024 || stride == 0 { return false; }
      if bytes % stride != 0 || MAXIMUM_WIRE_CHUNK_BYTES < stride || H.BURST_BYTES < stride { return false; }
      H.ChunkFits(stride);
      total, chunk, next, active := bytes, H.ChunkBytes(stride), 0, true;
      limit := Larger(H.BURST_BYTES, chunk);
      ok := true;
    }

    /** The ranges of one burst; the plan moves past them. */
    method TakeBurst() returns (ranges: seq<H.Range>)
      requires Valid()
      modifies this`next
      ensures Valid()
      ensures ranges == if active then H.Burst(old(next), total, chunk, 0) else []
      ensures active ==> next == H.End(ranges, old(next))
    {
      ranges := [];
      if active {
        ranges, next := CutBurst(next, total, chunk, limit);
      }
    }
  }

  /** The loop that cuts one burst. */
  method CutBurst(start: nat, total: nat, chunk: nat, limit: nat) returns (ranges: seq<H.Range>, next: nat)
    requires chunk > 0 && limit == Larger(H.BURST_BYTES, chunk) && start <= total
    ensures ranges == H.Burst(start, total, chunk, 0) && next == H.End(ranges, start) && next <= total
  {
    ranges, next := [], start;
    ghost var whole := H.Burst(start, total, chunk, 0);
    ghost var rest := whole;
    assert ranges + rest == whole;
    var used: nat := 0;
    var more := true;
    while more && next < total
      invariant next <= total && (ranges == [] <==> used == 0)
      invariant whole == ranges + rest && rest == Going(more, next, total, chunk, used)
      invariant next == H.End(ranges, start)
      decreases total - next, more
    {
      var size := if chunk < total - next then chunk else total - next;
      ghost var after := BurstStep(next, total, chunk, used, size, limit);
      if ranges != [] && used + size > limit {
        more := false;
      } else {
        Append(ranges, H.Range(next, size), after);
        ranges := ranges + [H.Range(next, size)];
        next := next + size;
        used := used + size;
        more := used < limit;
      }
      rest := after;
    }
    assert ranges + [] == ranges;
  }

  /** What is still to come of a burst. */
  function Going(more: bool, next: nat, total: nat, chunk: nat, used: nat): seq<H.Range>
    requires chunk > 0
  {
    if more then H.Burst(next, total, chunk, used) else []
  }

  lemma Append(xs: seq<H.Range>, x: H.Range, ys: seq<H.Range>)
    ensures xs + ([x] + ys) == xs + [x] + ys
  {
  }

  lemma BurstStep(next: nat, total: nat, chunk: nat, used: nat, size: nat, limit: nat) returns (after: seq<H.Range>)
    requires chunk > 0 && next < total && limit == Larger(H.BURST_BYTES, chunk)
    requires size == if chunk < total - next then chunk else total - next
    ensures if used > 0 && used + size > limit then H.Burst(next, total, chunk, used) == [] == after
            else H.Burst(next, total, chunk, used) == [H.Range(next, size)] + after &&
                 after == Going(used + size < limit, next + size, total, chunk, used + size)
  {
    after := if used > 0 && used + size > limit then []
             else Going(used + size < limit, next + size, total, chunk, used + size);
  }

  /** Batches the bytes of one chunk for the graphics upload. */
  method Feed(inc: R.Incoming, at: nat, data: seq<Byte>, limit: nat)
    returns (batches: seq<R.Batch>, offset: nat, buffer: seq<Byte>)
    requires |inc.upload| < limit
    ensures R.Batching(batches, offset, buffer) ==
            R.Rebatch(inc.uploadOffset, inc.upload, at, data, limit, inc.next + |data| == inc.total)
  {
    var next := inc.next + |data|;
    var consumed := 0;
    batches, offset, buffer := [], inc.uploadOffset, inc.upload;
    ghost var whole := R.Rebatch(offset, buffer, at, data, limit, next == inc.total);
    ghost var left, rest := data, whole;
    assert batches + rest.batches == rest.batches;
    while consumed < |data|
      invariant consumed <= |data| && |buffer| < limit && left == data[consumed..]
      invariant rest == R.Rebatch(offset, buffer, at + consumed, left, limit, next == inc.total)
      invariant whole == R.Batching(batches + rest.batches, rest.offset, rest.buffer)
    {
      var count, released;
      count, released, offset, buffer, rest :=
        FeedTurn(offset, buffer, at + consumed, data[consumed..], limit, next == inc.total);
      assert data[consumed..][count..] == data[consumed + count..];
      AssociateAll(batches, released, rest.batches);
      batches := batches + released;
      consumed, left := consumed + count, left[count..];
    }
    assert batches + [] == batches;
  }

  /** Fills the buffer once, and releases it when it is full or the snapshot is whole. */
  method FeedTurn(offset: nat, buffer: seq<Byte>, at: nat, left: seq<Byte>, limit: nat, last: bool)
    returns (count: nat, released: seq<R.Batch>, offset': nat, buffer': seq<Byte>, ghost after: R.Batching)
    requires |buffer| < limit && left != []
    ensures 0 < count <= |left| && |buffer'| < limit
    ensures after == R.Rebatch(offset', buffer', at + count, left[count..], limit, last)
    ensures R.Rebatch(offset, buffer, at, left, limit, last) ==
            R.Batching(released + after.batches, after.offset, after.buffer)
  {
    offset' := if buffer == [] then at else offset;
    count := if |left| < limit - |buffer| then |left| else limit - |buffer|;
    after := FeedStep(offset', buffer, at, left, count, limit, last);
    assert R.Rebatch(offset, buffer, at, left, limit, last) == R.Rebatch(offset', buffer, at, left, limit, last);
    var filled := buffer + left[..count];
    if |filled| == limit || (last && count == |left|) {
      released, buffer' := [R.Batch(offset', filled)], [];
    } else {
      released, buffer' := [], filled;
      assert [] + after.batches == after.batches;
    }
  }

  lemma AssociateAll(xs: seq<R.Batch>, ys: seq<R.Batch>, zs: seq<R.Batch>)
    ensures xs + (ys + zs) == xs + ys + zs
  {
  }

  /** One turn of the batching loop, once the offset of an empty buffer has been set. */
  lemma FeedStep(offset: nat, buffer: seq<Byte>, at: nat, left: seq<Byte>, count: nat, limit: nat, last: bool)
    returns (after: R.Batching)
    requires |buffer| < limit && left != [] && (buffer == [] ==> offset == at)
    requires count == if |left| < limit - |buffer| then |left| else limit - |buffer|
    ensures var filled := buffer + left[..count];
            var held := if |filled| != limit && !(last && count == |left|) then filled else [];
            && |held| < limit && after == R.Rebatch(offset, held, at + count, left[count..], limit, last)
            && R.Rebatch(offset, buffer, at, left, limit, last) ==
               if held != [] then after else R.Batching([R.Batch(offset, filled)] + after.batches, after.offset,
                                                        after.buffer)
  {
    var filled := buffer + left[..count];
    var held := if |filled| != limit && !(last && count == |left|) then filled else [];
    after := R.Rebatch(offset, held, at + count, left[count..], limit, last);
  }

  method OverlapsAny(r: Rect, rects: seq<Rect>) returns (found: bool)
    ensures found <==> !forall other <- rects :: !r.Overlaps(other)
  {
    for i := 0 to |rects|
      invariant forall k | 0 <= k < i :: !r.Overlaps(rects[k])
    {
      if r.Overlaps(rects[i]) { return true; }
    }
    return false;
  }

  /** The rectangles of a transaction while they arrive. */
  class RectGuard {
    var active: bool
    var epoch: nat
    var base: nat
    var target: nat
    var surface: Surface
    var rects: seq<Rect>
    var packed: nat

    predicate Valid()
      reads this
    {
      packed == RectBytes(rects) && packed <= MAXIMUM_RECT_BYTES && (!active ==> rects == [])
    }

    function Value(): R.IncomingRects
      reads this
    {
      R.IncomingRects(epoch, base, target, surface, rects)
    }

    constructor ()
      ensures Valid() && !active && rects == []
    {
      active, epoch, base, target, surface, rects, packed := false, 0, 0, 0, Surface(0, 0), [], 0;
    }

    /** What the guard checks before it looks at the rectangles it has. */
    predicate HeaderFits(m: Message)
      requires m.body.RawRect?
      reads this
    {
      var r := m.body.rect;
      && m.epoch != 0 && m.frame != 0 && m.body.base != 0 && m.frame > m.body.base
      && m.body.surface.width != 0 && m.body.surface.height != 0 && r.width != 0 && r.height != 0
      && |rects| < MAXIMUM_RECT_COUNT && |r.bgra| <= MAXIMUM_RECT_BYTES - packed
      && (active ==> m.epoch == epoch && m.frame == target && m.body.base == base && m.body.surface == surface)
    }

    /** The transaction this rectangle would belong to. */
    function Joined(m: Message): R.IncomingRects
      requires m.body.RawRect?
      reads this
    {
      if active then Value() else R.IncomingRects(m.epoch, m.body.base, m.frame, m.body.surface, [])
    }

    /** Admits a rectangle the transaction can take, and none that overlaps an earlier one. */
    method Accept(m: Message) returns (ok: bool)
      requires Valid() && m.body.RawRect? && (active ==> rects != [])
      modifies this
      ensures Valid() && (active ==> rects != [])
      ensures ok <==> old(Joined(m)).Admits(m)
      ensures ok ==> active && Value() == old(Joined(m)).(rects := old(rects) + [m.body.rect])
      ensures !ok ==> active == old(active) && Value() == old(Value())
    {
      ok := HeaderFits(m);
      if ok {
        var overlaps := OverlapsAny(m.body.rect, rects);
        ok := !overlaps;
      }
      if ok {
        Add(m);
      }
    }

    method Add(m: Message)
      requires Valid() && m.body.RawRect? && HeaderFits(m)
      modifies this
      ensures Valid() && active && Value() == old(Joined(m)).(rects := old(rects) + [m.body.rect])
    {
      var r := m.body.rect;
      assert (rects + [r])[..|rects|] == rects;
      active, epoch, base, target, surface := true, m.epoch, m.body.base, m.frame, m.body.surface;
      rects, packed := rects + [r], packed + |r.bgra|;
    }
  }
}
