/**
 What a session does when nothing gets in its way: a snapshot is written burst by burst, read, uploaded
 and acknowledged, so that every image of every session becomes exact.
 */
module Progress {
  import opened Options
  import opened Pixels
  import opened Wire
  import opened Canonical
  import opened FramebufferSpec
  import H = Host
  import R = Reader
  import C = Compositor
  import opened System
  import opened Invariant
  import opened SendSteps
  import opened TurnSteps
  import E = ExactSteps
  import I = Iterations
  import Runs

  // ------------------------------------------------------------------- whole rows

  /** A number of whole rows, counted down so that sums need no multiplication. */
  predicate Whole(n: nat, stride: nat)
    requires stride > 0
  {
    n == 0 || (n >= stride && Whole(n - stride, stride))
  }

  lemma {:induction false} WholeSum(a: nat, b: nat, stride: nat)
    requires stride > 0 && Whole(a, stride) && Whole(b, stride)
    ensures Whole(a + b, stride)
  {
    if a == 0 {
    } else {
      WholeSum(a - stride, b, stride);
    }
  }

  lemma {:induction false} WholeDifference(a: nat, b: nat, stride: nat)
    requires stride > 0 && Whole(a, stride) && Whole(b, stride) && b <= a
    ensures Whole(a - b, stride)
  {
    if b == 0 {
    } else {
      WholeDifference(a - stride, b - stride, stride);
    }
  }

  lemma {:induction false} WholeDivides(n: nat, stride: nat)
    requires stride > 0
    ensures Whole(n, stride) <==> n % stride == 0
  {
    if n < stride {
    } else {
      WholeDivides(n - stride, stride);
      OneRowLess(n, stride);
    }
  }

  lemma OneRowLess(n: nat, stride: nat)
    requires 0 < stride <= n
    ensures n % stride == (n - stride) % stride
  {
    var q, r := (n - stride) / stride, (n - stride) % stride;
    QuotientUnique(n, q + 1, r, stride);
  }

  /** Uploads that carry an image's bytes `from..to` row by row, in order. */
  ghost predicate UpTo(stride: nat, epoch: nat, frame: nat, image: seq<Byte>, cmds: seq<Command>, from: nat, to: nat)
    requires stride > 0
    decreases |cmds|
  {
    from <= to <= |image| &&
    if cmds == [] then from == to
    else
      && cmds[0].Upload? && cmds[0].bytes != [] && Whole(|cmds[0].bytes|, stride)
      && from + |cmds[0].bytes| <= |image|
      && cmds[0] == Upload(epoch, frame, from, image[from..from + |cmds[0].bytes|])
      && UpTo(stride, epoch, frame, image, cmds[1..], from + |cmds[0].bytes|, to)
  }

  lemma UpToCons(stride: nat, epoch: nat, frame: nat, image: seq<Byte>, bytes: seq<Byte>, rest: seq<Command>, from: nat,
                 to: nat)
    requires stride > 0 && bytes != [] && Whole(|bytes|, stride) && from + |bytes| <= |image|
    requires bytes == image[from..from + |bytes|] && UpTo(stride, epoch, frame, image, rest, from + |bytes|, to)
    ensures UpTo(stride, epoch, frame, image, [Upload(epoch, frame, from, bytes)] + rest, from, to)
  {
    assert ([Upload(epoch, frame, from, bytes)] + rest)[1..] == rest;
  }

  lemma UpToHead(stride: nat, epoch: nat, frame: nat, image: seq<Byte>, cmds: seq<Command>, from: nat, to: nat)
    returns (bytes: seq<Byte>)
    requires stride > 0 && cmds != [] && UpTo(stride, epoch, frame, image, cmds, from, to)
    ensures bytes != [] && Whole(|bytes|, stride) && from + |bytes| <= |image|
    ensures bytes == image[from..from + |bytes|] && UpTo(stride, epoch, frame, image, cmds[1..], from + |bytes|, to)
    ensures cmds == [Upload(epoch, frame, from, bytes)] + cmds[1..]
  {
    bytes := cmds[0].bytes;
  }

  lemma {:induction false} UpToConcat(stride: nat, epoch: nat, frame: nat, image: seq<Byte>, xs: seq<Command>,
                                      ys: seq<Command>, from: nat, mid: nat, to: nat)
    requires stride > 0 && UpTo(stride, epoch, frame, image, xs, from, mid) &&
             UpTo(stride, epoch, frame, image, ys, mid, to)
    ensures UpTo(stride, epoch, frame, image, xs + ys, from, to)
    decreases |xs|
  {
    if xs == [] {
      assert xs + ys == ys;
    } else {
      var bytes := UpToHead(stride, epoch, frame, image, xs, from, mid);
      UpToConcat(stride, epoch, frame, image, xs[1..], ys, from + |bytes|, mid, to);
      UpToCons(stride, epoch, frame, image, bytes, xs[1..] + ys, from, to);
      HeadFirst(xs, ys);
    }
  }

  lemma HeadFirst(xs: seq<Command>, ys: seq<Command>)
    requires xs != []
    ensures xs + ys == [xs[0]] + (xs[1..] + ys)
  {
  }

  // ---------------------------------------------------------------- what reading queues

  ghost predicate AllWhole(bs: seq<R.Batch>, stride: nat)
    requires stride > 0
  {
    forall b <- bs :: Whole(|b.bytes|, stride)
  }

  /** Whole rows are batched into whole rows. */
  lemma {:induction false} RebatchWhole(offset: nat, buffer: seq<Byte>, at: nat, data: seq<Byte>, limit: nat,
                                        last: bool, stride: nat)
    requires stride > 0 && |buffer| < limit
    requires Whole(|buffer|, stride) && Whole(|data|, stride) && Whole(limit, stride)
    ensures var b := R.Rebatch(offset, buffer, at, data, limit, last);
            AllWhole(b.batches, stride) && Whole(|b.buffer|, stride)
    decreases |data|
  {
    if data == [] {
    } else {
      var offset1 := if buffer == [] then at else offset;
      WholeDifference(limit, |buffer|, stride);
      var count := if |data| < limit - |buffer| then |data| else limit - |buffer|;
      WholeDifference(|data|, count, stride);
      WholeSum(|buffer|, count, stride);
      var buffer1, rest := buffer + data[..count], data[count..];
      if |buffer1| != limit && !(last && count == |data|) {
        RebatchWhole(offset1, buffer1, at + count, rest, limit, last, stride);
      } else {
        RebatchWhole(offset1, [], at + count, rest, limit, last, stride);
      }
    }
  }

  /** A chunk no larger than a batch releases at most two. */
  lemma FewBatches(offset: nat, buffer: seq<Byte>, at: nat, data: seq<Byte>, limit: nat, last: bool)
    requires |buffer| < limit && |data| <= limit
    ensures |R.Rebatch(offset, buffer, at, data, limit, last).batches| <= 2
  {
    if data != [] {
      var count := if |data| < limit - |buffer| then |data| else limit - |buffer|;
      OneBatch(if buffer == [] then at else offset, at + count, data[count..], limit, last);
      assert |data[..count]| == count;
      if count == |data| {
        assert data[count..] == [];
      }
    }
  }

  lemma OneBatch(offset: nat, at: nat, data: seq<Byte>, limit: nat, last: bool)
    requires 0 < limit && |data| <= limit
    ensures |R.Rebatch(offset, [], at, data, limit, last).batches| <= 1
  {
    if data != [] {
      assert data[..|data|] == data && data[|data|..] == [];
    }
  }

  lemma SliceSplit(image: seq<Byte>, from: nat, to: nat, head: seq<Byte>, tail: seq<Byte>)
    requires from <= to <= |image| && head + tail == image[from..to]
    ensures from + |head| <= to && head == image[from..from + |head|] && tail == image[from + |head|..to]
  {
    assert |head| + |tail| == to - from;
    assert head == image[from..to][..|head|] && tail == image[from..to][|head|..];
  }

  /** The first of several batches, and what the others carry. */
  lemma BatchesSplit(bs: seq<R.Batch>, from: nat, image: seq<Byte>, to: nat, left: seq<Byte>)
    requires bs != [] && from <= to <= |image| && R.BatchBytes(bs) + left == image[from..to]
    ensures from + |bs[0].bytes| <= to && bs[0].bytes == image[from..from + |bs[0].bytes|]
    ensures R.BatchBytes(bs[1..]) + left == image[from + |bs[0].bytes|..to]
  {
    assert bs == [bs[0]] + bs[1..];
    R.BatchBytesCons(bs[0], bs[1..], left);
    SliceSplit(image, from, to, bs[0].bytes, R.BatchBytes(bs[1..]) + left);
  }

  lemma {:induction false} BatchesUpTo(stride: nat, epoch: nat, frame: nat, image: seq<Byte>, bs: seq<R.Batch>,
                                       from: nat, to: nat, left: seq<Byte>)
    requires stride > 0 && R.Contiguous(bs, from) && AllWhole(bs, stride)
    requires from <= to <= |image| && R.BatchBytes(bs) + left == image[from..to]
    ensures |left| <= to && UpTo(stride, epoch, frame, image, R.Uploads(epoch, frame, bs), from, to - |left|)
    decreases |bs|
  {
    if bs == [] {
      assert R.Uploads(epoch, frame, bs) == [] && left == image[from..to];
    } else {
      BatchesSplit(bs, from, image, to, left);
      BatchesUpTo(stride, epoch, frame, image, bs[1..], from + |bs[0].bytes|, to, left);
      UpToCons(stride, epoch, frame, image, bs[0].bytes, R.Uploads(epoch, frame, bs[1..]), from, to - |left|);
      assert R.Uploads(epoch, frame, bs) == [Upload(epoch, frame, from, bs[0].bytes)] +
             R.Uploads(epoch, frame, bs[1..]);
    }
  }

  /** What the reader has queued of a snapshot of which it has read everything before `next`. */
  ghost predicate Uploaded(c: Session, r: R.Reader, epoch: nat, frame: nat, image: seq<Byte>, next: nat,
                           cmds: seq<Command>)
    requires c.Valid()
  {
    if next == 0 then cmds == [] && r.snapshot.None?
    else
      && r.snapshot.Some? && |r.snapshot.value.upload| <= next && Whole(|r.snapshot.value.upload|, c.surface.Stride())
      && cmds != [] && cmds[0] == Begin(epoch, frame, c.surface)
      && UpTo(c.surface.Stride(), epoch, frame, image, cmds[1..], 0, next - |r.snapshot.value.upload|)
  }

  lemma LimitWhole(stride: nat)
    requires 0 < stride <= R.GPU_UPLOAD_BATCH_BYTES
    ensures R.UploadLimit(stride) >= R.GPU_UPLOAD_BATCH_BYTES / 2 && Whole(R.UploadLimit(stride), stride)
  {
    var q := R.GPU_UPLOAD_BATCH_BYTES / stride;
    MulOrder(1, q, stride);
    QuotientUnique(q * stride, q, 0, stride);
    WholeDivides(q * stride, stride);
  }

  lemma CutUploads(stride: nat, epoch: nat, frame: nat, image: seq<Byte>, b: R.Batching, from: nat, to: nat, limit: nat)
    requires stride > 0 && Cut(b, image, from, to, limit) && AllWhole(b.batches, stride)
    ensures |b.buffer| <= to && UpTo(stride, epoch, frame, image, R.Uploads(epoch, frame, b.batches), from,
                                     to - |b.buffer|)
  {
    BatchesUpTo(stride, epoch, frame, image, b.batches, from, to, b.buffer);
  }

  lemma RebatchUploads(stride: nat, epoch: nat, frame: nat, image: seq<Byte>, offset: nat, buffer: seq<Byte>, at: nat,
                       to: nat, limit: nat, data: seq<Byte>, from: nat)
    requires stride > 0 && |buffer| < limit && Whole(|buffer|, stride) && Whole(|data|, stride) && Whole(limit, stride)
    requires Cut(R.Rebatch(offset, buffer, at, data, limit, to == |image|), image, from, to, limit)
    ensures var b := R.Rebatch(offset, buffer, at, data, limit, to == |image|);
            && |b.buffer| <= to && Whole(|b.buffer|, stride)
            && UpTo(stride, epoch, frame, image, R.Uploads(epoch, frame, b.batches), from, to - |b.buffer|)
  {
    RebatchWhole(offset, buffer, at, data, limit, to == |image|, stride);
    CutUploads(stride, epoch, frame, image, R.Rebatch(offset, buffer, at, data, limit, to == |image|), from, to, limit);
  }

  lemma BufferUploads(stride: nat, epoch: nat, frame: nat, image: seq<Byte>, offset: nat, buffer: seq<Byte>, at: nat,
                      to: nat, limit: nat, data: seq<Byte>)
    requires stride > 0 && |buffer| < limit && |buffer| <= at < to <= |image| && data == image[at..to]
    requires buffer == image[at - |buffer|..at] && (buffer != [] ==> offset + |buffer| == at)
    requires Whole(|buffer|, stride) && Whole(|data|, stride) && Whole(limit, stride)
    ensures var b := R.Rebatch(offset, buffer, at, data, limit, to == |image|);
            && |b.buffer| <= to && Whole(|b.buffer|, stride)
            && UpTo(stride, epoch, frame, image, R.Uploads(epoch, frame, b.batches), at - |buffer|, to - |b.buffer|)
  {
    RebatchCuts(offset, buffer, image, at, to, limit);
    RebatchUploads(stride, epoch, frame, image, offset, buffer, at, to, limit, data, at - |buffer|);
  }

  /** The uploads that reading one more chunk adds. */
  lemma ChunkUploads(c: Session, inc: R.Incoming, epoch: nat, frame: nat, image: seq<Byte>, at: nat, to: nat)
    requires c.Valid() && Receiving(c, inc, epoch, frame, image, at) && at < to <= |image|
    requires Whole(|inc.upload|, c.surface.Stride()) && Whole(to - at, c.surface.Stride())
    ensures var b := BatchOf(c, inc, image, at, to);
            && |b.buffer| <= to && Whole(|b.buffer|, c.surface.Stride())
            && UpTo(c.surface.Stride(), epoch, frame, image, R.Uploads(epoch, frame, b.batches), at - |inc.upload|,
                    to - |b.buffer|)
  {
    LimitWhole(c.surface.Stride());
    var data := image[at..to];
    assert |data| == to - at;
    BufferUploads(c.surface.Stride(), epoch, frame, image, inc.uploadOffset, inc.upload, at, to,
                  R.UploadLimit(c.surface.Stride()), data);
  }

  lemma UploadedMore(c: Session, r: R.Reader, next: R.Reader, epoch: nat, frame: nat, image: seq<Byte>, at: nat,
                     to: nat, cmds: seq<Command>, uploads: seq<Command>)
    requires c.Valid() && Uploaded(c, r, epoch, frame, image, at, cmds) && at < to <= |image|
    requires next.snapshot.Some? && |next.snapshot.value.upload| <= to &&
             Whole(|next.snapshot.value.upload|, c.surface.Stride())
    requires UpTo(c.surface.Stride(), epoch, frame, image, uploads,
                  if at == 0 then 0 else at - |r.snapshot.value.upload|, to - |next.snapshot.value.upload|)
    ensures Uploaded(c, next, epoch, frame, image, to,
                     cmds + ((if r.snapshot.None? then [Begin(epoch, frame, c.surface)] else []) + uploads))
  {
    var left, stride := to - |next.snapshot.value.upload|, c.surface.Stride();
    if at == 0 {
      assert ([] + ([Begin(epoch, frame, c.surface)] + uploads))[1..] == uploads;
    } else {
      UpToConcat(stride, epoch, frame, image, cmds[1..], uploads, 0, at - |r.snapshot.value.upload|, left);
      assert (cmds + ([] + uploads))[1..] == cmds[1..] + uploads;
    }
  }

  /** What reading a chunk queues and keeps. */
  lemma ChunkQueues(c: Session, r: R.Reader, epoch: nat, frame: nat, image: seq<Byte>, g: H.Range, out: R.Outcome)
    requires c.Valid() && Expecting(c, r, epoch, frame, image, g.offset)
    requires 0 < g.size <= MAXIMUM_WIRE_CHUNK_BYTES && g.offset + g.size <= |image|
    requires out == R.Receive(c, r, Message(r.lastSequence + 1, epoch, frame, ChunkOf(c, image, g)))
    ensures var inc, to := Under(c, r, epoch, frame, image), g.offset + g.size;
            && Receiving(c, inc, epoch, frame, image, g.offset)
            && var b := BatchOf(c, inc, image, g.offset, to);
               && out.commands == (if r.snapshot.None? then [Begin(epoch, frame, c.surface)] else []) +
               R.Uploads(epoch, frame, b.batches)
               && out.reader.snapshot.Some? && out.reader.snapshot.value.upload == b.buffer
  {
    UploadRoom(c.surface.Stride());
    var m := Message(r.lastSequence + 1, epoch, frame, ChunkOf(c, image, g));
    ChunkDecodable(c, epoch, frame, image, g, m.sequence);
    ChunkReceived(c, r, m);
    ChunkOutcome(c, r, epoch, frame, image, g);
  }

  lemma ReadChunkUploads(c: Session, r: R.Reader, epoch: nat, frame: nat, image: seq<Byte>, g: H.Range,
                         cmds: seq<Command>)
    requires c.Valid() && Expecting(c, r, epoch, frame, image, g.offset) &&
             Uploaded(c, r, epoch, frame, image, g.offset, cmds)
    requires 0 < g.size <= MAXIMUM_WIRE_CHUNK_BYTES && g.offset + g.size <= |image| && Whole(g.size, c.surface.Stride())
    ensures var out := R.Receive(c, r, Message(r.lastSequence + 1, epoch, frame, ChunkOf(c, image, g)));
            Uploaded(c, out.reader, epoch, frame, image, g.offset + g.size, cmds + out.commands)
  {
    var inc, to := Under(c, r, epoch, frame, image), g.offset + g.size;
    var out := R.Receive(c, r, Message(r.lastSequence + 1, epoch, frame, ChunkOf(c, image, g)));
    ChunkQueues(c, r, epoch, frame, image, g, out);
    ChunkUploads(c, inc, epoch, frame, image, g.offset, to);
    var b := BatchOf(c, inc, image, g.offset, to);
    UploadedMore(c, r, out.reader, epoch, frame, image, g.offset, to, cmds, R.Uploads(epoch, frame, b.batches));
  }

  ghost predicate WholeRanges(rs: seq<H.Range>, stride: nat)
    requires stride > 0
  {
    forall g <- rs :: Whole(g.size, stride)
  }

  /** A reader that has read everything before `at` and has queued `cmds` for it. */
  ghost predicate Reached(c: Session, r: R.Reader, epoch: nat, frame: nat, image: seq<Byte>, at: nat,
                          cmds: seq<Command>)
    requires c.Valid()
  {
    Expecting(c, r, epoch, frame, image, at) && Uploaded(c, r, epoch, frame, image, at, cmds)
  }

  ghost predicate Readable(rs: seq<H.Range>, next: nat, total: nat, stride: nat)
    requires stride > 0
  {
    H.Abut(rs, next) && RangesFit(rs, total) && WholeRanges(rs, stride)
  }

  lemma FirstUploads(c: Session, r: R.Reader, epoch: nat, src: H.Source, frame: nat, rs: seq<H.Range>, next: nat,
                     cmds: seq<Command>)
    returns (one: R.Reading)
    requires c.Valid() && rs != [] && Readable(rs, next, |src.pixels|, c.surface.Stride())
    requires Reached(c, r, epoch, frame, src.pixels, next, cmds)
    ensures one.reader.lastSequence == r.lastSequence + 1
    ensures Reached(c, one.reader, epoch, frame, src.pixels, next + rs[0].size, cmds + one.commands)
    ensures var rest := R.ReadAll(c, one.reader,
                                  H.Numbered(one.reader.lastSequence, epoch, frame, H.Chunks(c, src, rs[1..])));
            R.ReadAll(c, r, H.Numbered(r.lastSequence, epoch, frame, H.Chunks(c, src, rs))) ==
            R.Reading(rest.reader, one.commands + rest.commands)
  {
    ReadChunkUploads(c, r, epoch, frame, src.pixels, rs[0], cmds);
    one := FirstChunk(c, r, epoch, src, frame, rs, next);
  }

  lemma ChainUploads(c: Session, epoch: nat, frame: nat, image: seq<Byte>, to: nat, cmds: seq<Command>, one: R.Reading,
                     rest: R.Reading, all: R.Reading)
    requires c.Valid() && all == R.Reading(rest.reader, one.commands + rest.commands)
    requires Uploaded(c, rest.reader, epoch, frame, image, to, cmds + one.commands + rest.commands)
    ensures Uploaded(c, all.reader, epoch, frame, image, to, cmds + all.commands)
  {
    assert cmds + one.commands + rest.commands == cmds + all.commands;
  }

  lemma ReadableTail(rs: seq<H.Range>, next: nat, total: nat, stride: nat)
    requires rs != [] && stride > 0 && Readable(rs, next, total, stride)
    ensures Readable(rs[1..], next + rs[0].size, total, stride) && H.End(rs[1..], next + rs[0].size) == H.End(rs, next)
  {
    RangesTail(rs, next, total);
  }

  /** A burst of whole rows, read. */
  lemma {:induction false} ReadChunksUploads(c: Session, r: R.Reader, epoch: nat, src: H.Source, frame: nat,
                                             rs: seq<H.Range>, next: nat, cmds: seq<Command>)
    requires c.Valid() && Readable(rs, next, |src.pixels|, c.surface.Stride())
    requires Reached(c, r, epoch, frame, src.pixels, next, cmds)
    ensures var all := R.ReadAll(c, r, H.Numbered(r.lastSequence, epoch, frame, H.Chunks(c, src, rs)));
            Uploaded(c, all.reader, epoch, frame, src.pixels, H.End(rs, next), cmds + all.commands)
    decreases |rs|
  {
    if rs == [] {
      NoChunk(c, r, epoch, src, frame);
      assert cmds + [] == cmds;
    } else {
      ReadableTail(rs, next, |src.pixels|, c.surface.Stride());
      var one := FirstUploads(c, r, epoch, src, frame, rs, next, cmds);
      ReadChunksUploads(c, one.reader, epoch, src, frame, rs[1..], next + rs[0].size, cmds + one.commands);
      ChainUploads(c, epoch, frame, src.pixels, H.End(rs, next), cmds, one,
                   R.ReadAll(c, one.reader, H.Numbered(one.reader.lastSequence, epoch, frame,
                                                       H.Chunks(c, src, rs[1..]))),
                   R.ReadAll(c, r, H.Numbered(r.lastSequence, epoch, frame, H.Chunks(c, src, rs))));
    }
  }

  // ------------------------------------------------------------------- the drain

  /** Bursts are cut between rows. */
  lemma {:induction false} BurstWhole(next: nat, total: nat, chunk: nat, used: nat, stride: nat)
    requires chunk > 0 && stride > 0 && next <= total && Whole(chunk, stride) && Whole(total - next, stride)
    ensures WholeRanges(H.Burst(next, total, chunk, used), stride)
    decreases total - next
  {
    if next == total {
    } else {
      var size := if chunk < total - next then chunk else total - next;
      WholeDifference(total - next, size, stride);
      BurstWhole(next + size, total, chunk, used + size, stride);
      BurstStep(next, total, chunk, used, size, stride);
    }
  }

  lemma BurstStep(next: nat, total: nat, chunk: nat, used: nat, size: nat, stride: nat)
    requires chunk > 0 && stride > 0 && next < total && size == if chunk < total - next then chunk else total - next
    requires Whole(size, stride) && WholeRanges(H.Burst(next + size, total, chunk, used + size), stride)
    ensures WholeRanges(H.Burst(next, total, chunk, used), stride)
  {
    var rs, rest := H.Burst(next, total, chunk, used), H.Burst(next + size, total, chunk, used + size);
    assert rs == [] || rs == [H.Range(next, size)] || rs == [H.Range(next, size)] + rest;
  }

  lemma {:induction false} EndWhole(rs: seq<H.Range>, next: nat, total: nat, stride: nat)
    requires stride > 0 && Readable(rs, next, total, stride) && Whole(next, stride)
    ensures Whole(H.End(rs, next), stride)
    decreases |rs|
  {
    if rs == [] {
    } else {
      ReadableTail(rs, next, total, stride);
      WholeSum(next, rs[0].size, stride);
      EndWhole(rs[1..], next + rs[0].size, total, stride);
    }
  }

  /** The next burst as the reader needs it. */
  lemma BurstReadable(c: Session, drained: nat, total: nat) returns (rs: seq<H.Range>)
    requires c.Valid() && drained < total == c.surface.Size() && Whole(drained, c.surface.Stride())
    ensures H.ChunkBytes(c.surface.Stride()) > 0 && rs == H.Burst(drained, total, H.ChunkBytes(c.surface.Stride()), 0)
    ensures Readable(rs, drained, total, c.surface.Stride()) && drained < H.End(rs, drained) <= total
    ensures Whole(H.End(rs, drained), c.surface.Stride())
  {
    var stride := c.surface.Stride();
    var chunk := H.ChunkBytes(stride);
    H.ChunkFits(stride);
    WholeDivides(chunk, stride);
    QuotientUnique(total, c.surface.height, 0, stride);
    WholeDivides(total, stride);
    WholeDifference(total, drained, stride);
    rs := H.Burst(drained, total, chunk, 0);
    H.BurstAbuts(drained, total, chunk, 0);
    E.BurstSizes(drained, total, chunk, 0);
    BurstWhole(drained, total, chunk, 0, stride);
    E.EndBound(rs, drained, total);
    EndWhole(rs, drained, total, stride);
  }

  /** The viewer has not been at work yet, and the host goes on. */
  predicate Untouched(s: State) {
    && s.queue == [] && s.acks == [] && !s.stalled && !s.ended && s.reader == R.START && s.compositor == C.START
    && s.host.mailbox.None? && !s.host.halted
  }

  /** The first frame on its way: the second epoch, and `p` in the analyzer's pending texture. */
  predicate Sends(h: H.Host, p: seq<Byte>) {
    && h.epoch == 2 && h.snapshotEpoch == 2 && h.snapshotFrame == 1
    && h.analyzer == H.Analyzer(Some(H.Source(1, 1, p)), None, Some(H.Source(1, 1, p)))
  }

  ghost predicate Draining(c: Session, s: State, p: seq<Byte>)
    requires c.Valid()
  {
    var ahead := Ahead(c, s);
    && Untouched(s) && Sends(s.host, p) && s.host.mode == H.Sending && s.host.draining == Some(H.Source(1, 1, p))
    && s.host.drained < |p| == c.surface.Size() && Whole(s.host.drained, c.surface.Stride())
    && ahead.commands != [] && ahead.commands[0] == Cancel(2)
    && Uploaded(c, ahead.reader, 2, 1, p, s.host.drained, ahead.commands[1..])
  }

  /** Uploads from `at` to the end, and the commit. */
  ghost predicate Remaining(c: Session, p: seq<Byte>, cmds: seq<Command>, at: nat)
    requires c.Valid()
  {
    && cmds != [] && cmds[|cmds| - 1] == CommitSnapshot(2, 1, OfImage(p))
    && UpTo(c.surface.Stride(), 2, 1, p, cmds[..|cmds| - 1], at, |p|)
  }

  ghost predicate Script(c: Session, p: seq<Byte>, cmds: seq<Command>)
    requires c.Valid()
  {
    |cmds| >= 2 && cmds[0] == Cancel(2) && cmds[1] == Begin(2, 1, c.surface) && Remaining(c, p, cmds[2..], 0)
  }

  ghost predicate Sent(c: Session, s: State, p: seq<Byte>)
    requires c.Valid()
  {
    && Untouched(s) && Sends(s.host, p) && s.host.mode == H.AwaitingAck && |p| == c.surface.Size()
    && Script(c, p, Ahead(c, s).commands)
  }

  /** What reading a burst adds to what has been queued. */
  lemma BurstUploads(c: Session, s: State, p: seq<Byte>, rs: seq<H.Range>)
    requires c.Valid() && Inv(c, s) && Draining(c, s, p) && Readable(rs, s.host.drained, |p|, c.surface.Stride())
    ensures Ahead(c, s).reader.lastSequence == s.host.sequence
    ensures var all := R.ReadAll(c, Ahead(c, s).reader,
                                 H.Numbered(s.host.sequence, 2, 1, H.Chunks(c, H.Source(1, 1, p), rs)));
            Uploaded(c, all.reader, 2, 1, p, H.End(rs, s.host.drained), Ahead(c, s).commands[1..] + all.commands)
  {
    E.SendingExpects(c, ViewOf(s), Ahead(c, s).reader);
    ReadChunksUploads(c, Ahead(c, s).reader, 2, H.Source(1, 1, p), 1, rs, s.host.drained, Ahead(c, s).commands[1..]);
  }

  lemma DrainIsBurst(c: Session, h: H.Host, p: seq<Byte>, rs: seq<H.Range>)
    requires c.Valid() && h.mode == H.Sending && h.draining == Some(H.Source(1, 1, p)) && h.drained <= |p|
    requires rs == E.NextBurst(c, h) && forall r <- rs :: r.offset + r.size <= |p|
    ensures H.Drain(c, h) == H.BurstTurn(c, h, H.Source(1, 1, p), rs)
  {
  }

  lemma DrainEvent(c: Session, s: State)
    requires c.Valid() && Enabled(c, s, Event.Drain)
    ensures Next(c, s, Event.Drain) == Take(s, H.Drain(c, s.host))
  {
  }

  lemma DrainTurn(c: Session, s: State, p: seq<Byte>) returns (rs: seq<H.Range>)
    requires c.Valid() && Draining(c, s, p)
    ensures Readable(rs, s.host.drained, |p|, c.surface.Stride()) && s.host.drained < H.End(rs, s.host.drained) <= |p|
    ensures Whole(H.End(rs, s.host.drained), c.surface.Stride()) && rs == E.NextBurst(c, s.host)
    ensures forall r <- rs :: r.offset + r.size <= |p|
    ensures Next(c, s, Event.Drain) == Take(s, H.BurstTurn(c, s.host, H.Source(1, 1, p), rs))
  {
    rs := BurstReadable(c, s.host.drained, |p|);
    DrainIsBurst(c, s.host, p, rs);
    DrainEvent(c, s);
  }

  lemma PartAhead(c: Session, ahead: R.Reading, more: R.Reading, p: seq<Byte>, to: nat)
    requires c.Valid() && ahead.commands != [] &&
             Uploaded(c, more.reader, 2, 1, p, to, ahead.commands[1..] + more.commands)
    ensures Onto(ahead, more).commands[0] == ahead.commands[0]
    ensures Uploaded(c, Onto(ahead, more).reader, 2, 1, p, to, Onto(ahead, more).commands[1..])
  {
    assert (ahead.commands + more.commands)[1..] == ahead.commands[1..] + more.commands;
  }

  /** A burst that is not the last. */
  lemma DrainPart(c: Session, s: State, p: seq<Byte>, rs: seq<H.Range>, t: State)
    requires c.Valid() && Inv(c, s) && Draining(c, s, p) && Readable(rs, s.host.drained, |p|, c.surface.Stride())
    requires (forall r <- rs :: r.offset + r.size <= |p|) && t == Take(s, H.BurstTurn(c, s.host, H.Source(1, 1, p), rs))
    requires H.End(rs, s.host.drained) < |p| && Whole(H.End(rs, s.host.drained), c.surface.Stride())
    ensures Draining(c, t, p) && t.host.drained == H.End(rs, s.host.drained)
  {
    var turn := H.BurstTurn(c, s.host, H.Source(1, 1, p), rs);
    var more := R.ReadAll(c, Ahead(c, s).reader, turn.sent);
    BurstUploads(c, s, p, rs);
    TurnAhead(c, s, turn, more);
    PartAhead(c, Ahead(c, s), more, p, H.End(rs, s.host.drained));
  }

  lemma LastBurst(c: Session, s: State, p: seq<Byte>, rs: seq<H.Range>) returns (first: R.Reading)
    requires c.Valid() && Inv(c, s) && Draining(c, s, p) && rs == E.NextBurst(c, s.host)
    requires (forall r <- rs :: r.offset + r.size <= |p|) && H.End(rs, s.host.drained) == |p|
    ensures first == R.ReadAll(c, Ahead(c, s).reader,
                               H.Numbered(s.host.sequence, 2, 1, H.Chunks(c, H.Source(1, 1, p), rs)))
    ensures Expecting(c, first.reader, 2, 1, p, |p|) && first.reader.lastSequence == s.host.sequence + |rs|
  {
    E.SendingExpects(c, ViewOf(s), Ahead(c, s).reader);
    E.BurstReads(c, ViewOf(s), Ahead(c, s).reader);
    first := R.ReadAll(c, Ahead(c, s).reader, H.Numbered(s.host.sequence, 2, 1, H.Chunks(c, H.Source(1, 1, p), rs)));
  }

  lemma CommitRead(c: Session, end: R.Reader, sequence: nat, p: seq<Byte>, chunks: seq<Body>, first: R.Reading)
    requires c.Valid() && first == R.ReadAll(c, end, H.Numbered(sequence, 2, 1, chunks))
    requires Expecting(c, first.reader, 2, 1, p, |p|) && first.reader.lastSequence == sequence + |chunks|
    ensures R.ReadAll(c, end, H.Numbered(sequence, 2, 1, chunks + [FrameCommit(0)])).commands ==
            first.commands + [CommitSnapshot(2, 1, OfImage(p))]
  {
    ReadSnapshotCommit(c, first.reader, 2, 1, p);
    E.ReadThenOne(c, end, sequence, 2, 1, chunks, FrameCommit(0));
  }

  lemma ScriptOf(c: Session, p: seq<Byte>, r: R.Reader, before: seq<Command>, last: seq<Command>)
    requires c.Valid() && before != [] && before[0] == Cancel(2) && p != []
    requires Expecting(c, r, 2, 1, p, |p|) && Uploaded(c, r, 2, 1, p, |p|, before[1..] + last)
    ensures Script(c, p, before + (last + [CommitSnapshot(2, 1, OfImage(p))]))
  {
    var commit := CommitSnapshot(2, 1, OfImage(p));
    var queued := before[1..] + last;
    var cmds := before + (last + [commit]);
    assert cmds == [Cancel(2)] + queued + [commit];
    assert cmds[2..] == queued[1..] + [commit];
    assert cmds[2..][..|cmds[2..]| - 1] == queued[1..];
  }

  /** The last burst. */
  lemma DrainWhole(c: Session, s: State, p: seq<Byte>, rs: seq<H.Range>, t: State)
    requires c.Valid() && Inv(c, s) && Draining(c, s, p) && rs == E.NextBurst(c, s.host)
    requires Readable(rs, s.host.drained, |p|, c.surface.Stride()) && (forall r <- rs :: r.offset + r.size <= |p|)
    requires H.End(rs, s.host.drained) == |p| && t == Take(s, H.BurstTurn(c, s.host, H.Source(1, 1, p), rs))
    ensures Sent(c, t, p)
  {
    var turn, ahead, chunks := H.BurstTurn(c, s.host, H.Source(1, 1, p), rs), Ahead(c, s),
                               H.Chunks(c, H.Source(1, 1, p), rs);
    var first := LastBurst(c, s, p, rs);
    BurstUploads(c, s, p, rs);
    CommitRead(c, ahead.reader, s.host.sequence, p, chunks, first);
    ScriptOf(c, p, first.reader, ahead.commands, first.commands);
    TurnAhead(c, s, turn, R.ReadAll(c, ahead.reader, turn.sent));
  }

  /** Bursts alone bring a snapshot onto the wire. */
  lemma {:induction false} DrainsOut(c: Session, past: seq<Event>, p: seq<Byte>) returns (after: seq<Event>)
    requires c.Valid() && Draining(c, Run(c, past), p)
    ensures Sent(c, Run(c, after), p)
    decreases |p| - Run(c, past).host.drained
  {
    var s := Run(c, past);
    E.RunInv(c, past);
    var rs := DrainTurn(c, s, p);
    after := past + [Event.Drain];
    I.Step(c, past, Event.Drain);
    if H.End(rs, s.host.drained) == |p| {
      DrainWhole(c, s, p, rs, Run(c, after));
    } else {
      DrainPart(c, s, p, rs, Run(c, after));
      after := DrainsOut(c, after, p);
    }
  }

  // ------------------------------------------------------------------- the start

  function Opening(p: seq<Byte>): seq<Event> { [Capture(1, true, p), EnterQuiescing, TakeSnapshot] }

  lemma CaptureFirst(c: Session, p: seq<Byte>)
    requires c.Valid() && |p| == c.surface.Size()
    ensures var s := Run(c, [Capture(1, true, p)]);
            s == Start(c).(host := H.Start(c).(analyzer := H.Analyzer(Some(H.Source(1, 1, p)), None, None)),
                           images := map[1 := p])
  {
    assert [Capture(1, true, p)][..0] == [];
  }

  lemma QuiesceFirst(c: Session, s: State, p: seq<Byte>)
    requires c.Valid() && |p| == c.surface.Size()
    requires s == Start(c).(host := H.Start(c).(analyzer := H.Analyzer(Some(H.Source(1, 1, p)), None, None)),
                            images := map[1 := p])
    ensures var t := Next(c, s, EnterQuiescing);
            && Untouched(t) && t.channel == [Message(1, 2, 1, StateReset)]
            && t.host.mode == H.Quiescing && t.host.epoch == 2 == t.host.snapshotEpoch && t.host.sequence == 1
            && H.Drained(t.host) && t.host.analyzer == H.Analyzer(Some(H.Source(1, 1, p)), None, None)
  {
  }

  lemma SnapshotFirst(c: Session, s: State, p: seq<Byte>)
    requires c.Valid() && |p| == c.surface.Size() && Untouched(s) && s.channel == [Message(1, 2, 1, StateReset)]
    requires s.host.mode == H.Quiescing && s.host.epoch == 2 == s.host.snapshotEpoch && H.Drained(s.host)
    requires s.host.analyzer == H.Analyzer(Some(H.Source(1, 1, p)), None, None)
    ensures var t := Next(c, s, TakeSnapshot);
            && Untouched(t) && t.channel == s.channel && t.host.mode == H.Sending && t.host.drained == 0
            && Sends(t.host, p) && t.host.draining == Some(H.Source(1, 1, p))
  {
    assert s.channel + [] == s.channel;
  }

  lemma SizePositive(c: Session)
    requires c.Valid()
    ensures c.surface.Size() > 0
  {
    MulOrder(1, c.surface.height, c.surface.Stride());
  }

  lemma ResetRead(c: Session, s: State)
    requires s.reader == R.START && s.channel == [Message(1, 2, 1, StateReset)]
    ensures Ahead(c, s) == R.Reading(R.START.(lastSequence := 1, resetEpoch := Some(2)), [Cancel(2)])
  {
    R.ReadAllOne(c, s.reader, s.channel[0]);
  }

  lemma QuietRun(c: Session, p: seq<Byte>)
    requires c.Valid() && |p| == c.surface.Size()
    ensures var s := Run(c, [Capture(1, true, p), EnterQuiescing]);
            && Untouched(s) && s.channel == [Message(1, 2, 1, StateReset)]
            && s.host.mode == H.Quiescing && s.host.epoch == 2 == s.host.snapshotEpoch
            && H.Drained(s.host) && s.host.analyzer == H.Analyzer(Some(H.Source(1, 1, p)), None, None)
  {
    CaptureFirst(c, p);
    I.Step(c, [Capture(1, true, p)], EnterQuiescing);
    QuiesceFirst(c, Run(c, [Capture(1, true, p)]), p);
    assert [Capture(1, true, p)] + [EnterQuiescing] == [Capture(1, true, p), EnterQuiescing];
  }

  /** The first frame is captured, video stops, and its pixels are read back. */
  lemma OpeningDrains(c: Session, p: seq<Byte>)
    requires c.Valid() && |p| == c.surface.Size()
    ensures Draining(c, Run(c, Opening(p)), p)
  {
    var quiet := [Capture(1, true, p), EnterQuiescing];
    QuietRun(c, p);
    I.Step(c, quiet, TakeSnapshot);
    SnapshotFirst(c, Run(c, quiet), p);
    assert quiet + [TakeSnapshot] == Opening(p);
    SizePositive(c);
    FirstDrains(c, Run(c, Opening(p)), p);
  }

  lemma FirstDrains(c: Session, s: State, p: seq<Byte>)
    requires c.Valid() && |p| == c.surface.Size() > 0 && Untouched(s) && s.channel == [Message(1, 2, 1, StateReset)]
    requires s.host.mode == H.Sending && s.host.drained == 0 && Sends(s.host, p) &&
             s.host.draining == Some(H.Source(1, 1, p))
    ensures Draining(c, s, p)
  {
    ResetRead(c, s);
  }

  // ------------------------------------------------------------------ the viewer

  /** An upload of the first snapshot under way. */
  ghost predicate Uploading(c: Session, v: C.Compositor) {
    && v.fb.Valid() && v.fb.snapshotActive && v.fb.surface == c.surface && Whole(v.fb.received, v.fb.surface.Stride())
    && v.canonical == FRESH.(representation := Snapshot, epoch := 2)
  }

  /** The compositor has done part of the script, and `todo` is the rest. */
  ghost predicate Midway(c: Session, v: C.Compositor, p: seq<Byte>, todo: seq<Command>)
    requires c.Valid()
  {
    |p| == c.surface.Size() && (
      || (v == C.START && Script(c, p, todo))
      || (v == C.START.(lastEpoch := 2) && todo != [] && todo[0] == Begin(2, 1, c.surface) &&
          Remaining(c, p, todo[1..], 0))
      || (Uploading(c, v) && Remaining(c, p, todo, v.fb.received)))
  }

  ghost predicate Waiting(c: Session, s: State, p: seq<Byte>)
    requires c.Valid()
  {
    && Sends(s.host, p) && s.host.mode == H.AwaitingAck && !s.host.halted && s.host.mailbox.None?
    && s.acks == [] && !s.stalled && !s.ended && Midway(c, s.compositor, p, s.queue + Ahead(c, s).commands)
  }

  ghost predicate Acknowledged(s: State, p: seq<Byte>) {
    && Sends(s.host, p) && s.host.mode == H.AwaitingAck && !s.host.halted && s.host.mailbox.None?
    && s.acks == [Ack(2, 1, OfImage(p))]
  }

  lemma BatchLimit(stride: nat)
    requires 0 < stride <= R.GPU_UPLOAD_BATCH_BYTES
    ensures R.UploadLimit(stride) >= MAXIMUM_WIRE_CHUNK_BYTES
  {
    LimitWhole(stride);
  }

  /** No message queues more than three commands. */
  lemma FewCommands(c: Session, r: R.Reader, m: Message)
    ensures |R.Receive(c, r, m).commands| <= 3
  {
    if m.body.Chunk? && Decodable(m) {
      FewChunkCommands(r.(lastSequence := m.sequence), m);
    }
  }

  lemma FewChunkCommands(r: R.Reader, m: Message)
    requires m.body.Chunk? && Decodable(m)
    ensures |R.OnChunk(r, m).commands| <= 3
  {
    var inc := if r.snapshot.None? then R.Incoming(m.epoch, m.frame, m.body.surface, m.body.total, 0, 0, [], [])
               else r.snapshot.value;
    var stride := inc.surface.Stride();
    if inc.surface == m.body.surface && stride <= R.GPU_UPLOAD_BATCH_BYTES {
      BatchLimit(stride);
      if |inc.upload| < R.UploadLimit(stride) {
        FewBatches(inc.uploadOffset, inc.upload, m.body.offset, m.body.bytes, R.UploadLimit(stride),
                   inc.next + |m.body.bytes| == inc.total);
      }
    }
  }

  lemma ReadEvent(c: Session, s: State)
    requires c.Valid() && s.queue == [] && !s.stalled && s.channel != []
    requires |R.Receive(c, s.reader, s.channel[0]).commands| <= COMMAND_QUEUE_LIMIT
    ensures var t, out := Next(c, s, Read), R.Receive(c, s.reader, s.channel[0]);
            && t.host == s.host && t.compositor == s.compositor && t.acks == s.acks && t.stalled == s.stalled &&
            t.ended == s.ended
            && t.channel == s.channel[1..] && t.reader == out.reader && t.queue == out.commands
  {
  }

  /** Reading moves commands from the channel to the queue. */
  lemma ReadMoves(c: Session, s: State)
    requires c.Valid() && s.queue == [] && !s.stalled && s.channel != []
    ensures var t := Next(c, s, Read);
            && t.host == s.host && t.compositor == s.compositor && t.acks == s.acks && t.stalled == s.stalled &&
            t.ended == s.ended
            && t.channel == s.channel[1..] && t.queue + Ahead(c, t).commands == Ahead(c, s).commands
  {
    FewCommands(c, s.reader, s.channel[0]);
    ReadEvent(c, s);
    R.ReadAllHead(c, s.reader, s.channel);
  }

  lemma AheadNeedsChannel(c: Session, s: State)
    requires Ahead(c, s).commands != []
    ensures s.channel != []
  {
  }

  lemma ReadWaits(c: Session, s: State, p: seq<Byte>)
    requires c.Valid() && Waiting(c, s, p) && s.queue == []
    ensures s.channel != [] && var t := Next(c, s, Read); Waiting(c, t, p) && t.channel == s.channel[1..]
  {
    assert s.queue + Ahead(c, s).commands == Ahead(c, s).commands;
    AheadNeedsChannel(c, s);
    ReadMoves(c, s);
  }

  lemma SurfaceArea(c: Session)
    requires c.Valid()
    ensures 0 < c.surface.width * c.surface.height <= MAXIMUM_SNAPSHOT_TOTAL_BYTES / 4
  {
    MulOrder(1, c.surface.height, c.surface.width);
    assert 4 * (c.surface.width * c.surface.height) == c.surface.Size();
  }

  /** The reset's cancel finds nothing to cancel. */
  lemma CancelDone(c: Session)
    ensures C.Execute(C.START, Cancel(2), C.NO_FAULT) == C.Executed(C.START.(lastEpoch := 2), None)
  {
  }

  lemma BeginDone(c: Session, v: C.Compositor)
    requires c.Valid() && v == C.START.(lastEpoch := 2)
    ensures var done := C.Execute(v, Begin(2, 1, c.surface), C.NO_FAULT);
            done.ack.None? && Uploading(c, done.compositor) && done.compositor.fb.received == 0
  {
    SurfaceArea(c);
    SizePositive(c);
  }

  /** The renderer after a chunk. */
  function Written(fb: Framebuffer, bytes: seq<Byte>): Framebuffer
    requires fb.received + |bytes| <= |fb.working|
  {
    fb.(working := fb.working[..fb.received] + bytes + fb.working[fb.received + |bytes|..],
        received := fb.received + |bytes|)
  }

  lemma ChunkAccepted(fb: Framebuffer, bytes: seq<Byte>, stride: nat)
    requires fb.Valid() && fb.snapshotActive && bytes != [] && fb.received + |bytes| <= fb.total &&
             stride == fb.surface.Stride() > 0
    requires fb.received % stride == 0 && |bytes| % stride == 0
    ensures fb.WriteChunk(fb.received, bytes) == Some(Written(fb, bytes))
  {
  }

  lemma ChunkWritten(fb: Framebuffer, bytes: seq<Byte>, stride: nat)
    requires fb.Valid() && fb.snapshotActive && bytes != [] && fb.received + |bytes| <= fb.total &&
             stride == fb.surface.Stride() > 0
    requires Whole(fb.received, stride) && Whole(|bytes|, stride)
    ensures fb.WriteChunk(fb.received, bytes) == Some(Written(fb, bytes)) && Whole(fb.received + |bytes|, stride)
  {
    WholeDivides(fb.received, stride);
    WholeDivides(|bytes|, stride);
    WholeSum(fb.received, |bytes|, stride);
    ChunkAccepted(fb, bytes, stride);
  }

  lemma UploadExecuted(v: C.Compositor, at: nat, bytes: seq<Byte>, w: C.Compositor)
    requires v.fb.Valid() && v.fb.WriteChunk(at, bytes) == Some(w.fb) && w == v.(lastEpoch := 2, fb := w.fb)
    ensures C.Execute(v, Upload(2, 1, at, bytes), C.NO_FAULT) == C.Executed(w, None)
  {
  }

  lemma WrittenValid(fb: Framebuffer, bytes: seq<Byte>)
    requires fb.Valid() && fb.snapshotActive && fb.received + |bytes| <= fb.total
    ensures Written(fb, bytes).Valid()
  {
    assert |Written(fb, bytes).working| == |fb.working|;
  }

  lemma UploadingOn(c: Session, v: C.Compositor, w: C.Compositor, bytes: seq<Byte>)
    requires Uploading(c, v) && v.fb.received + |bytes| <= v.fb.total && w.fb == Written(v.fb, bytes) &&
             w.canonical == v.canonical
    requires Whole(v.fb.received + |bytes|, v.fb.surface.Stride())
    ensures Uploading(c, w)
  {
    WrittenValid(v.fb, bytes);
  }

  lemma UploadDone(c: Session, v: C.Compositor, bytes: seq<Byte>) returns (w: C.Compositor)
    requires c.Valid() && Uploading(c, v) && bytes != [] && v.fb.received + |bytes| <= v.fb.total
    requires Whole(|bytes|, c.surface.Stride())
    ensures C.Execute(v, Upload(2, 1, v.fb.received, bytes), C.NO_FAULT) == C.Executed(w, None)
    ensures Uploading(c, w) && w.fb.received == v.fb.received + |bytes|
  {
    w := v.(lastEpoch := 2, fb := Written(v.fb, bytes));
    ChunkWritten(v.fb, bytes, c.surface.Stride());
    UploadingOn(c, v, w, bytes);
    UploadExecuted(v, v.fb.received, bytes, w);
  }

  lemma CommitDone(c: Session, v: C.Compositor, p: seq<Byte>)
    requires c.Valid() && Uploading(c, v) && |p| == c.surface.Size() && v.fb.received == |p|
    ensures C.Execute(v, CommitSnapshot(2, 1, OfImage(p)), C.NO_FAULT).ack == Some(Ack(2, 1, OfImage(p)))
  {
  }

  /** The first command of what remains is the next upload, or the commit of a whole upload. */
  lemma RemainingHead(c: Session, p: seq<Byte>, cmds: seq<Command>, at: nat)
    requires c.Valid() && Remaining(c, p, cmds, at)
    ensures if cmds[0].Upload?
            then cmds[0].bytes != [] && at + |cmds[0].bytes| <= |p| && Whole(|cmds[0].bytes|, c.surface.Stride()) &&
                 cmds[0] == Upload(2, 1, at, cmds[0].bytes) && Remaining(c, p, cmds[1..], at + |cmds[0].bytes|)
            else cmds == [CommitSnapshot(2, 1, OfImage(p))] && at == |p|
  {
    if |cmds| > 1 {
      assert cmds[1..][..|cmds[1..]| - 1] == cmds[..|cmds| - 1][1..];
    }
  }

  /** One command without a fault brings the compositor one step on, or makes the acknowledgement. */
  lemma MidwayOn(c: Session, v: C.Compositor, p: seq<Byte>, todo: seq<Command>)
    requires c.Valid() && Midway(c, v, p, todo)
    ensures todo != [] && v.fb.Valid()
    ensures var done := C.Execute(v, todo[0], C.NO_FAULT);
            if todo[0].CommitSnapshot? then todo == [todo[0]] && done.ack == Some(Ack(2, 1, OfImage(p)))
            else done.ack.None? && Midway(c, done.compositor, p, todo[1..])
  {
    if v == C.START && Script(c, p, todo) {
      CancelDone(c);
      assert todo[1..][1..] == todo[2..];
    } else if v == C.START.(lastEpoch := 2) && todo != [] && todo[0] == Begin(2, 1, c.surface) {
      BeginDone(c, v);
      MidwayBegun(c, v, p, todo);
    } else {
      RemainingHead(c, p, todo, v.fb.received);
      if todo[0].Upload? {
        var w := UploadDone(c, v, todo[0].bytes);
      } else {
        CommitDone(c, v, p);
      }
    }
  }

  lemma MidwayBegun(c: Session, v: C.Compositor, p: seq<Byte>, todo: seq<Command>)
    requires c.Valid() && todo != [] && Remaining(c, p, todo[1..], 0) && v.fb.Valid()
    requires var v1 := C.Execute(v, todo[0], C.NO_FAULT).compositor; Uploading(c, v1) && v1.fb.received == 0
    requires |p| == c.surface.Size()
    ensures Midway(c, C.Execute(v, todo[0], C.NO_FAULT).compositor, p, todo[1..])
  {
  }

  lemma ComposeWaits(c: Session, s: State, p: seq<Byte>)
    requires c.Valid() && Waiting(c, s, p) && s.queue != []
    ensures s.compositor.fb.Valid()
    ensures var t := ComposeOne(s, C.NO_FAULT);
            (Waiting(c, t, p) || Acknowledged(t, p)) && t.channel == s.channel && |t.queue| < |s.queue|
  {
    var cmd, rest := s.queue[0], s.queue[1..] + Ahead(c, s).commands;
    assert s.queue + Ahead(c, s).commands == [cmd] + rest;
    MidwayOn(c, s.compositor, p, [cmd] + rest);
    assert ([cmd] + rest)[1..] == rest;
    ComposeKeepsWaiting(c, s, p, cmd, rest);
  }

  lemma ComposeKeepsWaiting(c: Session, s: State, p: seq<Byte>, cmd: Command, rest: seq<Command>)
    requires c.Valid() && Waiting(c, s, p) && s.queue != [] && cmd == s.queue[0] &&
             rest == s.queue[1..] + Ahead(c, s).commands
    requires s.compositor.fb.Valid()
    requires var done := C.Execute(s.compositor, cmd, C.NO_FAULT);
             if cmd.CommitSnapshot? then done.ack == Some(Ack(2, 1, OfImage(p)))
             else done.ack.None? && Midway(c, done.compositor, p, rest)
    ensures Waiting(c, ComposeOne(s, C.NO_FAULT), p) || Acknowledged(ComposeOne(s, C.NO_FAULT), p)
  {
    assert Ahead(c, ComposeOne(s, C.NO_FAULT)) == Ahead(c, s);
  }

  lemma ReadStep(c: Session, past: seq<Event>, p: seq<Byte>)
    requires c.Valid() && Waiting(c, Run(c, past), p) && Run(c, past).queue == []
    ensures var s, t := Run(c, past), Run(c, past + [Read]);
            s.channel != [] && Waiting(c, t, p) && t.channel == s.channel[1..] && t.host == s.host
  {
    var s := Run(c, past);
    ReadWaits(c, s, p);
    ReadMoves(c, s);
    I.Step(c, past, Read);
  }

  lemma ComposeStep(c: Session, past: seq<Event>, p: seq<Byte>)
    requires c.Valid() && Waiting(c, Run(c, past), p) && Run(c, past).queue != []
    ensures var s, t := Run(c, past), Run(c, past + [Compose(C.NO_FAULT)]);
            && (Waiting(c, t, p) || Acknowledged(t, p)) && t.channel == s.channel && |t.queue| < |s.queue|
            && t.host == s.host && !t.stalled && !t.ended
  {
    var s := Run(c, past);
    ComposeWaits(c, s, p);
    I.Step(c, past, Compose(C.NO_FAULT));
    ComposeNext(c, s, C.NO_FAULT);
    ThreadGoesOn(c, s, p);
  }

  /** Without a fault the thread goes on. */
  lemma ThreadGoesOn(c: Session, s: State, p: seq<Byte>)
    requires c.Valid() && Waiting(c, s, p) && s.queue != [] && s.compositor.fb.Valid()
    ensures !ComposeOne(s, C.NO_FAULT).ended
  {
  }

  /** A viewer without faults ends by acknowledging the snapshot. */
  lemma {:induction false} Acknowledges(c: Session, past: seq<Event>, p: seq<Byte>) returns (after: seq<Event>)
    requires c.Valid() && Waiting(c, Run(c, past), p)
    ensures Acknowledged(Run(c, after), p) && I.Elsewhere(past, after)
    ensures Run(c, after).host == Run(c, past).host && !Run(c, after).stalled && !Run(c, after).ended
    decreases |Run(c, past).channel|, |Run(c, past).queue|
  {
    var s := Run(c, past);
    if s.queue == [] {
      ReadStep(c, past, p);
      after := Acknowledges(c, past + [Read], p);
    } else {
      after := past + [Compose(C.NO_FAULT)];
      ComposeStep(c, past, p);
      if !Acknowledged(Run(c, after), p) {
        after := Acknowledges(c, after, p);
      }
    }
  }

  lemma ComposeNext(c: Session, s: State, fault: C.Fault)
    requires c.Valid() && !s.ended && s.queue != [] && s.compositor.fb.Valid()
    ensures Next(c, s, Compose(fault)) == ComposeOne(s, fault)
  {
  }

  // ------------------------------------------------------------------ the theorem

  lemma Arrives(c: Session, past: seq<Event>, p: seq<Byte>)
    requires c.Valid() && Acknowledged(Run(c, past), p)
    ensures var s := Run(c, past + [AckArrives]);
            Sends(s.host, p) && s.host.mode == H.AwaitingAck && !s.host.halted &&
            s.host.mailbox == Some(Ack(2, 1, OfImage(p)))
  {
    I.Step(c, past, AckArrives);
    ArrivesNext(c, Run(c, past));
  }

  lemma ArrivesNext(c: Session, s: State)
    requires c.Valid() && s.acks != []
    ensures Next(c, s, AckArrives) == s.(host := s.host.(mailbox := Some(s.acks[0])), acks := s.acks[1..])
  {
  }

  lemma PendingPromoted(c: Session, h: H.Host, p: seq<Byte>)
    requires Sends(h, p) && h.mode == H.AwaitingAck && h.mailbox.Some? &&
             H.Matches(h.mailbox.value, 2, 1, h.snapshotDigest)
    ensures var t := H.TakeAck(c, h).host;
            t.analyzer == H.Analyzer(h.analyzer.latest, Some(H.Source(1, 1, p)), None) && t.halted == h.halted
            && t.mode == H.ExactMode && t.exactFrame == 1
  {
  }

  lemma TakesAck(c: Session, past: seq<Event>, p: seq<Byte>)
    requires c.Valid()
    requires var h := Run(c, past).host;
             Sends(h, p) && h.mode == H.AwaitingAck && !h.halted && h.mailbox == Some(Ack(2, 1, OfImage(p)))
    ensures var s := Run(c, past + [TakeAck]); Exact(s, p)
  {
    var s := Run(c, past);
    I.Step(c, past, TakeAck);
    E.RunInv(c, past);
    Runs.CurrentAckMatches(c, s);
    PendingPromoted(c, s.host, p);
    Runs.PromotionIsShown(c, past);
  }

  /** Frame one is canonical on the host and on the screen, and the host waits for the next. */
  ghost predicate Exact(s: State, p: seq<Byte>) {
    && !s.host.halted && s.host.mode == H.ExactMode && s.host.exactFrame == 1
    && s.host.analyzer == H.Analyzer(Some(H.Source(1, 1, p)), Some(H.Source(1, 1, p)), None)
    && s.compositor.fb.initialized && s.compositor.fb.committed == p
  }

  /**
   Every image of every session becomes exact: there is a run that leaves it canonical on the host and on the
   screen.
   */
  lemma EveryImageBecomesExact(c: Session, p: seq<Byte>) returns (events: seq<Event>)
    requires c.Valid() && |p| == c.surface.Size()
    ensures Exact(Run(c, events), p)
  {
    OpeningDrains(c, p);
    events := DrainsOut(c, Opening(p), p);
    SentWaits(c, Run(c, events), p);
    events := Acknowledges(c, events, p);
    Arrives(c, events, p);
    events := events + [AckArrives];
    TakesAck(c, events, p);
    events := events + [TakeAck];
  }

  lemma SentWaits(c: Session, s: State, p: seq<Byte>)
    requires c.Valid() && Sent(c, s, p)
    ensures Waiting(c, s, p)
  {
    assert [] + Ahead(c, s).commands == Ahead(c, s).commands;
  }

  // ------------------------------------------------------- a change of the whole screen

  function FullRect(c: Session, q: seq<Byte>): Rect { Rect(0, 0, c.surface.width, c.surface.height, q) }

  /** Painting the whole surface replaces the image. */
  lemma WholePaint(img: seq<Byte>, s: Surface, q: seq<Byte>)
    requires |img| == |q| == s.Size() && s.width > 0 && s.height > 0
    ensures var full := Rect(0, 0, s.width, s.height, q);
            AllFit(s, [full]) && Disjoint([full]) && PaintAll(img, s, [full]) == q
  {
    var full := Rect(0, 0, s.width, s.height, q);
    assert [full][..0] == [] && PaintAll(img, s, []) == img;
    var painted := Painted(img, s, full);
    forall k | 0 <= k < |q| ensures painted[k] == q[k] {
      var row, col := Position(s, k);
      PaintedAt(img, s, full, row, col);
    }
    assert painted == q;
  }

  lemma WholeIsCandidate(c: Session, p: seq<Byte>, q: seq<Byte>)
    requires c.Valid() && c.exactOnly && |p| == |q| == c.surface.Size() <= MAXIMUM_RECT_BYTES
    ensures H.Candidate(c, p, q, [FullRect(c, q)]) && RectBytes([FullRect(c, q)]) == |q|
  {
    assert [FullRect(c, q)][..0] == [];
    WholePaint(p, c.surface, q);
  }

  lemma SecondCapture(c: Session, s: State, p: seq<Byte>, q: seq<Byte>)
    requires c.Valid() && Exact(s, p) && |q| == c.surface.Size()
    ensures var h := Next(c, s, Capture(2, true, q)).host;
            h == s.host.(analyzer := s.host.analyzer.(latest := Some(H.Source(2, 2, q))))
  {
  }

  lemma RefusedRectsEnd(c: Session, s: State, p: seq<Byte>, q: seq<Byte>, rects: seq<Rect>)
    requires c.Valid() && c.rawRect && !s.host.halted && s.host.mode == H.ExactMode && s.host.exactFrame == 1
    requires s.host.analyzer == H.Analyzer(Some(H.Source(2, 2, q)), Some(H.Source(1, 1, p)), None)
    requires H.Candidate(c, p, q, rects) && !DigestFits(rects)
    ensures Enabled(c, s, Event.SendRects(rects)) && Next(c, s, Event.SendRects(rects)).host.halted
  {
  }

  /**
   An exact-only session whose surface, 1920 by 1080 for one, fills the packed limit but for less than
   a header: a change of the whole screen is selected, and its digest ends the host.
   */
  lemma WholeScreenChangeEndsHost(c: Session, p: seq<Byte>, q: seq<Byte>) returns (events: seq<Event>)
    requires c.Valid() && c.exactOnly && c.rawRect && |p| == |q| == c.surface.Size()
    requires MAXIMUM_RECT_BYTES - 40 < c.surface.Size() <= MAXIMUM_RECT_BYTES
    ensures var change := Event.SendRects([FullRect(c, q)]);
            && !Run(c, events).host.halted && Run(c, events).host.mode == H.ExactMode
            && Enabled(c, Run(c, events), change) && Run(c, events + [change]).host.halted
  {
    var exact := EveryImageBecomesExact(c, p);
    events := exact + [Capture(2, true, q)];
    I.Step(c, exact, Capture(2, true, q));
    SecondCapture(c, Run(c, exact), p, q);
    WholeIsCandidate(c, p, q);
    RefusedRectsEnd(c, Run(c, events), p, q, [FullRect(c, q)]);
    I.Step(c, events, Event.SendRects([FullRect(c, q)]));
  }

  /** A change of the whole 1920 by 1080 screen. */
  lemma FullHdChangeEndsHost(p: seq<Byte>, q: seq<Byte>) returns (events: seq<Event>)
    requires |p| == |q| == 1920 * 1080 * 4
    ensures var c := Session(Surface(1920, 1080), true, true); var change := Event.SendRects([FullRect(c, q)]);
            !Run(c, events).host.halted && Enabled(c, Run(c, events), change) && Run(c, events + [change]).host.halted
  {
    events := WholeScreenChangeEndsHost(Session(Surface(1920, 1080), true, true), p, q);
  }
}
