/** What the reader makes of the messages of one turn: a burst of a snapshot, or a rectangle transaction. */
module SendSteps {
  import opened Options
  import opened Pixels
  import opened Wire
  import opened Canonical
  import H = Host
  import R = Reader
  import opened System
  import opened Invariant

  lemma NumberedHead(last: nat, epoch: nat, frame: nat, bodies: seq<Body>)
    requires bodies != []
    ensures var ms := H.Numbered(last, epoch, frame, bodies);
            ms[0] == Message(last + 1, epoch, frame, bodies[0]) &&
            ms[1..] == H.Numbered(last + 1, epoch, frame, bodies[1..])
  {
  }

  lemma ReadNumbered(c: Session, r: R.Reader, last: nat, epoch: nat, frame: nat, bodies: seq<Body>)
    requires bodies != []
    ensures var out := R.Receive(c, r, Message(last + 1, epoch, frame, bodies[0]));
            var rest := R.ReadAll(c, out.reader, H.Numbered(last + 1, epoch, frame, bodies[1..]));
            R.ReadAll(c, r, H.Numbered(last, epoch, frame, bodies)) ==
            R.Reading(rest.reader, out.commands + rest.commands)
  {
    NumberedHead(last, epoch, frame, bodies);
    R.ReadAllHead(c, r, H.Numbered(last, epoch, frame, bodies));
  }

  // ---------------------------------------------------------------- snapshots

  /** A begin or an upload that puts a piece of the image where it belongs. */
  ghost predicate PieceOf(c: Session, epoch: nat, frame: nat, image: seq<Byte>, cmd: Command) {
    match cmd
    case Begin(e, f, surface) => e == epoch && f == frame && surface == c.surface
    case Upload(e, f, offset, bytes) =>
      e == epoch && f == frame && offset + |bytes| <= |image| && bytes == image[offset..offset + |bytes|]
    case _ => false
  }

  /** Contiguous batches cut out of an image are the image's own slices. */
  lemma {:induction false} BatchesAreSlices(bs: seq<R.Batch>, from: nat, image: seq<Byte>, to: nat, left: seq<Byte>)
    requires R.Contiguous(bs, from) && from <= to <= |image| && R.BatchBytes(bs) + left == image[from..to]
    ensures forall b <- bs :: b.offset + |b.bytes| <= |image| && b.bytes == image[b.offset..b.offset + |b.bytes|]
    ensures |left| <= to && left == image[to - |left|..to]
    decreases |bs|
  {
    if bs == [] {
      assert left == image[from..to];
    } else {
      var b, rest := bs[0], bs[1..];
      var next := from + |b.bytes|;
      assert R.BatchBytes(bs) + left == b.bytes + (R.BatchBytes(rest) + left);
      assert b.bytes == image[from..to][..|b.bytes|] == image[from..next];
      assert R.BatchBytes(rest) + left == image[from..to][|b.bytes|..] == image[next..to];
      BatchesAreSlices(rest, next, image, to, left);
      assert bs == [b] + rest;
    }
  }

  lemma UploadRoom(stride: nat)
    requires 0 < stride <= MAXIMUM_WIRE_CHUNK_BYTES
    ensures R.UploadLimit(stride) > 0
  {
    MulOrder(1, R.GPU_UPLOAD_BATCH_BYTES / stride, stride);
  }

  /** A reader ready for byte `next` of the snapshot. */
  ghost predicate Expecting(c: Session, r: R.Reader, epoch: nat, frame: nat, image: seq<Byte>, next: nat) {
    && r.status == R.Running && r.poisoned.None? && r.rects.None? && r.resetEpoch == Some(epoch) && epoch != 0
    && |image| == c.surface.Size() && next <= |image|
    && (r.snapshot.None? <==> next == 0)
    && (r.snapshot.Some? ==> Receiving(c, r.snapshot.value, epoch, frame, image, next))
  }

  function ChunkOf(c: Session, image: seq<Byte>, g: H.Range): Body
    requires g.offset + g.size <= |image|
  {
    Chunk(c.surface, |image|, g.offset, image[g.offset..g.offset + g.size])
  }

  /** Batches and a remainder that together are an image's bytes `from..to`. */
  ghost predicate Cut(b: R.Batching, image: seq<Byte>, from: nat, to: nat, limit: nat) {
    && from <= to <= |image| && R.Contiguous(b.batches, from) && R.BatchBytes(b.batches) + b.buffer == image[from..to]
    && |b.buffer| < limit && (b.buffer != [] ==> b.offset + |b.buffer| == to) && (to == |image| ==> b.buffer == [])
  }

  lemma SlicesJoin(image: seq<Byte>, from: nat, mid: nat, to: nat)
    requires from <= mid <= to <= |image|
    ensures image[from..mid] + image[mid..to] == image[from..to]
  {
  }

  lemma RebatchCuts(offset: nat, buffer: seq<Byte>, image: seq<Byte>, at: nat, to: nat, limit: nat)
    requires |buffer| < limit && |buffer| <= at < to <= |image| && buffer == image[at - |buffer|..at]
    requires buffer != [] ==> offset + |buffer| == at
    ensures Cut(R.Rebatch(offset, buffer, at, image[at..to], limit, to == |image|), image, at - |buffer|, to, limit)
  {
    R.RebatchKeepsBytes(offset, buffer, at, image[at..to], limit, to == |image|);
    R.RebatchKeepsOffsets(offset, buffer, at, image[at..to], limit, to == |image|);
    SlicesJoin(image, at - |buffer|, at, to);
  }

  lemma CutPieces(c: Session, b: R.Batching, image: seq<Byte>, from: nat, to: nat, limit: nat, epoch: nat, frame: nat)
    requires Cut(b, image, from, to, limit)
    ensures |b.buffer| <= to && b.buffer == image[to - |b.buffer|..to]
    ensures forall cmd <- R.Uploads(epoch, frame, b.batches) :: PieceOf(c, epoch, frame, image, cmd)
  {
    BatchesAreSlices(b.batches, from, image, to, b.buffer);
  }

  lemma CutReceiving(inc: R.Incoming, c: Session, epoch: nat, frame: nat, image: seq<Byte>, from: nat, at: nat, to: nat,
                     b: R.Batching)
    requires Receiving(c, inc, epoch, frame, image, at) && at < to <= |image|
    requires Cut(b, image, from, to, R.UploadLimit(c.surface.Stride()))
    ensures Receiving(c, inc.(next := to, hashed := inc.hashed + image[at..to], uploadOffset := b.offset,
                              upload := b.buffer),
                      epoch, frame, image, to)
  {
    CutPieces(c, b, image, from, to, R.UploadLimit(c.surface.Stride()), epoch, frame);
    assert image[..at] + image[at..to] == image[..to];
  }

  /** The snapshot as the reader holds it when a chunk arrives: a new one, or the one under way. */
  function Under(c: Session, r: R.Reader, epoch: nat, frame: nat, image: seq<Byte>): R.Incoming {
    if r.snapshot.None? then R.Incoming(epoch, frame, c.surface, |image|, 0, 0, [], []) else r.snapshot.value
  }

  function BatchOf(c: Session, inc: R.Incoming, image: seq<Byte>, at: nat, to: nat): R.Batching
    requires at <= to <= |image| && c.surface.width > 0 && |inc.upload| < R.UploadLimit(c.surface.Stride())
  {
    R.Rebatch(inc.uploadOffset, inc.upload, at, image[at..to], R.UploadLimit(c.surface.Stride()), to == |image|)
  }

  lemma ChunkDecodable(c: Session, epoch: nat, frame: nat, image: seq<Byte>, g: H.Range, sequence: nat)
    requires c.Valid() && epoch != 0 && sequence != 0 && |image| == c.surface.Size()
    requires 0 < g.size <= MAXIMUM_WIRE_CHUNK_BYTES && g.offset + g.size <= |image|
    ensures Decodable(Message(sequence, epoch, frame, ChunkOf(c, image, g)))
  {
  }

  lemma ChunkOutcome(c: Session, r: R.Reader, epoch: nat, frame: nat, image: seq<Byte>, g: H.Range)
    requires c.Valid() && Expecting(c, r, epoch, frame, image, g.offset)
    requires 0 < g.size <= MAXIMUM_WIRE_CHUNK_BYTES && g.offset + g.size <= |image|
    requires Receiving(c, Under(c, r, epoch, frame, image), epoch, frame, image, g.offset)
    ensures var inc, to := Under(c, r, epoch, frame, image), g.offset + g.size;
            var b := BatchOf(c, inc, image, g.offset, to);
            R.OnChunk(r.(lastSequence := r.lastSequence + 1),
                      Message(r.lastSequence + 1, epoch, frame, ChunkOf(c, image, g))) ==
            R.Outcome(r.(lastSequence := r.lastSequence + 1,
                         snapshot := Some(inc.(next := to, hashed := inc.hashed + image[g.offset..to],
                                               uploadOffset := b.offset, upload := b.buffer))),
                      (if r.snapshot.None? then [Begin(epoch, frame, c.surface)] else []) +
                      R.Uploads(epoch, frame, b.batches),
                      R.Nothing)
  {
    ChunkDecodable(c, epoch, frame, image, g, r.lastSequence + 1);
  }

  lemma ReadChunk(c: Session, r: R.Reader, epoch: nat, frame: nat, image: seq<Byte>, g: H.Range)
    requires c.Valid() && Expecting(c, r, epoch, frame, image, g.offset)
    requires 0 < g.size <= MAXIMUM_WIRE_CHUNK_BYTES && g.offset + g.size <= |image|
    ensures var out := R.Receive(c, r, Message(r.lastSequence + 1, epoch, frame, ChunkOf(c, image, g)));
            && Expecting(c, out.reader, epoch, frame, image, g.offset + g.size)
            && out.reader == r.(lastSequence := r.lastSequence + 1, snapshot := out.reader.snapshot)
            && forall cmd <- out.commands :: PieceOf(c, epoch, frame, image, cmd)
  {
    var inc, to := Under(c, r, epoch, frame, image), g.offset + g.size;
    UploadRoom(c.surface.Stride());
    var m := Message(r.lastSequence + 1, epoch, frame, ChunkOf(c, image, g));
    ChunkDecodable(c, epoch, frame, image, g, m.sequence);
    ChunkReceived(c, r, m);
    ChunkOutcome(c, r, epoch, frame, image, g);
    var b := TakenChunk(c, inc, epoch, frame, image, g.offset, to);
    var next := inc.(next := to, hashed := inc.hashed + image[g.offset..to], uploadOffset := b.offset,
                     upload := b.buffer);
    ExpectingMore(c, r, epoch, frame, image, g.offset, to, next);
  }

  lemma ChunkReceived(c: Session, r: R.Reader, m: Message)
    requires r.status == R.Running && Decodable(m) && m.body.Chunk? && m.sequence == r.lastSequence + 1
    ensures R.Receive(c, r, m) == R.OnChunk(r.(lastSequence := m.sequence), m)
  {
  }

  /** What batching makes of one chunk. */
  lemma TakenChunk(c: Session, inc: R.Incoming, epoch: nat, frame: nat, image: seq<Byte>, at: nat,
                   to: nat) returns (b: R.Batching)
    requires c.surface.width > 0 && Receiving(c, inc, epoch, frame, image, at) && at < to <= |image|
    ensures b == BatchOf(c, inc, image, at, to)
    ensures forall cmd <- R.Uploads(epoch, frame, b.batches) :: PieceOf(c, epoch, frame, image, cmd)
    ensures Receiving(c, inc.(next := to, hashed := inc.hashed + image[at..to], uploadOffset := b.offset,
                              upload := b.buffer),
                      epoch, frame, image, to)
  {
    var limit := R.UploadLimit(c.surface.Stride());
    b := BatchOf(c, inc, image, at, to);
    RebatchCuts(inc.uploadOffset, inc.upload, image, at, to, limit);
    CutPieces(c, b, image, at - |inc.upload|, to, limit, epoch, frame);
    CutReceiving(inc, c, epoch, frame, image, at - |inc.upload|, at, to, b);
  }

  lemma ExpectingMore(c: Session, r: R.Reader, epoch: nat, frame: nat, image: seq<Byte>, at: nat, to: nat,
                      next: R.Incoming)
    requires Expecting(c, r, epoch, frame, image, at) && at < to <= |image| &&
             Receiving(c, next, epoch, frame, image, to)
    ensures Expecting(c, r.(lastSequence := r.lastSequence + 1, snapshot := Some(next)), epoch, frame, image, to)
  {
  }

  ghost predicate RangesFit(rs: seq<H.Range>, total: nat) {
    forall g <- rs :: 0 < g.size <= MAXIMUM_WIRE_CHUNK_BYTES && g.offset + g.size <= total
  }

  /** From `r`, `n` chunks up to byte `to` have been read with this result. */
  ghost predicate ChunksRead(c: Session, r: R.Reader, epoch: nat, frame: nat, image: seq<Byte>, to: nat, n: nat,
                             read: R.Reading)
  {
    && Expecting(c, read.reader, epoch, frame, image, to)
    && read.reader == r.(lastSequence := r.lastSequence + n, snapshot := read.reader.snapshot)
    && forall cmd <- read.commands :: PieceOf(c, epoch, frame, image, cmd)
  }

  lemma OneThenMore(c: Session, r: R.Reader, epoch: nat, frame: nat, image: seq<Byte>, mid: nat, to: nat, n: nat,
                    one: R.Reading, more: R.Reading)
    requires ChunksRead(c, r, epoch, frame, image, mid, 1, one) &&
             ChunksRead(c, one.reader, epoch, frame, image, to, n, more)
    ensures ChunksRead(c, r, epoch, frame, image, to, n + 1, R.Reading(more.reader, one.commands + more.commands))
  {
  }

  lemma ChunksHead(c: Session, src: H.Source, rs: seq<H.Range>)
    requires rs != [] && RangesFit(rs, |src.pixels|)
    ensures H.Chunks(c, src, rs) != [] && H.Chunks(c, src, rs)[0] == ChunkOf(c, src.pixels, rs[0])
    ensures H.Chunks(c, src, rs)[1..] == H.Chunks(c, src, rs[1..])
  {
  }

  lemma FirstChunk(c: Session, r: R.Reader, epoch: nat, src: H.Source, frame: nat, rs: seq<H.Range>, next: nat)
    returns (one: R.Reading)
    requires c.Valid() && rs != [] && next == rs[0].offset && Expecting(c, r, epoch, frame, src.pixels, next)
    requires RangesFit(rs, |src.pixels|)
    ensures ChunksRead(c, r, epoch, frame, src.pixels, next + rs[0].size, 1, one)
    ensures var out := R.Receive(c, r, Message(r.lastSequence + 1, epoch, frame, ChunkOf(c, src.pixels, rs[0])));
            one == R.Reading(out.reader, out.commands)
    ensures var bodies := H.Chunks(c, src, rs);
            var rest := R.ReadAll(c, one.reader,
                                  H.Numbered(one.reader.lastSequence, epoch, frame, H.Chunks(c, src, rs[1..])));
            R.ReadAll(c, r, H.Numbered(r.lastSequence, epoch, frame, bodies)) ==
            R.Reading(rest.reader, one.commands + rest.commands)
  {
    var bodies := H.Chunks(c, src, rs);
    ReadNumbered(c, r, r.lastSequence, epoch, frame, bodies);
    ChunksHead(c, src, rs);
    ReadChunk(c, r, epoch, frame, src.pixels, rs[0]);
    var out := R.Receive(c, r, Message(r.lastSequence + 1, epoch, frame, bodies[0]));
    one := R.Reading(out.reader, out.commands);
  }

  lemma RangesTail(rs: seq<H.Range>, next: nat, total: nat)
    requires rs != [] && H.Abut(rs, next) && RangesFit(rs, total)
    ensures rs[0].offset == next && H.Abut(rs[1..], next + rs[0].size) && RangesFit(rs[1..], total)
    ensures H.End(rs[1..], next + rs[0].size) == H.End(rs, next)
  {
  }

  lemma MoreChunks(c: Session, r: R.Reader, epoch: nat, src: H.Source, frame: nat, rs: seq<H.Range>, next: nat,
                   one: R.Reading)
    requires rs != [] && RangesFit(rs, |src.pixels|) && H.End(rs[1..], next + rs[0].size) == H.End(rs, next)
    requires ChunksRead(c, r, epoch, frame, src.pixels, next + rs[0].size, 1, one)
    requires var more := R.ReadAll(c, one.reader,
                                   H.Numbered(one.reader.lastSequence, epoch, frame, H.Chunks(c, src, rs[1..])));
             && ChunksRead(c, one.reader, epoch, frame, src.pixels, H.End(rs, next), |rs| - 1, more)
             && R.ReadAll(c, r, H.Numbered(r.lastSequence, epoch, frame, H.Chunks(c, src, rs))) ==
                R.Reading(more.reader, one.commands + more.commands)
    ensures ChunksRead(c, r, epoch, frame, src.pixels, H.End(rs, next), |rs|,
                       R.ReadAll(c, r, H.Numbered(r.lastSequence, epoch, frame, H.Chunks(c, src, rs))))
  {
    OneThenMore(c, r, epoch, frame, src.pixels, next + rs[0].size, H.End(rs, next), |rs| - 1, one,
                R.ReadAll(c, one.reader, H.Numbered(one.reader.lastSequence, epoch, frame, H.Chunks(c, src, rs[1..]))));
  }

  lemma NoChunk(c: Session, r: R.Reader, epoch: nat, src: H.Source, frame: nat)
    ensures R.ReadAll(c, r, H.Numbered(r.lastSequence, epoch, frame, H.Chunks(c, src, []))) == R.Reading(r, [])
  {
    assert H.Numbered(r.lastSequence, epoch, frame, H.Chunks(c, src, [])) == [];
  }

  /** A burst of abutting chunks leaves the reader expecting the byte after them. */
  lemma {:induction false} ReadChunks(c: Session, r: R.Reader, epoch: nat, src: H.Source, frame: nat, rs: seq<H.Range>,
                                      next: nat)
    requires c.Valid() && Expecting(c, r, epoch, frame, src.pixels, next)
    requires H.Abut(rs, next) && RangesFit(rs, |src.pixels|)
    ensures ChunksRead(c, r, epoch, frame, src.pixels, H.End(rs, next), |rs|,
                       R.ReadAll(c, r, H.Numbered(r.lastSequence, epoch, frame, H.Chunks(c, src, rs))))
    decreases |rs|
  {
    if rs == [] {
      NoChunk(c, r, epoch, src, frame);
    } else {
      RangesTail(rs, next, |src.pixels|);
      var one := FirstChunk(c, r, epoch, src, frame, rs, next);
      ReadChunks(c, one.reader, epoch, src, frame, rs[1..], next + rs[0].size);
      MoreChunks(c, r, epoch, src, frame, rs, next, one);
    }
  }

  lemma ReadSnapshotCommit(c: Session, r: R.Reader, epoch: nat, frame: nat, image: seq<Byte>)
    requires c.Valid() && Expecting(c, r, epoch, frame, image, |image|)
    ensures R.Receive(c, r, Message(r.lastSequence + 1, epoch, frame, FrameCommit(0))) ==
            R.Outcome(r.(lastSequence := r.lastSequence + 1, pixelEpoch := epoch, pixels := Some(Snapshot),
                         pixelFrame := frame, pixelDigest := OfImage(image), digestValid := true, resetEpoch := None,
                         snapshot := None),
                      [CommitSnapshot(epoch, frame, OfImage(image))], R.Nothing)
  {
    assert image[..|image|] == image;
  }

  // --------------------------------------------------------------- rectangles

  lemma {:induction false} RectBytesPrefix(rs: seq<Rect>, k: nat)
    requires k <= |rs|
    ensures RectBytes(rs[..k]) <= RectBytes(rs)
    decreases |rs|
  {
    if k == |rs| {
      assert rs[..k] == rs;
    } else {
      RectBytesPrefix(rs[..|rs| - 1], k);
      assert rs[..|rs| - 1][..k] == rs[..k];
    }
  }

  /** A reader that has taken the first `k` rectangles of a transaction. */
  ghost predicate Collecting(c: Session, r: R.Reader, epoch: nat, base: nat, target: nat, rs: seq<Rect>, k: nat) {
    && r.status == R.Running && r.poisoned.None? && r.snapshot.None? && r.digestValid && r.pixelFrame == base
    && ((r.pixels == Some(Rects) && r.pixelEpoch == epoch) || (r.pixels != Some(Rects) && r.resetEpoch == Some(epoch)))
    && k <= |rs|
    && r.rects == if k == 0 then None else Some(R.IncomingRects(epoch, base, target, c.surface, rs[..k]))
  }

  ghost predicate Sendable(c: Session, epoch: nat, base: nat, target: nat, rs: seq<Rect>) {
    && epoch != 0 && base != 0 && target > base && AllFit(c.surface, rs) && Disjoint(rs)
    && 0 < |rs| <= MAXIMUM_RECT_COUNT && RectBytes(rs) <= MAXIMUM_RECT_BYTES
  }

  lemma AdmitsNext(c: Session, epoch: nat, base: nat, target: nat, rs: seq<Rect>, k: nat, m: Message)
    requires c.Valid() && Sendable(c, epoch, base, target, rs) && k < |rs|
    requires m == Message(m.sequence, epoch, target, RawRect(base, c.surface, rs[k])) && m.sequence != 0
    ensures Decodable(m) && R.IncomingRects(epoch, base, target, c.surface, rs[..k]).Admits(m)
  {
    RectBytesPrefix(rs, k + 1);
    assert rs[..k + 1][..k] == rs[..k];
    forall other | other in rs[..k] ensures !rs[k].Overlaps(other) {
      var i :| 0 <= i < k && rs[i] == other;
      assert !rs[i].Overlaps(rs[k]);
    }
  }

  lemma ReadRect(c: Session, r: R.Reader, epoch: nat, base: nat, target: nat, rs: seq<Rect>, k: nat)
    requires c.Valid() && c.rawRect && Sendable(c, epoch, base, target, rs) && k < |rs|
    requires Collecting(c, r, epoch, base, target, rs, k)
    ensures R.Receive(c, r, Message(r.lastSequence + 1, epoch, target, RawRect(base, c.surface, rs[k]))) ==
            R.Outcome(r.(lastSequence := r.lastSequence + 1,
                         rects := Some(R.IncomingRects(epoch, base, target, c.surface, rs[..k + 1]))), [], R.Nothing)
  {
    AdmitsNext(c, epoch, base, target, rs, k,
               Message(r.lastSequence + 1, epoch, target, RawRect(base, c.surface, rs[k])));
    assert rs[..k] + [rs[k]] == rs[..k + 1];
    assert rs[..0] == [];
  }

  /** The reader after the first `k` rectangles of a transaction. */
  function Holding(c: Session, r: R.Reader, epoch: nat, base: nat, target: nat, rs: seq<Rect>, k: nat): R.Reader
    requires k <= |rs|
  {
    r.(lastSequence := r.lastSequence + k,
       rects := if k == 0 then None else Some(R.IncomingRects(epoch, base, target, c.surface, rs[..k])))
  }

  lemma HoldingMore(c: Session, r: R.Reader, epoch: nat, base: nat, target: nat, rs: seq<Rect>, k: nat)
    requires c.Valid() && c.rawRect && Sendable(c, epoch, base, target, rs) && k < |rs|
    requires Collecting(c, Holding(c, r, epoch, base, target, rs, k), epoch, base, target, rs, k)
    ensures Collecting(c, Holding(c, r, epoch, base, target, rs, k + 1), epoch, base, target, rs, k + 1)
    ensures R.Receive(c, Holding(c, r, epoch, base, target, rs, k),
                      Message(r.lastSequence + k + 1, epoch, target, RawRect(base, c.surface, rs[k]))) ==
            R.Outcome(Holding(c, r, epoch, base, target, rs, k + 1), [], R.Nothing)
  {
    ReadRect(c, Holding(c, r, epoch, base, target, rs, k), epoch, base, target, rs, k);
  }

  lemma SkipOver(c: Session, r: R.Reader, r1: R.Reader, last: nat, epoch: nat, frame: nat, bodies: seq<Body>)
    requires bodies != [] && R.Receive(c, r, Message(last + 1, epoch, frame, bodies[0])) == R.Outcome(r1, [], R.Nothing)
    ensures R.ReadAll(c, r, H.Numbered(last, epoch, frame, bodies)) ==
            R.ReadAll(c, r1, H.Numbered(last + 1, epoch, frame, bodies[1..]))
  {
    ReadNumbered(c, r, last, epoch, frame, bodies);
    var rest := R.ReadAll(c, r1, H.Numbered(last + 1, epoch, frame, bodies[1..]));
    assert [] + rest.commands == rest.commands;
  }

  lemma FirstRect(c: Session, r: R.Reader, epoch: nat, base: nat, target: nat, rs: seq<Rect>, k: nat)
    requires c.Valid() && c.rawRect && Sendable(c, epoch, base, target, rs) && k < |rs|
    requires Collecting(c, Holding(c, r, epoch, base, target, rs, k), epoch, base, target, rs, k)
    ensures Collecting(c, Holding(c, r, epoch, base, target, rs, k + 1), epoch, base, target, rs, k + 1)
    ensures var bodies := H.RectBodies(base, c.surface, rs);
            R.ReadAll(c, Holding(c, r, epoch, base, target, rs, k),
                      H.Numbered(r.lastSequence + k, epoch, target, bodies[k..])) ==
            R.ReadAll(c, Holding(c, r, epoch, base, target, rs, k + 1),
                      H.Numbered(r.lastSequence + k + 1, epoch, target, bodies[k + 1..]))
  {
    var bodies := H.RectBodies(base, c.surface, rs);
    assert bodies[k..][1..] == bodies[k + 1..];
    assert bodies[k..][0] == RawRect(base, c.surface, rs[k]);
    HoldingMore(c, r, epoch, base, target, rs, k);
    SkipOver(c, Holding(c, r, epoch, base, target, rs, k), Holding(c, r, epoch, base, target, rs, k + 1),
             r.lastSequence + k, epoch, target, bodies[k..]);
  }

  lemma {:induction false} ReadRects(c: Session, r: R.Reader, epoch: nat, base: nat, target: nat, rs: seq<Rect>, k: nat)
    requires c.Valid() && c.rawRect && Sendable(c, epoch, base, target, rs) && k <= |rs|
    requires Collecting(c, Holding(c, r, epoch, base, target, rs, k), epoch, base, target, rs, k)
    ensures R.ReadAll(c, Holding(c, r, epoch, base, target, rs, k),
                      H.Numbered(r.lastSequence + k, epoch, target, H.RectBodies(base, c.surface, rs)[k..])) ==
            R.Reading(Holding(c, r, epoch, base, target, rs, |rs|), [])
    decreases |rs| - k
  {
    var bodies := H.RectBodies(base, c.surface, rs);
    if k == |rs| {
      assert H.Numbered(r.lastSequence + k, epoch, target, bodies[k..]) == [];
    } else {
      FirstRect(c, r, epoch, base, target, rs, k);
      ReadRects(c, r, epoch, base, target, rs, k + 1);
    }
  }

  lemma ReadRectCommit(c: Session, r: R.Reader, epoch: nat, base: nat, target: nat, rs: seq<Rect>)
    requires c.Valid() && Sendable(c, epoch, base, target, rs) && DigestFits(rs)
    requires Collecting(c, r, epoch, base, target, rs, |rs|)
    ensures R.Receive(c, r, Message(r.lastSequence + 1, epoch, target, FrameCommit(base))) ==
            R.Outcome(r.(lastSequence := r.lastSequence + 1, pixelEpoch := epoch, pixels := Some(Rects),
                         pixelFrame := target,
                         pixelDigest := OfRects(r.pixelDigest, target, rs), resetEpoch := None, rects := None),
                      [RectTransaction(epoch, target, base, OfRects(r.pixelDigest, target, rs), rs)], R.Nothing)
  {
    assert rs[..|rs|] == rs;
  }
}
