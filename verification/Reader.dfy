/**
 The viewer's reader: how one visual message changes the transaction being received and which
 commands it queues for the compositor.
 */
module Reader {
  import opened Options
  import opened Pixels
  import opened Wire
  import opened Canonical
  import opened Folds

  const GPU_UPLOAD_BATCH_BYTES := 1024 * 1024

  /** The largest whole number of rows that fits one upload. */
  function UploadLimit(stride: nat): nat
    requires stride > 0
  {
    (GPU_UPLOAD_BATCH_BYTES / stride) * stride
  }

  datatype Batch = Batch(offset: nat, bytes: seq<Byte>)

  /** A snapshot being received. `hashed` is what the running hash has absorbed. */
  datatype Incoming = Incoming(
    epoch: nat, frame: nat, surface: Surface, total: nat, next: nat,
    uploadOffset: nat, upload: seq<Byte>, hashed: seq<Byte>)

  /** A rectangle transaction being received. */
  datatype IncomingRects = IncomingRects(
    epoch: nat, base: nat, target: nat, surface: Surface, rects: seq<Rect>)
  {
    /** The guard that admits one more rectangle. */
    predicate Admits(m: Message)
      requires m.body.RawRect?
    {
      var r := m.body.rect;
      && m.epoch != 0 && m.frame != 0 && m.body.base != 0 && m.frame > m.body.base
      && m.body.surface.width != 0 && m.body.surface.height != 0 && r.width != 0 && r.height != 0
      && |rects| < MAXIMUM_RECT_COUNT && RectBytes(rects) + |r.bgra| <= MAXIMUM_RECT_BYTES
      && (rects != [] ==> m.epoch == epoch && m.frame == target && m.body.base == base && m.body.surface == surface)
      && forall other <- rects :: !r.Overlaps(other)
    }

    predicate ReadyToCommit(m: Message)
      requires m.body.FrameCommit?
    {
      rects != [] && m.epoch == epoch && m.frame == target && m.body.base == base
    }
  }

  datatype Status = Running | Failed

  datatype Reader = Reader(
    status: Status,
    recoveries: nat,
    lastSequence: nat,
    snapshot: Option<Incoming>,
    rects: Option<IncomingRects>,
    pixelEpoch: nat,
    pixelFrame: nat,
    pixelDigest: Digest,
    digestValid: bool,
    pixels: Option<Representation>,
    resetEpoch: Option<nat>,
    poisoned: Option<nat>)

  const START := Reader(Running, 0, 0, None, None, 0, 0, Unset, false, None, None, None)

  /** What the message does to the decoder and the slot of the frame to show. */
  datatype FrameEffect = Nothing | Flush(epoch: nat) | Decode(frame: VideoFrame)

  datatype Outcome = Outcome(reader: Reader, commands: seq<Command>, effect: FrameEffect)

  /** Gives the transaction up and asks the host for a full snapshot. */
  function Recover(r: Reader): Outcome {
    Outcome(r.(snapshot := None, rects := None, recoveries := r.recoveries + 1), [Cancel(0)], Nothing)
  }

  function Poison(r: Reader, epoch: nat): Outcome {
    var worst := if r.poisoned.Some? && r.poisoned.value > epoch then r.poisoned.value else epoch;
    Recover(r.(poisoned := Some(worst)))
  }

  function Fail(r: Reader): Outcome { Outcome(r.(status := Failed), [], Nothing) }

  // ------------------------------------------------------------ upload batching

  /** The batches released by feeding `data`, which starts at byte `at` of the snapshot. */
  datatype Batching = Batching(batches: seq<Batch>, offset: nat, buffer: seq<Byte>)

  function Rebatch(offset: nat, buffer: seq<Byte>, at: nat, data: seq<Byte>, limit: nat, last: bool): Batching
    requires |buffer| < limit
    decreases |data|
  {
    if data == [] then Batching([], offset, buffer)
    else
      var offset1 := if buffer == [] then at else offset;
      var count := if |data| < limit - |buffer| then |data| else limit - |buffer|;
      var buffer1 := buffer + data[..count];
      if |buffer1| != limit && !(last && count == |data|) then
        Rebatch(offset1, buffer1, at + count, data[count..], limit, last)
      else
        var rest := Rebatch(offset1, [], at + count, data[count..], limit, last);
        Batching([Batch(offset1, buffer1)] + rest.batches, rest.offset, rest.buffer)
  }

  function BatchBytes(bs: seq<Batch>): seq<Byte> {
    if bs == [] then [] else bs[0].bytes + BatchBytes(bs[1..])
  }

  ghost predicate Contiguous(bs: seq<Batch>, from: nat)
    decreases |bs|
  {
    bs == [] || (bs[0].offset == from && bs[0].bytes != [] && Contiguous(bs[1..], from + |bs[0].bytes|))
  }

  lemma BatchBytesCons(b: Batch, rest: seq<Batch>, tail: seq<Byte>)
    ensures BatchBytes([b] + rest) + tail == b.bytes + (BatchBytes(rest) + tail)
  {
    assert ([b] + rest)[1..] == rest;
  }

  lemma ContiguousCons(b: Batch, rest: seq<Batch>)
    requires b.bytes != [] && Contiguous(rest, b.offset + |b.bytes|)
    ensures Contiguous([b] + rest, b.offset)
  {
    assert ([b] + rest)[1..] == rest;
  }

  lemma TakeAndRest(buffer: seq<Byte>, data: seq<Byte>, count: nat)
    requires count <= |data|
    ensures buffer + data[..count] + data[count..] == buffer + data
  {
  }

  /** Batching neither loses nor reorders a byte. */
  lemma {:induction false} RebatchKeepsBytes(offset: nat, buffer: seq<Byte>, at: nat, data: seq<Byte>, limit: nat,
                                             last: bool)
    requires |buffer| < limit
    ensures var b := Rebatch(offset, buffer, at, data, limit, last);
            BatchBytes(b.batches) + b.buffer == buffer + data
    decreases |data|
  {
    if data == [] {
    } else {
      var offset1 := if buffer == [] then at else offset;
      var count := if |data| < limit - |buffer| then |data| else limit - |buffer|;
      var buffer1, rest := buffer + data[..count], data[count..];
      TakeAndRest(buffer, data, count);
      if |buffer1| != limit && !(last && count == |data|) {
        RebatchKeepsBytes(offset1, buffer1, at + count, rest, limit, last);
      } else {
        RebatchKeepsBytes(offset1, [], at + count, rest, limit, last);
        var tail := Rebatch(offset1, [], at + count, rest, limit, last);
        assert [] + rest == rest;
        BatchBytesCons(Batch(offset1, buffer1), tail.batches, tail.buffer);
      }
    }
  }

  /** Batching relocates no byte, and holds back less than a batch, nothing once the snapshot is whole. */
  lemma {:induction false} RebatchKeepsOffsets(offset: nat, buffer: seq<Byte>, at: nat, data: seq<Byte>, limit: nat,
                                               last: bool)
    requires |buffer| < limit && (buffer != [] ==> offset + |buffer| == at) && |buffer| <= at
    ensures var b := Rebatch(offset, buffer, at, data, limit, last);
            && Contiguous(b.batches, at - |buffer|)
            && |b.buffer| < limit
            && (b.buffer != [] ==> b.offset + |b.buffer| == at + |data|)
            && (last && data != [] ==> b.buffer == [])
    decreases |data|
  {
    if data == [] {
    } else {
      var offset1 := if buffer == [] then at else offset;
      var count := if |data| < limit - |buffer| then |data| else limit - |buffer|;
      var buffer1, rest := buffer + data[..count], data[count..];
      assert offset1 + |buffer1| == at + count;
      if |buffer1| != limit && !(last && count == |data|) {
        RebatchKeepsOffsets(offset1, buffer1, at + count, rest, limit, last);
      } else {
        RebatchKeepsOffsets(offset1, [], at + count, rest, limit, last);
        ContiguousCons(Batch(offset1, buffer1), Rebatch(offset1, [], at + count, rest, limit, last).batches);
      }
    }
  }

  function Uploads(epoch: nat, frame: nat, bs: seq<Batch>): seq<Command> {
    seq(|bs|, i requires 0 <= i < |bs| => Upload(epoch, frame, bs[i].offset, bs[i].bytes))
  }

  // ------------------------------------------------------------------ messages

  function OnStateReset(r: Reader, m: Message): Outcome {
    if m.epoch <= r.pixelEpoch then Fail(r)
    else
      var poisoned := if r.poisoned.Some? && m.epoch > r.poisoned.value then None else r.poisoned;
      Outcome(r.(snapshot := None, rects := None, poisoned := poisoned, resetEpoch := Some(m.epoch)),
              [Cancel(m.epoch)], Flush(m.epoch))
  }

  function OnRawRect(c: Session, r: Reader, m: Message): Outcome
    requires m.body.RawRect?
  {
    if r.poisoned.Some? && m.epoch <= r.poisoned.value then Outcome(r, [], Nothing)
    else if !c.rawRect || r.snapshot.Some? || !r.digestValid then Poison(r, m.epoch)
    else
      var transition := r.pixels != Some(Rects);
      if transition && r.resetEpoch != Some(m.epoch) then Poison(r, m.epoch)
      else if !transition && m.epoch != r.pixelEpoch then Poison(r, m.epoch)
      else Collect(r, m)
  }

  /** A rectangle that may come joins the transaction, or starts it. */
  function Collect(r: Reader, m: Message): Outcome
    requires m.body.RawRect?
  {
    var incoming := if r.rects.Some? then r.rects.value
                    else IncomingRects(m.epoch, m.body.base, m.frame, m.body.surface, []);
    if incoming.base != r.pixelFrame || !incoming.Admits(m) then Poison(r, m.epoch)
    else Outcome(r.(rects := Some(incoming.(rects := incoming.rects + [m.body.rect]))), [], Nothing)
  }

  function OnChunk(r: Reader, m: Message): Outcome
    requires m.body.Chunk? && Decodable(m)
  {
    if r.resetEpoch != Some(m.epoch) then Recover(r)
    else if r.snapshot.None? && m.body.offset != 0 then Recover(r)
    else
      var begin := r.snapshot.None?;
      var inc := if begin then Incoming(m.epoch, m.frame, m.body.surface, m.body.total, 0, 0, [], [])
                 else r.snapshot.value;
      var begun := if begin then [Begin(m.epoch, m.frame, m.body.surface)] else [];
      if inc.epoch != m.epoch || inc.frame != m.frame || inc.surface != m.body.surface ||
         inc.total != m.body.total || inc.next != m.body.offset
      then
        var out := Recover(r);
        out.(commands := begun + out.commands)
      else
        var out := Continue(r.(snapshot := Some(inc)), m, inc);
        out.(commands := begun + out.commands)
  }

  /** A chunk that continues the transaction. */
  function Continue(r: Reader, m: Message, inc: Incoming): Outcome
    requires m.body.Chunk? && Decodable(m) && inc.surface == m.body.surface
  {
    var stride := inc.surface.Stride();
    if stride > GPU_UPLOAD_BATCH_BYTES || |inc.upload| >= UploadLimit(stride) then Fail(r)
    else
      var next := inc.next + |m.body.bytes|;
      var b := Rebatch(inc.uploadOffset, inc.upload, m.body.offset, m.body.bytes, UploadLimit(stride),
                       next == inc.total);
      var inc' := inc.(next := next, hashed := inc.hashed + m.body.bytes, uploadOffset := b.offset, upload := b.buffer);
      Outcome(r.(snapshot := Some(inc')), Uploads(m.epoch, m.frame, b.batches), Nothing)
  }

  function OnCommit(r: Reader, m: Message): Outcome
    requires m.body.FrameCommit?
  {
    if r.rects.Some? then
      var inc := r.rects.value;
      if !inc.ReadyToCommit(m) then Poison(r, m.epoch)
      else if !DigestFits(inc.rects) then Fail(r)
      else
        var digest := OfRects(r.pixelDigest, m.frame, inc.rects);
        Outcome(r.(pixelEpoch := m.epoch, pixels := Some(Rects), pixelFrame := m.frame, pixelDigest := digest,
                   resetEpoch := None, rects := None),
                [RectTransaction(m.epoch, m.frame, m.body.base, digest, inc.rects)], Nothing)
    else if r.snapshot.None? || r.snapshot.value.epoch != m.epoch || r.snapshot.value.frame != m.frame ||
            r.snapshot.value.next != r.snapshot.value.total || r.snapshot.value.upload != [] || m.body.base != 0
    then Recover(r)
    else
      var digest := OfImage(r.snapshot.value.hashed);
      Outcome(r.(pixelEpoch := m.epoch, pixels := Some(Snapshot), pixelFrame := m.frame, pixelDigest := digest,
                 digestValid := true, resetEpoch := None, snapshot := None),
              [CommitSnapshot(m.epoch, m.frame, digest)], Nothing)
  }

  function Dropped(r: Reader, epoch: nat): seq<Command> {
    (if r.snapshot.Some? then [Cancel(0)] else []) + (if r.rects.Some? then [Cancel(epoch)] else [])
  }

  function OnAccessUnit(c: Session, r: Reader, m: Message): Outcome
    requires m.body.AccessUnit?
  {
    if c.exactOnly then Fail(r)
    else
      var dropped := Dropped(r, m.epoch);
      var r1 := r.(snapshot := None, rects := None);
      var shown := Decode(VideoFrame(m.epoch, m.frame, m.body.key, m.body.pixels));
      if r1.pixels != Some(Video) || m.epoch != r1.pixelEpoch then
        if r1.pixels.Some? && r1.resetEpoch != Some(m.epoch) then Fail(r1).(commands := dropped)
        else if !m.body.key then Fail(r1).(commands := dropped)
        else
          Outcome(r1.(pixels := Some(Video), pixelEpoch := m.epoch, digestValid := false, pixelFrame := m.frame,
                      resetEpoch := None),
                  dropped, shown)
      else Outcome(r1, dropped, shown)
  }

  /** One message. A failed reader has left its loop and takes no more. */
  function Receive(c: Session, r: Reader, m: Message): Outcome {
    if r.status == Failed then Outcome(r, [], Nothing)
    else if !Decodable(m) then Fail(r)
    else if c.exactOnly && m.body.AccessUnit? then Fail(r)
    else if m.sequence != r.lastSequence + 1 then Recover(r)
    else
      var r1 := r.(lastSequence := m.sequence);
      match m.body
      case Cursor => Outcome(r1, [], Nothing)
      case StateReset => OnStateReset(r1, m)
      case RawRect(_, _, _) => OnRawRect(c, r1, m)
      case Chunk(_, _, _, _) => OnChunk(r1, m)
      case FrameCommit(_) => OnCommit(r1, m)
      case AccessUnit(_, _) => OnAccessUnit(c, r1, m)
  }

  // ------------------------------------------------------------ message streams

  datatype Reading = Reading(reader: Reader, commands: seq<Command>)

  function Stepper(c: Session): (Reader, Message) -> Step<Reader, Command> {
    (r, m) => Step(Receive(c, r, m).reader, Receive(c, r, m).commands)
  }

  /** The reader after a whole stream, and every command the stream makes it queue. */
  function ReadAll(c: Session, r: Reader, ms: seq<Message>): Reading {
    var all := Fold(Stepper(c), r, ms);
    Reading(all.state, all.out)
  }

  lemma ReadAllHead(c: Session, r: Reader, ms: seq<Message>)
    requires ms != []
    ensures var out := Receive(c, r, ms[0]); var rest := ReadAll(c, out.reader, ms[1..]);
            ReadAll(c, r, ms) == Reading(rest.reader, out.commands + rest.commands)
  {
    FoldHead(Stepper(c), r, ms);
  }

  lemma ReadAllConcat(c: Session, r: Reader, xs: seq<Message>, ys: seq<Message>)
    ensures var first := ReadAll(c, r, xs); var second := ReadAll(c, first.reader, ys);
            ReadAll(c, r, xs + ys) == Reading(second.reader, first.commands + second.commands)
  {
    FoldConcat(Stepper(c), r, xs, ys);
  }

  lemma ReadAllOne(c: Session, r: Reader, m: Message)
    ensures ReadAll(c, r, [m]) == Reading(Receive(c, r, m).reader, Receive(c, r, m).commands)
  {
    FoldOne(Stepper(c), r, m);
  }

  lemma TroubleStaysOne(c: Session, r: Reader, m: Message)
    ensures Receive(c, r, m).reader.recoveries >= r.recoveries
    ensures r.status == Failed ==> Receive(c, r, m).reader.status == Failed
  {
  }

  /** Failures and recovery requests are never undone. */
  lemma {:induction false} TroubleStays(c: Session, r: Reader, ms: seq<Message>)
    ensures ReadAll(c, r, ms).reader.recoveries >= r.recoveries
    ensures r.status == Failed ==> ReadAll(c, r, ms).reader.status == Failed
  {
    if ms == [] {
    } else {
      var init, last := ms[..|ms| - 1], ms[|ms| - 1];
      TroubleStays(c, r, init);
      assert init + [last] == ms;
      ReadAllConcat(c, r, init, [last]);
      ReadAllOne(c, ReadAll(c, r, init).reader, last);
      TroubleStaysOne(c, ReadAll(c, r, init).reader, last);
    }
  }
}
