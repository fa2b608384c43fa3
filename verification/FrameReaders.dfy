/**
 The reader thread as it runs: transaction state in local variables, changed message by message.
 Proved against the reader of the protocol model.
 */
module FrameReaders {
  import opened Options
  import opened Wire
  import opened Canonical
  import R = Reader
  import Machines

  class FrameReader {
    const session: Session
    var status: R.Status
    var recoveries: nat
    var lastSequence: nat
    var snapshot: Option<R.Incoming>
    var collecting: bool
    var guard: Machines.RectGuard
    var pixelEpoch: nat
    var pixelFrame: nat
    var pixelDigest: Digest
    var digestValid: bool
    var pixels: Option<Representation>
    var resetEpoch: Option<nat>
    var poisoned: Option<nat>
    /** Everything queued for the compositor so far. */
    var queued: seq<Command>

    predicate Valid()
      reads this, guard
    {
      guard.Valid() && (guard.active ==> guard.rects != []) && (collecting ==> guard.active)
    }

    function Value(): R.Reader
      reads this, guard
    {
      R.Reader(status, recoveries, lastSequence, snapshot, if collecting then Some(guard.Value()) else None,
               pixelEpoch, pixelFrame, pixelDigest, digestValid, pixels, resetEpoch, poisoned)
    }

    /** What a message made of the reader, and what it queued beyond `before`. */
    predicate Did(out: R.Outcome, before: seq<Command>, effect: R.FrameEffect)
      reads this, guard
    {
      Value() == out.reader && queued == before + out.commands && effect == out.effect
    }

    constructor (c: Session)
      ensures Valid() && fresh(guard) && session == c && Value() == R.START && queued == []
    {
      session := c;
      status, recoveries, lastSequence, snapshot, collecting := R.Running, 0, 0, None, false;
      guard := new Machines.RectGuard();
      pixelEpoch, pixelFrame, pixelDigest, digestValid, pixels := 0, 0, Unset, false, None;
      resetEpoch, poisoned, queued := None, None, [];
    }

    method Enqueue(cmd: Command)
      modifies this`queued
      ensures queued == old(queued) + [cmd]
    {
      queued := queued + [cmd];
    }

    /** Gives the transaction up and asks for a full snapshot. */
    method RecoverSnapshot()
      requires Valid()
      modifies this
      ensures Valid() && guard == old(guard) && Did(R.Recover(old(Value())), old(queued), R.Nothing)
    {
      snapshot, collecting := None, false;
      Enqueue(Cancel(0));
      recoveries := recoveries + 1;
    }

    method PoisonRects(epoch: nat)
      requires Valid()
      modifies this
      ensures Valid() && guard == old(guard) && Did(R.Poison(old(Value()), epoch), old(queued), R.Nothing)
    {
      if poisoned.None? || poisoned.value <= epoch {
        poisoned := Some(epoch);
      }
      RecoverSnapshot();
    }

    method OnStateReset(m: Message) returns (effect: R.FrameEffect)
      requires Valid() && m.body.StateReset?
      modifies this
      ensures Valid() && guard == old(guard) && Did(R.OnStateReset(old(Value()), m), old(queued), effect)
    {
      if m.epoch <= pixelEpoch {
        status := R.Failed;
        return R.Nothing;
      }
      snapshot, collecting := None, false;
      if poisoned.Some? && m.epoch > poisoned.value {
        poisoned := None;
      }
      resetEpoch := Some(m.epoch);
      Enqueue(Cancel(m.epoch));
      effect := R.Flush(m.epoch);
    }

    /** Whether a rectangle may come at all; one that may not poisons its epoch. */
    predicate MayCollect(m: Message)
      reads this
    {
      session.rawRect && snapshot.None? && digestValid &&
      if pixels == Some(Rects) then m.epoch == pixelEpoch else resetEpoch == Some(m.epoch)
    }

    method OnRawRect(m: Message)
      requires Valid() && m.body.RawRect?
      modifies this, guard
      ensures Valid() && (guard == old(guard) || fresh(guard))
      ensures Did(R.OnRawRect(session, old(Value()), m), old(queued), R.Nothing)
    {
      if poisoned.Some? && m.epoch <= poisoned.value { return; }
      if !MayCollect(m) {
        PoisonRects(m.epoch);
      } else {
        Collect(m);
      }
    }

    /** A rectangle that may come joins the transaction, or starts it. */
    method Collect(m: Message)
      requires Valid() && m.body.RawRect?
      modifies this, guard
      ensures Valid() && (guard == old(guard) || fresh(guard))
      ensures Did(R.Collect(old(Value()), m), old(queued), R.Nothing)
    {
      if !collecting {
        guard := new Machines.RectGuard();
      }
      var base := if collecting then guard.base else m.body.base;
      if base != pixelFrame {
        PoisonRects(m.epoch);
      } else {
        Join(m);
      }
    }

    method Join(m: Message)
      requires Valid() && m.body.RawRect? && (guard.active ==> collecting)
      requires pixelFrame == if collecting then guard.base else m.body.base
      modifies this, guard
      ensures Valid() && guard == old(guard)
      ensures Did(R.Collect(old(Value()), m), old(queued), R.Nothing)
    {
      var accepted := guard.Accept(m);
      if accepted {
        collecting := true;
      } else {
        PoisonRects(m.epoch);
      }
    }

    method OnChunk(m: Message)
      requires Valid() && m.body.Chunk? && Decodable(m)
      modifies this
      ensures Valid() && guard == old(guard) && Did(R.OnChunk(old(Value()), m), old(queued), R.Nothing)
    {
      if resetEpoch != Some(m.epoch) || (snapshot.None? && m.body.offset != 0) {
        RecoverSnapshot();
        return;
      }
      if snapshot.None? {
        snapshot := Some(R.Incoming(m.epoch, m.frame, m.body.surface, m.body.total, 0, 0, [], []));
        Enqueue(Begin(m.epoch, m.frame, m.body.surface));
      }
      var inc := snapshot.value;
      if inc.epoch != m.epoch || inc.frame != m.frame || inc.surface != m.body.surface ||
         inc.total != m.body.total || inc.next != m.body.offset {
        RecoverSnapshot();
        return;
      }
      TakeChunk(m, inc);
    }

    /** A chunk that continues the transaction. */
    method TakeChunk(m: Message, inc: R.Incoming)
      requires Valid() && m.body.Chunk? && Decodable(m) && snapshot == Some(inc) && inc.surface == m.body.surface
      modifies this
      ensures Valid() && guard == old(guard) && Did(R.Continue(old(Value()), m, inc), old(queued), R.Nothing)
    {
      var stride := inc.surface.Stride();
      if stride > R.GPU_UPLOAD_BATCH_BYTES || |inc.upload| >= R.UploadLimit(stride) {
        status := R.Failed;
        return;
      }
      var batches, offset, buffer := Machines.Feed(inc, m.body.offset, m.body.bytes, R.UploadLimit(stride));
      queued := queued + R.Uploads(m.epoch, m.frame, batches);
      snapshot := Some(inc.(next := inc.next + |m.body.bytes|, hashed := inc.hashed + m.body.bytes,
                            uploadOffset := offset, upload := buffer));
    }

    method OnCommit(m: Message)
      requires Valid() && m.body.FrameCommit?
      modifies this
      ensures Valid() && guard == old(guard) && Did(R.OnCommit(old(Value()), m), old(queued), R.Nothing)
    {
      if collecting {
        CommitRects(m);
        return;
      }
      if snapshot.None? || snapshot.value.epoch != m.epoch || snapshot.value.frame != m.frame ||
         snapshot.value.next != snapshot.value.total || snapshot.value.upload != [] || m.body.base != 0 {
        RecoverSnapshot();
      } else {
        CommitIncoming(m);
      }
    }

    /** The end of a whole snapshot. */
    method CommitIncoming(m: Message)
      requires Valid() && m.body.FrameCommit? && !collecting && snapshot.Some?
      requires snapshot.value.epoch == m.epoch && snapshot.value.frame == m.frame && m.body.base == 0
      requires snapshot.value.next == snapshot.value.total && snapshot.value.upload == []
      modifies this
      ensures Valid() && guard == old(guard) && Did(R.OnCommit(old(Value()), m), old(queued), R.Nothing)
    {
      var digest := OfImage(snapshot.value.hashed);
      Enqueue(CommitSnapshot(m.epoch, m.frame, digest));
      pixelEpoch, pixels, pixelFrame := m.epoch, Some(Snapshot), m.frame;
      pixelDigest, digestValid := digest, true;
      resetEpoch, snapshot := None, None;
    }

    method CommitRects(m: Message)
      requires Valid() && m.body.FrameCommit? && collecting
      modifies this
      ensures Valid() && guard == old(guard) && Did(R.OnCommit(old(Value()), m), old(queued), R.Nothing)
    {
      if !guard.Value().ReadyToCommit(m) {
        PoisonRects(m.epoch);
      } else if !DigestFits(guard.rects) {
        status := R.Failed;
      } else {
        var digest := OfRects(pixelDigest, m.frame, guard.rects);
        Enqueue(RectTransaction(m.epoch, m.frame, m.body.base, digest, guard.rects));
        pixelEpoch, pixels, pixelFrame, pixelDigest := m.epoch, Some(Rects), m.frame, digest;
        resetEpoch, collecting := None, false;
      }
    }

    /** Video ends every transaction. */
    method DropTransactions(epoch: nat)
      requires Valid()
      modifies this`snapshot, this`collecting, this`queued
      ensures Valid() && Value() == old(Value()).(snapshot := None, rects := None)
      ensures queued == old(queued) + R.Dropped(old(Value()), epoch)
    {
      if snapshot.Some? {
        snapshot := None;
        Enqueue(Cancel(0));
      }
      if collecting {
        collecting := false;
        Enqueue(Cancel(epoch));
      }
    }

    /** A transition to video needs its reset and an IDR. */
    method EnterVideo(m: Message) returns (ok: bool)
      requires Valid() && m.body.AccessUnit?
      modifies this`status, this`pixels, this`pixelEpoch, this`digestValid, this`pixelFrame, this`resetEpoch
      ensures ok <==> (old(pixels).None? || old(resetEpoch) == Some(m.epoch)) && m.body.key
      ensures Value() == if !ok then old(Value()).(status := R.Failed)
                         else old(Value()).(pixels := Some(Video), pixelEpoch := m.epoch, digestValid := false,
                                            pixelFrame := m.frame, resetEpoch := None)
    {
      if (pixels.Some? && resetEpoch != Some(m.epoch)) || !m.body.key {
        status := R.Failed;
        return false;
      }
      pixels, pixelEpoch, digestValid, pixelFrame, resetEpoch := Some(Video), m.epoch, false, m.frame, None;
      ok := true;
    }

    method OnAccessUnit(m: Message) returns (effect: R.FrameEffect)
      requires Valid() && m.body.AccessUnit?
      modifies this
      ensures Valid() && guard == old(guard) && Did(R.OnAccessUnit(session, old(Value()), m), old(queued), effect)
    {
      effect := R.Nothing;
      if session.exactOnly {
        status := R.Failed;
        return;
      }
      DropTransactions(m.epoch);
      if pixels != Some(Video) || m.epoch != pixelEpoch {
        var entered := EnterVideo(m);
        if !entered { return; }
      }
      effect := R.Decode(VideoFrame(m.epoch, m.frame, m.body.key, m.body.pixels));
    }

    /** One message off the wire. */
    method ReceiveMessage(m: Message) returns (effect: R.FrameEffect)
      requires Valid()
      modifies this, guard
      ensures Valid() && (guard == old(guard) || fresh(guard))
      ensures Did(R.Receive(session, old(Value()), m), old(queued), effect)
    {
      effect := R.Nothing;
      if status == R.Failed { return; }
      if !Decodable(m) || (session.exactOnly && m.body.AccessUnit?) {
        status := R.Failed;
        return;
      }
      if m.sequence != lastSequence + 1 {
        RecoverSnapshot();
        return;
      }
      lastSequence := m.sequence;
      match m.body
      case Cursor =>
      case StateReset => effect := OnStateReset(m);
      case RawRect(_, _, _) => OnRawRect(m);
      case Chunk(_, _, _, _) => OnChunk(m);
      case FrameCommit(_) => OnCommit(m);
      case AccessUnit(_, _) => effect := OnAccessUnit(m);
    }

    /** A stream of messages leaves the reader, and queues, what the model's reading of it does. */
    method ReadStream(ms: seq<Message>)
      requires Valid()
      modifies this, guard
      ensures Valid() && (guard == old(guard) || fresh(guard))
      ensures R.Reading(Value(), queued) ==
              var all := R.ReadAll(session, old(Value()), ms); R.Reading(all.reader, old(queued) + all.commands)
    {
      ghost var start, before := Value(), queued;
      assert queued + [] == queued;
      for i := 0 to |ms|
        invariant Valid() && (guard == old(guard) || fresh(guard))
        invariant Value() == R.ReadAll(session, start, ms[..i]).reader
        invariant queued == before + R.ReadAll(session, start, ms[..i]).commands
      {
        R.ReadAllConcat(session, start, ms[..i], [ms[i]]);
        R.ReadAllOne(session, Value(), ms[i]);
        assert ms[..i] + [ms[i]] == ms[..i + 1];
        ghost var out := R.Receive(session, Value(), ms[i]);
        Associate(before, R.ReadAll(session, start, ms[..i]).commands, out.commands);
        var effect := ReceiveMessage(ms[i]);
      }
      assert ms[..|ms|] == ms;
    }

    static lemma Associate(a: seq<Command>, b: seq<Command>, c: seq<Command>)
      ensures a + (b + c) == a + b + c
    {
    }
  }
}
