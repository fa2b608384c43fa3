/** Every event keeps the invariant. */
module Steps {
  import opened Options
  import opened Wire
  import opened Canonical
  import R = Reader
  import opened System
  import opened Invariant

  lemma {:induction false} WireLinkedAppend(from: nat, ms: seq<Message>, to: nat, m: Message)
    requires WireLinked(from, ms, to)
    requires if m.body.StateReset? then m.epoch > to else m.epoch == to
    ensures WireLinked(from, ms + [m], m.epoch)
    decreases |ms|
  {
    if ms == [] {
      assert ms + [m] == [m];
      assert [m][1..] == [];
    } else {
      WireLinkedAppend(ms[0].epoch, ms[1..], to, m);
      assert (ms + [m])[1..] == ms[1..] + [m];
    }
  }

  lemma {:induction false} LinkedAppend(from: nat, q: seq<Command>, mid: nat, cmds: seq<Command>, to: nat)
    requires Linked(from, q, mid) && Linked(mid, cmds, to)
    ensures Linked(from, q + cmds, to)
    decreases |q|
  {
    if q == [] {
      assert q + cmds == cmds;
    } else {
      LinkedAppend(q[0].epoch, q[1..], mid, cmds, to);
      assert (q + cmds)[1..] == q[1..] + cmds;
    }
  }

  // --------------------------------------------------------- the reader's head

  ghost predicate AllOf(cmds: seq<Command>, epoch: nat) {
    forall cmd <- cmds :: cmd.epoch == epoch
  }

  lemma {:induction false} SameEpochLinks(cmds: seq<Command>, epoch: nat)
    requires AllOf(cmds, epoch)
    ensures Linked(epoch, cmds, epoch)
    decreases |cmds|
  {
    if cmds == [] {
    } else {
      SameEpochLinks(cmds[1..], epoch);
    }
  }

  lemma ChunkEpochs(r: R.Reader, m: Message)
    requires m.body.Chunk? && Decodable(m) && r.status == R.Running
    requires R.OnChunk(r, m).reader.status == R.Running && R.OnChunk(r, m).reader.recoveries == r.recoveries
    ensures AllOf(R.OnChunk(r, m).commands, m.epoch) && R.OnChunk(r, m).effect == R.Nothing
  {
  }

  lemma CommitEpochs(r: R.Reader, m: Message)
    requires m.body.FrameCommit? && r.status == R.Running
    requires R.OnCommit(r, m).reader.status == R.Running && R.OnCommit(r, m).reader.recoveries == r.recoveries
    ensures AllOf(R.OnCommit(r, m).commands, m.epoch) && R.OnCommit(r, m).effect == R.Nothing
  {
  }

  lemma AccessUnitEpochs(c: Session, r: R.Reader, m: Message)
    requires m.body.AccessUnit? && r.status == R.Running && R.OnAccessUnit(c, r, m).reader.status == R.Running
    requires forall cmd <- R.OnAccessUnit(c, r, m).commands :: cmd.epoch != 0
    ensures AllOf(R.OnAccessUnit(c, r, m).commands, m.epoch)
    ensures R.OnAccessUnit(c, r, m).effect == R.Decode(VideoFrame(m.epoch, m.frame, m.body.key, m.body.pixels))
  {
    var cmds := R.OnAccessUnit(c, r, m).commands;
    assert cmds != [] ==> cmds[0].epoch != 0;
  }

  /** A reader that stays out of trouble queues commands of the message's own epoch. */
  lemma ReceiveEpochs(c: Session, r: R.Reader, m: Message)
    requires r.status == R.Running
    requires R.Receive(c, r, m).reader.status == R.Running && R.Receive(c, r, m).reader.recoveries == r.recoveries
    requires forall cmd <- R.Receive(c, r, m).commands :: cmd.epoch != 0
    ensures m.body.StateReset? ==> R.Receive(c, r, m).commands == [Cancel(m.epoch)] &&
                                   R.Receive(c, r, m).effect == R.Flush(m.epoch)
    ensures !m.body.StateReset? ==> AllOf(R.Receive(c, r, m).commands, m.epoch)
    ensures m.body.AccessUnit? ==>
            R.Receive(c, r, m).effect == R.Decode(VideoFrame(m.epoch, m.frame, m.body.key, m.body.pixels))
    ensures !m.body.StateReset? && !m.body.AccessUnit? ==> R.Receive(c, r, m).effect == R.Nothing
  {
    var r1 := r.(lastSequence := m.sequence);
    match m.body
    case Cursor =>
    case StateReset =>
    case RawRect(_, _, _) =>
    case Chunk(_, _, _, _) => ChunkEpochs(r1, m);
    case FrameCommit(_) => CommitEpochs(r1, m);
    case AccessUnit(_, _) => AccessUnitEpochs(c, r1, m);
  }

  ghost predicate EffectOf(m: Message, effect: R.FrameEffect) {
    match effect
    case Nothing => true
    case Flush(e) => e == m.epoch
    case Decode(f) => m.body.AccessUnit? && f.epoch == m.epoch && f.pixels == m.body.pixels
  }

  lemma HeadOfWire(c: Session, s: State, ahead: R.Reading, out: R.Outcome)
    requires c.Valid() && InvAt(c, s, ahead) && s.channel != [] && out == R.Receive(c, s.reader, s.channel[0])
    requires s.reader.status == R.Running && s.reader.recoveries == 0
    requires out.reader.status == R.Running && out.reader.recoveries == 0
    requires forall cmd <- out.commands :: cmd in ahead.commands
    ensures Linked(s.wireEpoch, out.commands, s.channel[0].epoch)
    ensures EffectOf(s.channel[0], out.effect)
    ensures if s.channel[0].body.StateReset? then |out.commands| <= 1
            else AllOf(out.commands, s.channel[0].epoch) && s.channel[0].epoch == s.wireEpoch
  {
    var m := s.channel[0];
    forall cmd | cmd in out.commands ensures cmd.epoch != 0 {
      assert cmd in s.queue + ahead.commands;
    }
    ReceiveEpochs(c, s.reader, m);
    if m.body.StateReset? {
      assert out.commands[1..] == [];
    } else {
      SameEpochLinks(out.commands, m.epoch);
    }
  }

  /** The state after a message that found room in the queue. */
  function Consumed(s: State, out: R.Outcome): State
    requires s.channel != []
  {
    var s1 := s.(channel := s.channel[1..], reader := out.reader, queue := s.queue + out.commands,
                 wireEpoch := s.channel[0].epoch);
    match out.effect
    case Decode(f) => s1.(decoder := s.decoder + [f])
    case _ => Flushed(s1, out.effect)
  }

  lemma ConsumedFrames(c: Session, s: State, out: R.Outcome)
    requires FramesOk(c, s) && s.channel != [] && EffectOf(s.channel[0], out.effect)
    requires s.wireEpoch <= s.channel[0].epoch
    ensures FramesOk(c, Consumed(s, out))
  {
    var t := Consumed(s, out);
    assert forall m <- t.channel :: m in s.channel;
    assert s.channel[0] in s.channel;
  }

  lemma ConsumedKeeps(c: Session, s: State, out: R.Outcome, rest: R.Reading)
    requires c.Valid() && InvAt(c, s, R.Reading(rest.reader, out.commands + rest.commands)) && s.channel != []
    requires Linked(s.wireEpoch, out.commands, s.channel[0].epoch)
    requires EffectOf(s.channel[0], out.effect)
    ensures InvAt(c, Consumed(s, out), rest)
  {
    var t := Consumed(s, out);
    ConsumedParts(s, out);
    ConsumedFrames(c, s, out);
    LinkedAppend(s.compositor.lastEpoch, s.queue, s.wireEpoch, out.commands, t.wireEpoch);
    TakenKeeps(c, s, t, out, rest);
  }

  lemma ConsumedParts(s: State, out: R.Outcome)
    requires s.channel != []
    ensures var t := Consumed(s, out);
            && ViewOf(t) == ViewOf(s) && t.channel == s.channel[1..] && t.queue == s.queue + out.commands
            && t.wireEpoch == s.channel[0].epoch
  {
  }

  lemma TakenKeeps(c: Session, s: State, t: State, out: R.Outcome, rest: R.Reading)
    requires c.Valid() && InvAt(c, s, R.Reading(rest.reader, out.commands + rest.commands)) && s.channel != []
    requires ViewOf(t) == ViewOf(s) && t.channel == s.channel[1..] && t.queue == s.queue + out.commands
    requires t.wireEpoch == s.channel[0].epoch && FramesOk(c, t)
    requires Linked(s.compositor.lastEpoch, s.queue + out.commands, t.wireEpoch)
    ensures InvAt(c, t, rest)
  {
    assert t.queue + rest.commands == s.queue + (out.commands + rest.commands);
  }

  /** A stream that is read without trouble starts without trouble. */
  lemma HeadTrouble(c: Session, r: R.Reader, ms: seq<Message>)
    requires ms != []
    requires R.ReadAll(c, r, ms).reader.status == R.Running && R.ReadAll(c, r, ms).reader.recoveries == 0
    ensures r.status == R.Running && r.recoveries == 0
    ensures R.Receive(c, r, ms[0]).reader.status == R.Running && R.Receive(c, r, ms[0]).reader.recoveries == 0
  {
    R.ReadAllHead(c, r, ms);
    R.TroubleStays(c, r, ms);
    R.TroubleStays(c, R.Receive(c, r, ms[0]).reader, ms[1..]);
    R.TroubleStaysOne(c, r, ms[0]);
  }

  lemma EndTrouble(c: Session, s: State, ahead: R.Reading)
    requires c.Valid() && InvAt(c, s, ahead)
    ensures ahead.reader.status == R.Running && ahead.reader.recoveries == 0
  {
  }

  /** The state after a message whose commands did not all fit. */
  function Stopped(s: State, out: R.Outcome): State
    requires |out.commands| > Room(s)
  {
    Flushed(s, out.effect).(stalled := true, queue := s.queue + out.commands[..Room(s)])
  }

  /** The reader never comes back to the rest, so a part may be queued that is still ahead as well. */
  lemma TodoRepeats(c: Session, v: View, queue: seq<Command>, part: seq<Command>, ahead: seq<Command>)
    requires TodoOk(c, v, queue + ahead) && |part| < |ahead| && part == ahead[..|part|]
    ensures TodoOk(c, v, queue + part + ahead)
  {
    var todo, all := queue + ahead, queue + part + ahead;
    forall i | 0 <= i < |all|
      ensures all[i] == todo[if i < |queue| + |part| then i else i - |part|]
      ensures i < |queue| + |part| ==> i < |todo| - 1
    {
    }
  }

  lemma ScreenRepeats(c: Session, v: View, queue: seq<Command>, part: seq<Command>, ahead: seq<Command>)
    requires ScreenSide(c, v, queue + ahead) && |part| < |ahead| && part == ahead[..|part|]
    ensures ScreenSide(c, v, queue + part + ahead)
  {
    var todo, all := queue + ahead, queue + part + ahead;
    TodoRepeats(c, v, queue, part, ahead);
    assert todo != [] && all != [] && all[|all| - 1] == todo[|todo| - 1];
  }

  lemma StoppedFrames(c: Session, s: State, out: R.Outcome)
    requires FramesOk(c, s) && |out.commands| > Room(s)
    ensures FramesOk(c, Stopped(s, out))
  {
  }

  lemma PartLinks(s: State, out: R.Outcome, part: seq<Command>)
    requires s.channel != [] && |part| < |out.commands| && part == out.commands[..|part|]
    requires if s.channel[0].body.StateReset? then |out.commands| <= 1
             else AllOf(out.commands, s.channel[0].epoch) && s.channel[0].epoch == s.wireEpoch
    ensures Linked(s.wireEpoch, part, s.wireEpoch)
  {
    SameEpochLinks(part, s.wireEpoch);
  }

  lemma StoppedKeeps(c: Session, s: State, out: R.Outcome, rest: R.Reading)
    requires c.Valid() && InvAt(c, s, R.Reading(rest.reader, out.commands + rest.commands)) && s.channel != []
    requires |out.commands| > Room(s)
    requires if s.channel[0].body.StateReset? then |out.commands| <= 1
             else AllOf(out.commands, s.channel[0].epoch) && s.channel[0].epoch == s.wireEpoch
    ensures InvAt(c, Stopped(s, out), R.Reading(rest.reader, out.commands + rest.commands))
  {
    var part := out.commands[..Room(s)];
    assert ViewOf(Stopped(s, out)) == ViewOf(s);
    StoppedFrames(c, s, out);
    ScreenRepeats(c, ViewOf(s), s.queue, part, out.commands + rest.commands);
    PartLinks(s, out, part);
    LinkedAppend(s.compositor.lastEpoch, s.queue, s.wireEpoch, part, s.wireEpoch);
  }

  lemma ReadOneCases(c: Session, s: State)
    requires s.channel != []
    ensures var out := R.Receive(c, s.reader, s.channel[0]);
            ReadOne(c, s) == if |out.commands| > Room(s) then Stopped(s, out) else Consumed(s, out)
  {
  }

  /** Either way of taking the next message keeps the invariant, given what is ahead. */
  lemma OneKeeps(c: Session, s: State, out: R.Outcome, rest: R.Reading)
    requires c.Valid() && InvAt(c, s, R.Reading(rest.reader, out.commands + rest.commands)) && s.channel != []
    requires Linked(s.wireEpoch, out.commands, s.channel[0].epoch) && EffectOf(s.channel[0], out.effect)
    requires if s.channel[0].body.StateReset? then |out.commands| <= 1
             else AllOf(out.commands, s.channel[0].epoch) && s.channel[0].epoch == s.wireEpoch
    ensures if |out.commands| > Room(s)
            then InvAt(c, Stopped(s, out), R.Reading(rest.reader, out.commands + rest.commands))
            else InvAt(c, Consumed(s, out), rest)
  {
    if |out.commands| > Room(s) {
      StoppedKeeps(c, s, out, rest);
    } else {
      ConsumedKeeps(c, s, out, rest);
    }
  }

  /** What is ahead of the state after the message. */
  lemma ReadAhead(c: Session, s: State, out: R.Outcome)
    requires s.channel != [] && out == R.Receive(c, s.reader, s.channel[0])
    ensures if |out.commands| > Room(s) then Ahead(c, Stopped(s, out)) == Ahead(c, s)
            else Ahead(c, Consumed(s, out)) == R.ReadAll(c, out.reader, s.channel[1..])
  {
  }

  lemma ReadKeeps(c: Session, s: State)
    requires c.Valid() && Inv(c, s) && s.channel != []
    ensures Inv(c, ReadOne(c, s))
  {
    var out := R.Receive(c, s.reader, s.channel[0]);
    var rest := R.ReadAll(c, out.reader, s.channel[1..]);
    var ahead := R.Reading(rest.reader, out.commands + rest.commands);
    R.ReadAllHead(c, s.reader, s.channel);
    EndTrouble(c, s, ahead);
    HeadTrouble(c, s.reader, s.channel);
    HeadOfWire(c, s, ahead, out);
    OneKeeps(c, s, out, rest);
    ReadAhead(c, s, out);
    ReadOneCases(c, s);
  }
}
