/** What the record of the committed frame promises over whole runs of its operations. */
module CanonicalRuns {
  import opened Options
  import opened Wire
  import opened Canonical

  datatype Operation =
    | Entering(representation: Representation, epoch: nat)
    | Showing(epoch: nat, frame: nat)
    | Replacing(epoch: nat, frame: nat)
    | Beginning(epoch: nat, base: nat, target: nat)
    | Updating(epoch: nat, base: nat, target: nat)
    | Cancelling(epoch: nat)
    | Acknowledging(digest: Digest)

  /** An exact commit: a snapshot's, or a rectangle transaction's. */
  datatype Commit = Commit(epoch: nat, frame: nat)

  /** The record, every exact commit so far and every acknowledgement handed out. */
  datatype Ledger = Ledger(record: Canonical, commits: seq<Commit>, acks: seq<Ack>)

  function Committed(l: Ledger, record: Canonical, frame: nat): Ledger {
    l.(record := record, commits := l.commits + [Commit(l.record.epoch, frame)])
  }

  /** One operation; a refused one changes nothing. */
  function Next(l: Ledger, op: Operation): Ledger {
    var c := l.record;
    match op
    case Entering(r, e) => l.(record := c.Enter(r, e))
    case Showing(e, frame) => if c.CanCommitVideo(e, frame) then l.(record := c.CommitVideo(frame)) else l
    case Replacing(e, frame) => if c.CanCommitSnapshot(e, frame) then Committed(l, c.CommitSnapshot(frame), frame)
                                else l
    case Beginning(e, base, target) =>
      if c.CanBeginRects(e, base, target) then l.(record := c.BeginRects(base, target)) else l
    case Updating(e, base, target) =>
      if c.CanCommitRects(e, base, target) then Committed(l, c.CommitRects(target), target) else l
    case Cancelling(e) => l.(record := c.CancelRects(e))
    case Acknowledging(digest) =>
      if c.PendingAck(digest).None? then l else l.(record := c.TakeAck(), acks := l.acks + [c.PendingAck(digest).value])
  }

  function Run(ops: seq<Operation>): Ledger {
    if ops == [] then Ledger(FRESH, [], []) else Next(Run(ops[..|ops| - 1]), ops[|ops| - 1])
  }

  predicate Answers(ack: Ack, commit: Commit) { ack.epoch == commit.epoch && ack.frame == commit.frame }

  /** The acknowledgements answer some of the commits, in order and each at most once. */
  predicate AnswersSome(acks: seq<Ack>, commits: seq<Commit>)
    decreases |commits|
  {
    if commits == [] then acks == []
    else
      var rest := commits[..|commits| - 1];
      || AnswersSome(acks, rest)
      || (acks != [] && Answers(acks[|acks| - 1], commits[|commits| - 1]) && AnswersSome(acks[..|acks| - 1], rest))
  }

  predicate Ordered(commits: seq<Commit>, record: Canonical) {
    && (forall i, j | 0 <= i < j < |commits| :: commits[i].epoch <= commits[j].epoch &&
                                                commits[i].frame <= commits[j].frame)
    && (forall k <- commits :: k.epoch <= record.epoch && k.frame <= record.committedFrame)
  }

  /** What is pending belongs to the frame that is committed. */
  predicate PendingOk(l: Ledger) {
    var c := l.record;
    && (c.pendingTarget != 0 ==> c.representation == Rects && c.quality == Exact &&
                                 c.pendingBase == c.committedFrame < c.pendingTarget)
    && (c.pendingTarget == 0 ==> c.pendingBase == 0) && (c.quality == Exact ==> c.committedFrame != 0)
    && (c.ackFrame.Some? ==>
          && c.quality == Exact && c.ackFrame.value == c.committedFrame
          && l.commits != [] && l.commits[|l.commits| - 1] == Commit(c.epoch, c.committedFrame))
  }

  /** A commit whose acknowledgement is still pending has not been answered. */
  predicate AcksOk(l: Ledger) {
    AnswersSome(l.acks, if l.record.ackFrame.Some? && l.commits != [] then l.commits[..|l.commits| - 1] else l.commits)
  }

  predicate Ok(l: Ledger) { Ordered(l.commits, l.record) && PendingOk(l) && AcksOk(l) }

  lemma DroppedIsSome(l: Ledger)
    requires AcksOk(l)
    ensures AnswersSome(l.acks, l.commits)
  {
  }

  lemma CommittedOk(l: Ledger, record: Canonical, frame: nat)
    requires Ok(l) && record.epoch == l.record.epoch && record.committedFrame == frame >= l.record.committedFrame
    requires record.quality == Exact && record.ackFrame == Some(frame) &&
             record.pendingTarget == 0 == record.pendingBase && frame != 0
    ensures Ok(Committed(l, record, frame))
  {
    DroppedIsSome(l);
    var commit := Commit(l.record.epoch, frame);
    assert (l.commits + [commit])[..|l.commits|] == l.commits;
  }

  lemma AcknowledgedOk(l: Ledger, digest: Digest)
    requires Ok(l) && l.record.ackFrame.Some?
    ensures Ok(Next(l, Acknowledging(digest)))
  {
    var ack := l.record.PendingAck(digest).value;
    assert (l.acks + [ack])[..|l.acks|] == l.acks;
  }

  lemma CommitsOk(l: Ledger, op: Operation)
    requires Ok(l) && (op.Replacing? || op.Updating?)
    ensures Ok(Next(l, op))
  {
    var c := l.record;
    match op
    case Replacing(e, frame) =>
      if c.CanCommitSnapshot(e, frame) {
        CommittedOk(l, c.CommitSnapshot(frame), frame);
      }
    case Updating(e, base, target) =>
      if c.CanCommitRects(e, base, target) {
        CommittedOk(l, c.CommitRects(target), target);
      }
  }

  lemma NextOk(l: Ledger, op: Operation)
    requires Ok(l)
    ensures Ok(Next(l, op))
  {
    if op.Replacing? || op.Updating? {
      CommitsOk(l, op);
    } else if op.Acknowledging? {
      if l.record.ackFrame.Some? {
        AcknowledgedOk(l, op.digest);
      }
    } else {
      DroppedIsSome(l);
    }
  }

  lemma {:induction false} RunOk(ops: seq<Operation>)
    ensures Ok(Run(ops))
  {
    if ops == [] {
    } else {
      RunOk(ops[..|ops| - 1]);
      NextOk(Run(ops[..|ops| - 1]), ops[|ops| - 1]);
    }
  }

  /** Acknowledgements answer exact commits, in the order of the commits and each commit at most once. */
  lemma AcksAnswerCommits(ops: seq<Operation>)
    ensures AnswersSome(Run(ops).acks, Run(ops).commits)
  {
    RunOk(ops);
    DroppedIsSome(Run(ops));
  }

  /** Epochs and frames of exact commits never go back. */
  lemma CommitsNeverGoBack(ops: seq<Operation>, i: nat, j: nat)
    requires i < j < |Run(ops).commits|
    ensures var commits := Run(ops).commits;
            commits[i].epoch <= commits[j].epoch && commits[i].frame <= commits[j].frame
  {
    RunOk(ops);
  }

  /**
   A snapshot that commits is owed exactly one acknowledgement: the next one taken names it, and
   another one taken at once finds nothing.
   */
  lemma CommitIsAcknowledgedOnce(ops: seq<Operation>, epoch: nat, frame: nat, digest: Digest)
    requires Run(ops).record.CanCommitSnapshot(epoch, frame)
    ensures var l := Run(ops + [Replacing(epoch, frame), Acknowledging(digest)]);
            && l.commits == Run(ops).commits + [Commit(epoch, frame)]
            && l.acks == Run(ops).acks + [Ack(epoch, frame, digest)]
            && l.record.PendingAck(digest).None? && l.record.quality == Exact && l.record.committedFrame == frame
  {
    var both := ops + [Replacing(epoch, frame), Acknowledging(digest)];
    var one := ops + [Replacing(epoch, frame)];
    assert both[..|both| - 1] == one && one[..|one| - 1] == ops;
  }

  /** A rectangle transaction only ever moves the committed frame from its base to a later target. */
  lemma UpdatesMoveForward(ops: seq<Operation>, epoch: nat, base: nat, target: nat)
    requires Run(ops).record.CanCommitRects(epoch, base, target)
    ensures 0 < base == Run(ops).record.committedFrame < target
  {
    RunOk(ops);
  }
}
