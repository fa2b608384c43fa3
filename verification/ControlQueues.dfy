/** The queue as it is kept: a deque, a slot and counters changed under one lock. */
module ControlQueues {
  import opened Options
  import opened ControlQueue
  import opened ControlLog
  import Host = ControlReceiver

  predicate Carries(m: Message, kind: Kind, content: int, sequence: nat, epoch: nat) {
    m.kind == kind && m.content == content && m.sequence == sequence && m.epoch == epoch
  }

  /**
   A move takes the slot; anything else joins the deque behind it, with a move that waits frozen ahead of an
   input.
   */
  predicate Joins(q: Queue, q': Queue, kind: Kind, content: int, sequence: nat) {
    var frozen := if q.pointer.Some? && kind in {Edge, Release} then [q.pointer.value] else [];
    q'.epoch == q.epoch &&
    if kind == Move then
      q'.reliable == q.reliable && q'.pointer.Some? && Carries(q'.pointer.value, kind, content, sequence, q.epoch)
    else
      && q'.pointer == (if frozen == [] then q.pointer else None)
      && |q'.reliable| == |q.reliable| + |frozen| + 1
      && q'.reliable[..|q'.reliable| - 1] == q.reliable + frozen
      && Carries(q'.reliable[|q'.reliable| - 1], kind, content, sequence, q.epoch)
  }

  /** What enqueueing does to a queue that takes the message, refuses it, or is closed to it. */
  predicate Enters(q: Queue, q': Queue, kind: Kind, content: int, sequence: nat, taken: bool, refusal: bool) {
    if q.closing || (kind != Other && !q.interactive) then q' == q && !taken && !refusal
    else if kind == Move ||
            |q.reliable| + (if q.pointer.Some? && kind in {Edge, Release} then 2 else 1) <= RELIABLE_LIMIT
    then Joins(q, q', kind, content, sequence) && taken && !refusal
    else if kind == Release then
      && q'.epoch == q.epoch + 1 && q'.pointer.None? && |q'.reliable| == 1 && taken && !refusal
      && Carries(q'.reliable[0], kind, content, sequence, q.epoch + 1)
    else q'.reliable == q.reliable && q'.pointer == q.pointer && q'.epoch == q.epoch && !taken && refusal
  }

  /** So whatever `Enqueue` below is asked to take either enters as it is, or is refused, or finds the queue closed. */
  lemma EnqueueEnters(q: Queue, kind: Kind, content: int, sequence: nat)
    ensures var e := ControlQueue.Enqueue(q, kind, content, sequence);
            Enters(q, e.queue, kind, content, sequence, e.accepted.Some?, e.refusal)
  {
  }

  class Pending {
    var reliable: seq<Message>
    var pointer: Option<Message>
    var nextOrder: nat
    var epoch: nat
    var nextReliable: nat
    var nextPointer: nat
    var nextWire: nat
    const interactive: bool
    var closing: bool
    // history, as in the model
    var refused: nat
    var edges: bool

    function Model(): Queue
      reads this
    {
      Queue(reliable, pointer, nextOrder, epoch, nextReliable, nextPointer, interactive, closing, refused, edges)
    }

    constructor (control: bool)
      ensures Model() == Start(control) && nextWire == 0
    {
      reliable, pointer, nextOrder, epoch := [], None, 0, 1;
      nextReliable, nextPointer, nextWire, interactive, closing := 0, 0, 0, control, false;
      refused, edges := 0, false;
    }

    /** Returns whether the message was taken; a refusal is what the queue throws. */
    method Enqueue(kind: Kind, content: int, sequence: nat) returns (taken: bool, refusal: bool)
      modifies this
      ensures nextWire == old(nextWire)
      ensures var e := ControlQueue.Enqueue(old(Model()), kind, content, sequence);
              Model() == e.queue && taken == e.accepted.Some? && refusal == e.refusal
    {
      if closing || (kind != Other && !interactive) { return false, false; }
      nextOrder := nextOrder + 1;
      var message := Message(kind, content, nextOrder, epoch, sequence, 0);
      var skipped := if kind == Edge && edges then refused else 0;
      if kind == Move {
        pointer := Some(message);
        return true, false;
      }
      var barrier := pointer.Some? && (kind == Edge || kind == Release);
      if |reliable| + (if barrier then 2 else 1) > RELIABLE_LIMIT {
        if kind != Release {
          refused := refused + if kind == Edge then 1 else 0;
          return false, true;
        }
        epoch := epoch + 1;
        reliable, pointer := [], None;
        nextReliable, nextPointer := 0, 0;
        refused, edges := 0, false;
        message := message.(epoch := epoch);
      }
      Append(message.(skipped := skipped));
      taken, refusal := true, false;
    }

    /** The end of the deque, with a waiting move frozen ahead of an input. */
    method Append(message: Message)
      modifies this
      ensures nextWire == old(nextWire) && Model() == ControlQueue.Append(old(Model()), message)
    {
      if pointer.Some? && (message.kind == Edge || message.kind == Release) {
        reliable := reliable + [pointer.value];
        pointer := None;
      }
      reliable := reliable + [message];
      if message.kind == Edge {
        refused, edges := 0, true;
      }
    }

    method EnqueueInput(move: bool, content: int) returns (taken: bool, refusal: bool)
      modifies this
      ensures nextWire == old(nextWire)
      ensures var e := ControlQueue.EnqueueInput(old(Model()), move, content);
              Model() == e.queue && taken == e.accepted.Some? && refusal == e.refusal
      ensures var q := old(Model());
              if move then Enters(q.(nextPointer := q.nextPointer + 1), Model(), Move, content, q.nextPointer + 1,
                                  taken,
                                  refusal)
              else Enters(q.(nextReliable := q.nextReliable + 1), Model(), Edge, content, q.nextReliable + 1, taken,
                          refusal)
    {
      var sequence;
      if move {
        nextPointer := nextPointer + 1;
        sequence := nextPointer;
      } else {
        nextReliable := nextReliable + 1;
        sequence := nextReliable;
      }
      ghost var q := Model();
      taken, refusal := Enqueue(if move then Move else Edge, content, sequence);
      EnqueueEnters(q, if move then Move else Edge, content, sequence);
    }

    method Stop()
      modifies this
      ensures nextWire == old(nextWire) && Model() == ControlQueue.Stop(old(Model())).queue
    {
      if closing { return; }
      if interactive {
        nextOrder := nextOrder + 1;
        reliable := reliable + [Message(Release, 0, nextOrder, epoch, 0, 0)];
      }
      closing := true;
    }

    /** One turn of the writer: the older of the pending move and the front of the deque. */
    method TakeNext() returns (next: Option<Written>)
      modifies this
      ensures next.None? <==> Idle(old(Model()))
      ensures next.None? ==> Model() == old(Model()) && nextWire == old(nextWire)
      ensures next.Some? ==> Model() == Dequeue(old(Model())) && nextWire == old(nextWire) + 1
      ensures next.Some? ==> next.value == Written(nextWire, Head(old(Model())))
    {
      if pointer.None? && reliable == [] { return None; }
      var message;
      if pointer.Some? && (reliable == [] || pointer.value.order < reliable[0].order) {
        message := pointer.value;
        pointer := None;
      } else {
        message := reliable[0];
        reliable := reliable[1..];
      }
      nextWire := nextWire + 1;
      next := Some(Written(nextWire, message));
    }
  }

  /** One action more. */
  lemma ActionAdds(interactive: bool, past: seq<Action>, a: Action)
    ensures Run(interactive, past + [a]) == Next(Run(interactive, past), a)
  {
    assert (past + [a])[..|past|] == past;
  }

  /** The producers, the writer and the pipe it writes to. */
  class ControlThreads {
    const pending: Pending
    var wire: seq<Written>

    /** The queue and the pipe are those of the run. */
    predicate Tracks(past: seq<Action>)
      reads this, pending
    {
      var t := Run(pending.interactive, past);
      pending.Model() == t.queue && wire == t.wire && pending.nextWire == |wire|
    }

    constructor (control: bool)
      ensures Tracks([]) && pending.interactive == control
    {
      wire := [];
      pending := new Pending(control);
    }

    method WriteOne(ghost past: seq<Action>)
      requires Tracks(past)
      modifies this, pending
      ensures Tracks(past + [Write])
    {
      ActionAdds(pending.interactive, past, Write);
      var next := pending.TakeNext();
      if next.Some? {
        wire := wire + [next.value];
      }
    }

    /** Any action of any thread is a step of the run. */
    method Perform(a: Action, ghost past: seq<Action>)
      requires Tracks(past)
      modifies this, pending
      ensures Tracks(past + [a])
    {
      ActionAdds(pending.interactive, past, a);
      var taken, refusal;
      match a
      case MoveTo(content) => taken, refusal := pending.EnqueueInput(true, content);
      case Press(content) => taken, refusal := pending.EnqueueInput(false, content);
      case ReleaseAll => taken, refusal := pending.Enqueue(Release, 0, 0);
      case Control(content) => taken, refusal := pending.Enqueue(Other, content, 0);
      case Write => WriteOne(past);
      case Close => pending.Stop();
    }
  }

  /** What the pipe holds makes the host fail exactly when an edge was written behind a refused one. */
  lemma PipeFailsExactlyWhen(threads: ControlThreads, past: seq<Action>)
    requires threads.Tracks(past)
    ensures Host.ReadWire(threads.wire).failed <==> Host.Broken(threads.wire)
    ensures !Host.ReadWire(threads.wire).failed ==> Host.ReadWire(threads.wire).applied == Host.Inputs(threads.wire)
  {
    Host.HostFailsExactlyWhen(threads.pending.interactive, past);
  }

  /** The pipe carries what the threads have asked for, but for superseded moves; the queue holds the rest. */
  lemma PipeCarriesTheLog(threads: ControlThreads, past: seq<Action>)
    requires threads.Tracks(past)
    ensures var log := Log(threads.pending.interactive, past); var epoch := EpochOf(log);
            Coalesces(Of(log, epoch), BareAll(Of(Messages(threads.wire), epoch)) +
                                      BareAll(ControlQueue.Pending(threads.pending.Model())))
  {
    WrittenIsCoalesced(threads.pending.interactive, past, EpochOf(Log(threads.pending.interactive, past)));
  }
}
