/**
 The viewer's reverse-control queue: a bounded deque of reliable messages and a slot for the
 latest pointer position, filled by several producers and emptied by one writer.
 */
module ControlQueue {
  import opened Options

  const RELIABLE_LIMIT := 256

  datatype Kind = Move | Edge | Release | Other

  /**
   `skipped` is history: how many edges were refused between this edge and the edge accepted
   before it in its epoch.
   */
  datatype Message = Message(kind: Kind, content: int, order: nat, epoch: nat, sequence: nat, skipped: nat) {
    predicate IsInput() { kind != Other }
  }

  /** `refused` and `edges` are history: edges refused since the last accepted one, and whether there was one. */
  datatype Queue = Queue(
    reliable: seq<Message>,
    pointer: Option<Message>,
    nextOrder: nat,
    epoch: nat,
    nextReliable: nat,
    nextPointer: nat,
    interactive: bool,
    closing: bool,
    refused: nat,
    edges: bool)

  function Start(interactive: bool): Queue {
    Queue([], None, 0, 1, 0, 0, interactive, false, 0, false)
  }

  /** `accepted` is what went in; a `refusal` is the exception a full queue throws. */
  datatype Enqueued = Enqueued(queue: Queue, accepted: Option<Message>, refusal: bool)

  /** Whether a pending move has to be frozen ahead of this message. */
  predicate Barrier(q: Queue, kind: Kind) { q.pointer.Some? && (kind == Edge || kind == Release) }

  /** Whether the message needs more room than the deque has left. */
  predicate Full(q: Queue, kind: Kind) {
    kind != Move && |q.reliable| + (if Barrier(q, kind) then 2 else 1) > RELIABLE_LIMIT
  }

  function Append(q: Queue, m: Message): Queue {
    var frozen := if Barrier(q, m.kind) then [q.pointer.value] else [];
    q.(reliable := q.reliable + frozen + [m],
       pointer := if Barrier(q, m.kind) then None else q.pointer,
       refused := if m.kind == Edge then 0 else q.refused,
       edges := q.edges || m.kind == Edge)
  }

  function Enqueue(q: Queue, kind: Kind, content: int, sequence: nat): Enqueued {
    if q.closing || (kind != Other && !q.interactive) then Enqueued(q, None, false)
    else
      var q1 := q.(nextOrder := q.nextOrder + 1);
      var m := Message(kind, content, q1.nextOrder, q.epoch, sequence, if kind == Edge && q.edges then q.refused
          else 0);
      if kind == Move then Enqueued(q1.(pointer := Some(m)), Some(m), false)
      else if !Full(q, kind) then Enqueued(Append(q1, m), Some(m), false)
      else if kind != Release then Enqueued(q1.(refused := q.refused + if kind == Edge then 1 else 0), None, true)
      else
        var fresh_ := m.(epoch := q.epoch + 1);
        Enqueued(q1.(epoch := q.epoch + 1, reliable := [fresh_], pointer := None, nextReliable := 0, nextPointer := 0,
                     refused := 0, edges := false),
                 Some(fresh_), false)
  }

  /** An input event takes its sequence number before it is known whether the queue has room. */
  function EnqueueInput(q: Queue, move: bool, content: int): Enqueued {
    if move then Enqueue(q.(nextPointer := q.nextPointer + 1), Move, content, q.nextPointer + 1)
    else Enqueue(q.(nextReliable := q.nextReliable + 1), Edge, content, q.nextReliable + 1)
  }

  /** Closing releases all input once more, whatever the bound says. */
  function Stop(q: Queue): Enqueued {
    if q.closing then Enqueued(q, None, false)
    else
      var m := Message(Release, 0, q.nextOrder + 1, q.epoch, 0, 0);
      var q1 := q.(nextOrder := q.nextOrder + 1, closing := true);
      if q.interactive then Enqueued(q1.(reliable := q.reliable + [m]), Some(m), false)
      else Enqueued(q.(closing := true), None, false)
  }

  // ------------------------------------------------------------------ the writer

  predicate PointerFirst(reliable: seq<Message>, pointer: Option<Message>) {
    pointer.Some? && (reliable == [] || pointer.value.order < reliable[0].order)
  }

  predicate Idle(q: Queue) { q.pointer.None? && q.reliable == [] }

  function Head(q: Queue): Message
    requires !Idle(q)
  {
    if PointerFirst(q.reliable, q.pointer) then q.pointer.value else q.reliable[0]
  }

  function Dequeue(q: Queue): Queue
    requires !Idle(q)
  {
    if PointerFirst(q.reliable, q.pointer) then q.(pointer := None) else q.(reliable := q.reliable[1..])
  }

  /** The order in which the writer would empty the queue. */
  function Drain(reliable: seq<Message>, pointer: Option<Message>): seq<Message> {
    if pointer.None? then reliable
    else if PointerFirst(reliable, pointer) then [pointer.value] + reliable
    else [reliable[0]] + Drain(reliable[1..], pointer)
  }

  function DrainOf(q: Queue): seq<Message> { Drain(q.reliable, q.pointer) }

  lemma DequeueDrains(q: Queue)
    requires !Idle(q)
    ensures DrainOf(q) == [Head(q)] + DrainOf(Dequeue(q))
  {
  }

  // ---------------------------------------------------------------------- runs

  datatype Action =
    | MoveTo(content: int)
    | Press(content: int)
    | ReleaseAll
    | Control(content: int)
    | Write
    | Close

  datatype Written = Written(number: nat, message: Message)

  /** A queue, every input it has accepted, and everything its writer has put on the wire. */
  datatype Trace = Trace(queue: Queue, accepted: seq<Message>, wire: seq<Written>)

  function Accept(t: Trace, e: Enqueued): Trace {
    t.(queue := e.queue,
       accepted := if e.accepted.Some? && e.accepted.value.IsInput() then t.accepted + [e.accepted.value]
                   else t.accepted)
  }

  function Next(t: Trace, a: Action): Trace {
    match a
    case MoveTo(content) => Accept(t, EnqueueInput(t.queue, true, content))
    case Press(content) => Accept(t, EnqueueInput(t.queue, false, content))
    case ReleaseAll => Accept(t, Enqueue(t.queue, Release, 0, 0))
    case Control(content) => Accept(t, Enqueue(t.queue, Other, content, 0))
    case Write =>
      if Idle(t.queue) then t
      else t.(queue := Dequeue(t.queue), wire := t.wire + [Written(|t.wire| + 1, Head(t.queue))])
    case Close => Accept(t, Stop(t.queue))
  }

  function Run(interactive: bool, actions: seq<Action>): Trace {
    if actions == [] then Trace(Start(interactive), [], [])
    else Next(Run(interactive, actions[..|actions| - 1]), actions[|actions| - 1])
  }

  /** The inputs of one epoch among some messages. */
  function Of(ms: seq<Message>, epoch: nat): seq<Message> {
    if ms == [] then []
    else
      var m := ms[|ms| - 1];
      Of(ms[..|ms| - 1], epoch) + if m.IsInput() && m.epoch == epoch then [m] else []
  }

  function Messages(ws: seq<Written>): seq<Message> { seq(|ws|, i requires 0 <= i < |ws| => ws[i].message) }

  lemma OfLast(ms: seq<Message>, m: Message, epoch: nat)
    ensures Of(ms + [m], epoch) == Of(ms, epoch) + if m.IsInput() && m.epoch == epoch then [m] else []
  {
    assert (ms + [m])[..|ms|] == ms;
  }

  lemma {:induction false} OfConcat(xs: seq<Message>, ys: seq<Message>, epoch: nat)
    ensures Of(xs + ys, epoch) == Of(xs, epoch) + Of(ys, epoch)
  {
    if ys == [] {
      assert xs + ys == xs;
    } else {
      OfConcat(xs, ys[..|ys| - 1], epoch);
      assert (xs + ys)[..|xs + ys| - 1] == xs + ys[..|ys| - 1];
    }
  }

  lemma OfHead(m: Message, rest: seq<Message>, epoch: nat)
    ensures Of([m] + rest, epoch) == (if m.IsInput() && m.epoch == epoch then [m] else []) + Of(rest, epoch)
  {
    OfConcat([m], rest, epoch);
    assert [m][..0] == [];
    assert Of([m][..0], epoch) + [m] == [m];
  }

  lemma {:induction false} OfNone(ms: seq<Message>, epoch: nat)
    requires forall m <- ms :: m.epoch != epoch
    ensures Of(ms, epoch) == []
  {
    if ms == [] {
    } else {
      OfNone(ms[..|ms| - 1], epoch);
      assert ms[|ms| - 1] in ms;
    }
  }

  // ------------------------------------------------------------------ coalescing

  function Last<T>(s: seq<T>): T requires s != [] { s[|s| - 1] }
  function Init<T>(s: seq<T>): seq<T> requires s != [] { s[..|s| - 1] }

  /** `out` is `log` with some moves left out, each of them directly followed by another move. */
  predicate Coalesces(log: seq<Message>, out: seq<Message>)
    decreases |log|
  {
    if log == [] then out == []
    else
      && out != [] && Last(out) == Last(log)
      && (Coalesces(Init(log), Init(out)) ||
          (Last(log).kind == Move && |log| > 1 && Last(Init(log)).kind == Move &&
           Coalesces(Init(log), Init(out) + [Last(Init(log))])))
  }

  lemma CoalescesMore(log: seq<Message>, out: seq<Message>, m: Message)
    requires Coalesces(log, out)
    ensures Coalesces(log + [m], out + [m])
  {
    assert Init(log + [m]) == log && Init(out + [m]) == out;
  }

  lemma CoalescesReplaced(log: seq<Message>, out: seq<Message>, old_: Message, m: Message)
    requires Coalesces(log, out + [old_]) && old_.kind == Move && m.kind == Move
    ensures Coalesces(log + [m], out + [m])
  {
    assert Last(out + [old_]) == old_;
    assert Init(log + [m]) == log && Init(out + [m]) == out;
    assert Last(log) == old_;
  }

  /** What an edge sees: itself and the pointer position it follows. */
  datatype Sight = Sight(edge: Message, at: Option<Message>)

  function LastMove(s: seq<Message>): Option<Message> {
    if s == [] then None else if Last(s).kind == Move then Some(Last(s)) else LastMove(Init(s))
  }

  function Sights(s: seq<Message>): seq<Sight> {
    if s == [] then []
    else if Last(s).kind == Move then Sights(Init(s))
    else Sights(Init(s)) + [Sight(Last(s), LastMove(Init(s)))]
  }

  /** Coalescing loses no edge and moves none: each still follows exactly the last position enqueued before it. */
  lemma {:induction false} CoalescingKeepsSights(log: seq<Message>, out: seq<Message>)
    requires Coalesces(log, out)
    ensures Sights(out) == Sights(log) && LastMove(out) == LastMove(log)
    decreases |log|
  {
    if log == [] {
    } else {
      if Coalesces(Init(log), Init(out)) {
        CoalescingKeepsSights(Init(log), Init(out));
      } else {
        var last := Last(Init(log));
        CoalescingKeepsSights(Init(log), Init(out) + [last]);
        assert Init(Init(out) + [last]) == Init(out);
      }
    }
  }

  // ------------------------------------------------------------------- invariant

  /** Every input queued so far is older than the pending move, and so is everything ahead of it. */
  ghost predicate PointerIsLast(reliable: seq<Message>, p: Message) {
    forall i, j | 0 <= i <= j < |reliable| && reliable[j].IsInput() :: reliable[i].order < p.order
  }

  /** The inputs still queued, in the order the writer will send them. */
  function Pending(q: Queue): seq<Message> { Of(DrainOf(q), q.epoch) }

  lemma {:induction false} DrainWhole(reliable: seq<Message>, p: Message, epoch: nat)
    requires PointerIsLast(reliable, p)
    ensures Of(Drain(reliable, Some(p)), epoch) == Of(reliable + [p], epoch)
    decreases |reliable|
  {
    if PointerFirst(reliable, Some(p)) {
      assert forall j | 0 <= j < |reliable| :: !reliable[j].IsInput() by {
        assert forall j | 0 <= j < |reliable| && reliable[j].IsInput() :: reliable[0].order < p.order;
      }
      NoInputs(reliable, epoch);
      OfConcat([p], reliable, epoch);
      OfConcat(reliable, [p], epoch);
    } else {
      DrainWhole(reliable[1..], p, epoch);
      OfConcat([reliable[0]], Drain(reliable[1..], Some(p)), epoch);
      OfConcat([reliable[0]], reliable[1..] + [p], epoch);
      assert [reliable[0]] + (reliable[1..] + [p]) == reliable + [p];
    }
  }

  lemma {:induction false} NoInputs(ms: seq<Message>, epoch: nat)
    requires forall j | 0 <= j < |ms| :: !ms[j].IsInput()
    ensures Of(ms, epoch) == []
  {
    if ms == [] {
    } else {
      NoInputs(ms[..|ms| - 1], epoch);
    }
  }

  /** A newer message drains after everything already queued. */
  lemma {:induction false} DrainAppend(reliable: seq<Message>, pointer: Option<Message>, m: Message)
    requires pointer.Some? ==> pointer.value.order < m.order
    ensures Drain(reliable + [m], pointer) == Drain(reliable, pointer) + [m]
    decreases |reliable|
  {
    if pointer.None? || PointerFirst(reliable, pointer) {
    } else {
      DrainAppend(reliable[1..], pointer, m);
      assert (reliable + [m])[1..] == reliable[1..] + [m];
    }
  }

  ghost predicate QueueOk(q: Queue) {
    && (forall m <- q.reliable :: m.epoch == q.epoch && m.order <= q.nextOrder)
    && (q.pointer.Some? ==> q.pointer.value.kind == Move && q.pointer.value.epoch == q.epoch &&
                            q.pointer.value.order <= q.nextOrder)
    && (q.pointer.Some? && !q.closing ==> PointerIsLast(q.reliable, q.pointer.value))
    && |q.reliable| <= RELIABLE_LIMIT + (if q.closing then 1 else 0)
    && q.epoch >= 1
  }

  ghost predicate CoalescesSome(log: seq<Message>, sent: seq<Message>) {
    exists rest :: Coalesces(log, sent + rest)
  }

  /**
   What has been sent of an epoch, and what is still queued of it, is what was accepted in it but for
   superseded moves.
   */
  ghost predicate EpochOk(t: Trace, e: nat) {
    if e == t.queue.epoch then Coalesces(Of(t.accepted, e), Of(Messages(t.wire), e) + Pending(t.queue))
    else CoalescesSome(Of(t.accepted, e), Of(Messages(t.wire), e))
  }

  ghost predicate TraceOk(t: Trace) {
    && QueueOk(t.queue)
    && (forall m <- t.accepted :: m.epoch <= t.queue.epoch)
    && (forall m <- Messages(t.wire) :: m.epoch <= t.queue.epoch)
    && forall e: nat :: EpochOk(t, e)
  }

  /** How accepting one message changes what is pending. */
  lemma PendingMove(q: Queue, p: Message)
    requires QueueOk(q) && !q.closing && p.kind == Move && p.epoch == q.epoch && p.order == q.nextOrder + 1
    ensures var q' := q.(nextOrder := p.order, pointer := Some(p));
            && QueueOk(q')
            && Pending(q') == Of(q.reliable, q.epoch) + [p]
            && Pending(q) == Of(q.reliable, q.epoch) + if q.pointer.Some? then [q.pointer.value] else []
  {
    DrainWhole(q.reliable, p, q.epoch);
    OfLast(q.reliable, p, q.epoch);
    if q.pointer.Some? {
      DrainWhole(q.reliable, q.pointer.value, q.epoch);
      OfLast(q.reliable, q.pointer.value, q.epoch);
    }
  }

  /** An input edge is the last thing pending; another message changes no pending input. */
  lemma PendingAppend(q: Queue, m: Message)
    requires QueueOk(q) && !q.closing && m.kind != Move && !Full(q, m.kind) && m.epoch == q.epoch &&
             m.order == q.nextOrder + 1
    ensures QueueOk(Append(q.(nextOrder := m.order), m))
    ensures Pending(Append(q.(nextOrder := m.order), m)) == Pending(q) + if m.IsInput() then [m] else []
  {
    var q' := Append(q.(nextOrder := m.order), m);
    if Barrier(q, m.kind) {
      DrainWhole(q.reliable, q.pointer.value, q.epoch);
      OfLast(q.reliable + [q.pointer.value], m, q.epoch);
    } else {
      assert q.reliable + [] + [m] == q.reliable + [m];
      DrainAppend(q.reliable, q.pointer, m);
      OfLast(DrainOf(q), m, q.epoch);
    }
  }

  lemma AcceptedOk(t: Trace, q: Queue, m: Message)
    requires TraceOk(t) && m.IsInput() && m.epoch == q.epoch == t.queue.epoch && QueueOk(q)
    requires Coalesces(Of(t.accepted, q.epoch) + [m], Of(Messages(t.wire), q.epoch) + Pending(q))
    ensures TraceOk(Trace(q, t.accepted + [m], t.wire))
  {
    var t' := Trace(q, t.accepted + [m], t.wire);
    forall e: nat ensures EpochOk(t', e) {
      OfLast(t.accepted, m, e);
      assert Of(t.accepted, e) + [] == Of(t.accepted, e);
      assert EpochOk(t, e);
    }
  }

  lemma MoveOk(t: Trace, p: Message)
    requires TraceOk(t) && !t.queue.closing && p.kind == Move && p.epoch == t.queue.epoch &&
             p.order == t.queue.nextOrder + 1
    ensures TraceOk(Trace(t.queue.(nextOrder := p.order, pointer := Some(p)), t.accepted + [p], t.wire))
  {
    var q := t.queue;
    var q' := q.(nextOrder := p.order, pointer := Some(p));
    var log, sent, base := Of(t.accepted, q.epoch), Of(Messages(t.wire), q.epoch), Of(q.reliable, q.epoch);
    PendingMove(q, p);
    assert EpochOk(t, q.epoch);
    MoveCoalesces(log, sent, base, q.pointer, p);
    AcceptedOk(t, q', p);
  }

  /** A move takes the place of the pending one, or is the first pending. */
  lemma MoveCoalesces(log: seq<Message>, sent: seq<Message>, base: seq<Message>, pointer: Option<Message>, p: Message)
    requires p.kind == Move && (pointer.Some? ==> pointer.value.kind == Move)
    requires Coalesces(log, sent + (base + if pointer.Some? then [pointer.value] else []))
    ensures Coalesces(log + [p], sent + (base + [p]))
  {
    assert sent + (base + [p]) == (sent + base) + [p];
    if pointer.Some? {
      assert sent + (base + [pointer.value]) == (sent + base) + [pointer.value];
      CoalescesReplaced(log, sent + base, pointer.value, p);
    } else {
      assert sent + (base + []) == sent + base;
      CoalescesMore(log, sent + base, p);
    }
  }

  lemma SamePendingOk(t: Trace, q: Queue)
    requires TraceOk(t) && QueueOk(q) && q.epoch == t.queue.epoch && Pending(q) == Pending(t.queue)
    ensures TraceOk(t.(queue := q))
  {
    forall e: nat ensures EpochOk(t.(queue := q), e) {
      assert EpochOk(t, e);
    }
  }

  lemma AppendOk(t: Trace, m: Message)
    requires TraceOk(t) && !t.queue.closing && m.kind != Move && !Full(t.queue, m.kind)
    requires m.epoch == t.queue.epoch && m.order == t.queue.nextOrder + 1
    ensures var q' := Append(t.queue.(nextOrder := m.order), m);
            TraceOk(Trace(q', if m.IsInput() then t.accepted + [m] else t.accepted, t.wire))
  {
    var q := t.queue;
    var q' := Append(q.(nextOrder := m.order), m);
    var log, sent := Of(t.accepted, q.epoch), Of(Messages(t.wire), q.epoch);
    PendingAppend(q, m);
    if m.IsInput() {
      assert EpochOk(t, q.epoch);
      assert sent + (Pending(q) + [m]) == (sent + Pending(q)) + [m];
      CoalescesMore(log, sent + Pending(q), m);
      AcceptedOk(t, q', m);
    } else {
      assert Pending(q) + [] == Pending(q);
      SamePendingOk(t, q');
    }
  }

  /** An overflowing release starts an epoch in which it is the only input. */
  lemma OverflowOk(t: Trace, q: Queue, m: Message)
    requires TraceOk(t) && m.kind == Release && m.epoch == q.epoch == t.queue.epoch + 1 && m.order == q.nextOrder
    requires q.reliable == [m] && q.pointer.None? && !q.closing
    ensures TraceOk(Trace(q, t.accepted + [m], t.wire))
  {
    var t' := Trace(q, t.accepted + [m], t.wire);
    forall e: nat ensures EpochOk(t', e) {
      OfLast(t.accepted, m, e);
      assert Of(t.accepted, e) + [] == Of(t.accepted, e);
      assert EpochOk(t, e);
      if e == q.epoch {
        OfNone(t.accepted, e);
        OfNone(Messages(t.wire), e);
        OfLast([], m, e);
        assert [] + [m] == [m];
        assert Pending(q) == [m];
        CoalescesMore([], [], m);
      } else if e == t.queue.epoch {
        assert CoalescesSome(Of(t.accepted, e), Of(Messages(t.wire), e));
      }
    }
  }

  lemma DequeueOk(q: Queue)
    requires QueueOk(q) && !Idle(q)
    ensures QueueOk(Dequeue(q)) && Head(q).epoch == q.epoch
  {
    var q' := Dequeue(q);
    if q'.pointer.Some? && !q'.closing {
      assert forall i | 0 <= i < |q'.reliable| :: q'.reliable[i] == q.reliable[i + 1];
      assert PointerIsLast(q.reliable, q'.pointer.value);
    }
  }

  /** Writing moves the first pending input to what has been sent. */
  lemma HeadPending(q: Queue)
    requires QueueOk(q) && !Idle(q)
    ensures Pending(q) == (if Head(q).IsInput() then [Head(q)] else []) + Pending(Dequeue(q))
  {
    DequeueDrains(q);
    DequeueOk(q);
    OfHead(Head(q), DrainOf(Dequeue(q)), q.epoch);
  }

  lemma PendingWrite(q: Queue, sent: seq<Message>)
    requires QueueOk(q) && !Idle(q)
    ensures sent + Pending(q) == sent + (if Head(q).IsInput() then [Head(q)] else []) + Pending(Dequeue(q))
  {
    HeadPending(q);
    var head, rest := if Head(q).IsInput() then [Head(q)] else [], Pending(Dequeue(q));
    assert sent + (head + rest) == sent + head + rest;
  }

  lemma WriteOk(t: Trace)
    requires TraceOk(t) && !Idle(t.queue)
    ensures TraceOk(Next(t, Write))
  {
    var q, m, t' := t.queue, Head(t.queue), Next(t, Write);
    assert Messages(t'.wire) == Messages(t.wire) + [m];
    DequeueOk(q);
    forall e: nat ensures EpochOk(t', e) {
      OfLast(Messages(t.wire), m, e);
      assert EpochOk(t, e);
      PendingWrite(q, Of(Messages(t.wire), e));
      assert Of(Messages(t.wire), e) + [] == Of(Messages(t.wire), e);
    }
  }

  /** Closing appends its release behind everything queued, even past the bound. */
  lemma CloseOk(t: Trace, m: Message)
    requires TraceOk(t) && !t.queue.closing && m.kind == Release && m.epoch == t.queue.epoch &&
             m.order == t.queue.nextOrder + 1
    ensures TraceOk(Trace(t.queue.(nextOrder := m.order, closing := true, reliable := t.queue.reliable + [m]),
                          t.accepted + [m], t.wire))
  {
    var q := t.queue;
    var q' := q.(nextOrder := m.order, closing := true, reliable := q.reliable + [m]);
    var log, sent := Of(t.accepted, q.epoch), Of(Messages(t.wire), q.epoch);
    DrainAppend(q.reliable, q.pointer, m);
    OfLast(DrainOf(q), m, q.epoch);
    assert EpochOk(t, q.epoch);
    assert sent + (Pending(q) + [m]) == (sent + Pending(q)) + [m];
    CoalescesMore(log, sent + Pending(q), m);
    AcceptedOk(t, q', m);
  }

  /** The counters that a trace does not look at. */
  lemma CountersOk(t: Trace, q: Queue)
    requires TraceOk(t) && q.reliable == t.queue.reliable && q.pointer == t.queue.pointer && q.epoch == t.queue.epoch
    requires q.closing == t.queue.closing || (q.closing && !t.queue.closing)
    requires q.nextOrder >= t.queue.nextOrder
    ensures TraceOk(t.(queue := q))
  {
    SamePendingOk(t, q);
  }

  lemma EnqueueOk(t: Trace, kind: Kind, content: int, sequence: nat)
    requires TraceOk(t)
    ensures TraceOk(Accept(t, Enqueue(t.queue, kind, content, sequence)))
  {
    var q := t.queue;
    var e := Enqueue(q, kind, content, sequence);
    if q.closing || (kind != Other && !q.interactive) {
    } else if kind == Move {
      MoveOk(t, e.accepted.value);
    } else if !Full(q, kind) {
      AppendOk(t, e.accepted.value);
      CountersOk(Trace(Append(q.(nextOrder := q.nextOrder + 1), e.accepted.value),
                       if kind != Other then t.accepted + [e.accepted.value] else t.accepted, t.wire), e.queue);
    } else if kind != Release {
      CountersOk(t, e.queue);
    } else {
      OverflowOk(t, e.queue, e.accepted.value);
    }
  }

  lemma NextOk(t: Trace, a: Action)
    requires TraceOk(t)
    ensures TraceOk(Next(t, a))
  {
    match a
    case MoveTo(content) =>
      var q := t.queue.(nextPointer := t.queue.nextPointer + 1);
      CountersOk(t, q);
      EnqueueOk(t.(queue := q), Move, content, q.nextPointer);
    case Press(content) =>
      var q := t.queue.(nextReliable := t.queue.nextReliable + 1);
      CountersOk(t, q);
      EnqueueOk(t.(queue := q), Edge, content, q.nextReliable);
    case ReleaseAll => EnqueueOk(t, Release, 0, 0);
    case Control(content) => EnqueueOk(t, Other, content, 0);
    case Write => if !Idle(t.queue) { WriteOk(t); }
    case Close =>
      var e := Stop(t.queue);
      if e.accepted.Some? {
        CloseOk(t, e.accepted.value);
      } else {
        CountersOk(t, e.queue);
      }
  }

  lemma {:induction false} RunOk(interactive: bool, actions: seq<Action>)
    ensures TraceOk(Run(interactive, actions))
  {
    if actions == [] {
      forall e: nat ensures EpochOk(Run(interactive, actions), e) {
        var none: seq<Message> := [];
        assert none + none == none && Coalesces(none, none + none);
      }
    } else {
      RunOk(interactive, actions[..|actions| - 1]);
      NextOk(Run(interactive, actions[..|actions| - 1]), actions[|actions| - 1]);
    }
  }
}
