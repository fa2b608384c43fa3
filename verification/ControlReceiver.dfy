/** The host's end of the reverse-control wire, and what a whole run of the queue means for it. */
module ControlReceiver {
  import opened Options
  import opened ControlQueue
  import opened ControlLog

  /** `applied` is every input handed to the operating system, in order. */
  datatype Receiver = Receiver(
    failed: bool,
    lastNumber: nat,
    epoch: nat,
    lastReliable: Option<nat>,
    lastPointer: Option<nat>,
    applied: seq<Message>)

  const BEGIN := Receiver(false, 0, 1, None, None, [])

  function Fail(r: Receiver): Receiver { r.(failed := true) }

  function Apply(r: Receiver, m: Message): Receiver { r.(applied := r.applied + [m]) }

  function OnInput(r: Receiver, m: Message): Receiver {
    match m.kind
    case Other => r
    case Release => Apply(r, m)
    case Move =>
      if r.lastPointer.Some? && m.sequence <= r.lastPointer.value then r
      else Apply(r, m).(lastPointer := Some(m.sequence))
    case Edge =>
      if r.lastReliable.Some? && m.sequence <= r.lastReliable.value then r
      else if r.lastReliable.Some? && m.sequence != r.lastReliable.value + 1 then Fail(r)
      else Apply(r, m).(lastReliable := Some(m.sequence))
  }

  /** One message off the wire; a failed receiver has left its loop. */
  function Receive(r: Receiver, w: Written): Receiver {
    if r.failed then r
    else if w.number != r.lastNumber + 1 then Fail(r)
    else
      var r1 := r.(lastNumber := w.number);
      var m := w.message;
      if m.epoch == 0 then Fail(r1)
      else if m.epoch < r.epoch then r1
      else if m.epoch == r.epoch then OnInput(r1, m)
      else if m.kind != Release then Fail(r1)
      else OnInput(r1.(epoch := m.epoch, lastReliable := None, lastPointer := None), m)
  }

  function ReadWire(ws: seq<Written>): Receiver {
    if ws == [] then BEGIN else Receive(ReadWire(Init(ws)), Last(ws))
  }

  function Inputs(ws: seq<Written>): seq<Message> {
    if ws == [] then [] else Inputs(Init(ws)) + if Last(ws).message.IsInput() then [Last(ws).message] else []
  }

  /** An edge behind a refused one has reached the wire. */
  predicate Broken(ws: seq<Written>) { exists i | 0 <= i < |ws| :: ws[i].message.skipped > 0 }

  // ------------------------------------------------------- sequences along a list

  /** The last edge and the last move numbered so far. */
  datatype Mark = Mark(reliable: Option<nat>, pointer: Option<nat>)

  function Advance(k: Mark, m: Message): Mark {
    if m.kind == Edge then k.(reliable := Some(m.sequence))
    else if m.kind == Move then k.(pointer := Some(m.sequence)) else k
  }

  /** The message continues the numbering, up to the edges refused before it. */
  predicate Fresh(k: Mark, m: Message) {
    && (m.kind == Edge && k.reliable.Some? ==> m.sequence == k.reliable.value + 1 + m.skipped)
    && (m.kind == Edge && k.reliable.None? ==> m.skipped == 0)
    && (m.kind == Move && k.pointer.Some? ==> m.sequence > k.pointer.value)
  }

  function After(k: Mark, ms: seq<Message>): Mark {
    if ms == [] then k else Advance(After(k, Init(ms)), Last(ms))
  }

  predicate AllFresh(k: Mark, ms: seq<Message>) {
    ms == [] || (AllFresh(k, Init(ms)) && Fresh(After(k, Init(ms)), Last(ms)))
  }

  lemma FreshLast(k: Mark, ms: seq<Message>, m: Message)
    ensures After(k, ms + [m]) == Advance(After(k, ms), m)
    ensures AllFresh(k, ms + [m]) <==> AllFresh(k, ms) && Fresh(After(k, ms), m)
  {
    assert Init(ms + [m]) == ms;
  }

  lemma {:induction false} FreshHead(k: Mark, m: Message, ms: seq<Message>)
    ensures After(k, [m] + ms) == After(Advance(k, m), ms)
    ensures AllFresh(k, [m] + ms) <==> Fresh(k, m) && AllFresh(Advance(k, m), ms)
  {
    if ms == [] {
      assert [m] + ms == [m] && Init([m]) == [];
    } else {
      FreshHead(k, m, Init(ms));
      assert Init([m] + ms) == [m] + Init(ms);
    }
  }

  // ------------------------------------------------------------------- invariant

  function MarkOf(r: Receiver, epoch: nat): Mark {
    if r.epoch == epoch then Mark(r.lastReliable, r.lastPointer) else Mark(None, None)
  }

  /** Where the numbering stands once everything queued has been numbered. */
  predicate EndsAt(k: Mark, q: Queue) {
    !q.closing ==>
      && (k.reliable.Some? <==> q.edges)
      && (k.reliable.Some? ==> k.reliable.value + q.refused == q.nextReliable)
      && (k.pointer.Some? ==> k.pointer.value <= q.nextPointer)
  }

  /** A new epoch the receiver has not heard of begins with its release. */
  predicate EpochAhead(r: Receiver, q: Queue) {
    && r.epoch <= q.epoch
    && (r.epoch < q.epoch ==>
          q.reliable != [] && q.reliable[0].kind == Release &&
          (q.pointer.Some? ==> q.reliable[0].order < q.pointer.value.order))
  }

  predicate SkipsAreEdges(q: Queue) {
    && (forall m <- q.reliable :: m.kind != Edge ==> m.skipped == 0)
    && (q.pointer.Some? ==> q.pointer.value.skipped == 0)
  }

  ghost predicate Following(q: Queue, r: Receiver) {
    var k := MarkOf(r, q.epoch);
    && !r.failed && EpochAhead(r, q)
    && AllFresh(k, Pending(q)) && EndsAt(After(k, Pending(q)), q)
  }

  ghost predicate HostOk(t: Trace) {
    var r := ReadWire(t.wire);
    && SkipsAreEdges(t.queue)
    && (Broken(t.wire) ==> r.failed)
    && (!Broken(t.wire) ==> Following(t.queue, r) && r.lastNumber == |t.wire| && r.applied == Inputs(t.wire))
  }

  // --------------------------------------------------------------------- writing

  lemma ReceiveFresh(r: Receiver, q: Queue, w: Written)
    requires QueueOk(q) && !Idle(q) && EpochAhead(r, q) && !r.failed && SkipsAreEdges(q)
    requires w == Written(r.lastNumber + 1, Head(q)) && Fresh(MarkOf(r, q.epoch), w.message)
    ensures w.message.skipped > 0 <==> Receive(r, w).failed
    ensures w.message.skipped == 0 ==>
              var r' := Receive(r, w);
              && MarkOf(r', q.epoch) == Advance(MarkOf(r, q.epoch), w.message) && r'.epoch == q.epoch
              && r'.lastNumber == w.number
              && r'.applied == r.applied + if w.message.IsInput() then [w.message] else []
  {
    DequeueOk(q);
    assert r.applied + [] == r.applied;
  }

  lemma WriteFollows(q: Queue, r: Receiver, w: Written)
    requires QueueOk(q) && !Idle(q) && SkipsAreEdges(q) && Following(q, r) && w == Written(r.lastNumber + 1, Head(q))
    ensures w.message.skipped > 0 <==> Receive(r, w).failed
    ensures w.message.skipped == 0 ==>
              var r' := Receive(r, w);
              && Following(Dequeue(q), r') && r'.lastNumber == w.number
              && r'.applied == r.applied + if w.message.IsInput() then [w.message] else []
    ensures SkipsAreEdges(Dequeue(q))
  {
    var k, m := MarkOf(r, q.epoch), Head(q);
    HeadPending(q);
    FreshHead(k, m, Pending(Dequeue(q)));
    assert [] + Pending(Dequeue(q)) == Pending(Dequeue(q));
    ReceiveFresh(r, q, w);
  }

  lemma BrokenMore(ws: seq<Written>, w: Written)
    ensures Broken(ws + [w]) <==> Broken(ws) || w.message.skipped > 0
  {
    if Broken(ws) {
      var i :| 0 <= i < |ws| && ws[i].message.skipped > 0;
      assert (ws + [w])[i].message.skipped > 0;
    }
    assert (ws + [w])[|ws|] == w;
  }

  lemma WriteKeeps(t: Trace)
    requires TraceOk(t) && HostOk(t) && !Idle(t.queue)
    ensures HostOk(Next(t, Write))
  {
    var w := Written(|t.wire| + 1, Head(t.queue));
    assert Init(t.wire + [w]) == t.wire;
    BrokenMore(t.wire, w);
    if !Broken(t.wire) {
      WriteFollows(t.queue, ReadWire(t.wire), w);
    }
  }

  // ------------------------------------------------------------------- enqueueing

  /** A queue change that the receiver cannot see yet. */
  lemma QuietKeeps(t: Trace, q: Queue, accepted: seq<Message>)
    requires HostOk(t) && SkipsAreEdges(q)
    requires Following(t.queue, ReadWire(t.wire)) ==> Following(q, ReadWire(t.wire))
    ensures HostOk(Trace(q, accepted, t.wire))
  {
  }

  lemma SameFollowing(q: Queue, q': Queue, r: Receiver)
    requires Following(q, r) && q'.reliable == q.reliable && q'.pointer == q.pointer && q'.epoch == q.epoch
    requires EndsAt(After(MarkOf(r, q.epoch), Pending(q)), q')
    ensures Following(q', r)
  {
  }

  lemma MoveFollows(q: Queue, q': Queue, r: Receiver, p: Message)
    requires QueueOk(q) && !q.closing && Following(q, r)
    requires p.kind == Move && p.epoch == q.epoch && p.order == q.nextOrder + 1 && p.sequence == q.nextPointer + 1
    requires q' == q.(nextOrder := p.order, nextPointer := p.sequence, pointer := Some(p))
    ensures Following(q', r)
  {
    var k, base := MarkOf(r, q.epoch), Of(q.reliable, q.epoch);
    PendingMove(q, p);
    assert Pending(q') == Pending(q.(nextOrder := p.order, pointer := Some(p)));
    FreshLast(k, base, p);
    if q.pointer.Some? {
      FreshLast(k, base, q.pointer.value);
    } else {
      assert base + [] == base;
    }
  }

  lemma AppendFollows(q: Queue, q': Queue, r: Receiver, m: Message)
    requires QueueOk(q) && !q.closing && Following(q, r) && m.kind != Move && !Full(q, m.kind)
    requires m.epoch == q.epoch && m.order == q.nextOrder + 1
    requires m.kind == Edge ==> m.sequence == q.nextReliable + 1 && m.skipped == if q.edges then q.refused else 0
    requires q' == Append(q.(nextOrder := m.order, nextReliable := if m.kind == Edge then m.sequence
                                                                   else q.nextReliable), m)
    ensures Following(q', r)
  {
    var k, pending := MarkOf(r, q.epoch), Pending(q);
    AppendPending(q, q', m);
    AppendAhead(q, q', r, m);
    if m.IsInput() {
      FreshLast(k, pending, m);
      AppendEnds(After(k, pending), q, q', m);
    } else {
      assert EndsAt(After(k, pending), q');
    }
  }

  lemma SamePending(q: Queue, q': Queue)
    requires q'.reliable == q.reliable && q'.pointer == q.pointer && q'.epoch == q.epoch
    ensures Pending(q') == Pending(q)
  {
  }

  lemma AppendPending(q: Queue, q': Queue, m: Message)
    requires QueueOk(q) && !q.closing && m.kind != Move && !Full(q, m.kind) && m.epoch == q.epoch &&
             m.order == q.nextOrder + 1
    requires q' == Append(q.(nextOrder := m.order, nextReliable := if m.kind == Edge then m.sequence
                                                                   else q.nextReliable), m)
    ensures q'.epoch == q.epoch && Pending(q') == if m.IsInput() then Pending(q) + [m] else Pending(q)
  {
    PendingAppend(q, m);
    SamePending(Append(q.(nextOrder := m.order), m), q');
    assert Pending(q) + [] == Pending(q);
  }

  lemma AppendAhead(q: Queue, q': Queue, r: Receiver, m: Message)
    requires EpochAhead(r, q) && q'.epoch == q.epoch &&
             q'.reliable == q.reliable + (if Barrier(q, m.kind) then [q.pointer.value] else []) + [m]
    requires q'.pointer == if Barrier(q, m.kind) then None else q.pointer
    ensures EpochAhead(r, q')
  {
  }

  lemma AppendEnds(k: Mark, q: Queue, q': Queue, m: Message)
    requires EndsAt(k, q) && !q.closing && !q'.closing && (m.kind == Edge || m.kind == Release) &&
             q'.nextPointer == q.nextPointer
    requires q'.edges == (q.edges || m.kind == Edge) && q'.refused == if m.kind == Edge then 0 else q.refused
    requires q'.nextReliable == if m.kind == Edge then m.sequence else q.nextReliable
    requires m.kind == Edge ==> m.sequence == q.nextReliable + 1 && m.skipped == if q.edges then q.refused else 0
    ensures Fresh(k, m) && EndsAt(Advance(k, m), q')
  {
  }

  lemma ReleaseOnly(q: Queue, m: Message)
    requires q.reliable == [m] && q.pointer.None? && m.epoch == q.epoch && m.kind == Release
    ensures Pending(q) == [m]
  {
    OfHead(m, [], q.epoch);
    assert [m] + [] == [m];
  }

  lemma OverflowFollows(q: Queue, q': Queue, r: Receiver, m: Message)
    requires Following(q, r) && m.kind == Release && m.epoch == q'.epoch == q.epoch + 1 && m.skipped == 0
    requires q'.reliable == [m] && q'.pointer.None? && !q'.edges
    ensures Following(q', r)
  {
    ReleaseOnly(q', m);
    FreshHead(Mark(None, None), m, []);
    assert [m] + [] == [m];
  }

  lemma CloseFollows(q: Queue, q': Queue, r: Receiver, m: Message)
    requires QueueOk(q) && !q.closing && Following(q, r) && m.kind == Release && m.epoch == q.epoch &&
             m.order == q.nextOrder + 1
    requires q'.reliable == q.reliable + [m] && q'.pointer == q.pointer && q'.epoch == q.epoch && q'.closing
    ensures Following(q', r)
  {
    DrainAppend(q.reliable, q.pointer, m);
    OfLast(DrainOf(q), m, q.epoch);
    FreshLast(MarkOf(r, q.epoch), Pending(q), m);
  }

  lemma MoveFollowed(q: Queue, content: int, r: Receiver)
    requires QueueOk(q) && SkipsAreEdges(q) && Following(q, r)
    ensures SkipsAreEdges(EnqueueInput(q, true, content).queue) && Following(EnqueueInput(q, true, content).queue, r)
  {
    var e := EnqueueInput(q, true, content);
    if e.accepted.Some? {
      MoveFollows(q, e.queue, r, e.accepted.value);
    } else {
      SameFollowing(q, e.queue, r);
    }
  }

  lemma PressFollowed(q: Queue, content: int, r: Receiver)
    requires QueueOk(q) && SkipsAreEdges(q) && Following(q, r) && (q.interactive || !q.edges)
    ensures Following(EnqueueInput(q, false, content).queue, r)
  {
    var e := EnqueueInput(q, false, content);
    if e.accepted.Some? {
      AppendFollows(q, e.queue, r, e.accepted.value);
    } else {
      SameFollowing(q, e.queue, r);
    }
  }

  lemma ControlFollowed(q: Queue, kind: Kind, content: int, r: Receiver)
    requires QueueOk(q) && SkipsAreEdges(q) && Following(q, r) && (kind == Other || kind == Release)
    ensures Following(Enqueue(q, kind, content, 0).queue, r)
  {
    var e := Enqueue(q, kind, content, 0);
    if e.accepted.None? {
      SameFollowing(q, e.queue, r);
    } else if Full(q, kind) {
      OverflowFollows(q, e.queue, r, e.accepted.value);
    } else {
      AppendFollows(q, e.queue, r, e.accepted.value);
    }
  }

  lemma CloseFollowed(q: Queue, r: Receiver)
    requires QueueOk(q) && SkipsAreEdges(q) && Following(q, r)
    ensures Following(Stop(q).queue, r)
  {
    var e := Stop(q);
    if e.accepted.Some? {
      CloseFollows(q, e.queue, r, e.accepted.value);
    } else {
      SameFollowing(q, e.queue, r);
    }
  }

  lemma SkipsStay(q: Queue, kind: Kind, content: int, sequence: nat)
    requires SkipsAreEdges(q)
    ensures SkipsAreEdges(Enqueue(q, kind, content, sequence).queue) && SkipsAreEdges(Stop(q).queue)
  {
  }

  lemma MoveKeeps(t: Trace, content: int)
    requires TraceOk(t) && HostOk(t)
    ensures HostOk(Next(t, MoveTo(content)))
  {
    if Following(t.queue, ReadWire(t.wire)) {
      MoveFollowed(t.queue, content, ReadWire(t.wire));
    }
    QuietKeeps(t, EnqueueInput(t.queue, true, content).queue, Next(t, MoveTo(content)).accepted);
  }

  lemma PressQuiet(q: Queue, content: int)
    requires SkipsAreEdges(q)
    ensures SkipsAreEdges(EnqueueInput(q, false, content).queue)
  {
    SkipsStay(q.(nextReliable := q.nextReliable + 1), Edge, content, q.nextReliable + 1);
  }

  lemma PressKeeps(t: Trace, content: int)
    requires TraceOk(t) && HostOk(t) && (t.queue.interactive || !t.queue.edges)
    ensures HostOk(Next(t, Press(content)))
  {
    PressQuiet(t.queue, content);
    if Following(t.queue, ReadWire(t.wire)) {
      PressFollowed(t.queue, content, ReadWire(t.wire));
    }
    QuietKeeps(t, EnqueueInput(t.queue, false, content).queue, Next(t, Press(content)).accepted);
  }

  lemma ControlKeeps(t: Trace, kind: Kind, content: int)
    requires TraceOk(t) && HostOk(t) && (kind == Other || kind == Release)
    ensures HostOk(Accept(t, Enqueue(t.queue, kind, content, 0)))
  {
    SkipsStay(t.queue, kind, content, 0);
    if Following(t.queue, ReadWire(t.wire)) {
      ControlFollowed(t.queue, kind, content, ReadWire(t.wire));
    }
    QuietKeeps(t, Enqueue(t.queue, kind, content, 0).queue, Accept(t, Enqueue(t.queue, kind, content, 0)).accepted);
  }

  lemma CloseKeeps(t: Trace)
    requires TraceOk(t) && HostOk(t)
    ensures HostOk(Next(t, Close))
  {
    SkipsStay(t.queue, Other, 0, 0);
    if Following(t.queue, ReadWire(t.wire)) {
      CloseFollowed(t.queue, ReadWire(t.wire));
    }
    QuietKeeps(t, Stop(t.queue).queue, Next(t, Close).accepted);
  }

  predicate EdgesNeedControl(q: Queue) { q.edges ==> q.interactive }

  lemma NextKeeps(t: Trace, a: Action)
    requires TraceOk(t) && HostOk(t) && EdgesNeedControl(t.queue)
    ensures HostOk(Next(t, a)) && EdgesNeedControl(Next(t, a).queue)
  {
    NextEdges(t, a);
    match a
    case MoveTo(content) => MoveKeeps(t, content);
    case Press(content) => PressKeeps(t, content);
    case ReleaseAll => ControlKeeps(t, Release, 0);
    case Control(content) => ControlKeeps(t, Other, content);
    case Write => WriteOrNot(t);
    case Close => CloseKeeps(t);
  }

  lemma WriteOrNot(t: Trace)
    requires TraceOk(t) && HostOk(t)
    ensures HostOk(Next(t, Write))
  {
    if !Idle(t.queue) {
      WriteKeeps(t);
    }
  }

  lemma NextEdges(t: Trace, a: Action)
    requires EdgesNeedControl(t.queue)
    ensures EdgesNeedControl(Next(t, a).queue)
  {
  }

  lemma {:induction false} RunHostOk(interactive: bool, actions: seq<Action>)
    ensures HostOk(Run(interactive, actions)) && EdgesNeedControl(Run(interactive, actions).queue)
  {
    if actions == [] {
    } else {
      var before := actions[..|actions| - 1];
      RunHostOk(interactive, before);
      RunOk(interactive, before);
      NextKeeps(Run(interactive, before), actions[|actions| - 1]);
    }
  }

  // -------------------------------------------------------------------- theorems

  predicate Consecutive(ws: seq<Written>) { forall i | 0 <= i < |ws| :: ws[i].number == i + 1 }

  lemma NextWire(t: Trace, a: Action)
    ensures Next(t, a).wire == t.wire ||
            (!Idle(t.queue) && Next(t, a).wire == t.wire + [Written(|t.wire| + 1, Head(t.queue))])
  {
  }

  /** The numbers on the wire are consecutive from one. */
  lemma {:induction false} WireNumbers(interactive: bool, actions: seq<Action>)
    ensures Consecutive(Run(interactive, actions).wire)
  {
    if actions == [] {
    } else {
      var before := Run(interactive, actions[..|actions| - 1]);
      WireNumbers(interactive, actions[..|actions| - 1]);
      NextWire(before, actions[|actions| - 1]);
      assert Run(interactive, actions) == Next(before, actions[|actions| - 1]);
      NumberedMore(before.wire, Run(interactive, actions).wire);
    }
  }

  lemma NumberedMore(ws: seq<Written>, more: seq<Written>)
    requires Consecutive(ws)
    requires more == ws || (|more| == |ws| + 1 && more[..|ws|] == ws && more[|ws|].number == |ws| + 1)
    ensures Consecutive(more)
  {
    assert forall i | 0 <= i < |ws| && |more| > |ws| :: more[i] == more[..|ws|][i];
  }

  /**
   The host reading the whole wire fails exactly when an edge that follows a refused one was
   written; otherwise it hands over every input on the wire, in order. Wire numbers never trip it.
   */
  lemma HostFailsExactlyWhen(interactive: bool, actions: seq<Action>)
    ensures var wire := Run(interactive, actions).wire; var r := ReadWire(wire);
            && (r.failed <==> Broken(wire))
            && (!r.failed ==> r.lastNumber == |wire| && r.applied == Inputs(wire))
  {
    RunHostOk(interactive, actions);
  }

  lemma {:induction false} NoRefusalNoSkip(interactive: bool, actions: seq<Action>)
    requires NeverRefused(interactive, actions)
    ensures NoSkip(Run(interactive, actions))
  {
    if actions == [] {
    } else {
      var before, a := actions[..|actions| - 1], actions[|actions| - 1];
      NoRefusalNoSkip(interactive, before);
      InteractiveStays(interactive, before);
      NextNoSkip(Run(interactive, before), a);
    }
  }

  /** Nothing queued or written follows a refused edge. */
  ghost predicate NoSkip(t: Trace) {
    && t.queue.refused == 0 && !Broken(t.wire)
    && (forall m <- t.queue.reliable :: m.skipped == 0) &&
    (t.queue.pointer.Some? ==> t.queue.pointer.value.skipped == 0)
  }

  lemma NextNoSkip(t: Trace, a: Action)
    requires NoSkip(t) && (a.Press? && t.queue.interactive ==> t.queue.closing || RoomForEdge(t.queue))
    ensures NoSkip(Next(t, a))
  {
    if a == Write && !Idle(t.queue) {
      BrokenMore(t.wire, Written(|t.wire| + 1, Head(t.queue)));
    }
  }

  /** Whenever an edge was pressed the deque had room for it. */
  predicate NeverRefused(interactive: bool, actions: seq<Action>) {
    actions == [] ||
    (NeverRefused(interactive, actions[..|actions| - 1]) &&
     (actions[|actions| - 1].Press? && interactive ==>
        Run(interactive, actions[..|actions| - 1]).queue.closing ||
        RoomForEdge(Run(interactive, actions[..|actions| - 1]).queue)))
  }

  /** As long as no edge is refused, the host applies everything the wire carries. */
  lemma HostAppliesEverything(interactive: bool, actions: seq<Action>)
    requires NeverRefused(interactive, actions)
    ensures var wire := Run(interactive, actions).wire; !ReadWire(wire).failed && ReadWire(wire).applied == Inputs(wire)
  {
    NoRefusalNoSkip(interactive, actions);
    HostFailsExactlyWhen(interactive, actions);
  }

  /** The deque stays within its bound until closing adds one last release. */
  lemma ReliableIsBounded(interactive: bool, actions: seq<Action>)
    ensures var q := Run(interactive, actions).queue; |q.reliable| <= RELIABLE_LIMIT + (if q.closing then 1 else 0)
  {
    RunOk(interactive, actions);
  }

  /** A refusal leaves both queues as they were, and only ever concerns a full deque and not a release. */
  lemma RefusalChangesNeither(q: Queue, kind: Kind, content: int, sequence: nat)
    ensures var e := Enqueue(q, kind, content, sequence);
            && (e.refusal <==> !q.closing && (kind == Other || q.interactive) && kind != Release && Full(q, kind))
            && (e.refusal ==>
                  && e.queue.reliable == q.reliable && e.queue.pointer == q.pointer && e.queue.epoch == q.epoch
                  && e.accepted.None?)
  {
  }

  /** A release that finds the deque full opens an epoch and has nothing older in front of it or behind it. */
  lemma OverflowReleaseStartsEpoch(interactive: bool, actions: seq<Action>)
    requires var q := Run(interactive, actions).queue; !q.closing && interactive && Full(q, Release)
    ensures var t, t' := Run(interactive, actions), Run(interactive, actions + [ReleaseAll]);
            && t'.queue.epoch == t.queue.epoch + 1 && t'.wire == t.wire
            && DrainOf(t'.queue) == t'.queue.reliable && |t'.queue.reliable| == 1
            && t'.queue.reliable[0].kind == Release && t'.queue.reliable[0].epoch == t'.queue.epoch
            && Of(t'.accepted, t'.queue.epoch) == t'.queue.reliable
  {
    var t := Run(interactive, actions);
    assert (actions + [ReleaseAll])[..|actions|] == actions;
    InteractiveStays(interactive, actions);
    var t' := Run(interactive, actions + [ReleaseAll]);
    RunOk(interactive, actions);
    OfNone(t.accepted, t'.queue.epoch);
    OfLast(t.accepted, t'.queue.reliable[0], t'.queue.epoch);
  }

  lemma {:induction false} InteractiveStays(interactive: bool, actions: seq<Action>)
    ensures Run(interactive, actions).queue.interactive == interactive
  {
    if actions == [] {
    } else {
      InteractiveStays(interactive, actions[..|actions| - 1]);
    }
  }

  /**
   What a refused edge costs: from any open queue with an accepted edge and no room, an edge that
   is refused, one write and a second edge leave an edge in the queue that will fail the host.
   */
  lemma RefusedEdgeBreaksLater(t: Trace, first: int, second: int)
    requires TraceOk(t) && !t.queue.closing && t.queue.interactive && t.queue.edges
    requires t.queue.pointer.None? && |t.queue.reliable| == RELIABLE_LIMIT
    ensures EnqueueInput(t.queue, false, first).refusal
    ensures var later := Next(Next(Next(t, Press(first)), Write), Press(second)).queue;
            later.reliable != [] && Last(later.reliable).kind == Edge && Last(later.reliable).skipped > 0
  {
    var refused := Next(t, Press(first));
    assert refused.queue.refused == t.queue.refused + 1;
    var written := Next(refused, Write);
    assert written.queue.refused == refused.queue.refused && written.queue.edges;
    assert !Full(written.queue, Edge);
  }

  /** The writer empties the queue. */
  function WriteOut(t: Trace): Trace
    decreases |t.queue.reliable| + if t.queue.pointer.Some? then 1 else 0
  {
    if Idle(t.queue) then t else WriteOut(Next(t, Write))
  }

  /** A message that will fail the host has been written, or waits. */
  ghost predicate Breaks(t: Trace) {
    Broken(t.wire) || exists i | 0 <= i < |DrainOf(t.queue)| :: DrainOf(t.queue)[i].skipped > 0
  }

  lemma WriteBreaks(t: Trace)
    requires Breaks(t) && !Idle(t.queue)
    ensures Breaks(Next(t, Write))
  {
    var m, t' := Head(t.queue), Next(t, Write);
    DequeueDrains(t.queue);
    BrokenMore(t.wire, Written(|t.wire| + 1, m));
    if !Broken(t'.wire) {
      var i :| 0 <= i < |DrainOf(t.queue)| && DrainOf(t.queue)[i].skipped > 0;
      assert DrainOf(t'.queue)[i - 1].skipped > 0;
    }
  }

  lemma {:induction false} WriteOutBreaks(t: Trace)
    requires TraceOk(t) && HostOk(t) && Breaks(t)
    ensures Broken(WriteOut(t).wire) && HostOk(WriteOut(t))
    decreases |t.queue.reliable| + if t.queue.pointer.Some? then 1 else 0
  {
    if Idle(t.queue) {
    } else {
      WriteOk(t);
      WriteKeeps(t);
      WriteBreaks(t);
      WriteOutBreaks(Next(t, Write));
    }
  }

  lemma {:induction false} DrainLast(reliable: seq<Message>, pointer: Option<Message>)
    requires reliable != [] && Last(reliable).skipped > 0
    ensures exists i | 0 <= i < |Drain(reliable, pointer)| :: Drain(reliable, pointer)[i].skipped > 0
    decreases |reliable|
  {
    if pointer.None? {
      assert Drain(reliable, pointer)[|reliable| - 1].skipped > 0;
    } else if PointerFirst(reliable, pointer) {
      assert Drain(reliable, pointer)[|reliable|].skipped > 0;
    } else if |reliable| == 1 {
      assert Drain(reliable, pointer)[0].skipped > 0;
    } else {
      DrainLast(reliable[1..], pointer);
      var rest := Drain(reliable[1..], pointer);
      var i :| 0 <= i < |rest| && rest[i].skipped > 0;
      assert Drain(reliable, pointer)[i + 1] == rest[i];
    }
  }

  /** After any run that ends with a full deque, that sequence of actions makes the host give up once all is written. */
  lemma RefusedEdgeFailsHost(actions: seq<Action>, first: int, second: int)
    requires var q := Run(true, actions).queue;
             !q.closing && q.edges && q.pointer.None? && |q.reliable| == RELIABLE_LIMIT
    ensures ReadWire(WriteOut(Next(Next(Next(Run(true, actions), Press(first)), Write), Press(second))).wire).failed
  {
    var t := Run(true, actions);
    RunOk(true, actions);
    RunHostOk(true, actions);
    InteractiveStays(true, actions);
    RefusedEdgeBreaksLater(t, first, second);
    var t1 := NextSound(t, Press(first));
    var t2 := NextSound(t1, Write);
    var t3 := NextSound(t2, Press(second));
    LastEdgeFails(t3);
  }

  lemma NextSound(t: Trace, a: Action) returns (t': Trace)
    requires TraceOk(t) && HostOk(t) && EdgesNeedControl(t.queue)
    ensures t' == Next(t, a) && TraceOk(t') && HostOk(t') && EdgesNeedControl(t'.queue)
  {
    t' := Next(t, a);
    NextOk(t, a);
    NextKeeps(t, a);
  }

  lemma LastEdgeFails(t: Trace)
    requires TraceOk(t) && HostOk(t) && t.queue.reliable != [] && Last(t.queue.reliable).skipped > 0
    requires Last(t.queue.reliable).kind == Edge
    ensures ReadWire(WriteOut(t).wire).failed
  {
    DrainLast(t.queue.reliable, t.queue.pointer);
    WriteOutBreaks(t);
  }

  function Controls(n: nat): seq<Action> { seq(n, _ => Control(0)) }

  /** Such a run exists: one edge and acknowledgements while the writer does not get a turn. */
  lemma {:induction false} FullDequeIsReachable(n: nat)
    requires n < RELIABLE_LIMIT
    ensures var q := Run(true, [Press(0)] + Controls(n)).queue;
            !q.closing && q.edges && q.pointer.None? && |q.reliable| == n + 1 && q.interactive
    decreases n
  {
    var actions := [Press(0)] + Controls(n);
    if n == 0 {
      assert actions[..|actions| - 1] == [] && actions[|actions| - 1] == Press(0);
      assert Run(true, []) == Trace(Start(true), [], []);
    } else {
      FullDequeIsReachable(n - 1);
      assert actions[..|actions| - 1] == [Press(0)] + Controls(n - 1) && actions[|actions| - 1] == Control(0);
    }
  }
}
