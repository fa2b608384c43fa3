/**
 What the producers of the reverse-control queue have asked for, told by their actions alone: the log
 that everything on the wire is compared with.
 */
module ControlLog {
  import opened Options
  import opened ControlQueue

  /** What a message says, without the numbers the queue gives it. */
  function Entry(kind: Kind, content: int, epoch: nat): Message { Message(kind, content, 0, epoch, 0, 0) }

  function Bare(m: Message): Message { Entry(m.kind, m.content, m.epoch) }

  function BareAll(ms: seq<Message>): seq<Message> { seq(|ms|, i requires 0 <= i < |ms| => Bare(ms[i])) }

  /** The room an edge needs: one place, or two when a pending move has to be frozen ahead of it. */
  predicate RoomForEdge(q: Queue) {
    |q.reliable| + (if q.pointer.Some? then 2 else 1) <= RELIABLE_LIMIT
  }

  /** The epoch a log has come to. */
  function EpochOf(log: seq<Message>): nat { if log == [] then 1 else Last(log).epoch }

  /**
   Every move, edge and release enters as it is, except an edge that finds no room. A release that finds
   none opens an epoch. Closing releases once more.
   */
  function Entered(epoch: nat, q: Queue, a: Action): seq<Message> {
    match a
    case MoveTo(content) => [Entry(Move, content, epoch)]
    case Press(content) => if RoomForEdge(q) then [Entry(Edge, content, epoch)] else []
    case ReleaseAll => [Entry(Release, 0, if RoomForEdge(q) then epoch else epoch + 1)]
    case Close => [Entry(Release, 0, epoch)]
    case _ => []
  }

  /** The inputs of a run: what was asked for while the queue was open. */
  function Log(interactive: bool, actions: seq<Action>): seq<Message> {
    if actions == [] || !interactive then []
    else
      var log := Log(interactive, Init(actions));
      if Close in Init(actions) then log
      else log + Entered(EpochOf(log), Run(interactive, Init(actions)).queue, Last(actions))
  }

  // ------------------------------------------------------------ the log and the queue

  lemma BareMore(ms: seq<Message>, m: Message)
    ensures BareAll(ms + [m]) == BareAll(ms) + [Bare(m)]
  {
  }

  /** What the queue has accepted is the log. */
  ghost predicate Logs(t: Trace, interactive: bool, log: seq<Message>, closed: bool) {
    && BareAll(t.accepted) == log && t.queue.epoch == EpochOf(log)
    && t.queue.interactive == interactive && t.queue.closing == closed
  }

  lemma NextLogs(t: Trace, a: Action, interactive: bool, log: seq<Message>, closed: bool)
    requires Logs(t, interactive, log, closed)
    ensures Logs(Next(t, a), interactive,
                 log + if interactive && !closed then Entered(EpochOf(log), t.queue, a) else [], closed || a == Close)
  {
    var t' := Next(t, a);
    if |t'.accepted| > |t.accepted| {
      BareMore(t.accepted, Last(t'.accepted));
    } else {
      assert log + [] == log;
    }
  }

  lemma {:induction false} AcceptedIsLogged(interactive: bool, actions: seq<Action>)
    ensures Logs(Run(interactive, actions), interactive, Log(interactive, actions), Close in actions)
  {
    if actions == [] {
    } else {
      var before, a := Init(actions), Last(actions);
      AcceptedIsLogged(interactive, before);
      NextLogs(Run(interactive, before), a, interactive, Log(interactive, before), Close in before);
      assert actions == before + [a];
      assert Log(interactive, before) + [] == Log(interactive, before);
    }
  }

  // --------------------------------------------------------------- coalescing the log

  lemma BareInit(ms: seq<Message>)
    requires ms != []
    ensures BareAll(ms) != [] && Init(BareAll(ms)) == BareAll(Init(ms)) && Last(BareAll(ms)) == Bare(Last(ms))
  {
  }

  lemma {:induction false} BareCoalesces(log: seq<Message>, out: seq<Message>)
    requires Coalesces(log, out)
    ensures Coalesces(BareAll(log), BareAll(out))
    decreases |log|
  {
    if log == [] {
    } else {
      BareInit(log);
      BareInit(out);
      if Coalesces(Init(log), Init(out)) {
        BareCoalesces(Init(log), Init(out));
      } else {
        BareCoalesces(Init(log), Init(out) + [Last(Init(log))]);
        BareMore(Init(out), Last(Init(log)));
        BareInit(Init(log));
      }
    }
  }

  lemma {:induction false} BareOf(ms: seq<Message>, epoch: nat)
    ensures Of(BareAll(ms), epoch) == BareAll(Of(ms, epoch))
  {
    if ms == [] {
    } else {
      BareInit(ms);
      BareOf(Init(ms), epoch);
      BareMore(Of(Init(ms), epoch), Last(ms));
      assert BareAll(Of(Init(ms), epoch)) + [] == BareAll(Of(Init(ms), epoch));
    }
  }

  lemma BareConcat(xs: seq<Message>, ys: seq<Message>)
    ensures BareAll(xs + ys) == BareAll(xs) + BareAll(ys)
  {
  }

  /** The inputs of an epoch on the wire, and those still queued of it. */
  function Sent(t: Trace, epoch: nat): seq<Message> { BareAll(Of(Messages(t.wire), epoch)) }
  function Queued(t: Trace): seq<Message> { BareAll(Pending(t.queue)) }

  /**
   In every epoch, what was written and what is still queued is what was asked for, but for superseded
   moves.
   */
  lemma WrittenIsCoalesced(interactive: bool, actions: seq<Action>, epoch: nat)
    ensures var t, log := Run(interactive, actions), Log(interactive, actions);
            if epoch == EpochOf(log) then Coalesces(Of(log, epoch), Sent(t, epoch) + Queued(t))
            else CoalescesSome(Of(log, epoch), Sent(t, epoch))
  {
    var t := Run(interactive, actions);
    RunOk(interactive, actions);
    AcceptedIsLogged(interactive, actions);
    BareOf(t.accepted, epoch);
    assert EpochOk(t, epoch);
    var accepted, sent := Of(t.accepted, epoch), Of(Messages(t.wire), epoch);
    var rest :| Coalesces(accepted, sent + rest) && (epoch == t.queue.epoch ==> rest == Pending(t.queue));
    BareCoalesces(accepted, sent + rest);
    BareConcat(sent, rest);
    assert Coalesces(BareAll(accepted), Sent(t, epoch) + BareAll(rest));
  }

  /** What has been sent is seen the same way whatever is sent after it. */
  lemma {:induction false} SightsPrefix(sent: seq<Message>, rest: seq<Message>)
    ensures Sights(sent) <= Sights(sent + rest)
    decreases |rest|
  {
    if rest == [] {
      assert sent + rest == sent;
    } else {
      SightsPrefix(sent, Init(rest));
      assert Init(sent + rest) == sent + Init(rest);
    }
  }

  /**
   In every epoch each edge is sent right after exactly the last position asked for before it: the
   edges sent and the positions they follow begin those of the log, and in the current epoch the
   queue holds the rest.
   */
  lemma EdgesSeeTheirPosition(interactive: bool, actions: seq<Action>, epoch: nat)
    ensures var t, log := Run(interactive, actions), Log(interactive, actions);
            && Sights(Sent(t, epoch)) <= Sights(Of(log, epoch))
            && (epoch == EpochOf(log) ==> Sights(Sent(t, epoch) + Queued(t)) == Sights(Of(log, epoch)))
  {
    var t, log := Run(interactive, actions), Of(Log(interactive, actions), epoch);
    WrittenIsCoalesced(interactive, actions, epoch);
    var rest :| Coalesces(log, Sent(t, epoch) + rest) &&
                (epoch == EpochOf(Log(interactive, actions)) ==> rest == Queued(t));
    CoalescingKeepsSights(log, Sent(t, epoch) + rest);
    SightsPrefix(Sent(t, epoch), rest);
  }

  // -------------------------------------------------------------- emptying the queue

  function Writes(n: nat): seq<Action> { seq(n, _ => Write) }

  lemma WritesLog(interactive: bool, actions: seq<Action>)
    ensures Log(interactive, actions + [Write]) == Log(interactive, actions)
  {
    assert Init(actions + [Write]) == actions;
    assert Log(interactive, actions) + [] == Log(interactive, actions);
  }

  /** How many messages wait. */
  function Waiting(q: Queue): nat { |q.reliable| + if q.pointer.Some? then 1 else 0 }

  lemma OneWrite(interactive: bool, actions: seq<Action>)
    requires Waiting(Run(interactive, actions).queue) > 0
    ensures Waiting(Run(interactive, actions + [Write]).queue) == Waiting(Run(interactive, actions).queue) - 1
  {
    assert Init(actions + [Write]) == actions;
  }

  /** Writing as often as messages wait empties the queue, and asks for nothing. */
  lemma {:induction false} WritesEmpty(interactive: bool, actions: seq<Action>)
    ensures var n := Waiting(Run(interactive, actions).queue);
            && Idle(Run(interactive, actions + Writes(n)).queue)
            && Log(interactive, actions + Writes(n)) == Log(interactive, actions)
    decreases Waiting(Run(interactive, actions).queue)
  {
    var n := Waiting(Run(interactive, actions).queue);
    if n == 0 {
      assert actions + Writes(0) == actions;
    } else {
      OneWrite(interactive, actions);
      WritesLog(interactive, actions);
      WritesEmpty(interactive, actions + [Write]);
      assert actions + [Write] + Writes(n - 1) == actions + Writes(n);
    }
  }

  /**
   Once the writer has emptied the queue, the wire carries the log of the epoch but for superseded moves,
   up to its very last input.
   */
  lemma EverythingIsWritten(interactive: bool, actions: seq<Action>)
    ensures var log, n := Log(interactive, actions), Waiting(Run(interactive, actions).queue);
            var sent := Sent(Run(interactive, actions + Writes(n)), EpochOf(log));
            && Coalesces(Of(log, EpochOf(log)), sent)
            && (log != [] ==> sent != [] && Last(sent) == Last(log))
  {
    var log, n := Log(interactive, actions), Waiting(Run(interactive, actions).queue);
    WritesEmpty(interactive, actions);
    WrittenIsCoalesced(interactive, actions + Writes(n), EpochOf(log));
    var t := Run(interactive, actions + Writes(n));
    assert Sent(t, EpochOf(log)) + [] == Sent(t, EpochOf(log));
    if log != [] {
      LogIsInput(interactive, actions);
      assert Last(Of(log, EpochOf(log))) == Last(log);
    }
  }

  lemma {:induction false} LogIsInput(interactive: bool, actions: seq<Action>)
    requires Log(interactive, actions) != []
    ensures Last(Log(interactive, actions)).IsInput()
  {
    if actions == [] || !interactive {
    } else {
      var before := Log(interactive, Init(actions));
      var more := Entered(EpochOf(before), Run(interactive, Init(actions)).queue, Last(actions));
      if Close in Init(actions) || more == [] {
        assert before + [] == before;
        LogIsInput(interactive, Init(actions));
      } else {
        assert Last(before + more) == Last(more);
      }
    }
  }

  /** A move asked for while the queue is open is the last input on the wire once the queue has been emptied. */
  lemma MoveIsWritten(actions: seq<Action>, content: int)
    requires Close !in actions
    ensures var asked := actions + [MoveTo(content)]; var epoch := EpochOf(Log(true, actions));
            var t := Run(true, asked + Writes(Waiting(Run(true, asked).queue)));
            Sent(t, epoch) != [] && Last(Sent(t, epoch)) == Entry(Move, content, epoch)
  {
    assert Init(actions + [MoveTo(content)]) == actions;
    EverythingIsWritten(true, actions + [MoveTo(content)]);
  }

  // ------------------------------------------------------------------ other messages

  function OtherPart(m: Message, epoch: nat): seq<Message> {
    if m.kind == Other && m.epoch == epoch then [Bare(m)] else []
  }

  /** The messages of one epoch that are no inputs. */
  function OthersOf(ms: seq<Message>, epoch: nat): seq<Message> {
    if ms == [] then []
    else OthersOf(Init(ms), epoch) + OtherPart(Last(ms), epoch)
  }

  lemma OthersLast(ms: seq<Message>, m: Message, epoch: nat)
    ensures OthersOf(ms + [m], epoch) == OthersOf(ms, epoch) + OtherPart(m, epoch)
  {
    assert Init(ms + [m]) == ms;
  }

  lemma OneShifted(sent: seq<Message>, one: seq<Message>, rest: seq<Message>)
    ensures sent + (one + rest) == sent + one + rest && (one == [] ==> sent + one == sent)
  {
  }

  lemma {:induction false} OthersConcat(xs: seq<Message>, ys: seq<Message>, epoch: nat)
    ensures OthersOf(xs + ys, epoch) == OthersOf(xs, epoch) + OthersOf(ys, epoch)
  {
    if ys == [] {
      assert xs + ys == xs && OthersOf(xs, epoch) + [] == OthersOf(xs, epoch);
    } else {
      OthersConcat(xs, Init(ys), epoch);
      assert xs + ys == xs + Init(ys) + [Last(ys)];
      OthersLast(xs + Init(ys), Last(ys), epoch);
      OneShifted(OthersOf(xs, epoch), OthersOf(Init(ys), epoch), OtherPart(Last(ys), epoch));
    }
  }

  /** The other messages of a run: every one that found a place, whether control is interactive or not. */
  function OtherLog(interactive: bool, actions: seq<Action>): seq<Message> {
    if actions == [] then []
    else
      var before, log := Init(actions), OtherLog(interactive, Init(actions));
      if Last(actions).Control? && Close !in before && |Run(interactive, before).queue.reliable| < RELIABLE_LIMIT
      then log + [Entry(Other, Last(actions).content, EpochOf(Log(interactive, before)))] else log
  }

  ghost predicate OthersIn(t: Trace, log: seq<Message>, epoch: nat) {
    var sent := OthersOf(Messages(t.wire), epoch);
    if epoch == t.queue.epoch then sent + OthersOf(t.queue.reliable, epoch) == OthersOf(log, epoch)
    else sent <= OthersOf(log, epoch)
  }

  ghost predicate OthersLogged(t: Trace, log: seq<Message>) {
    (forall m <- log :: m.epoch <= t.queue.epoch) && forall epoch: nat :: OthersIn(t, log, epoch)
  }

  lemma {:induction false} NoOthers(ms: seq<Message>, epoch: nat)
    requires forall m <- ms :: m.epoch != epoch
    ensures OthersOf(ms, epoch) == []
  {
    if ms == [] {
    } else {
      NoOthers(Init(ms), epoch);
      assert Last(ms) in ms;
    }
  }

  /** What joins the deque, and what of it is no input. */
  lemma {:induction false} OthersAppended(q: Queue, m: Message, epoch: nat)
    requires q.pointer.Some? ==> q.pointer.value.kind == Move
    ensures OthersOf(Append(q, m).reliable, epoch) ==
            OthersOf(q.reliable, epoch) + OtherPart(m, epoch)
  {
    if Barrier(q, m.kind) {
      OthersLast(q.reliable, q.pointer.value, epoch);
      OthersLast(q.reliable + [q.pointer.value], m, epoch);
      assert OthersOf(q.reliable, epoch) + [] == OthersOf(q.reliable, epoch);
    } else {
      assert q.reliable + [] == q.reliable;
      OthersLast(q.reliable, m, epoch);
    }
  }

  lemma {:induction false} OthersHead(m: Message, rest: seq<Message>, epoch: nat)
    ensures OthersOf([m] + rest, epoch) == OtherPart(m, epoch) + OthersOf(rest, epoch)
  {
    OthersConcat([m], rest, epoch);
    OthersLast([], m, epoch);
    assert [] + [m] == [m];
  }

  lemma {:induction false} HeadOthers(q: Queue, epoch: nat)
    requires QueueOk(q) && !Idle(q)
    ensures OthersOf(q.reliable, epoch) == OtherPart(Head(q), epoch) + OthersOf(Dequeue(q).reliable, epoch)
  {
    if !PointerFirst(q.reliable, q.pointer) {
      OthersHead(q.reliable[0], q.reliable[1..], epoch);
      assert [q.reliable[0]] + q.reliable[1..] == q.reliable;
    }
  }

  lemma {:induction false} WrittenIn(t: Trace, log: seq<Message>, epoch: nat)
    requires QueueOk(t.queue) && OthersIn(t, log, epoch) && !Idle(t.queue)
    ensures OthersIn(Next(t, Write), log, epoch)
  {
    var m, sent := Head(t.queue), OthersOf(Messages(t.wire), epoch);
    assert Messages(Next(t, Write).wire) == Messages(t.wire) + [m];
    OthersLast(Messages(t.wire), m, epoch);
    HeadOthers(t.queue, epoch);
    DequeueOk(t.queue);
    OneShifted(sent, OtherPart(m, epoch), OthersOf(Dequeue(t.queue).reliable, epoch));
  }

  lemma {:induction false} OthersWritten(t: Trace, log: seq<Message>)
    requires QueueOk(t.queue) && OthersLogged(t, log) && !Idle(t.queue)
    ensures OthersLogged(Next(t, Write), log)
  {
    forall epoch: nat ensures OthersIn(Next(t, Write), log, epoch) {
      assert OthersIn(t, log, epoch);
      WrittenIn(t, log, epoch);
    }
  }

  /** The other messages of the deque after one more has joined it. */
  lemma {:induction false} OthersJoined(q: Queue, reliable: seq<Message>, m: Message, epoch: nat)
    requires QueueOk(q) && (reliable == Append(q, m).reliable || reliable == q.reliable + [m])
    ensures OthersOf(reliable, epoch) == OthersOf(q.reliable, epoch) + OtherPart(m, epoch)
  {
    OthersAppended(q, m, epoch);
    OthersLast(q.reliable, m, epoch);
  }

  lemma {:induction false} QueuedIn(t: Trace, t': Trace, log: seq<Message>, m: Message, epoch: nat)
    requires OthersIn(t, log, epoch) && m.epoch == t.queue.epoch == t'.queue.epoch && t'.wire == t.wire
    requires OthersOf(t'.queue.reliable, epoch) == OthersOf(t.queue.reliable, epoch) + OtherPart(m, epoch)
    ensures OthersIn(t', log + OtherPart(m, m.epoch), epoch)
  {
    OneShifted(OthersOf(Messages(t.wire), epoch), OthersOf(t.queue.reliable, epoch), OtherPart(m, epoch));
    if m.kind == Other {
      OthersLast(log, Bare(m), epoch);
    } else {
      assert log + [] == log && OthersOf(t.queue.reliable, epoch) + [] == OthersOf(t.queue.reliable, epoch);
    }
  }

  /** A message that is queued without opening an epoch. */
  lemma {:induction false} OthersQueued(t: Trace, t': Trace, log: seq<Message>, m: Message)
    requires QueueOk(t.queue) && OthersLogged(t, log) && m.epoch == t.queue.epoch == t'.queue.epoch
    requires t'.wire == t.wire &&
             (t'.queue.reliable == Append(t.queue, m).reliable || t'.queue.reliable == t.queue.reliable + [m])
    ensures OthersLogged(t', log + OtherPart(m, m.epoch))
  {
    forall epoch: nat ensures OthersIn(t', log + OtherPart(m, m.epoch), epoch) {
      assert OthersIn(t, log, epoch);
      OthersJoined(t.queue, t'.queue.reliable, m, epoch);
      QueuedIn(t, t', log, m, epoch);
    }
  }

  /** An overflowing release throws the waiting messages away and opens an epoch without any. */
  lemma {:induction false} OthersDropped(t: Trace, t': Trace, log: seq<Message>, m: Message)
    requires TraceOk(t) && OthersLogged(t, log) && m.kind == Release && m.epoch == t'.queue.epoch == t.queue.epoch + 1
    requires t'.wire == t.wire && t'.queue.reliable == [m]
    ensures OthersLogged(t', log)
  {
    forall epoch: nat ensures OthersIn(t', log, epoch) {
      assert OthersIn(t, log, epoch);
      if epoch == t'.queue.epoch {
        NoOthers(Messages(t.wire), epoch);
        NoOthers(log, epoch);
        OthersLast([], m, epoch);
        assert [] + [m] == [m];
      }
    }
  }

  lemma {:induction false} OthersUntouched(t: Trace, t': Trace, log: seq<Message>)
    requires OthersLogged(t, log) && t'.wire == t.wire && t'.queue.reliable == t.queue.reliable
    requires t'.queue.epoch == t.queue.epoch
    ensures OthersLogged(t', log)
  {
    forall epoch: nat ensures OthersIn(t', log, epoch) {
      assert OthersIn(t, log, epoch);
    }
  }

  /** What one action adds. */
  function OtherAdded(t: Trace, a: Action, closed: bool): seq<Message> {
    if a.Control? && !closed && |t.queue.reliable| < RELIABLE_LIMIT then [Entry(Other, a.content, t.queue.epoch)]
    else []
  }

  lemma {:induction false} NextOthers(t: Trace, a: Action, log: seq<Message>)
    requires TraceOk(t) && OthersLogged(t, log)
    ensures OthersLogged(Next(t, a), log + OtherAdded(t, a, t.queue.closing))
  {
    var t', q := Next(t, a), t.queue;
    assert log + [] == log;
    if a == Write {
      if !Idle(q) {
        OthersWritten(t, log);
      }
    } else if t'.queue.epoch != q.epoch {
      OthersDropped(t, t', log, t'.queue.reliable[0]);
    } else if t'.queue.reliable == q.reliable {
      OthersUntouched(t, t', log);
    } else {
      OthersQueued(t, t', log, Last(t'.queue.reliable));
    }
  }

  lemma {:induction false} RunOthers(interactive: bool, actions: seq<Action>)
    ensures OthersLogged(Run(interactive, actions), OtherLog(interactive, actions))
  {
    if actions == [] {
      assert forall epoch: nat :: OthersIn(Run(interactive, actions), [], epoch);
    } else {
      var before := Init(actions);
      RunOthers(interactive, before);
      RunOk(interactive, before);
      AcceptedIsLogged(interactive, before);
      NextOthers(Run(interactive, before), Last(actions), OtherLog(interactive, before));
      assert OtherLog(interactive, before) + [] == OtherLog(interactive, before);
    }
  }

  /**
   Messages that are no inputs keep their order: of every epoch a beginning of those that found a place has
   been written, and of the current epoch the deque holds the rest.
   */
  lemma OthersAreWritten(interactive: bool, actions: seq<Action>, epoch: nat)
    ensures var t, log := Run(interactive, actions), OtherLog(interactive, actions);
            var sent := OthersOf(Messages(t.wire), epoch);
            && sent <= OthersOf(log, epoch)
            && (epoch == EpochOf(Log(interactive, actions)) ==>
                  sent + OthersOf(t.queue.reliable, epoch) == OthersOf(log, epoch))
  {
    RunOthers(interactive, actions);
    AcceptedIsLogged(interactive, actions);
    assert OthersIn(Run(interactive, actions), OtherLog(interactive, actions), epoch);
  }

  // ------------------------------------------------------- nothing superseded is queued

  /** No move is directly followed by another. */
  predicate Sparse(ms: seq<Message>) {
    forall i | 0 <= i < |ms| - 1 :: ms[i].kind != Move || ms[i + 1].kind != Move
  }

  predicate EndsWithEdge(ms: seq<Message>) { ms != [] ==> Last(ms).kind != Move }

  /** What waits has no superseded move in it, and what waits in the deque does not end with a move. */
  ghost predicate Compact(q: Queue) { Sparse(Pending(q)) && EndsWithEdge(Of(q.reliable, q.epoch)) }

  lemma SparseReplaced(base: seq<Message>, old_: seq<Message>, p: Message)
    requires EndsWithEdge(base) && Sparse(base + old_)
    ensures Sparse(base + [p])
  {
    forall i | 0 <= i < |base| - 1 ensures base[i].kind != Move || base[i + 1].kind != Move {
      assert (base + old_)[i] == base[i] && (base + old_)[i + 1] == base[i + 1];
    }
  }

  lemma SparseMore(ms: seq<Message>, m: Message)
    requires Sparse(ms) && m.kind != Move
    ensures Sparse(ms + [m]) && EndsWithEdge(ms + [m])
  {
  }

  lemma {:induction false} MoveCompact(q: Queue, p: Message)
    requires QueueOk(q) && Compact(q) && !q.closing && p.kind == Move && p.epoch == q.epoch &&
             p.order == q.nextOrder + 1
    ensures Compact(q.(nextOrder := p.order, pointer := Some(p)))
  {
    PendingMove(q, p);
    SparseReplaced(Of(q.reliable, q.epoch), if q.pointer.Some? then [q.pointer.value] else [], p);
  }

  lemma {:induction false} AppendCompact(q: Queue, m: Message)
    requires QueueOk(q) && Compact(q) && !q.closing && m.kind != Move && !Full(q, m.kind) && m.epoch == q.epoch &&
             m.order == q.nextOrder + 1
    ensures Compact(Append(q.(nextOrder := m.order), m))
  {
    PendingAppend(q, m);
    if m.IsInput() {
      SparseMore(Pending(q), m);
    } else {
      assert Pending(q) + [] == Pending(q);
    }
    if Barrier(q, m.kind) {
      OfLast(q.reliable + [q.pointer.value], m, q.epoch);
    } else {
      assert q.reliable + [] == q.reliable;
      OfLast(q.reliable, m, q.epoch);
    }
  }

  lemma {:induction false} CloseCompact(q: Queue, m: Message)
    requires QueueOk(q) && Compact(q) && !q.closing && m.kind == Release && m.epoch == q.epoch &&
             m.order == q.nextOrder + 1
    ensures Compact(q.(nextOrder := m.order, closing := true, reliable := q.reliable + [m]))
  {
    DrainAppend(q.reliable, q.pointer, m);
    OfLast(DrainOf(q), m, q.epoch);
    OfLast(q.reliable, m, q.epoch);
    SparseMore(Pending(q), m);
  }

  lemma {:induction false} OverflowCompact(q: Queue, m: Message)
    requires q.reliable == [m] && q.pointer.None? && m.kind == Release && m.epoch == q.epoch
    ensures Compact(q)
  {
    OfLast([], m, q.epoch);
    assert [] + [m] == [m];
  }

  lemma {:induction false} DequeueEnds(q: Queue)
    requires EndsWithEdge(Of(q.reliable, q.epoch)) && !Idle(q)
    ensures EndsWithEdge(Of(Dequeue(q).reliable, q.epoch))
  {
    if !PointerFirst(q.reliable, q.pointer) {
      OfHead(q.reliable[0], q.reliable[1..], q.epoch);
      assert [q.reliable[0]] + q.reliable[1..] == q.reliable;
    }
  }

  lemma {:induction false} DequeueCompact(q: Queue)
    requires QueueOk(q) && Compact(q) && !Idle(q)
    ensures Compact(Dequeue(q))
  {
    HeadPending(q);
    SparseTail(if Head(q).IsInput() then [Head(q)] else [], Pending(Dequeue(q)));
    DequeueEnds(q);
  }

  lemma SparseTail(head: seq<Message>, rest: seq<Message>)
    requires Sparse(head + rest)
    ensures Sparse(rest)
  {
    forall i | 0 <= i < |rest| - 1 ensures rest[i].kind != Move || rest[i + 1].kind != Move {
      assert (head + rest)[|head| + i] == rest[i] && (head + rest)[|head| + i + 1] == rest[i + 1];
    }
  }

  lemma SameCompact(q: Queue, q': Queue)
    requires Compact(q) && q'.reliable == q.reliable && q'.pointer == q.pointer && q'.epoch == q.epoch
    ensures Compact(q')
  {
  }

  lemma {:induction false} EnqueueCompact(q: Queue, kind: Kind, content: int, sequence: nat)
    requires QueueOk(q) && Compact(q)
    ensures Compact(Enqueue(q, kind, content, sequence).queue)
  {
    var e := Enqueue(q, kind, content, sequence);
    if e.accepted.None? {
      SameCompact(q, e.queue);
    } else if kind == Move {
      MoveCompact(q, e.accepted.value);
    } else if !Full(q, kind) {
      AppendCompact(q, e.accepted.value);
    } else {
      OverflowCompact(e.queue, e.accepted.value);
    }
  }

  /** Taking a number changes nothing that waits. */
  lemma {:induction false} NumberedCompact(q: Queue, q': Queue)
    requires QueueOk(q) && Compact(q) && q' == q.(nextPointer := q'.nextPointer, nextReliable := q'.nextReliable)
    ensures QueueOk(q') && Compact(q')
  {
  }

  lemma {:induction false} InputCompact(q: Queue, move: bool, content: int)
    requires QueueOk(q) && Compact(q)
    ensures Compact(EnqueueInput(q, move, content).queue)
  {
    if move {
      NumberedCompact(q, q.(nextPointer := q.nextPointer + 1));
      EnqueueCompact(q.(nextPointer := q.nextPointer + 1), Move, content, q.nextPointer + 1);
    } else {
      NumberedCompact(q, q.(nextReliable := q.nextReliable + 1));
      EnqueueCompact(q.(nextReliable := q.nextReliable + 1), Edge, content, q.nextReliable + 1);
    }
  }

  lemma {:induction false} NextCompact(t: Trace, a: Action)
    requires QueueOk(t.queue) && Compact(t.queue)
    ensures Compact(Next(t, a).queue)
  {
    var q := t.queue;
    match a
    case MoveTo(content) => InputCompact(q, true, content);
    case Press(content) => InputCompact(q, false, content);
    case ReleaseAll => EnqueueCompact(q, Release, 0, 0);
    case Control(content) => EnqueueCompact(q, Other, content, 0);
    case Write => if !Idle(q) { DequeueCompact(q); }
    case Close =>
      if Stop(q).accepted.Some? {
        CloseCompact(q, Stop(q).accepted.value);
      } else {
        SameCompact(q, Stop(q).queue);
      }
  }

  /** A superseded move never waits: what is queued has no two moves in a row. */
  lemma {:induction false} QueuedIsCompact(interactive: bool, actions: seq<Action>)
    ensures Compact(Run(interactive, actions).queue)
  {
    if actions == [] {
    } else {
      QueuedIsCompact(interactive, Init(actions));
      RunOk(interactive, Init(actions));
      NextCompact(Run(interactive, Init(actions)), Last(actions));
    }
  }
}
