/**
 The viewer's two loops as parts of a run: the compositor's choice between the command queue, the
 watchdog and the frame to show, and the reader's next message.
 */
module ViewerLoops {
  import opened Options
  import opened Wire
  import H = Host
  import R = Reader
  import C = Compositor
  import opened System
  import opened Compositors
  import opened FrameReaders
  import E = ExactSteps
  import I = Iterations
  import M = MainLoops
  import P = Progress
  import Runs

  // ---------------------------------------------------------------- the compositor

  /** What the compositor finds under the lock, and what goes wrong in its turn. */
  datatype Wakeup = Wakeup(
    queue: seq<Command>, slot: Option<VideoFrame>, revision: nat, fault: C.Fault, glitch: C.Glitch)

  /** A command goes before a frame; a frame is shown once for every revision. */
  function ScreenTurn(w: Wakeup, handled: nat, uploading: bool): seq<Event> {
    if w.queue != [] then [Compose(w.fault)] else Watching(w, uploading) + Showing(w, handled, uploading)
  }

  function Watching(w: Wakeup, uploading: bool): seq<Event> {
    if w.fault.timedOut && uploading then [Watchdog] else []
  }

  function Showing(w: Wakeup, handled: nat, uploading: bool): seq<Event> {
    if w.slot.None? || w.revision == handled || (w.fault.timedOut && uploading && w.fault.dropped) then []
    else [Show(w.glitch)]
  }

  /** What every run says about the frame to show. */
  lemma SlotFits(c: Session, past: seq<Event>)
    requires c.Valid() && Run(c, past).slot.Some?
    ensures |Run(c, past).slot.value.pixels| == c.surface.Size()
  {
    E.RunInv(c, past);
  }

  lemma WatchdogNext(c: Session, s: State)
    requires c.Valid() && !s.ended
    ensures Next(c, s, Watchdog) == s.(compositor := C.Watchdog(s.compositor, true))
  {
  }

  lemma ShowNext(c: Session, s: State, glitch: C.Glitch)
    requires c.Valid() && !s.ended && s.queue == [] && s.slot.Some?
    ensures Next(c, s, Show(glitch)) == s.(compositor := C.Show(s.compositor, c.surface, s.slot.value, glitch))
  {
  }

  lemma InTurn(past: seq<Event>, first: seq<Event>, second: seq<Event>)
    ensures past + first + second == past + (first + second)
  {
  }

  class ScreenThread {
    const session: Session
    const loop: CompositorLoop
    var handled: nat
    var ended: bool

    /** The object is the compositor of the run, and has ended when that has. */
    ghost predicate Tracks(past: seq<Event>)
      reads this, loop, loop.fb, loop.fb.Buffers(), loop.canonical
    {
      session.Valid() && loop.fb.Valid() && loop.Value() == Run(session, past).compositor &&
      ended == Run(session, past).ended
    }

    constructor (c: Session)
      requires c.Valid()
      ensures session == c && handled == 0 && Tracks([])
    {
      session, handled, ended := c, 0, false;
      loop := new CompositorLoop();
    }

    /** The watchdog; `abandoned` when its recovery request cannot be queued. */
    method Watch(fault: C.Fault, ghost past: seq<Event>) returns (abandoned: bool, ghost after: seq<Event>)
      requires Tracks(past) && !ended
      modifies loop`uploading, loop.fb`snapshotActive, loop.fb`received, loop.fb`total
      ensures Tracks(after) && loop.fb.Buffers() == old(loop.fb.Buffers())
      ensures after == past + if fault.timedOut && old(loop.uploading) then [Watchdog] else []
      ensures var s, t := Run(session, past), Run(session, after);
              t.queue == s.queue && t.slot == s.slot && t.acks == s.acks
      ensures abandoned <==> fault.timedOut && old(loop.uploading) && fault.dropped
      ensures loop.Value() == C.Watchdog(old(loop.Value()), fault.timedOut)
    {
      if !fault.timedOut || !loop.uploading {
        assert past + [] == past;
        return false, past;
      }
      I.Step(session, past, Watchdog);
      WatchdogNext(session, Run(session, past));
      var expired := loop.Watchdog(true);
      abandoned, after := fault.dropped, past + [Watchdog];
    }

    /** The first command that waits; what its handler throws ends the thread. */
    method ExecuteFirst(queue: seq<Command>, fault: C.Fault, ghost past: seq<Event>) returns (ack: Option<Ack>)
      requires Tracks(past) && !ended && queue != [] && Run(session, past).queue == queue
      modifies this`ended, loop, loop.fb, loop.fb.Buffers(), loop.canonical
      ensures fresh(loop.fb.Buffers() - old(loop.fb.Buffers())) && Tracks(past + [Compose(fault)])
      ensures var s, t := Run(session, past), Run(session, past + [Compose(fault)]);
              t.queue == queue[1..] && t.acks == s.acks + if ack.Some? then [ack.value] else []
      ensures C.Executed(loop.Value(), ack) == C.Execute(old(loop.Value()), queue[0], fault)
    {
      I.Step(session, past, Compose(fault));
      P.ComposeNext(session, Run(session, past), fault);
      ack, ended := loop.ExecuteCommand(queue[0], fault);
    }

    /** The frame in the slot, when there is one that has not been handled yet. */
    method ShowSlot(slot: Option<VideoFrame>, revision: nat, glitch: C.Glitch, ghost past: seq<Event>)
      returns (ghost after: seq<Event>)
      requires Tracks(past) && !ended && Run(session, past).queue == [] && Run(session, past).slot == slot
      modifies this`handled, loop, loop.fb, loop.fb.Buffers(), loop.canonical
      ensures fresh(loop.fb.Buffers() - old(loop.fb.Buffers())) && Tracks(after) && handled == revision
      ensures after == past + if slot.None? || revision == old(handled) then [] else [Show(glitch)]
      ensures Run(session, after).queue == [] && Run(session, after).acks == Run(session, past).acks
      ensures loop.Value() == if slot.None? || revision == old(handled) then old(loop.Value())
                              else C.Show(old(loop.Value()), session.surface, slot.value, glitch)
    {
      after := past;
      assert past + [] == past;
      if slot.Some? && revision != handled {
        SlotFits(session, past);
        I.Step(session, past, Show(glitch));
        ShowNext(session, Run(session, past), glitch);
        loop.ShowFrame(session.surface, slot.value, glitch);
        after := past + [Show(glitch)];
      }
      handled := revision;
    }

    /** A turn that finds no command. */
    method Idle(w: Wakeup, ghost past: seq<Event>) returns (ghost after: seq<Event>)
      requires Tracks(past) && !ended && w.queue == []
      requires Run(session, past).queue == [] && Run(session, past).slot == w.slot
      modifies this`handled, loop, loop.fb, loop.fb.Buffers(), loop.canonical
      ensures fresh(loop.fb.Buffers() - old(loop.fb.Buffers())) && Tracks(after)
      ensures after == past + Watching(w, old(loop.uploading)) + Showing(w, old(handled), old(loop.uploading))
      ensures Run(session, after).queue == [] && Run(session, after).acks == Run(session, past).acks
      ensures handled == if w.fault.timedOut && old(loop.uploading) && w.fault.dropped then old(handled) else w.revision
      ensures var watched := C.Watchdog(old(loop.Value()), w.fault.timedOut);
              var abandoned := w.fault.timedOut && old(loop.uploading) && w.fault.dropped;
              loop.Value() == if w.slot.Some? && w.revision != old(handled) && !abandoned
                              then C.Show(watched, session.surface, w.slot.value, w.glitch) else watched
    {
      var abandoned;
      abandoned, after := Watch(w.fault, past);
      assert after + [] == after;
      if abandoned { return; }
      after := ShowSlot(w.slot, w.revision, w.glitch, after);
    }

    /** One turn of the compositor thread is a run of at most two events. */
    method Turn(w: Wakeup, ghost past: seq<Event>)
      returns (rest: seq<Command>, ack: Option<Ack>, ghost after: seq<Event>)
      requires Tracks(past) && !ended && Run(session, past).queue == w.queue && Run(session, past).slot == w.slot
      modifies this`handled, this`ended, loop, loop.fb, loop.fb.Buffers(), loop.canonical
      ensures fresh(loop.fb.Buffers() - old(loop.fb.Buffers())) && Tracks(after)
      ensures after == past + ScreenTurn(w, old(handled), old(loop.uploading))
      ensures w.queue != [] ==>
                var done := C.Execute(old(loop.Value()), w.queue[0], w.fault);
                loop.Value() == done.compositor && ack == done.ack && rest == w.queue[1..]
      ensures w.queue == [] ==>
                && rest == [] && ack.None?
                && var watched := C.Watchdog(old(loop.Value()), w.fault.timedOut);
                   var abandoned := w.fault.timedOut && old(loop.uploading) && w.fault.dropped;
                   loop.Value() == if w.slot.Some? && w.revision != old(handled) && !abandoned
                                   then C.Show(watched, session.surface, w.slot.value, w.glitch) else watched
      ensures var s, t := Run(session, past), Run(session, after);
              t.queue == rest && t.acks == s.acks + if ack.Some? then [ack.value] else []
      ensures handled == if w.queue != [] || (w.fault.timedOut && old(loop.uploading) && w.fault.dropped)
                         then old(handled) else w.revision
    {
      if w.queue != [] {
        ack := ExecuteFirst(w.queue, w.fault, past);
        rest, after := w.queue[1..], past + [Compose(w.fault)];
      } else {
        InTurn(past, Watching(w, loop.uploading), Showing(w, handled, loop.uploading));
        after := Idle(w, past);
        rest, ack := [], None;
      }
    }
  }

  // -------------------------------------------------------------------- the reader

  /** What a message read does to the rest of the viewer. */
  ghost predicate Delivered(s: State, t: State, commands: seq<Command>, effect: R.FrameEffect) {
    && t.queue == s.queue + commands && t.compositor == s.compositor && t.acks == s.acks && t.host == s.host
    && match effect
       case Nothing => t.decoder == s.decoder && t.slot == s.slot
       case Flush(e) => t.decoder == [] && t.slot == if s.slot.Some? && s.slot.value.epoch < e then None else s.slot
       case Decode(f) => t.decoder == s.decoder + [f] && t.slot == s.slot
  }

  /** A reader that stops flushes, but hands nothing to the decoder any more. */
  function Reached(effect: R.FrameEffect, stopped: bool): R.FrameEffect {
    if stopped && effect.Decode? then R.Nothing else effect
  }

  lemma ReadNext(c: Session, s: State, out: R.Outcome)
    requires c.Valid() && !s.stalled && s.channel != [] && out == R.Receive(c, s.reader, s.channel[0])
    ensures var t := Next(c, s, Read);
            && (t.stalled <==> |out.commands| > Room(s))
            && (!t.stalled ==> t.channel == s.channel[1..] && t.reader == out.reader &&
                               Delivered(s, t, out.commands, out.effect))
            && (t.stalled ==> t.channel == s.channel && t.reader == s.reader &&
                              Delivered(s, t, out.commands[..Room(s)], Reached(out.effect, true)))
  {
  }

  class ReaderThread {
    const reader: FrameReader

    /** The object is the reader of the run, which has not been stopped by a full command queue. */
    ghost predicate Tracks(past: seq<Event>)
      reads reader, reader.guard
    {
      reader.Valid() && reader.session.Valid() && reader.Value() == Run(reader.session, past).reader &&
      !Run(reader.session, past).stalled
    }

    constructor (c: Session)
      requires c.Valid()
      ensures reader.session == c && Tracks([])
    {
      reader := new FrameReader(c);
    }

    /**
     The next message of the channel is one event of the run: its commands go to the queue, up to the
     first that finds no room, which stops the reader.
     */
    method Turn(m: Message, room: nat, ghost past: seq<Event>)
      returns (effect: R.FrameEffect, handed: seq<Command>, stopped: bool)
      requires Tracks(past) && room == Room(Run(reader.session, past))
      requires Run(reader.session, past).channel != [] && Run(reader.session, past).channel[0] == m
      modifies reader, reader.guard
      ensures reader.guard == old(reader.guard) || fresh(reader.guard)
      ensures old(reader.queued) <= reader.queued
      ensures var commands := reader.queued[|old(reader.queued)|..];
              (stopped <==> |commands| > room) && handed == if stopped then commands[..room] else commands
      ensures var s, t := Run(reader.session, past), Run(reader.session, past + [Read]);
              && t.stalled == stopped && Delivered(s, t, handed, Reached(effect, stopped))
              && t.channel == if stopped then s.channel else s.channel[1..]
      ensures !stopped ==> Tracks(past + [Read])
    {
      ghost var out := R.Receive(reader.session, reader.Value(), m);
      I.Step(reader.session, past, Read);
      ReadNext(reader.session, Run(reader.session, past), out);
      var before := |reader.queued|;
      effect := reader.ReceiveMessage(m);
      handed := reader.queued[before..];
      assert handed == out.commands;
      stopped := |handed| > room;
      if stopped {
        handed := handed[..room];
      }
    }
  }

  // ---------------------------------------------------------- what runs say about the screen

  /** While the host's loop is exact, the texture on the viewer's screen is its canonical frame. */
  lemma ScreenIsExact(host: M.MainLoop, screen: ScreenThread, past: seq<Event>)
    requires host.Tracks(past) && screen.Tracks(past) && host.host.session == screen.session
    requires host.host.mode == H.ExactMode
    ensures host.host.analyzer.canonical.Some? && screen.loop.fb.initialized
    ensures screen.loop.fb.committed[..] == host.host.analyzer.canonical.value.pixels
    ensures screen.loop.canonical.committedFrame == host.host.exactFrame
  {
    Runs.ExactMeansShown(screen.session, past);
  }
}
