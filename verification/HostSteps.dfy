/** The host's turns keep the invariant. */
module HostSteps {
  import opened Options
  import opened Wire
  import H = Host
  import R = Reader
  import opened System
  import opened Invariant
  import opened Steps

  // ------------------------------------------------------------ bookkeeping

  lemma {:induction false} DropBeforeKeeps(us: seq<H.Unit>, epoch: nat)
    ensures forall u <- H.DropBefore(us, epoch) :: u in us
  {
    if us == [] || us[0].epoch >= epoch {
    } else {
      DropBeforeKeeps(us[1..], epoch);
    }
  }

  lemma {:induction false} NoUnitYet(us: seq<H.Unit>, epoch: nat, armed: bool)
    requires forall u <- us :: u.epoch != epoch
    ensures FirstIsKey(us, epoch, armed) == armed
  {
    if us == [] {
    } else {
      NoUnitYet(us[1..], epoch, armed);
    }
  }

  lemma {:induction false} FirstIsKeyAppend(us: seq<H.Unit>, u: H.Unit, epoch: nat, armed: bool)
    requires FirstIsKey(us, epoch, armed) && (armed ==> u.key) && u.epoch == epoch
    ensures FirstIsKey(us + [u], epoch, false)
  {
    if us == [] {
      assert us + [u] == [u];
    } else {
      assert (us + [u])[1..] == us[1..] + [u];
      if us[0].epoch != epoch {
        FirstIsKeyAppend(us[1..], u, epoch, armed);
      }
    }
  }

  /** Dropping a unit of another epoch changes nothing. */
  lemma {:induction false} FirstIsKeySkip(us: seq<H.Unit>, u: H.Unit, vs: seq<H.Unit>, epoch: nat, armed: bool)
    requires u.epoch != epoch
    ensures FirstIsKey(us + [u] + vs, epoch, armed) == FirstIsKey(us + vs, epoch, armed)
  {
    if us == [] {
      assert us + [u] + vs == [u] + vs && us + vs == vs;
    } else {
      assert (us + [u] + vs)[1..] == us[1..] + [u] + vs;
      assert (us + vs)[1..] == us[1..] + vs;
      FirstIsKeySkip(us[1..], u, vs, epoch, armed);
    }
  }

  lemma VideoBoundBelow(c: Session, v: View)
    requires HostOk(c, v)
    ensures VideoBound(v.host) <= v.host.epoch
  {
  }

  // ------------------------------------------------------ one message at a time

  lemma ResetRead(c: Session, r: R.Reader, m: Message)
    requires m.body.StateReset? && r.status == R.Running && m.sequence == r.lastSequence + 1
    requires m.epoch > r.pixelEpoch && r.poisoned.None?
    ensures R.Receive(c, r, m) ==
            R.Outcome(r.(lastSequence := m.sequence, snapshot := None, rects := None, resetEpoch := Some(m.epoch)),
                      [Cancel(m.epoch)], R.Flush(m.epoch))
  {
  }

  /** The wire after a turn that sends one message. */
  lemma SentOne(c: Session, s: State, ahead: R.Reading, t: H.Turn, out: R.Outcome)
    requires ahead == Ahead(c, s) && |t.sent| == 1 && out == R.Receive(c, ahead.reader, t.sent[0])
    ensures Ahead(c, Take(s, t)) == R.Reading(out.reader, ahead.commands + out.commands)
  {
    assert t.sent == [t.sent[0]];
    R.ReadAllConcat(c, s.reader, s.channel, t.sent);
    R.ReadAllOne(c, ahead.reader, t.sent[0]);
  }

  lemma SentNone(c: Session, s: State, t: H.Turn)
    requires t.sent == []
    ensures Take(s, t) == s.(host := t.host) && Ahead(c, Take(s, t)) == Ahead(c, s)
  {
    assert s.channel + t.sent == s.channel;
  }

  // ------------------------------------------------------------------- resume

  /** The reader's view of a reset that opens a new epoch. */
  function AfterReset(r: R.Reader, sequence: nat, epoch: nat): R.Reader {
    r.(lastSequence := sequence, snapshot := None, rects := None, resetEpoch := Some(epoch))
  }

  lemma ResumeHost(c: Session, v: View, end: R.Reader)
    requires c.Valid() && HostSide(c, v, end)
    ensures var h := H.Resume(c, v.host).host;
            HostSide(c, v.(host := h), AfterReset(end, h.sequence, h.epoch))
  {
    var t := H.Resume(c, v.host);
    VideoBoundBelow(c, v);
    DropBeforeKeeps(v.host.encoder.queue, v.host.epoch + 1);
    var us := t.host.encoder.queue + t.host.encoder.inFlight;
    forall u | u in us ensures u in v.host.encoder.queue + v.host.encoder.inFlight {}
    NoUnitYet(us, t.host.epoch, true);
  }

  lemma OlderAcks(v: View, t: View, todo: seq<Command>, todo': seq<Command>)
    requires AcksOk(v, todo) && Acks(t) == Acks(v) && t.host.epoch > v.host.epoch
    ensures AcksOk(t, todo')
  {
  }

  /** A reset that leaves the exact path makes everything still to be done obsolete. */
  lemma ResetScreen(c: Session, v: View, h: H.Host, todo: seq<Command>)
    requires ScreenSide(c, v, todo) && h.epoch > v.host.epoch && h.mailbox == v.host.mailbox
    requires h.mode == H.VideoMode || h.mode == H.Quiescing
    ensures ScreenSide(c, v.(host := h), todo + [Cancel(h.epoch)])
  {
    OlderAcks(v, v.(host := h), todo, todo + [Cancel(h.epoch)]);
  }

  lemma FramesLater(c: Session, s: State, t: State)
    requires FramesOk(c, s) && t.decoder == s.decoder && t.slot == s.slot && t.wireEpoch == s.wireEpoch
    requires VideoBound(t.host) >= VideoBound(s.host)
    requires forall m <- t.channel :: m in s.channel || !m.body.AccessUnit?
    ensures FramesOk(c, t)
  {
  }

  /** A turn that sends one STATE_RESET of a later epoch. */
  predicate IsReset(h: H.Host, turn: H.Turn) {
    && |turn.sent| == 1 && turn.sent[0].body.StateReset? && turn.sent[0].epoch == turn.host.epoch
    && turn.host.epoch > h.epoch && turn.sent[0].sequence == turn.host.sequence == h.sequence + 1
    && turn.host.mailbox == h.mailbox
  }

  function ResetReading(ahead: R.Reading, h: H.Host): R.Reading {
    R.Reading(AfterReset(ahead.reader, h.sequence, h.epoch), ahead.commands + [Cancel(h.epoch)])
  }

  lemma ResetAhead(c: Session, s: State, turn: H.Turn)
    requires IsReset(s.host, turn) && c.Valid() && EndOk(c, s.host, Ahead(c, s).reader)
    ensures Ahead(c, Take(s, turn)) == ResetReading(Ahead(c, s), turn.host)
  {
    var end := Ahead(c, s).reader;
    ResetRead(c, end, turn.sent[0]);
    SentOne(c, s, Ahead(c, s), turn, R.Receive(c, end, turn.sent[0]));
  }

  lemma ResetTurnKeeps(c: Session, s: State, ahead: R.Reading, turn: H.Turn)
    requires c.Valid() && InvAt(c, s, ahead) && IsReset(s.host, turn)
    requires HostSide(c, ViewOf(s).(host := turn.host), AfterReset(ahead.reader, turn.host.sequence, turn.host.epoch))
    requires ScreenSide(c, ViewOf(s).(host := turn.host), s.queue + ahead.commands + [Cancel(turn.host.epoch)])
    requires VideoBound(turn.host) >= VideoBound(s.host)
    ensures InvAt(c, Take(s, turn), ResetReading(ahead, turn.host))
  {
    var t := Take(s, turn);
    assert ViewOf(t) == ViewOf(s).(host := turn.host);
    assert t.queue + (ahead.commands + [Cancel(turn.host.epoch)]) == s.queue + ahead.commands +
           [Cancel(turn.host.epoch)];
    assert turn.sent == [turn.sent[0]];
    WireLinkedAppend(s.wireEpoch, s.channel, s.host.epoch, turn.sent[0]);
    FramesLater(c, s, t);
  }

  lemma InvEnd(c: Session, s: State)
    requires c.Valid() && Inv(c, s)
    ensures EndOk(c, s.host, Ahead(c, s).reader) && HostSide(c, ViewOf(s), Ahead(c, s).reader)
    ensures ScreenSide(c, ViewOf(s), s.queue + Ahead(c, s).commands)
  {
  }

  lemma ResumeKeeps(c: Session, s: State)
    requires c.Valid() && Inv(c, s)
    ensures Inv(c, Take(s, H.Resume(c, s.host)))
  {
    var turn := H.Resume(c, s.host);
    InvEnd(c, s);
    ResumeHost(c, ViewOf(s), Ahead(c, s).reader);
    ResetScreen(c, ViewOf(s), turn.host, s.queue + Ahead(c, s).commands);
    VideoBoundBelow(c, ViewOf(s));
    ResetTurnKeeps(c, s, Ahead(c, s), turn);
    ResetAhead(c, s, turn);
  }

  lemma EnterQuiescingHost(c: Session, v: View, end: R.Reader)
    requires c.Valid() && HostSide(c, v, end) && !v.host.halted
    requires v.host.mode == H.VideoMode && v.host.analyzer.latest.Some?
    ensures var h := H.EnterQuiescing(c, v.host).host;
            HostSide(c, v.(host := h), AfterReset(end, h.sequence, h.epoch))
  {
    var t := H.EnterQuiescing(c, v.host);
    DropBeforeKeeps(v.host.encoder.queue, v.host.epoch + 1);
    var us := t.host.encoder.queue + t.host.encoder.inFlight;
    forall u | u in us ensures u in v.host.encoder.queue + v.host.encoder.inFlight {}
  }

  lemma EnterQuiescingKeeps(c: Session, s: State)
    requires c.Valid() && Inv(c, s) && Enabled(c, s, EnterQuiescing)
    ensures Inv(c, Take(s, H.EnterQuiescing(c, s.host)))
  {
    var turn := H.EnterQuiescing(c, s.host);
    InvEnd(c, s);
    EnterQuiescingHost(c, ViewOf(s), Ahead(c, s).reader);
    ResetScreen(c, ViewOf(s), turn.host, s.queue + Ahead(c, s).commands);
    ResetTurnKeeps(c, s, Ahead(c, s), turn);
    ResetAhead(c, s, turn);
  }
}
