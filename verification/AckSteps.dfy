/** Taking an acknowledgement keeps the invariant, and promotes only what the screen shows. */
module AckSteps {
  import opened Options
  import opened Wire
  import H = Host
  import R = Reader
  import opened System
  import opened Invariant
  import opened ScreenSteps
  import opened HostSteps

  /** The acknowledgement in the mailbox is the one the host waits for. */
  predicate Matched(h: H.Host) {
    h.mailbox.Some? && Awaited(h, h.mailbox.value)
  }

  function NoMail(h: H.Host): H.Host { h.(mailbox := None) }

  /** The awaited acknowledgement is the last of its kind, nothing is left to do, and the screen shows its frame. */
  lemma MatchedIsShown(c: Session, v: View, todo: seq<Command>, end: R.Reader)
    requires c.Valid() && HostSide(c, v, end) && ScreenSide(c, v, todo) && Matched(v.host)
    ensures v.acks == [] && todo == [] && Shows(v, v.host.mailbox.value.frame)
    ensures v.host.analyzer.CanPromote(v.host.mailbox.value.frame)
    ensures v.host.mailbox.value.epoch == v.host.epoch
  {
    assert Acks(v)[0] == v.host.mailbox.value;
  }

  lemma SnapshotPromotedHost(c: Session, v: View, end: R.Reader)
    requires c.Valid() && HostSide(c, v, end) && Matched(v.host) && v.host.mode == H.AwaitingAck
    requires v.host.analyzer.CanPromote(v.host.snapshotFrame)
    ensures var h := H.TakeAck(c, v.host).host;
            HostSide(c, v.(host := h), if c.rawRect then AfterReset(end, h.sequence, h.epoch) else end)
  {
    var t := H.TakeAck(c, v.host);
    DropBeforeKeeps(v.host.encoder.queue, v.host.epoch + 1);
    forall u | u in t.host.encoder.queue + t.host.encoder.inFlight
      ensures u in v.host.encoder.queue + v.host.encoder.inFlight {}
  }

  lemma RectsPromotedHost(c: Session, v: View, end: R.Reader)
    requires c.Valid() && HostSide(c, v, end) && Matched(v.host) && v.host.mode == H.AwaitingRectAck
    requires v.host.analyzer.CanPromote(v.host.rectTarget)
    ensures HostSide(c, v.(host := H.TakeAck(c, v.host).host), end)
  {
  }

  lemma PromotedScreen(c: Session, v: View, h: H.Host, todo: seq<Command>)
    requires ScreenSide(c, v, []) && v.acks == [] && v.host.mailbox.Some? && h.mailbox.None?
    requires h.mode == H.ExactMode && h.exactFrame == v.host.mailbox.value.frame &&
             h.snapshotEpoch == v.host.snapshotEpoch
    requires todo == [] || todo == [Cancel(h.epoch)]
    requires Shows(v, v.host.mailbox.value.frame) && h.epoch != 0
    ensures ScreenSide(c, v.(host := h), todo)
  {
  }

  lemma IgnoredKeeps(c: Session, s: State)
    requires c.Valid() && Inv(c, s) && s.host.mailbox.Some?
    ensures Inv(c, s.(host := NoMail(s.host)))
  {
    var t := s.(host := NoMail(s.host));
    var waiting := Acks(ViewOf(s));
    assert Acks(ViewOf(t)) == waiting[..0] + waiting[1..];
    AcksDrop(ViewOf(s), ViewOf(t), s.queue + Ahead(c, s).commands, 0);
    AcksElsewhere(c, ViewOf(s), ViewOf(t), s.queue + Ahead(c, s).commands, Ahead(c, s).reader);
  }

  /** A turn that sends nothing and opens no epoch. */
  lemma QuietTurnKeeps(c: Session, s: State, ahead: R.Reading, h: H.Host)
    requires c.Valid() && InvAt(c, s, ahead) && h.epoch == s.host.epoch && VideoBound(h) >= VideoBound(s.host)
    requires HostSide(c, ViewOf(s).(host := h), ahead.reader)
    requires ScreenSide(c, ViewOf(s).(host := h), s.queue + ahead.commands)
    ensures InvAt(c, s.(host := h), ahead)
  {
    assert ViewOf(s.(host := h)) == ViewOf(s).(host := h);
    FramesLater(c, s, s.(host := h));
  }

  lemma SnapshotReset(c: Session, h: H.Host, turn: H.Turn)
    requires h.mailbox.Some? && Matched(h) && h.mode == H.AwaitingAck && c.rawRect
    requires h.epoch == h.snapshotEpoch && h.epoch != 0 && h.snapshotFrame != 0
    requires turn == H.TakeAck(c, h) && h.analyzer.CanPromote(h.snapshotFrame)
    ensures IsReset(NoMail(h), turn) && VideoBound(turn.host) == VideoBound(h)
    ensures turn.host.mode == H.ExactMode && turn.host.exactFrame == h.mailbox.value.frame
    ensures turn.host.snapshotEpoch == h.snapshotEpoch && turn.host.mailbox.None?
  {
  }

  lemma AwaitingFacts(c: Session, v: View, end: R.Reader)
    requires c.Valid() && HostSide(c, v, end) && v.host.mode == H.AwaitingAck
    ensures v.host.epoch == v.host.snapshotEpoch && v.host.epoch != 0 && v.host.snapshotFrame != 0
  {
  }

  /** Both sides of the promoted host that opens an epoch for rectangles. */
  lemma SnapshotPromotedSides(c: Session, v: View, end: R.Reader, todo: seq<Command>, turn: H.Turn)
    requires c.Valid() && HostSide(c, v, end) && ScreenSide(c, v, todo)
    requires Matched(v.host) && v.host.mode == H.AwaitingAck && c.rawRect && turn == H.TakeAck(c, v.host)
    ensures IsReset(NoMail(v.host), turn) && VideoBound(turn.host) == VideoBound(v.host)
    ensures HostSide(c, v.(host := turn.host), AfterReset(end, turn.host.sequence, turn.host.epoch))
    ensures ScreenSide(c, v.(host := turn.host), todo + [Cancel(turn.host.epoch)])
  {
    AwaitingFacts(c, v, end);
    MatchedIsShown(c, v, todo, end);
    SnapshotReset(c, v.host, turn);
    SnapshotPromotedHost(c, v, end);
    PromotedScreen(c, v, turn.host, [Cancel(turn.host.epoch)]);
    assert todo + [Cancel(turn.host.epoch)] == [Cancel(turn.host.epoch)];
  }

  /** With raw rectangles a promoted snapshot opens the epoch its rectangles will use. */
  lemma SnapshotPromotedReset(c: Session, s: State, t: State, turn: H.Turn)
    requires c.Valid() && Inv(c, s) && Matched(s.host) && s.host.mode == H.AwaitingAck && c.rawRect
    requires t == s.(host := NoMail(s.host)) && Inv(c, t) && turn == H.TakeAck(c, s.host)
    ensures Inv(c, Take(t, turn))
  {
    var ahead := Ahead(c, s);
    InvEnd(c, s);
    InvEnd(c, t);
    SnapshotPromotedSides(c, ViewOf(s), ahead.reader, s.queue + ahead.commands, turn);
    assert ViewOf(t).(host := turn.host) == ViewOf(s).(host := turn.host);
    ResetTurnKeeps(c, t, ahead, turn);
    ResetAhead(c, t, turn);
  }

  lemma SnapshotPromotedQuietly(c: Session, s: State)
    requires c.Valid() && Inv(c, s) && Matched(s.host) && s.host.mode == H.AwaitingAck && !c.rawRect
    ensures Inv(c, Take(s, H.TakeAck(c, s.host)))
  {
    var turn, ahead := H.TakeAck(c, s.host), Ahead(c, s);
    InvEnd(c, s);
    MatchedIsShown(c, ViewOf(s), s.queue + ahead.commands, ahead.reader);
    SnapshotPromotedHost(c, ViewOf(s), ahead.reader);
    PromotedScreen(c, ViewOf(s), turn.host, []);
    QuietTurnKeeps(c, s, ahead, turn.host);
    SentNone(c, s, turn);
  }

  lemma SnapshotPromotedKeeps(c: Session, s: State)
    requires c.Valid() && Inv(c, s) && Matched(s.host) && s.host.mode == H.AwaitingAck
    ensures Inv(c, Take(s, H.TakeAck(c, s.host)))
  {
    if c.rawRect {
      var t := s.(host := NoMail(s.host));
      IgnoredKeeps(c, s);
      SnapshotPromotedReset(c, s, t, H.TakeAck(c, s.host));
      assert Take(t, H.TakeAck(c, s.host)) == Take(s, H.TakeAck(c, s.host));
    } else {
      SnapshotPromotedQuietly(c, s);
    }
  }

  lemma RectsPromotedKeeps(c: Session, s: State)
    requires c.Valid() && Inv(c, s) && Matched(s.host) && s.host.mode == H.AwaitingRectAck
    ensures Inv(c, Take(s, H.TakeAck(c, s.host)))
  {
    var turn := H.TakeAck(c, s.host);
    var ahead := Ahead(c, s);
    InvEnd(c, s);
    MatchedIsShown(c, ViewOf(s), s.queue + ahead.commands, ahead.reader);
    RectsPromotedHost(c, ViewOf(s), ahead.reader);
    PromotedScreen(c, ViewOf(s), turn.host, []);
    QuietTurnKeeps(c, s, ahead, turn.host);
    SentNone(c, s, turn);
  }

  /** Without the awaited acknowledgement the host gives the exact path up or forgets the message. */
  lemma UnmatchedTurn(c: Session, h: H.Host)
    requires h.mailbox.Some? && !Matched(h)
    ensures H.TakeAck(c, h) == H.Idle(NoMail(h)) || H.TakeAck(c, h) == H.Resume(c, NoMail(h))
  {
  }

  lemma TakeAckKeeps(c: Session, s: State)
    requires c.Valid() && Inv(c, s) && s.host.mailbox.Some?
    ensures Inv(c, Take(s, H.TakeAck(c, s.host)))
  {
    if !Matched(s.host) {
      var t := s.(host := NoMail(s.host));
      IgnoredKeeps(c, s);
      UnmatchedTurn(c, s.host);
      ResumeKeeps(c, t);
      assert Take(t, H.Resume(c, NoMail(s.host))) == Take(s, H.Resume(c, NoMail(s.host)));
      SentNone(c, s, H.Idle(NoMail(s.host)));
    } else if s.host.mode == H.AwaitingAck {
      SnapshotPromotedKeeps(c, s);
    } else {
      RectsPromotedKeeps(c, s);
    }
  }
}
