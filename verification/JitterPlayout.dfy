/** What the jitter buffer takes and plays, told by what it has played and holds. */
module JitterPlayout {
  import opened Options
  import opened AudioPackets
  import opened BigEndian
  import opened JitterBuffer

  lemma OneMoreAction(target: nat, maximum: nat, actions: seq<Action>, a: Action)
    ensures Run(target, maximum, actions + [a]) == Next(Run(target, maximum, actions), a)
  {
    assert (actions + [a])[..|actions|] == actions;
  }

  function Last(played: seq<Playout>): Option<Playout> {
    if played == [] then None else Some(played[|played| - 1])
  }

  /** The number to be played next, once anything has been played since the last reset. */
  function Due(played: seq<Playout>): Option<nat> {
    if played == [] then None else Some((played[|played| - 1].sequence + 1) % TWO_TO_THE_64)
  }

  lemma DueIsExpected(target: nat, maximum: nat, actions: seq<Action>)
    requires GoodBounds(target, maximum)
    ensures var t := Run(target, maximum, actions); t.buffer.expected == Due(t.played)
  {
    RunOk(target, maximum, actions);
    var played := Run(target, maximum, actions).played;
    if played != [] {
      NumbersFit(target, maximum, actions, |played| - 1);
      AfterIsSum(played[|played| - 1].sequence);
    }
  }

  /**
   A valid packet is taken exactly when its number is still to be played, no packet of that number is held
   and fewer than the maximum are; nothing else is ever put into the buffer.
   */
  lemma TakenExactlyWhen(target: nat, maximum: nat, actions: seq<Action>, p: Packet)
    requires GoodBounds(target, maximum) && Valid(p)
    ensures var t, t' := Run(target, maximum, actions), Run(target, maximum, actions + [Arrive(p)]);
            var taken := && (Due(t.played).Some? ==> p.sequence >= Due(t.played).value)
                         && p.sequence !in t.buffer.packets && |t.buffer.packets| < maximum;
            && t'.played == t.played
            && t'.taken == (if taken then t.taken + {p} else t.taken)
            && t'.buffer.packets == (if taken then t.buffer.packets[p.sequence := p] else t.buffer.packets)
  {
    OneMoreAction(target, maximum, actions, Arrive(p));
    DueIsExpected(target, maximum, actions);
    BoundsStay(target, maximum, actions);
  }

  /** One more in exactly one counter, or in none. */
  predicate Rises(before: nat, after: nat, now: bool) { after == before + if now then 1 else 0 }

  /**
   Every valid packet that arrives is counted once: late when its number has had its turn, else as a duplicate
   when one of its number is held, else as overflowing when the buffer is full, else as accepted.
   */
  lemma CountedExactlyWhen(target: nat, maximum: nat, actions: seq<Action>, p: Packet)
    requires GoodBounds(target, maximum) && Valid(p)
    ensures var t, t' := Run(target, maximum, actions), Run(target, maximum, actions + [Arrive(p)]);
            var c, c' := t.buffer.counters, t'.buffer.counters;
            var late := Due(t.played).Some? && p.sequence < Due(t.played).value;
            var held, full := p.sequence in t.buffer.packets, |t.buffer.packets| >= maximum;
            && Rises(c.late, c'.late, late)
            && Rises(c.duplicates, c'.duplicates, !late && held)
            && Rises(c.overflow, c'.overflow, !late && !held && full)
            && Rises(c.accepted, c'.accepted, !late && !held && !full)
            && c'.concealed == c.concealed
  {
    OneMoreAction(target, maximum, actions, Arrive(p));
    DueIsExpected(target, maximum, actions);
    BoundsStay(target, maximum, actions);
  }

  function Arrivals(actions: seq<Action>): nat {
    if actions == [] then 0
    else
      var n := |actions| - 1;
      Arrivals(actions[..n]) + if actions[n].Arrive? && Valid(actions[n].packet) then 1 else 0
  }

  function Total(c: Counters): nat { c.accepted + c.late + c.duplicates + c.overflow }

  lemma ArrivalCounts(t: Trace, a: Action)
    ensures Total(Next(t, a).buffer.counters) ==
            Total(t.buffer.counters) + if a.Arrive? && Valid(a.packet) then 1 else 0
  {
  }

  /** The counters add up to the valid packets that have arrived, in every run and across resets. */
  lemma {:induction false} EveryArrivalIsCounted(target: nat, maximum: nat, actions: seq<Action>)
    ensures Total(Run(target, maximum, actions).buffer.counters) == Arrivals(actions)
  {
    if actions != [] {
      var n := |actions| - 1;
      EveryArrivalIsCounted(target, maximum, actions[..n]);
      ArrivalCounts(Run(target, maximum, actions[..n]), actions[n]);
    }
  }

  /** Concealments are counted one by one. */
  lemma ConcealedExactlyWhen(target: nat, maximum: nat, actions: seq<Action>, a: Action)
    requires GoodBounds(target, maximum)
    ensures var t, t' := Run(target, maximum, actions), Run(target, maximum, actions + [a]);
            Rises(t.buffer.counters.concealed, t'.buffer.counters.concealed,
                  |t'.played| > |t.played| && Last(t'.played).value.packet.None?)
  {
    OneMoreAction(target, maximum, actions, a);
  }

  /** Before the start: the packet with the smallest number, once enough are held. */
  ghost predicate Starts(t: Trace, t': Trace, k: nat) {
    var held := t.buffer.packets;
    if |held| < t.buffer.target then t'.played == [] && t'.buffer.packets == held
    else Smallest(held, k) ==> t'.played == [Playout(k, Some(held[k]))] && t'.buffer.packets == held - {k}
  }

  /** Afterwards: the number that is due, with its packet when it is held, and without when it cannot be waited for. */
  predicate GoesOn(t: Trace, t': Trace, e: nat, late: bool) {
    var held := t.buffer.packets;
    if e in held then t'.played == t.played + [Playout(e, Some(held[e]))] && t'.buffer.packets == held - {e}
    else
      && t'.played == (if late || |held| > 0 then t.played + [Playout(e, None)] else t.played)
      && t'.buffer.packets == held
  }

  lemma PlayStarts(t: Trace, late: bool, k: nat)
    requires Ok(t) && t.played == []
    ensures Starts(t, Next(t, Play(late)), k)
  {
    if |t.buffer.packets| >= t.buffer.target {
      assert Smallest(t.buffer.packets, First(t.buffer.packets));
      assert Smallest(t.buffer.packets, k) ==> First(t.buffer.packets) == k;
    }
  }

  lemma PlayGoesOn(t: Trace, late: bool, e: nat)
    requires Ok(t) && t.buffer.expected == Some(e)
    ensures GoesOn(t, Next(t, Play(late)), e, late)
  {
  }

  /**
   Nothing is played until the target number of packets is held; then the one with the smallest number is.
   Afterwards the number that is due is played with its packet when it is held, and concealed when its
   deadline has passed or a later packet is there.
   */
  lemma PlaysExactlyWhen(target: nat, maximum: nat, actions: seq<Action>, late: bool, k: nat)
    requires GoodBounds(target, maximum)
    ensures var t, t' := Run(target, maximum, actions), Run(target, maximum, actions + [Play(late)]);
            && t.buffer.target == target
            && if t.played == [] then Starts(t, t', k) else GoesOn(t, t', Due(t.played).value, late)
  {
    var t := Run(target, maximum, actions);
    OneMoreAction(target, maximum, actions, Play(late));
    DueIsExpected(target, maximum, actions);
    BoundsStay(target, maximum, actions);
    RunOk(target, maximum, actions);
    if t.played == [] {
      PlayStarts(t, late, k);
    } else {
      PlayGoesOn(t, late, Due(t.played).value);
    }
  }

  function Pops(n: nat): seq<Action> { seq(n, _ => Play(true)) }

  /** Something has been played, `e` is due, and `p` is held under the number `k`. */
  ghost predicate Holds(target: nat, maximum: nat, actions: seq<Action>, e: nat, k: nat, p: Packet) {
    var t := Run(target, maximum, actions);
    t.played != [] && Due(t.played) == Some(e) && k in t.buffer.packets && t.buffer.packets[k] == p
  }

  /** Nothing is held that should have been played before. */
  lemma HeldIsLater(target: nat, maximum: nat, actions: seq<Action>, e: nat, k: nat, p: Packet)
    requires GoodBounds(target, maximum) && Holds(target, maximum, actions, e, k, p)
    ensures e <= k < TWO_TO_THE_64
  {
    RunOk(target, maximum, actions);
    DueIsExpected(target, maximum, actions);
    assert Valid(Run(target, maximum, actions).buffer.packets[k]);
  }

  /** A number that is due and missing is concealed at its deadline, and the one after it is due. */
  lemma DueMovesOn(t: Trace, t': Trace, e: nat, k: nat)
    requires t.played != [] && Due(t.played) == Some(e) && GoesOn(t, t', e, true)
    requires e < k < TWO_TO_THE_64 && k in t.buffer.packets
    ensures t'.played != [] && Due(t'.played) == Some(e + 1)
    ensures k in t'.buffer.packets && t'.buffer.packets[k] == t.buffer.packets[k]
  {
  }

  lemma HoldsOn(target: nat, maximum: nat, actions: seq<Action>, e: nat, k: nat, p: Packet)
    requires GoodBounds(target, maximum) && Holds(target, maximum, actions, e, k, p)
    ensures e < k ==> Holds(target, maximum, actions + [Play(true)], e + 1, k, p)
    ensures e == k ==> Last(Run(target, maximum, actions + [Play(true)]).played) == Some(Playout(k, Some(p)))
  {
    HeldIsLater(target, maximum, actions, e, k, p);
    PlaysExactlyWhen(target, maximum, actions, true, 0);
    if e < k {
      DueMovesOn(Run(target, maximum, actions), Run(target, maximum, actions + [Play(true)]), e, k);
    }
  }

  /** A packet that is held is played as soon as its number is due, whatever is missing before it. */
  lemma {:induction false} HeldIsPlayed(target: nat, maximum: nat, actions: seq<Action>, e: nat, k: nat, p: Packet)
    requires GoodBounds(target, maximum) && Holds(target, maximum, actions, e, k, p)
    ensures e <= k
    ensures Last(Run(target, maximum, actions + Pops(k - e + 1)).played) == Some(Playout(k, Some(p)))
    decreases k - e
  {
    HeldIsLater(target, maximum, actions, e, k, p);
    HoldsOn(target, maximum, actions, e, k, p);
    var later := actions + [Play(true)];
    if e == k {
      assert later == actions + Pops(1);
    } else {
      HeldIsPlayed(target, maximum, later, e + 1, k, p);
      assert later + Pops(k - e) == actions + Pops(k - e + 1);
    }
  }
}
