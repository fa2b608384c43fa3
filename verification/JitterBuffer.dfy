/** The audio jitter buffer: packets by sequence number, played out one number after the other. */
module JitterBuffer {
  import opened Options
  import opened AudioPackets
  import opened BigEndian

  const MAXIMUM_PACKETS := 50

  datatype Playout = Playout(sequence: nat, packet: Option<Packet>)

  /** The counters the buffer reports; the depth is the number of packets held. */
  datatype Counters = Counters(accepted: nat, duplicates: nat, late: nat, overflow: nat, concealed: nat)

  datatype Buffer = Buffer(
    target: nat, maximum: nat, packets: map<nat, Packet>, expected: Option<nat>, counters: Counters)

  predicate GoodBounds(target: nat, maximum: nat) { 0 < target <= maximum <= MAXIMUM_PACKETS }

  function Fresh(target: nat, maximum: nat): Buffer {
    Buffer(target, maximum, map[], None, Counters(0, 0, 0, 0, 0))
  }

  datatype Pushed = Pushed(buffer: Buffer, taken: bool)

  function Push(b: Buffer, p: Packet): Pushed
    requires Valid(p)
  {
    if b.expected.Some? && p.sequence < b.expected.value then
      Pushed(b.(counters := b.counters.(late := b.counters.late + 1)), false)
    else if p.sequence in b.packets then
      Pushed(b.(counters := b.counters.(duplicates := b.counters.duplicates + 1)), false)
    else if |b.packets| >= b.maximum then
      Pushed(b.(counters := b.counters.(overflow := b.counters.overflow + 1)), false)
    else
      Pushed(b.(packets := b.packets[p.sequence := p], counters := b.counters.(accepted := b.counters.accepted + 1)),
             true)
  }

  predicate Smallest(ps: map<nat, Packet>, k: nat) { k in ps && forall j <- ps :: k <= j }

  lemma SmallestExists(ps: map<nat, Packet>)
    requires |ps| > 0
    ensures exists k :: Smallest(ps, k)
  {
    var k :| k in ps;
    var low := Descend(ps, k);
  }

  lemma {:induction false} Descend(ps: map<nat, Packet>, k: nat) returns (low: nat)
    requires k in ps
    ensures Smallest(ps, low)
    decreases k
  {
    if j :| j in ps && j < k {
      low := Descend(ps, j);
    } else {
      low := k;
    }
  }

  ghost function First(ps: map<nat, Packet>): (k: nat)
    requires |ps| > 0
    ensures Smallest(ps, k)
  {
    SmallestExists(ps);
    var k :| Smallest(ps, k);
    k
  }

  /** The number after this one; the expected number is kept in 64 bits and nothing stops it from wrapping. */
  function After(e: nat): nat { if e + 1 == TWO_TO_THE_64 then 0 else e + 1 }

  datatype Popped = Popped(buffer: Buffer, playout: Option<Playout>)

  /** Nothing is played before the target depth; then every number is, with its packet or without. */
  ghost function Pop(b: Buffer, deadlineExpired: bool): Popped {
    if b.expected.None? && (|b.packets| < b.target || |b.packets| == 0) then Popped(b, None)
    else
      var e := if b.expected.Some? then b.expected.value else First(b.packets);
      var b1 := b.(expected := Some(e));
      if e in b.packets then
        Popped(b1.(packets := b.packets - {e}, expected := Some(After(e))), Some(Playout(e, Some(b.packets[e]))))
      else if !deadlineExpired && (|b.packets| == 0 || First(b.packets) <= e) then Popped(b1, None)
      else Popped(b1.(expected := Some(After(e)), counters := b.counters.(concealed := b.counters.concealed + 1)),
                  Some(Playout(e, None)))
  }

  function Reset(b: Buffer): Buffer { b.(packets := map[], expected := None) }

  // ---------------------------------------------------------------------- runs

  datatype Action = Arrive(packet: Packet) | Play(deadlineExpired: bool) | Restart

  /** `taken` and `played` are history since the last reset, `before` what was accepted earlier. */
  datatype Trace = Trace(buffer: Buffer, taken: set<Packet>, played: seq<Playout>, before: nat)

  ghost function Next(t: Trace, a: Action): Trace {
    match a
    case Arrive(p) =>
      if !Valid(p) then t
      else
        var r := Push(t.buffer, p);
        t.(buffer := r.buffer, taken := if r.taken then t.taken + {p} else t.taken)
    case Play(deadlineExpired) =>
      var r := Pop(t.buffer, deadlineExpired);
      t.(buffer := r.buffer, played := if r.playout.Some? then t.played + [r.playout.value] else t.played)
    case Restart => Trace(Reset(t.buffer), {}, [], t.buffer.counters.accepted)
  }

  ghost function Run(target: nat, maximum: nat, actions: seq<Action>): Trace {
    if actions == [] then Trace(Fresh(target, maximum), {}, [], 0)
    else Next(Run(target, maximum, actions[..|actions| - 1]), actions[|actions| - 1])
  }

  /** How many real packets have been played. */
  function RealCount(ps: seq<Playout>): nat {
    if ps == [] then 0 else RealCount(ps[..|ps| - 1]) + if ps[|ps| - 1].packet.Some? then 1 else 0
  }

  /** A packet is held, or was played, under its own number. */
  ghost predicate Accounted(t: Trace) {
    && (forall p <- t.taken :: Valid(p))
    && (forall k <- t.buffer.packets :: t.buffer.packets[k].sequence == k && t.buffer.packets[k] in t.taken)
    && (forall i | 0 <= i < |t.played| && t.played[i].packet.Some? ::
          t.played[i].packet.value.sequence == t.played[i].sequence && t.played[i].packet.value in t.taken)
  }

  /** Each number played is the one after the number before, and the first came with its packet. */
  ghost predicate CountsUp(t: Trace) {
    && (t.played == [] <==> t.buffer.expected.None?)
    && (t.played != [] ==>
          && t.played[0].packet.Some?
          && t.buffer.expected == Some(After(t.played[|t.played| - 1].sequence)))
    && (forall i, j | 0 <= i < |t.played| &&
        j == i + 1 < |t.played| :: t.played[j].sequence == After(t.played[i].sequence))
  }

  ghost predicate Ok(t: Trace) {
    var b := t.buffer;
    && GoodBounds(b.target, b.maximum) && |b.packets| <= b.maximum
    && Accounted(t) && CountsUp(t)
    && (b.expected.Some? ==> forall k <- b.packets :: k >= b.expected.value)
    && b.counters.accepted == t.before + RealCount(t.played) + |b.packets|
  }

  lemma RealCountMore(ps: seq<Playout>, p: Playout)
    ensures RealCount(ps + [p]) == RealCount(ps) + if p.packet.Some? then 1 else 0
  {
    assert (ps + [p])[..|ps|] == ps;
  }

  lemma PushOk(t: Trace, p: Packet)
    requires Ok(t) && Valid(p)
    ensures Ok(Next(t, Arrive(p)))
  {
    var b := t.buffer;
    if Push(b, p).taken {
      assert |b.packets[p.sequence := p]| == |b.packets| + 1;
    }
  }

  lemma Remove(ps: map<nat, Packet>, k: nat)
    requires k in ps
    ensures |ps - {k}| == |ps| - 1
  {
    assert ps == (ps - {k})[k := ps[k]];
  }

  lemma PopOk(t: Trace, deadlineExpired: bool)
    requires Ok(t)
    ensures Ok(Next(t, Play(deadlineExpired)))
  {
    var b, r := t.buffer, Pop(t.buffer, deadlineExpired);
    if r.playout.Some? {
      var e := r.playout.value.sequence;
      if e in b.packets {
        Remove(b.packets, e);
      }
      PlayOk(t, r.buffer, r.playout.value);
    }
  }

  /** Playing the expected number, with its packet when it is held, keeps the account. */
  lemma PlayOk(t: Trace, b: Buffer, p: Playout)
    requires Ok(t) && b.target == t.buffer.target && b.maximum == t.buffer.maximum
    requires (t.buffer.expected.Some? ==> t.buffer.expected.value == p.sequence) &&
             b.expected == Some(After(p.sequence))
    requires b.packets == t.buffer.packets - {p.sequence} && b.counters.accepted == t.buffer.counters.accepted
    requires |b.packets| == |t.buffer.packets| - if p.packet.Some? then 1 else 0
    requires p.packet.Some? ==> p.sequence in t.buffer.packets && t.buffer.packets[p.sequence] == p.packet.value
    requires (t.buffer.expected.None? ==> p.packet.Some?) && forall k <- b.packets :: k > p.sequence
    ensures Ok(t.(buffer := b, played := t.played + [p]))
  {
    RealCountMore(t.played, p);
    CountsOn(t, b, p);
    forall k | k in b.packets ensures k >= After(p.sequence) {
      assert Valid(t.buffer.packets[k]);
    }
  }

  lemma CountsOn(t: Trace, b: Buffer, p: Playout)
    requires CountsUp(t) && Accounted(t) && b.expected == Some(After(p.sequence))
    requires (t.buffer.expected.Some? ==> t.buffer.expected.value == p.sequence) &&
             (t.buffer.expected.None? ==> p.packet.Some?)
    requires p.packet.Some? ==> p.sequence in t.buffer.packets
    ensures CountsUp(t.(buffer := b, played := t.played + [p]))
  {
  }

  lemma {:induction false} RunOk(target: nat, maximum: nat, actions: seq<Action>)
    requires GoodBounds(target, maximum)
    ensures Ok(Run(target, maximum, actions))
  {
    if actions == [] {
    } else {
      var before, a := actions[..|actions| - 1], actions[|actions| - 1];
      var t := Run(target, maximum, before);
      RunOk(target, maximum, before);
      match a
      case Arrive(p) => if Valid(p) { PushOk(t, p); }
      case Play(deadlineExpired) => PopOk(t, deadlineExpired);
      case Restart =>
    }
  }

  /** Between resets each number played is the one after the number before, in 64 bits. */
  lemma PlayoutIsConsecutive(target: nat, maximum: nat, actions: seq<Action>, i: nat)
    requires GoodBounds(target, maximum) && i + 1 < |Run(target, maximum, actions).played|
    ensures var played := Run(target, maximum, actions).played;
            played[i + 1].sequence == (played[i].sequence + 1) % TWO_TO_THE_64
  {
    RunOk(target, maximum, actions);
    var played := Run(target, maximum, actions).played;
    NumbersFit(target, maximum, actions, i);
    AfterIsSum(played[i].sequence);
  }

  lemma AfterIsSum(e: nat)
    requires e < TWO_TO_THE_64
    ensures After(e) == (e + 1) % TWO_TO_THE_64
  {
  }

  lemma {:induction false} NumbersFit(target: nat, maximum: nat, actions: seq<Action>, i: nat)
    requires GoodBounds(target, maximum) && i < |Run(target, maximum, actions).played|
    ensures Run(target, maximum, actions).played[i].sequence < TWO_TO_THE_64
    decreases i
  {
    RunOk(target, maximum, actions);
    var t := Run(target, maximum, actions);
    if i == 0 {
      assert Valid(t.played[0].packet.value);
    } else {
      NumbersFit(target, maximum, actions, i - 1);
      assert t.played[i].sequence == After(t.played[i - 1].sequence);
    }
  }

  /** Every number played is one more than the number before. */
  predicate OneMore(played: seq<Playout>) {
    forall i, j | 0 <= i < |played| && j == i + 1 < |played| :: played[j].sequence == played[i].sequence + 1
  }

  lemma {:induction false} CountedFrom(played: seq<Playout>, i: nat)
    requires i < |played| && played[0].sequence + i < TWO_TO_THE_64
    requires forall i, j | 0 <= i < |played| && j == i + 1 < |played| :: played[j].sequence == After(played[i].sequence)
    ensures played[i].sequence == played[0].sequence + i
  {
    if i == 0 {
    } else {
      CountedFrom(played, i - 1);
      assert played[i].sequence == After(played[i - 1].sequence);
    }
  }

  /** The numbers count up without a wrap if and only if the first of them left enough room for all. */
  lemma OneMoreExactlyWhen(target: nat, maximum: nat, actions: seq<Action>)
    requires GoodBounds(target, maximum)
    ensures var played := Run(target, maximum, actions).played;
            OneMore(played) <==> played == [] || played[0].sequence + |played| <= TWO_TO_THE_64
  {
    RunOk(target, maximum, actions);
    var played := Run(target, maximum, actions).played;
    if played != [] {
      var first := played[0].sequence;
      NumbersFit(target, maximum, actions, 0);
      if first + |played| <= TWO_TO_THE_64 {
        forall i | 0 <= i < |played| ensures played[i].sequence == first + i {
          CountedFrom(played, i);
        }
      } else {
        var last := TWO_TO_THE_64 - 1 - first;
        CountedFrom(played, last);
        assert played[last + 1].sequence == After(played[last].sequence);
      }
    }
  }

  function Plays(actions: seq<Action>): nat {
    if actions == [] then 0 else Plays(actions[..|actions| - 1]) + if actions[|actions| - 1].Play? then 1 else 0
  }

  /** Every packet that arrives leaves room for as many numbers as there are pops. */
  predicate LeavesRoom(actions: seq<Action>, pops: nat) {
    forall a <- actions :: a.Arrive? && Valid(a.packet) ==> a.packet.sequence + pops <= TWO_TO_THE_64
  }

  lemma {:induction false} TakenArrived(target: nat, maximum: nat, actions: seq<Action>)
    ensures forall p <- Run(target, maximum, actions).taken :: Valid(p) && Arrive(p) in actions
    ensures |Run(target, maximum, actions).played| <= Plays(actions)
  {
    if actions == [] {
    } else {
      TakenArrived(target, maximum, actions[..|actions| - 1]);
    }
  }

  /** So it is enough that no packet arrives whose number is within as many of 2^64 as there are pops. */
  lemma RoomIsEnough(target: nat, maximum: nat, actions: seq<Action>)
    requires GoodBounds(target, maximum) && LeavesRoom(actions, Plays(actions))
    ensures OneMore(Run(target, maximum, actions).played)
  {
    RunOk(target, maximum, actions);
    TakenArrived(target, maximum, actions);
    OneMoreExactlyWhen(target, maximum, actions);
    var t := Run(target, maximum, actions);
    if t.played != [] {
      assert Arrive(t.played[0].packet.value) in actions;
    }
  }

  /** Without that room the numbers do wrap: after the largest number comes zero. */
  lemma LargestNumberWraps(p: Packet)
    requires Valid(p) && p.sequence == TWO_TO_THE_64 - 1
    ensures var t := Run(1, 1, [Arrive(p), Play(false), Play(true)]);
            && t.played == [Playout(TWO_TO_THE_64 - 1, Some(p)), Playout(0, None)]
            && !OneMore(t.played) && t.buffer.expected == Some(1)
  {
    RunThree(Arrive(p), Play(false), Play(true));
    var start := Trace(Fresh(1, 1), {}, [], 0);
    var t1 := Next(start, Arrive(p));
    assert t1 == start.(buffer := start.buffer.(packets := map[p.sequence := p], counters := t1.buffer.counters),
                        taken := {p});
    var t2 := FirstPlayed(t1, p);
    var t3 := Next(t2, Play(true));
    assert t3.played[1].sequence != t3.played[0].sequence + 1;
  }

  lemma RunThree(a: Action, b: Action, c: Action)
    ensures Run(1, 1, [a, b, c]) == Next(Next(Next(Trace(Fresh(1, 1), {}, [], 0), a), b), c)
  {
    assert [a, b, c][..2] == [a, b] && [a, b][..1] == [a] && [a][..0] == [];
    assert Run(1, 1, []) == Trace(Fresh(1, 1), {}, [], 0);
    assert Run(1, 1, [a]) == Next(Run(1, 1, []), a) && Run(1, 1, [a, b]) == Next(Run(1, 1, [a]), b);
  }

  /** The only packet held is played, and the number after it expected. */
  lemma FirstPlayed(t: Trace, p: Packet) returns (t': Trace)
    requires t.buffer.packets == map[p.sequence := p] && t.buffer.expected.None? && t.buffer.target == 1 &&
             t.played == []
    ensures t' == Next(t, Play(false))
    ensures t'.played == [Playout(p.sequence, Some(p))] && t'.buffer.expected == Some(After(p.sequence)) &&
            t'.buffer.packets == map[]
  {
    t' := Next(t, Play(false));
    assert Smallest(t.buffer.packets, First(t.buffer.packets));
  }

  /** Accepted packets are those played, those held, and those a reset threw away. */
  lemma AcceptedIsPlayedPlusDepth(target: nat, maximum: nat, actions: seq<Action>)
    requires GoodBounds(target, maximum)
    ensures var t := Run(target, maximum, actions);
            && t.buffer.counters.accepted == t.before + RealCount(t.played) + |t.buffer.packets|
            && |t.buffer.packets| <= maximum
  {
    RunOk(target, maximum, actions);
    BoundsStay(target, maximum, actions);
  }

  lemma {:induction false} BoundsStay(target: nat, maximum: nat, actions: seq<Action>)
    ensures var b := Run(target, maximum, actions).buffer; b.target == target && b.maximum == maximum
  {
    if actions == [] {
    } else {
      BoundsStay(target, maximum, actions[..|actions| - 1]);
      NextBounds(Run(target, maximum, actions[..|actions| - 1]), actions[|actions| - 1]);
    }
  }

  lemma NextBounds(t: Trace, a: Action)
    ensures Next(t, a).buffer.target == t.buffer.target && Next(t, a).buffer.maximum == t.buffer.maximum
  {
  }

  /** A real packet is played under its own number and is one that was taken. */
  lemma PlayedWasTaken(target: nat, maximum: nat, actions: seq<Action>, i: nat)
    requires GoodBounds(target, maximum)
    requires i < |Run(target, maximum, actions).played| && Run(target, maximum, actions).played[i].packet.Some?
    ensures var t := Run(target, maximum, actions); var p := t.played[i];
            p.packet.value.sequence == p.sequence && p.packet.value in t.taken
  {
    RunOk(target, maximum, actions);
  }

  /** Once playout has started, a pop before the deadline waits exactly when the buffer is empty. */
  lemma StartedWaitsOnlyWhenEmpty(target: nat, maximum: nat, actions: seq<Action>)
    requires GoodBounds(target, maximum) && Run(target, maximum, actions).buffer.expected.Some?
    ensures var b := Run(target, maximum, actions).buffer; Pop(b, false).playout.None? <==> |b.packets| == 0
  {
    RunOk(target, maximum, actions);
  }

  // ------------------------------------------------------------------- the class

  class AudioJitterBuffer {
    const target: nat
    const maximum: nat
    var packets: map<nat, Packet>
    var expected: Option<nat>
    var counters: Counters

    function Value(): Buffer
      reads this
    {
      Buffer(target, maximum, packets, expected, counters)
    }

    constructor (targetPackets: nat, maximumPackets: nat)
      requires GoodBounds(targetPackets, maximumPackets)
      ensures Value() == Fresh(targetPackets, maximumPackets)
    {
      target, maximum, packets, expected := targetPackets, maximumPackets, map[], None;
      counters := Counters(0, 0, 0, 0, 0);
    }

    /** Refuses an invalid packet by throwing, which `thrown` stands for. */
    method PushPacket(p: Packet) returns (taken: bool, thrown: bool)
      modifies this
      ensures thrown <==> !Valid(p)
      ensures thrown ==> !taken && Value() == old(Value())
      ensures !thrown ==> Pushed(Value(), taken) == Push(old(Value()), p)
    {
      if !Valid(p) { return false, true; }
      if expected.Some? && p.sequence < expected.value {
        counters := counters.(late := counters.late + 1);
        return false, false;
      }
      if p.sequence in packets {
        counters := counters.(duplicates := counters.duplicates + 1);
        return false, false;
      }
      if |packets| >= maximum {
        counters := counters.(overflow := counters.overflow + 1);
        return false, false;
      }
      packets := packets[p.sequence := p];
      counters := counters.(accepted := counters.accepted + 1);
      return true, false;
    }

    method FirstKey() returns (k: nat)
      requires |packets| > 0
      ensures k == First(packets)
    {
      k :| k in packets;
      var left := packets.Keys - {k};
      while left != {}
        invariant left <= packets.Keys && k in packets && forall x :: x in packets && x !in left ==> k <= x
        decreases |left|
      {
        var j :| j in left;
        if j < k { k := j; }
        left := left - {j};
      }
      assert Smallest(packets, k);
    }

    method PopPacket(deadlineExpired: bool) returns (playout: Option<Playout>)
      requires target > 0
      modifies this
      ensures Popped(Value(), playout) == Pop(old(Value()), deadlineExpired)
    {
      if expected.None? {
        if |packets| < target { return None; }
        var first := FirstKey();
        expected := Some(first);
      }
      var e := expected.value;
      if e in packets {
        playout := Some(Playout(e, Some(packets[e])));
        packets := packets - {e};
        expected := Some(After(e));
        return;
      }
      if !deadlineExpired {
        if |packets| == 0 { return None; }
        var first := FirstKey();
        if first <= e { return None; }
      }
      expected := Some(After(e));
      counters := counters.(concealed := counters.concealed + 1);
      playout := Some(Playout(e, None));
    }

    method Restart()
      modifies this
      ensures Value() == Reset(old(Value()))
    {
      packets, expected := map[], None;
    }
  }
}
