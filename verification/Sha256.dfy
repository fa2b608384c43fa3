/** The streaming SHA-256 accumulator: a block buffer, a running state and a byte count. */
module Sha256 {
  import opened BigEndian
  import opened Options
  import opened Spec = Sha256Spec

  const MAXIMUM_BYTES := TWO_TO_THE_64 - 1

  // ------------------------------------------------------------ hashing blocks

  lemma HashOneMore<W(!new)>(h: Hashing<W>, bytes: seq<Byte>, block: seq<Byte>)
    requires |bytes| % BLOCK == 0 && |block| == BLOCK
    ensures h.HashOf(bytes + block) == h.compress(h.HashOf(bytes), block)
  {
    assert (bytes + block)[..|bytes + block| - BLOCK] == bytes;
    assert (bytes + block)[|bytes + block| - BLOCK..] == block;
  }

  /** The message schedule of the buffered block. */
  method Expand<W>(p: Primitives<W>, buffer: array<Byte>) returns (schedule: array<W>)
    requires p.Valid() && buffer.Length == BLOCK
    ensures fresh(schedule) && schedule.Length == 64 && schedule[..] == Schedule(p, buffer[..], |p.constants|)
  {
    var blank := p.initial[0];
    schedule := new W[64](_ => blank);
    for index := 0 to 16
      invariant schedule[..index] == Schedule(p, buffer[..], index)
    {
      schedule[index] := p.join(buffer[index * 4], buffer[index * 4 + 1], buffer[index * 4 + 2], buffer[index * 4 + 3]);
      assert schedule[..index + 1] == schedule[..index] + [schedule[index]];
    }
    for index := 16 to 64
      invariant schedule[..index] == Schedule(p, buffer[..], index)
    {
      ghost var w := schedule[..index];
      var s0 := p.sigma0(schedule[index - 15]);
      var s1 := p.sigma1(schedule[index - 2]);
      schedule[index] := p.add(p.add(p.add(schedule[index - 16], s0), schedule[index - 7]), s1);
      assert schedule[..index + 1] == w + [schedule[index]];
    }
    assert schedule[..64] == schedule[..];
  }

  /** The sixty-four rounds on eight working variables. */
  method Mix<W>(p: Primitives<W>, start: Working<W>, schedule: array<W>) returns (v: Working<W>)
    requires p.Valid() && schedule.Length == 64
    ensures v == Rounds(p, start, schedule[..], |p.constants|)
  {
    var a, b, c, d := start.a, start.b, start.c, start.d;
    var e, f, g, h := start.e, start.f, start.g, start.h;
    for index := 0 to 64
      invariant Working(a, b, c, d, e, f, g, h) == Rounds(p, start, schedule[..], index)
    {
      var sum1 := p.sum1(e);
      var choice := p.ch(e, f, g);
      var temporary1 := p.add(p.add(p.add(p.add(h, sum1), choice), p.constants[index]), schedule[index]);
      var sum0 := p.sum0(a);
      var majority := p.maj(a, b, c);
      var temporary2 := p.add(sum0, majority);
      h := g;
      g := f;
      f := e;
      e := p.add(d, temporary1);
      d := c;
      c := b;
      b := a;
      a := p.add(temporary1, temporary2);
    }
    v := Working(a, b, c, d, e, f, g, h);
  }

  class Accumulator<W(!new)> {
    const parameters: Hashing<W>
    const buffer: array<Byte>
    const state: array<W>
    var bufferSize: nat
    var totalBytes: nat
    var finished: bool
    ghost var message: seq<Byte>

    ghost predicate Shaped() {
      parameters.Valid() && buffer.Length == BLOCK && state.Length == 8
    }

    /** The state has absorbed the whole blocks of the message and the buffer holds the rest. */
    ghost predicate Holds()
      reads this, buffer, state
    {
      && Shaped() && bufferSize <= BLOCK && totalBytes % BLOCK == 0 && totalBytes + bufferSize == |message|
      && buffer[..bufferSize] == message[totalBytes..]
      && state[..] == parameters.HashOf(message[..totalBytes])
    }

    ghost predicate Valid()
      reads this, buffer, state
    {
      Shaped() && (!finished ==> Holds() && bufferSize < BLOCK && |message| <= MAXIMUM_BYTES)
    }

    constructor (p: Hashing<W>)
      requires p.Valid()
      ensures Valid() && fresh(buffer) && fresh(state) && !finished && message == [] && parameters == p
    {
      parameters := p;
      buffer := new Byte[BLOCK](_ => 0);
      state := new W[8](i requires 0 <= i < 8 => p.primitives.initial[i]);
      bufferSize, totalBytes, finished, message := 0, 0, false, [];
      new;
      assert state[..] == p.primitives.initial;
    }

    /** Absorbs the buffered block. */
    method Transform()
      requires Shaped()
      modifies state
      ensures state[..] == parameters.compress(old(state[..]), buffer[..])
    {
      var p := parameters.primitives;
      var schedule := Expand(p, buffer);
      ghost var before := state[..];
      var v := Mix(p, Working(state[0], state[1], state[2], state[3], state[4], state[5], state[6], state[7]),
                   schedule);
      state[0] := p.add(state[0], v.a);
      state[1] := p.add(state[1], v.b);
      state[2] := p.add(state[2], v.c);
      state[3] := p.add(state[3], v.d);
      state[4] := p.add(state[4], v.e);
      state[5] := p.add(state[5], v.f);
      state[6] := p.add(state[6], v.g);
      state[7] := p.add(state[7], v.h);
      assert state[..] == AddUp(p, before, v);
      assert Inside(before, buffer[..]);
    }

    /** Takes more of the message; refused once finished, or when the byte count would not fit 64 bits. */
    method Update(input: seq<Byte>) returns (ok: bool)
      requires Valid()
      modifies this, buffer, state
      ensures Valid() && finished == old(finished)
      ensures ok <==> !finished && |input| <= MAXIMUM_BYTES - old(totalBytes + bufferSize)
      ensures message == if ok then old(message) + input else old(message)
    {
      ok := !finished && |input| <= MAXIMUM_BYTES - (totalBytes + bufferSize);
      if ok {
        AbsorbAll(input);
      }
    }

    method AbsorbAll(input: seq<Byte>)
      requires Valid() && !finished && |message| + |input| <= MAXIMUM_BYTES
      modifies this`bufferSize, this`totalBytes, this`message, buffer, state
      ensures Valid() && !finished && message == old(message) + input
    {
      ghost var before := message;
      assert before + input[..0] == before;
      for index := 0 to |input|
        invariant Valid() && !finished && message == before + input[..index]
      {
        Absorb(input[index]);
        assert before + input[..index] + [input[index]] == before + input[..index + 1];
      }
      assert input[..|input|] == input;
    }

    /** One byte: the block is hashed as soon as it is full. */
    method Absorb(value: Byte)
      requires Valid() && !finished && |message| < MAXIMUM_BYTES
      modifies this`bufferSize, this`totalBytes, this`message, buffer, state
      ensures Valid() && !finished && message == old(message) + [value]
    {
      Put(value);
      if bufferSize == BLOCK {
        Flush();
      }
    }

    method Put(value: Byte)
      requires Holds() && bufferSize < BLOCK
      modifies this`bufferSize, this`message, buffer
      ensures Holds() && message == old(message) + [value] && bufferSize == old(bufferSize) + 1
    {
      ghost var tail := message[totalBytes..];
      assert (message + [value])[..totalBytes] == message[..totalBytes];
      buffer[bufferSize] := value;
      bufferSize := bufferSize + 1;
      message := message + [value];
      assert buffer[..bufferSize] == tail + [value] == message[totalBytes..];
    }

    method Flush()
      requires Holds() && bufferSize == BLOCK
      modifies this`bufferSize, this`totalBytes, state
      ensures Holds() && bufferSize == 0
    {
      ghost var whole := message[..totalBytes];
      assert buffer[..] == message[totalBytes..];
      assert message[..totalBytes + BLOCK] == whole + buffer[..];
      HashOneMore(parameters, whole, buffer[..]);
      Transform();
      totalBytes, bufferSize := totalBytes + BLOCK, 0;
    }

    /** Zeros from `from` up to `to` in the block buffer. */
    method FillZeros(from: nat, to: nat)
      requires Shaped() && from <= to <= BLOCK
      modifies buffer
      ensures buffer[..] == old(buffer[..from]) + Zeros(to - from) + old(buffer[to..])
    {
      for k := from to to
        invariant buffer[..from] == old(buffer[..from]) && buffer[to..] == old(buffer[to..])
        invariant forall i | from <= i < k :: buffer[i] == 0
      {
        buffer[k] := 0;
      }
    }

    /** Writes the low eight bytes of a number at the end of the block, most significant first. */
    method PutLength(bits: nat)
      requires Shaped()
      modifies buffer
      ensures buffer[..] == old(buffer[..56]) + NumberBytes(bits, 8)
    {
      var rest := bits;
      assert NumberBytes(bits, 8) == NumberBytes(rest, 8) + [];
      for index := 0 to 8
        invariant buffer[..56] == old(buffer[..56])
        invariant NumberBytes(bits, 8) == NumberBytes(rest, 8 - index) + buffer[64 - index..]
      {
        buffer[63 - index] := rest % 256;
        assert buffer[63 - index..] == [rest % 256] + buffer[64 - index..];
        rest := rest / 256;
      }
      assert buffer[..] == buffer[..56] + buffer[56..];
    }

    /** Pads the buffered bytes into one last block, or two when the length does not fit behind them. */
    method Close(bits: nat)
      requires Holds() && bufferSize < BLOCK
      modifies this`bufferSize, buffer, state
      ensures Shaped() && state[..] == parameters.HashOf(PaddedWith(message, bits))
    {
      ghost var absorbed, tail := message[..totalBytes], message[totalBytes..] + [0x80];
      TailPads(message, totalBytes, bits);
      buffer[bufferSize] := 0x80;
      bufferSize := bufferSize + 1;
      assert buffer[..bufferSize] == tail;
      if bufferSize > 56 {
        absorbed := FillBlock(absorbed, tail);
        tail := [];
      }
      LastBlock(absorbed, tail, bits);
    }

    /** Fills the block with zeros and absorbs it. */
    method FillBlock(ghost absorbed: seq<Byte>, ghost tail: seq<Byte>) returns (ghost more: seq<Byte>)
      requires Shaped() && bufferSize == |tail| <= BLOCK && buffer[..bufferSize] == tail
      requires |absorbed| % BLOCK == 0 && state[..] == parameters.HashOf(absorbed)
      modifies this`bufferSize, buffer, state
      ensures bufferSize == 0 && buffer[..0] == []
      ensures more == absorbed + (tail + Zeros(BLOCK - |tail|)) && |more| % BLOCK == 0 &&
              state[..] == parameters.HashOf(more)
    {
      FillZeros(bufferSize, BLOCK);
      more := AbsorbPadding(absorbed, tail + Zeros(BLOCK - bufferSize));
      bufferSize := 0;
    }

    /** Zeros up to the length field, the length, and the last block is absorbed. */
    method LastBlock(ghost absorbed: seq<Byte>, ghost tail: seq<Byte>, bits: nat)
      requires Shaped() && bufferSize == |tail| <= 56 && buffer[..bufferSize] == tail
      requires |absorbed| % BLOCK == 0 && state[..] == parameters.HashOf(absorbed)
      modifies this`bufferSize, buffer, state
      ensures |absorbed + (tail + Zeros(56 - |tail|) + NumberBytes(bits, 8))| % BLOCK == 0
      ensures state[..] == parameters.HashOf(absorbed + (tail + Zeros(56 - |tail|) + NumberBytes(bits, 8)))
    {
      FillZeros(bufferSize, 56);
      assert buffer[..56] == tail + Zeros(56 - bufferSize);
      PutLength(bits);
      ghost var more := AbsorbPadding(absorbed, tail + Zeros(56 - bufferSize) + NumberBytes(bits, 8));
    }

    method AbsorbPadding(ghost absorbed: seq<Byte>, ghost block: seq<Byte>) returns (ghost more: seq<Byte>)
      requires Shaped() && |absorbed| % BLOCK == 0 && buffer[..] == block && state[..] == parameters.HashOf(absorbed)
      modifies state
      ensures more == absorbed + block && |more| % BLOCK == 0 && state[..] == parameters.HashOf(more)
    {
      HashOneMore(parameters, absorbed, block);
      Transform();
      more := absorbed + block;
    }

    /** Pads and returns the hash words; refused a second time. */
    method Finish() returns (hash: Option<seq<W>>)
      requires Valid()
      modifies this, buffer, state
      ensures Valid() && finished && message == old(message)
      ensures hash.None? <==> old(finished)
      ensures hash.Some? ==> hash.value == parameters.HashOf(PaddedWith(message, (8 * |message|) % TWO_TO_THE_64))
    {
      if finished { return None; }
      finished := true;
      Close(((totalBytes + bufferSize) * 8) % TWO_TO_THE_64);
      hash := Some(state[..]);
    }
  }

  /** The last one or two blocks that the accumulator builds are the end of the padded message. */
  lemma TailPads(m: seq<Byte>, at: nat, bits: nat)
    requires at % BLOCK == 0 && at <= |m| < at + BLOCK
    ensures var tail := m[at..] + [0x80];
            PaddedWith(m, bits) ==
            if |tail| > 56 then m[..at] + (tail + Zeros(BLOCK - |tail|)) + ([] + Zeros(56) + NumberBytes(bits, 8))
            else m[..at] + (tail + Zeros(56 - |tail|) + NumberBytes(bits, 8))
  {
  }

  function Joined(pieces: seq<seq<Byte>>): seq<Byte> {
    if pieces == [] then [] else Joined(pieces[..|pieces| - 1]) + pieces[|pieces| - 1]
  }

  lemma {:induction false} JoinedPrefix(pieces: seq<seq<Byte>>, k: nat)
    requires k <= |pieces|
    ensures |Joined(pieces[..k])| <= |Joined(pieces)|
    decreases |pieces|
  {
    if k == |pieces| {
      assert pieces[..k] == pieces;
    } else {
      JoinedPrefix(pieces[..|pieces| - 1], k);
      assert pieces[..|pieces| - 1][..k] == pieces[..k];
    }
  }

  /** Below 2^61 bytes the length field holds the length itself. */
  lemma ShortLength(m: seq<Byte>)
    requires 8 * |m| < TWO_TO_THE_64
    ensures PaddedWith(m, (8 * |m|) % TWO_TO_THE_64) == Padded(m)
  {
    SmallModulo(8 * |m|);
  }

  lemma SmallModulo(x: nat)
    requires x < TWO_TO_THE_64
    ensures x % TWO_TO_THE_64 == x
  {
  }

  method TakeAll<W(!new)>(accumulator: Accumulator<W>, pieces: seq<seq<Byte>>)
    requires accumulator.Valid() && !accumulator.finished && accumulator.message == []
    requires |Joined(pieces)| <= MAXIMUM_BYTES
    modifies accumulator, accumulator.buffer, accumulator.state
    ensures accumulator.Valid() && !accumulator.finished && accumulator.message == Joined(pieces)
  {
    for k := 0 to |pieces|
      invariant accumulator.Valid() && !accumulator.finished && accumulator.message == Joined(pieces[..k])
    {
      JoinedStep(pieces, k);
      assert accumulator.totalBytes + accumulator.bufferSize == |accumulator.message|;
      var taken := accumulator.Update(pieces[k]);
    }
    assert pieces[..|pieces|] == pieces;
  }

  /** However a message of fewer than 2^61 bytes is cut up, the accumulator returns the hash of the whole. */
  method HashPieces<W(!new)>(h: Hashing<W>, pieces: seq<seq<Byte>>) returns (hash: seq<W>)
    requires h.Valid() && 8 * |Joined(pieces)| < TWO_TO_THE_64
    ensures hash == h.HashOf(Padded(Joined(pieces)))
  {
    var accumulator := new Accumulator(h);
    TakeAll(accumulator, pieces);
    ShortLength(accumulator.message);
    var result := accumulator.Finish();
    hash := result.value;
  }

  lemma JoinedStep(pieces: seq<seq<Byte>>, k: nat)
    requires k < |pieces|
    ensures Joined(pieces[..k + 1]) == Joined(pieces[..k]) + pieces[k]
    ensures |Joined(pieces[..k])| + |pieces[k]| <= |Joined(pieces)|
  {
    assert pieces[..k + 1][..k] == pieces[..k];
    JoinedPrefix(pieces, k + 1);
  }
}
