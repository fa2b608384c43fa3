/**
 SHA-256 as FIPS 180-4 defines it: padding (5.1.1), parsing (5.2.1) and hash computation (6.2.2),
 over any type of words. The standard's words and functions on them are in `Sha256Words`.
 */
module Sha256Spec {
  import opened BigEndian

  const BLOCK := 64

  /** The functions of section 4.1.2, addition, the big-endian reading of four bytes, and the constants. */
  datatype Primitives<!W> = Primitives(
    initial: seq<W>, constants: seq<W>,
    join: (Byte, Byte, Byte, Byte) -> W, add: (W, W) -> W,
    ch: (W, W, W) -> W, maj: (W, W, W) -> W,
    sum0: W -> W, sum1: W -> W, sigma0: W -> W, sigma1: W -> W)
  {
    predicate Valid() { |initial| == 8 && |constants| == 64 }
  }

  // ------------------------------------------------------ computation (6.2.2)

  function WordAt<W>(p: Primitives<W>, block: seq<Byte>, t: nat): W
    requires |block| == BLOCK && t < 16
  {
    p.join(block[4 * t], block[4 * t + 1], block[4 * t + 2], block[4 * t + 3])
  }

  function Extended<W>(p: Primitives<W>, w16: W, w15: W, w7: W, w2: W): W {
    p.add(p.add(p.add(w16, p.sigma0(w15)), w7), p.sigma1(w2))
  }

  /** The first `n` words of the message schedule. */
  function Schedule<W>(p: Primitives<W>, block: seq<Byte>, n: nat): (w: seq<W>)
    requires |block| == BLOCK && n <= 64
    ensures |w| == n
  {
    if n == 0 then []
    else
      var w := Schedule(p, block, n - 1);
      var t := n - 1;
      w + [if t < 16 then WordAt(p, block, t) else Extended(p, w[t - 16], w[t - 15], w[t - 7], w[t - 2])]
  }

  lemma {:induction false} ScheduleGrows<W>(p: Primitives<W>, block: seq<Byte>, t: nat, n: nat)
    requires |block| == BLOCK && t < n <= 64
    ensures Schedule(p, block, n)[t] == Schedule(p, block, t + 1)[t]
    decreases n
  {
    if n == t + 1 {
    } else {
      ScheduleGrows(p, block, t, n - 1);
    }
  }

  lemma ScheduleAgrees<W>(p: Primitives<W>, block: seq<Byte>, n: nat, t: nat)
    requires |block| == BLOCK && t < n <= 64
    ensures Schedule(p, block, n)[t] == Schedule(p, block, 64)[t]
  {
    ScheduleGrows(p, block, t, n);
    ScheduleGrows(p, block, t, 64);
  }

  /** Each word of the whole schedule, in terms of the block or of the words before it. */
  lemma ScheduleWord<W>(p: Primitives<W>, block: seq<Byte>, t: nat)
    requires |block| == BLOCK && t < 64
    ensures var w := Schedule(p, block, 64);
            w[t] == if t < 16 then WordAt(p, block, t) else Extended(p, w[t - 16], w[t - 15], w[t - 7], w[t - 2])
  {
    ScheduleGrows(p, block, t, 64);
    if t >= 16 {
      ScheduleAgrees(p, block, t, t - 2);
      ScheduleAgrees(p, block, t, t - 7);
      ScheduleAgrees(p, block, t, t - 15);
      ScheduleAgrees(p, block, t, t - 16);
    }
  }

  datatype Working<W> = Working(a: W, b: W, c: W, d: W, e: W, f: W, g: W, h: W)

  function Round<W>(p: Primitives<W>, v: Working<W>, k: W, w: W): Working<W> {
    var t1 := p.add(p.add(p.add(p.add(v.h, p.sum1(v.e)), p.ch(v.e, v.f, v.g)), k), w);
    var t2 := p.add(p.sum0(v.a), p.maj(v.a, v.b, v.c));
    Working(p.add(t1, t2), v.a, v.b, v.c, p.add(v.d, t1), v.e, v.f, v.g)
  }

  function Rounds<W>(p: Primitives<W>, v: Working<W>, w: seq<W>, n: nat): Working<W>
    requires p.Valid() && |w| == 64 && n <= 64
  {
    if n == 0 then v else Round(p, Rounds(p, v, w, n - 1), p.constants[n - 1], w[n - 1])
  }

  function Load<W>(hash: seq<W>): Working<W>
    requires |hash| == 8
  {
    Working(hash[0], hash[1], hash[2], hash[3], hash[4], hash[5], hash[6], hash[7])
  }

  function AddUp<W>(p: Primitives<W>, hash: seq<W>, v: Working<W>): (r: seq<W>)
    requires |hash| == 8
    ensures |r| == 8
  {
    [p.add(hash[0], v.a), p.add(hash[1], v.b), p.add(hash[2], v.c), p.add(hash[3], v.d),
     p.add(hash[4], v.e), p.add(hash[5], v.f), p.add(hash[6], v.g), p.add(hash[7], v.h)]
  }

  function Compress<W>(p: Primitives<W>, hash: seq<W>, block: seq<Byte>): (r: seq<W>)
    requires p.Valid() && |hash| == 8 && |block| == BLOCK
    ensures |r| == 8
  {
    AddUp(p, hash, Rounds(p, Load(hash), Schedule(p, block, |p.constants|), |p.constants|))
  }

  /** Merkle-Damgard iteration of a compression function over the blocks of a padded message. */
  function HashBlocks<W>(compress: (seq<W>, seq<Byte>) -> seq<W>, initial: seq<W>, bytes: seq<Byte>): seq<W>
    requires |bytes| % BLOCK == 0
  {
    if bytes == [] then initial
    else compress(HashBlocks(compress, initial, bytes[..|bytes| - BLOCK]), bytes[|bytes| - BLOCK..])
  }

  /** Only where this is mentioned do proofs look inside the compression function. */
  predicate Inside<W>(hash: seq<W>, block: seq<Byte>) { true }

  /** The primitives together with the compression function they give. */
  datatype Hashing<!W(!new)> = Hashing(primitives: Primitives<W>, compress: (seq<W>, seq<Byte>) -> seq<W>) {
    ghost predicate Valid() {
      && primitives.Valid()
      && forall hash, block {:trigger Inside(hash, block)} | |hash| == 8 && |block| == BLOCK && Inside(hash, block) ::
           compress(hash, block) == Compress(primitives, hash, block)
    }

    function HashOf(bytes: seq<Byte>): seq<W>
      requires |bytes| % BLOCK == 0
    {
      HashBlocks(compress, primitives.initial, bytes)
    }
  }

  // ---------------------------------------------------------- padding (5.1.1)

  predicate FillsBlock(length: nat, zeros: nat) { (length + 1 + zeros) % BLOCK == 56 }

  /** The fewest zero bytes that leave room for exactly the length field. */
  function ZeroCount(length: nat): (k: nat)
    ensures k < BLOCK && FillsBlock(length, k)
    ensures forall j | 0 <= j < k :: !FillsBlock(length, j)
  {
    (119 - length % BLOCK) % BLOCK
  }

  function Zeros(n: nat): (z: seq<Byte>)
    ensures |z| == n
  {
    seq(n, _ => 0)
  }

  /** A message with its padding, given what the length field holds. */
  function PaddedWith(m: seq<Byte>, bits: nat): (p: seq<Byte>)
    ensures |p| % BLOCK == 0
  {
    m + [0x80] + Zeros(ZeroCount(|m|)) + NumberBytes(bits, 8)
  }

  /** The standard pads messages of fewer than 2^64 bits. */
  function Padded(m: seq<Byte>): seq<Byte>
    requires 8 * |m| < TWO_TO_THE_64
  {
    PaddedWith(m, 8 * |m|)
  }

  // ------------------------------------------------------------ about padding

  /** No two messages share their padded form. */
  lemma PaddingIsInjective(m: seq<Byte>, n: seq<Byte>)
    requires 8 * |m| < TWO_TO_THE_64 && 8 * |n| < TWO_TO_THE_64 && Padded(m) == Padded(n)
    ensures m == n
  {
    TwoToThe64();
    var p, q := Padded(m), Padded(n);
    assert p[|p| - 8..] == NumberBytes(8 * |m|, 8) && q[|q| - 8..] == NumberBytes(8 * |n|, 8);
    NumberBytesDetermine(8 * |m|, 8 * |n|, 8);
    assert p[..|m|] == m && q[..|n|] == n;
  }
}
