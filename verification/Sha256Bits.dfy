/**
 What SHA-256 computes, told apart from the way the code computes it: choice and majority bit by bit, the
 rounds of a block as two recurrences, and the padded message byte by byte.
 */
module Sha256Bits {
  import opened BigEndian
  import opened Sha256Spec
  import opened Sha256Words
  import opened Sha256Sums
  import opened Sha256Standard

  /** The first word's bits choose between those of the other two. */
  lemma ChooseBits(x: Word, y: Word, z: Word, m: Word)
    ensures Set(x, m) ==> Ch(x, y, z) & m == y & m
    ensures Clear(x, m) ==> Ch(x, y, z) & m == z & m
  {
  }

  /** Two words that agree decide. */
  lemma MajorityBits(x: Word, y: Word, z: Word, m: Word)
    ensures x & m == y & m || x & m == z & m ==> Maj(x, y, z) & m == x & m
    ensures y & m == z & m ==> Maj(x, y, z) & m == y & m
  {
  }

  /** The bytes of a word, the highest first. */
  lemma JoinBytes(b0: Word, b1: Word, b2: Word, b3: Word)
    requires b0 <= 0xff && b1 <= 0xff && b2 <= 0xff && b3 <= 0xff
    ensures var w := Join(b0, b1, b2, b3);
            w >> 24 == b0 && (w >> 16) & 0xff == b1 && (w >> 8) & 0xff == b2 && w & 0xff == b3
  {
  }

  // ------------------------------------------------------------ rounds (section 6.2.2)

  /**
   The working variables of a block as two sequences: what `a` and `e` have been, the oldest first. The
   other six are earlier values of these.
   */
  ghost predicate Recurs<W>(p: Primitives<W>, hash: seq<W>, w: seq<W>, a: seq<W>, e: seq<W>) {
    && p.Valid() && |hash| == 8 && |w| == 64 && |a| == |e| == 68
    && a[0] == hash[3] && a[1] == hash[2] && a[2] == hash[1] && a[3] == hash[0]
    && e[0] == hash[7] && e[1] == hash[6] && e[2] == hash[5] && e[3] == hash[4]
    && forall t | 0 <= t < 64 ::
         a[t + 4] == p.add(Mixed(p, w, e, t), Kept(p, a, t)) && e[t + 4] == p.add(a[t], Mixed(p, w, e, t))
  }

  /** What a round adds to both sequences, and what only to the first. */
  ghost function Mixed<W>(p: Primitives<W>, w: seq<W>, e: seq<W>, t: nat): W
    requires p.Valid() && |w| == 64 && |e| == 68 && t < 64
  {
    p.add(p.add(p.add(p.add(e[t], p.sum1(e[t + 3])), p.ch(e[t + 3], e[t + 2], e[t + 1])), p.constants[t]), w[t])
  }

  ghost function Kept<W>(p: Primitives<W>, a: seq<W>, t: nat): W
    requires |a| == 68 && t < 64
  {
    p.add(p.sum0(a[t + 3]), p.maj(a[t + 3], a[t + 2], a[t + 1]))
  }

  lemma {:induction false} RoundsRecur<W>(p: Primitives<W>, hash: seq<W>, w: seq<W>, a: seq<W>, e: seq<W>, n: nat)
    requires Recurs(p, hash, w, a, e) && n <= 64
    ensures Rounds(p, Load(hash), w, n) ==
            Working(a[n + 3], a[n + 2], a[n + 1], a[n], e[n + 3], e[n + 2], e[n + 1], e[n])
  {
    if n == 0 {
    } else {
      RoundsRecur(p, hash, w, a, e, n - 1);
      assert a[n - 1 + 4] == p.add(Mixed(p, w, e, n - 1), Kept(p, a, n - 1));
    }
  }

  /** The compression of a block adds the last values of both sequences to the hash, the newest first. */
  lemma CompressionRecurs<W>(p: Primitives<W>, hash: seq<W>, block: seq<Byte>, a: seq<W>, e: seq<W>)
    requires |block| == BLOCK && Recurs(p, hash, Schedule(p, block, 64), a, e)
    ensures Compress(p, hash, block) ==
            [p.add(hash[0], a[67]), p.add(hash[1], a[66]), p.add(hash[2], a[65]), p.add(hash[3], a[64]),
             p.add(hash[4], e[67]), p.add(hash[5], e[66]), p.add(hash[6], e[65]), p.add(hash[7], e[64])]
  {
    RoundsRecur(p, hash, Schedule(p, block, 64), a, e, 64);
  }

  /** The functions and constants the digest is computed with. */
  lemma WordsAreStandard(x: Word, y: Word, z: Word)
    ensures Words().constants == ROUND_CONSTANTS && Words().initial == INITIAL_HASH
    ensures Words().ch(x, y, z) == Ch(x, y, z) && Words().maj(x, y, z) == Maj(x, y, z) && Words().add(x, y) == x + y
    ensures Words().sum0(x) == Sum0(x) && Words().sum1(x) == Sum1(x)
    ensures Words().sigma0(x) == Sigma0(x) && Words().sigma1(x) == Sigma1(x)
  {
  }

  // ------------------------------------------------- padding (5.1.1) and the message's blocks

  /** The message, a set bit, the fewest zeros that fill a block, and the length in bits. */
  lemma PaddedBytes(m: seq<Byte>)
    requires 8 * |m| < TWO_TO_THE_64
    ensures var p := Padded(m);
            && |p| % BLOCK == 0 && |m| + 9 <= |p| < |m| + 9 + BLOCK
            && p[..|m|] == m && p[|m|] == 0x80 && (forall i | |m| < i < |p| - 8 :: p[i] == 0)
            && NumberOf(p[|p| - 8..]) == 8 * |m|
  {
    TwoToThe64();
    var p := Padded(m);
    NumberRoundTrip(8 * |m|, 8);
    assert p[|p| - 8..] == NumberBytes(8 * |m|, 8);
  }

  /** The hash values after each of the blocks, the initial one first. */
  ghost predicate Chained(hashes: seq<seq<Word>>, bytes: seq<Byte>) {
    && |bytes| % BLOCK == 0 && |hashes| == |bytes| / BLOCK + 1 && hashes[0] == INITIAL_HASH
    && forall i | 0 <= i < |hashes| - 1 ::
         |hashes[i]| == 8 && hashes[i + 1] == Compress(Words(), hashes[i], bytes[BLOCK * i..BLOCK * i + BLOCK])
  }

  lemma ChainInit(hashes: seq<seq<Word>>, bytes: seq<Byte>)
    requires Chained(hashes, bytes) && bytes != []
    ensures |bytes| >= BLOCK && |hashes| >= 2 && Chained(hashes[..|hashes| - 1], bytes[..|bytes| - BLOCK])
  {
    var init := bytes[..|bytes| - BLOCK];
    forall i | 0 <= i < |hashes| - 2 ensures init[BLOCK * i..BLOCK * i + BLOCK] == bytes[BLOCK * i..BLOCK * i + BLOCK] {
    }
  }

  lemma {:induction false} HashIsChained(hashes: seq<seq<Word>>, bytes: seq<Byte>)
    requires Chained(hashes, bytes)
    ensures Standard().HashOf(bytes) == hashes[|hashes| - 1]
    decreases |bytes|
  {
    if bytes == [] {
    } else {
      ChainInit(hashes, bytes);
      HashIsChained(hashes[..|hashes| - 1], bytes[..|bytes| - BLOCK]);
      var last := |hashes| - 2;
      assert hashes[last + 1] == Compress(Words(), hashes[last], bytes[BLOCK * last..BLOCK * last + BLOCK]);
      assert bytes[BLOCK * last..BLOCK * last + BLOCK] == bytes[|bytes| - BLOCK..];
    }
  }

  lemma LastIsHash(hashes: seq<seq<Word>>, bytes: seq<Byte>)
    requires Chained(hashes, bytes)
    ensures |hashes[|hashes| - 1]| == 8
  {
    if |hashes| > 1 {
      var last := |hashes| - 2;
      assert hashes[last + 1] == Compress(Words(), hashes[last], bytes[BLOCK * last..BLOCK * last + BLOCK]);
    }
  }

  lemma {:induction false} BytesOfWords(ws: seq<Word>, i: nat)
    requires i < |ws|
    ensures BytesOf(ws)[4 * i..4 * i + 4] == WordBytes(ws[i])
  {
    if i == |ws| - 1 {
    } else {
      BytesOfWords(ws[..|ws| - 1], i);
    }
  }

  /** The digest is made of the words of the last hash value, block after block of the padded message. */
  lemma DigestIsStandard(m: seq<Byte>, hashes: seq<seq<Word>>, i: nat)
    requires 8 * |m| < TWO_TO_THE_64 && Chained(hashes, Padded(m)) && i < 8
    ensures |hashes[|hashes| - 1]| == 8 && |Digest(m)| == 32
    ensures Digest(m)[4 * i..4 * i + 4] == WordBytes(hashes[|hashes| - 1][i])
  {
    HashIsChained(hashes, Padded(m));
    LastIsHash(hashes, Padded(m));
    BytesOfWords(hashes[|hashes| - 1], i);
  }
}
