/** SHA-256 with the constants of the standard (sections 4.2.2 and 5.3.3 of FIPS 180-4). */
module Sha256Standard {
  import opened BigEndian
  import opened Sha256Spec
  import opened Sha256
  import opened Sha256Words

  const INITIAL_HASH: seq<Word> := [
    0x6a09e667, 0xbb67ae85, 0x3c6ef372, 0xa54ff53a, 0x510e527f, 0x9b05688c, 0x1f83d9ab, 0x5be0cd19]

  const ROUND_CONSTANTS: seq<Word> :=
    [0x428a2f98, 0x71374491, 0xb5c0fbcf, 0xe9b5dba5, 0x3956c25b, 0x59f111f1, 0x923f82a4, 0xab1c5ed5] +
    [0xd807aa98, 0x12835b01, 0x243185be, 0x550c7dc3, 0x72be5d74, 0x80deb1fe, 0x9bdc06a7, 0xc19bf174] +
    [0xe49b69c1, 0xefbe4786, 0x0fc19dc6, 0x240ca1cc, 0x2de92c6f, 0x4a7484aa, 0x5cb0a9dc, 0x76f988da] +
    [0x983e5152, 0xa831c66d, 0xb00327c8, 0xbf597fc7, 0xc6e00bf3, 0xd5a79147, 0x06ca6351, 0x14292967] +
    [0x27b70a85, 0x2e1b2138, 0x4d2c6dfc, 0x53380d13, 0x650a7354, 0x766a0abb, 0x81c2c92e, 0x92722c85] +
    [0xa2bfe8a1, 0xa81a664b, 0xc24b8b70, 0xc76c51a3, 0xd192e819, 0xd6990624, 0xf40e3585, 0x106aa070] +
    [0x19a4c116, 0x1e376c08, 0x2748774c, 0x34b0bcb5, 0x391c0cb3, 0x4ed8aa4a, 0x5b9cca4f, 0x682e6ff3] +
    [0x748f82ee, 0x78a5636f, 0x84c87814, 0x8cc70208, 0x90befffa, 0xa4506ceb, 0xbef9a3f7, 0xc67178f2]

  function Words(): Primitives<Word> { WordsWith(INITIAL_HASH, ROUND_CONSTANTS) }

  function WordsWith(initial: seq<Word>, constants: seq<Word>): Primitives<Word> {
    Primitives(initial, constants,
               (b0: Byte, b1: Byte, b2: Byte, b3: Byte) => Join(b0 as Word, b1 as Word, b2 as Word, b3 as Word),
               Plus, Ch, Maj, Sum0, Sum1, Sigma0, Sigma1)
  }

  /** The compression function the words give. */
  function Standard(): Hashing<Word> {
    Hashing(Words(),
            (hash: seq<Word>, block: seq<Byte>) =>
              if |hash| == 8 && |block| == BLOCK then Compress(Words(), hash, block) else hash)
  }

  lemma StandardIsValid()
    ensures Standard().Valid()
  {
  }

  /** What the code adds, in its order. */
  lemma ExtendedAdds(p: Primitives<Word>, initial: seq<Word>, constants: seq<Word>, w16: Word, w15: Word, w7: Word,
                     w2: Word)
    requires p == WordsWith(initial, constants)
    ensures Extended(p, w16, w15, w7, w2) == p.add(p.add(p.add(w16, p.sigma0(w15)), w7), p.sigma1(w2))
    ensures forall x, y :: p.add(x, y) == Plus(x, y)
    ensures p.sigma0(w15) == Sigma0(w15) && p.sigma1(w2) == Sigma1(w2)
  {
  }

  lemma SameSum(w16: Word, s0: Word, w7: Word, s1: Word)
    ensures Plus(Plus(Plus(w16, s0), w7), s1) == Plus(Plus(Plus(s1, w7), s0), w16)
  {
    FourTerms(w16, s0, w7, s1);
    FourTerms(s1, w7, s0, w16);
    ScheduleSumIsStandard(w16, s0, w7, s1);
  }

  /** The standard adds the same terms in the opposite order. */
  lemma ExtendedIsStandard(p: Primitives<Word>, initial: seq<Word>, constants: seq<Word>, w16: Word, w15: Word,
                           w7: Word, w2: Word)
    requires p == WordsWith(initial, constants)
    ensures Extended(p, w16, w15, w7, w2) == Plus(Plus(Plus(Sigma1(w2), w7), Sigma0(w15)), w16)
  {
    ExtendedAdds(p, initial, constants, w16, w15, w7, w2);
    SameSum(w16, p.sigma0(w15), w7, p.sigma1(w2));
  }

  /**
   Step 1 of the computation: the first sixteen words of the schedule are the block's, and each
   later one is the standard's sum of earlier ones.
   */
  lemma ScheduleIsStandard(p: Primitives<Word>, initial: seq<Word>, constants: seq<Word>, block: seq<Byte>, t: nat)
    requires p == WordsWith(initial, constants) && |block| == BLOCK && t < 64
    ensures var w := Schedule(p, block, 64);
            if t < 16 then w[t] == WordAt(p, block, t)
            else w[t] == Plus(Plus(Plus(Sigma1(w[t - 2]), w[t - 7]), Sigma0(w[t - 15])), w[t - 16])
  {
    ScheduleWord(p, block, t);
    if t >= 16 {
      var w := Schedule(p, block, 64);
      ExtendedIsStandard(p, initial, constants, w[t - 16], w[t - 15], w[t - 7], w[t - 2]);
    }
  }

  /** The message digest of the standard. */
  function Digest(m: seq<Byte>): seq<bv8>
    requires 8 * |m| < TWO_TO_THE_64
  {
    BytesOf(Standard().HashOf(Padded(m)))
  }

  /** The one-shot hash of the repository. */
  method Sha256Of(bytes: seq<Byte>) returns (digest: seq<bv8>)
    requires 8 * |bytes| < TWO_TO_THE_64
    ensures digest == Digest(bytes)
  {
    assert [bytes][..0] == [];
    assert Joined([bytes]) == [] + bytes == bytes;
    StandardIsValid();
    var hash := HashPieces(Standard(), [bytes]);
    digest := ToBytes(hash);
  }
}
