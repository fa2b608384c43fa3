/** The words of SHA-256 and the functions on them (section 4.1.2 of FIPS 180-4). */
module Sha256Words {
  import opened Sha256Spec

  type Word = bv32

  function Join(b0: Word, b1: Word, b2: Word, b3: Word): Word {
    (b0 << 24) | (b1 << 16) | (b2 << 8) | b3
  }

  function Rotr(x: Word, n: bv6): Word
    requires 0 < n < 32
  {
    (x >> n) | (x << (32 - n))
  }

  function Ch(x: Word, y: Word, z: Word): Word { (x & y) ^ (!x & z) }
  function Maj(x: Word, y: Word, z: Word): Word { (x & y) ^ (x & z) ^ (y & z) }
  function Sum0(x: Word): Word { Rotr(x, 2) ^ Rotr(x, 13) ^ Rotr(x, 22) }
  function Sum1(x: Word): Word { Rotr(x, 6) ^ Rotr(x, 11) ^ Rotr(x, 25) }
  function Sigma0(x: Word): Word { Rotr(x, 7) ^ Rotr(x, 18) ^ (x >> 3) }
  function Sigma1(x: Word): Word { Rotr(x, 17) ^ Rotr(x, 19) ^ (x >> 10) }

  function Plus(x: Word, y: Word): Word { x + y }

  /** The code adds the four terms of a schedule word in the opposite order of the standard. */
  lemma ScheduleSumIsStandard(w16: Word, s0: Word, w7: Word, s1: Word)
    ensures w16 + s0 + w7 + s1 == s1 + w7 + s0 + w16
  {
  }

  lemma ThreeTerms(a: Word, b: Word, c: Word)
    ensures Plus(Plus(a, b), c) == a + b + c
  {
    assert Plus(a, b) == a + b;
  }

  lemma OneMoreTerm(three: Word, four: Word, a: Word, b: Word, c: Word, d: Word)
    requires three == a + b + c && four == Plus(three, d)
    ensures four == a + b + c + d
  {
  }

  lemma FourTerms(a: Word, b: Word, c: Word, d: Word)
    ensures Plus(Plus(Plus(a, b), c), d) == a + b + c + d
  {
    ThreeTerms(a, b, c);
    OneMoreTerm(Plus(Plus(a, b), c), Plus(Plus(Plus(a, b), c), d), a, b, c, d);
  }

  /** The bytes of a word, most significant first. */
  function WordBytes(w: Word): (bs: seq<bv8>)
    ensures |bs| == 4
  {
    [(w >> 24) as bv8, ((w >> 16) & 0xff) as bv8, ((w >> 8) & 0xff) as bv8, (w & 0xff) as bv8]
  }

  /** Taking a word apart loses nothing. */
  lemma WordRoundTrip(w: Word)
    ensures var bs := WordBytes(w); Join(bs[0] as Word, bs[1] as Word, bs[2] as Word, bs[3] as Word) == w
  {
    assert w >> 24 <= 0xff;
  }

  function BytesOf(ws: seq<Word>): (bs: seq<bv8>)
    ensures |bs| == 4 * |ws|
  {
    if ws == [] then [] else BytesOf(ws[..|ws| - 1]) + WordBytes(ws[|ws| - 1])
  }

  method ToBytes(words: seq<Word>) returns (digest: seq<bv8>)
    ensures digest == BytesOf(words)
  {
    digest := [];
    for word := 0 to |words|
      invariant digest == BytesOf(words[..word])
    {
      digest := digest + WordBytes(words[word]);
      assert words[..word + 1][..word] == words[..word];
    }
    assert words[..|words|] == words;
  }
}
