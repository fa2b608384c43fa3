/**
 The bits of the sums that SHA-256 takes of rotated and shifted words (section 4.1.2 of FIPS 180-4), for
 any mask, case by case: a bit is set when an odd number of three bits is.
 */
module Sha256Sums {
  import opened Sha256Words

  /** All bits of a word under a mask are set, or none is; of a single bit one or the other always holds. */
  predicate Set(x: Word, m: Word) { x & m == m }
  predicate Clear(x: Word, m: Word) { x & m == 0 }

  predicate All(x: Word, m: Word, b: bool) { if b then Set(x, m) else Clear(x, m) }

  lemma OneBit(x: Word, n: bv6)
    requires n < 32
    ensures Set(x, 1 << n) != Clear(x, 1 << n)
  {
  }

  /** The mask `n` places higher, going round. */
  function Higher(m: Word, n: bv6): Word
    requires 0 < n < 32
  {
    (m << n) | (m >> (32 - n))
  }

  predicate Three(x: Word, m0: Word, m1: Word, m2: Word, a: bool, b: bool, c: bool) {
    All(x, m0, a) && All(x, m1, b) && All(x, m2, c)
  }

  predicate Odd(a: bool, b: bool, c: bool) { (a != b) != c }

  lemma Sum0Case0(x: Word, m: Word)
    ensures Three(x, Higher(m, 2), Higher(m, 13), Higher(m, 22), true, true, true) ==> Set(Sum0(x), m)
  {
  }

  lemma Sum0Case1(x: Word, m: Word)
    ensures Three(x, Higher(m, 2), Higher(m, 13), Higher(m, 22), true, true, false) ==> Clear(Sum0(x), m)
  {
  }

  lemma Sum0Case2(x: Word, m: Word)
    ensures Three(x, Higher(m, 2), Higher(m, 13), Higher(m, 22), true, false, true) ==> Clear(Sum0(x), m)
  {
  }

  lemma Sum0Case3(x: Word, m: Word)
    ensures Three(x, Higher(m, 2), Higher(m, 13), Higher(m, 22), true, false, false) ==> Set(Sum0(x), m)
  {
  }

  lemma Sum0Case4(x: Word, m: Word)
    ensures Three(x, Higher(m, 2), Higher(m, 13), Higher(m, 22), false, true, true) ==> Clear(Sum0(x), m)
  {
  }

  lemma Sum0Case5(x: Word, m: Word)
    ensures Three(x, Higher(m, 2), Higher(m, 13), Higher(m, 22), false, true, false) ==> Set(Sum0(x), m)
  {
  }

  lemma Sum0Case6(x: Word, m: Word)
    ensures Three(x, Higher(m, 2), Higher(m, 13), Higher(m, 22), false, false, true) ==> Set(Sum0(x), m)
  {
  }

  lemma Sum0Case7(x: Word, m: Word)
    ensures Three(x, Higher(m, 2), Higher(m, 13), Higher(m, 22), false, false, false) ==> Clear(Sum0(x), m)
  {
  }

  lemma Sum1Case0(x: Word, m: Word)
    ensures Three(x, Higher(m, 6), Higher(m, 11), Higher(m, 25), true, true, true) ==> Set(Sum1(x), m)
  {
  }

  lemma Sum1Case1(x: Word, m: Word)
    ensures Three(x, Higher(m, 6), Higher(m, 11), Higher(m, 25), true, true, false) ==> Clear(Sum1(x), m)
  {
  }

  lemma Sum1Case2(x: Word, m: Word)
    ensures Three(x, Higher(m, 6), Higher(m, 11), Higher(m, 25), true, false, true) ==> Clear(Sum1(x), m)
  {
  }

  lemma Sum1Case3(x: Word, m: Word)
    ensures Three(x, Higher(m, 6), Higher(m, 11), Higher(m, 25), true, false, false) ==> Set(Sum1(x), m)
  {
  }

  lemma Sum1Case4(x: Word, m: Word)
    ensures Three(x, Higher(m, 6), Higher(m, 11), Higher(m, 25), false, true, true) ==> Clear(Sum1(x), m)
  {
  }

  lemma Sum1Case5(x: Word, m: Word)
    ensures Three(x, Higher(m, 6), Higher(m, 11), Higher(m, 25), false, true, false) ==> Set(Sum1(x), m)
  {
  }

  lemma Sum1Case6(x: Word, m: Word)
    ensures Three(x, Higher(m, 6), Higher(m, 11), Higher(m, 25), false, false, true) ==> Set(Sum1(x), m)
  {
  }

  lemma Sum1Case7(x: Word, m: Word)
    ensures Three(x, Higher(m, 6), Higher(m, 11), Higher(m, 25), false, false, false) ==> Clear(Sum1(x), m)
  {
  }

  lemma Sigma0Case0(x: Word, m: Word)
    ensures m < 0x2000_0000 && Three(x, Higher(m, 7), Higher(m, 18), m << 3, true, true, true) ==> Set(Sigma0(x), m)
  {
  }

  lemma Sigma0Case1(x: Word, m: Word)
    ensures Three(x, Higher(m, 7), Higher(m, 18), m << 3, true, true, false) ==> Clear(Sigma0(x), m)
  {
  }

  lemma Sigma0Case2(x: Word, m: Word)
    ensures m < 0x2000_0000 && Three(x, Higher(m, 7), Higher(m, 18), m << 3, true, false, true) ==> Clear(Sigma0(x), m)
  {
  }

  lemma Sigma0Case3(x: Word, m: Word)
    ensures Three(x, Higher(m, 7), Higher(m, 18), m << 3, true, false, false) ==> Set(Sigma0(x), m)
  {
  }

  lemma Sigma0Case4(x: Word, m: Word)
    ensures m < 0x2000_0000 && Three(x, Higher(m, 7), Higher(m, 18), m << 3, false, true, true) ==> Clear(Sigma0(x), m)
  {
  }

  lemma Sigma0Case5(x: Word, m: Word)
    ensures Three(x, Higher(m, 7), Higher(m, 18), m << 3, false, true, false) ==> Set(Sigma0(x), m)
  {
  }

  lemma Sigma0Case6(x: Word, m: Word)
    ensures m < 0x2000_0000 && Three(x, Higher(m, 7), Higher(m, 18), m << 3, false, false, true) ==> Set(Sigma0(x), m)
  {
  }

  lemma Sigma0Case7(x: Word, m: Word)
    ensures Three(x, Higher(m, 7), Higher(m, 18), m << 3, false, false, false) ==> Clear(Sigma0(x), m)
  {
  }

  lemma Sigma1Case0(x: Word, m: Word)
    ensures m < 0x40_0000 && Three(x, Higher(m, 17), Higher(m, 19), m << 10, true, true, true) ==> Set(Sigma1(x), m)
  {
  }

  lemma Sigma1Case1(x: Word, m: Word)
    ensures Three(x, Higher(m, 17), Higher(m, 19), m << 10, true, true, false) ==> Clear(Sigma1(x), m)
  {
  }

  lemma Sigma1Case2(x: Word, m: Word)
    ensures m < 0x40_0000 && Three(x, Higher(m, 17), Higher(m, 19), m << 10, true, false, true) ==> Clear(Sigma1(x), m)
  {
  }

  lemma Sigma1Case3(x: Word, m: Word)
    ensures Three(x, Higher(m, 17), Higher(m, 19), m << 10, true, false, false) ==> Set(Sigma1(x), m)
  {
  }

  lemma Sigma1Case4(x: Word, m: Word)
    ensures m < 0x40_0000 && Three(x, Higher(m, 17), Higher(m, 19), m << 10, false, true, true) ==> Clear(Sigma1(x), m)
  {
  }

  lemma Sigma1Case5(x: Word, m: Word)
    ensures Three(x, Higher(m, 17), Higher(m, 19), m << 10, false, true, false) ==> Set(Sigma1(x), m)
  {
  }

  lemma Sigma1Case6(x: Word, m: Word)
    ensures m < 0x40_0000 && Three(x, Higher(m, 17), Higher(m, 19), m << 10, false, false, true) ==> Set(Sigma1(x), m)
  {
  }

  lemma Sigma1Case7(x: Word, m: Word)
    ensures Three(x, Higher(m, 17), Higher(m, 19), m << 10, false, false, false) ==> Clear(Sigma1(x), m)
  {
  }

  /** The sums of three rotations. */
  lemma Sum0Bits(x: Word, m: Word, a: bool, b: bool, c: bool)
    ensures Three(x, Higher(m, 2), Higher(m, 13), Higher(m, 22), a, b, c) ==>
              All(Sum0(x), m, Odd(a, b, c))
  {
    Sum0Case0(x, m);
    Sum0Case1(x, m);
    Sum0Case2(x, m);
    Sum0Case3(x, m);
    Sum0Case4(x, m);
    Sum0Case5(x, m);
    Sum0Case6(x, m);
    Sum0Case7(x, m);
  }

  lemma Sum1Bits(x: Word, m: Word, a: bool, b: bool, c: bool)
    ensures Three(x, Higher(m, 6), Higher(m, 11), Higher(m, 25), a, b, c) ==>
              All(Sum1(x), m, Odd(a, b, c))
  {
    Sum1Case0(x, m);
    Sum1Case1(x, m);
    Sum1Case2(x, m);
    Sum1Case3(x, m);
    Sum1Case4(x, m);
    Sum1Case5(x, m);
    Sum1Case6(x, m);
    Sum1Case7(x, m);
  }

  /** The sums of two rotations and a shift, which brings in zeros from above. */
  lemma Sigma0Bits(x: Word, m: Word, a: bool, b: bool, c: bool)
    ensures (c ==> m < 0x2000_0000) && Three(x, Higher(m, 7), Higher(m, 18), m << 3, a, b, c) ==>
              All(Sigma0(x), m, Odd(a, b, c))
  {
    Sigma0Case0(x, m);
    Sigma0Case1(x, m);
    Sigma0Case2(x, m);
    Sigma0Case3(x, m);
    Sigma0Case4(x, m);
    Sigma0Case5(x, m);
    Sigma0Case6(x, m);
    Sigma0Case7(x, m);
  }

  lemma Sigma1Bits(x: Word, m: Word, a: bool, b: bool, c: bool)
    ensures (c ==> m < 0x40_0000) && Three(x, Higher(m, 17), Higher(m, 19), m << 10, a, b, c) ==>
              All(Sigma1(x), m, Odd(a, b, c))
  {
    Sigma1Case0(x, m);
    Sigma1Case1(x, m);
    Sigma1Case2(x, m);
    Sigma1Case3(x, m);
    Sigma1Case4(x, m);
    Sigma1Case5(x, m);
    Sigma1Case6(x, m);
    Sigma1Case7(x, m);
  }
}
