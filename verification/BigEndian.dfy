/** Numbers as bytes, most significant first. */
module BigEndian {

  type Byte = x: int | 0 <= x < 256

  const TWO_TO_THE_64 := 0x1_0000_0000_0000_0000

  function Pow256(k: nat): (p: nat)
    ensures p > 0
  {
    if k == 0 then 1 else 256 * Pow256(k - 1)
  }

  lemma TwoToThe64()
    ensures Pow256(8) == TWO_TO_THE_64
  {
    assert Pow256(1) == 256 && Pow256(2) == 0x1_0000;
    assert Pow256(3) == 0x100_0000 && Pow256(4) == 0x1_0000_0000;
    assert Pow256(5) == 0x100_0000_0000 && Pow256(6) == 0x1_0000_0000_0000;
    assert Pow256(7) == 0x100_0000_0000_0000;
  }

  /** The last `count` bytes of a number. */
  function NumberBytes(n: nat, count: nat): (bs: seq<Byte>)
    ensures |bs| == count
  {
    if count == 0 then [] else NumberBytes(n / 256, count - 1) + [n % 256]
  }

  function NumberOf(bs: seq<Byte>): nat {
    if bs == [] then 0 else 256 * NumberOf(bs[..|bs| - 1]) + bs[|bs| - 1]
  }

  lemma {:induction false} NumberRoundTrip(n: nat, count: nat)
    requires n < Pow256(count)
    ensures NumberOf(NumberBytes(n, count)) == n
  {
    if count == 0 {
    } else {
      NumberRoundTrip(n / 256, count - 1);
      assert NumberBytes(n, count)[..count - 1] == NumberBytes(n / 256, count - 1);
    }
  }

  lemma {:induction false} BytesRoundTrip(bs: seq<Byte>)
    ensures NumberOf(bs) < Pow256(|bs|) && NumberBytes(NumberOf(bs), |bs|) == bs
  {
    if bs == [] {
    } else {
      var n, high := NumberOf(bs), NumberOf(bs[..|bs| - 1]);
      BytesRoundTrip(bs[..|bs| - 1]);
      assert n / 256 == high && n % 256 == bs[|bs| - 1];
    }
  }

  /** As many bytes as a number needs determine it. */
  lemma NumberBytesDetermine(x: nat, y: nat, count: nat)
    requires x < Pow256(count) && y < Pow256(count) && NumberBytes(x, count) == NumberBytes(y, count)
    ensures x == y
  {
    NumberRoundTrip(x, count);
    NumberRoundTrip(y, count);
  }

  /** The byte a shift selects. */
  lemma {:induction false} ByteAt(n: nat, count: nat, k: nat)
    requires k < count
    ensures NumberBytes(n, count)[k] == (n / Pow256(count - 1 - k)) % 256
  {
    if k == count - 1 {
    } else {
      ByteAt(n / 256, count - 1, k);
      DivideAgain(n, Pow256(count - 2 - k));
    }
  }

  lemma DivideAgain(n: nat, p: nat)
    requires p > 0
    ensures n / 256 / p == n / (256 * p)
  {
    var q, r := n / 256 / p, (n / 256) % p;
    assert n / 256 == q * p + r;
    assert n == q * (256 * p) + (256 * r + n % 256);
    Quotient(n, q, 256 * r + n % 256, 256 * p);
  }

  lemma Quotient(n: nat, q: nat, r: nat, d: nat)
    requires r < d && n == q * d + r
    ensures n / d == q
  {
    Ordered(q + 1, n / d, d);
    Ordered(n / d + 1, q, d);
    assert (q + 1) * d == q * d + d;
    assert (n / d + 1) * d == (n / d) * d + d;
  }

  lemma Ordered(a: int, b: int, c: nat)
    ensures a <= b ==> a * c <= b * c
  {
  }
}
