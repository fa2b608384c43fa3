/**
 The diagnostic reader of sequence parameter sets: bits most significant first, Exp-Golomb codes
 (section 9.1 of ITU-T H.264), start codes (Annex B) and emulation prevention (section 7.4.1).
 */
module SpsProbe {
  import opened Options

  type Byte = x: int | 0 <= x < 256

  function Pow2(n: nat): (p: nat)
    ensures p > 0
  {
    if n == 0 then 1 else 2 * Pow2(n - 1)
  }

  // --------------------------------------------------------------- bits and bytes

  /** The number some bits spell, most significant first. */
  function Number(bits: seq<bool>): (n: nat)
    ensures n < Pow2(|bits|)
  {
    if bits == [] then 0 else 2 * Number(bits[..|bits| - 1]) + (if bits[|bits| - 1] then 1 else 0)
  }

  /** The low `count` bits of a number, most significant first. */
  function Spelled(n: nat, count: nat): (bits: seq<bool>)
    ensures |bits| == count
  {
    if count == 0 then [] else Spelled(n / 2, count - 1) + [n % 2 == 1]
  }

  lemma {:induction false} SpelledIsRead(n: nat, count: nat)
    requires n < Pow2(count)
    ensures Number(Spelled(n, count)) == n
  {
    if count == 0 {
    } else {
      SpelledIsRead(n / 2, count - 1);
      assert Spelled(n, count)[..count - 1] == Spelled(n / 2, count - 1);
    }
  }

  lemma {:induction false} ReadIsSpelled(bits: seq<bool>)
    ensures Spelled(Number(bits), |bits|) == bits
  {
    if bits == [] {
    } else {
      var init, n := bits[..|bits| - 1], Number(bits);
      assert n / 2 == Number(init) && (n % 2 == 1 <==> bits[|bits| - 1]);
      ReadIsSpelled(init);
    }
  }

  function BitsOf(bytes: seq<Byte>): (bits: seq<bool>)
    ensures |bits| == 8 * |bytes|
  {
    if bytes == [] then [] else BitsOf(bytes[..|bytes| - 1]) + Spelled(bytes[|bytes| - 1], 8)
  }

  lemma BitsOfMore(bytes: seq<Byte>, b: Byte)
    ensures BitsOf(bytes + [b]) == BitsOf(bytes) + Spelled(b, 8)
  {
    assert (bytes + [b])[..|bytes|] == bytes;
  }

  /** The bit a shift selects. */
  lemma {:induction false} SpelledAt(n: nat, count: nat, i: nat)
    requires i < count
    ensures Spelled(n, count)[i] <==> (n / Pow2(count - 1 - i)) % 2 == 1
  {
    if i == count - 1 {
    } else {
      SpelledAt(n / 2, count - 1, i);
      HalfThenMore(n, count - 2 - i);
    }
  }

  lemma HalfThenMore(n: nat, k: nat)
    ensures n / 2 / Pow2(k) == n / Pow2(k + 1)
  {
    var p := Pow2(k);
    var q, r := n / 2 / p, (n / 2) % p;
    assert n / 2 == q * p + r;
    assert n == q * (2 * p) + (2 * r + n % 2);
    Quotient(n, q, 2 * r + n % 2, 2 * p);
  }

  lemma Quotient(n: nat, q: nat, r: nat, d: nat)
    requires r < d && n == q * d + r
    ensures n / d == q
  {
    MulOrder(q + 1, n / d, d);
    MulOrder(n / d + 1, q, d);
    assert (q + 1) * d == q * d + d;
    assert (n / d + 1) * d == (n / d) * d + d;
  }

  lemma MulOrder(a: int, b: int, c: nat)
    ensures a <= b ==> a * c <= b * c
  {
  }

  lemma {:induction false} BitOfByte(bytes: seq<Byte>, p: nat)
    requires p < 8 * |bytes|
    ensures BitsOf(bytes)[p] <==> (bytes[p / 8] / Pow2(7 - p % 8)) % 2 == 1
  {
    var last := |bytes| - 1;
    BytePosition(p, last);
    if p < 8 * last {
      BitOfByte(bytes[..last], p);
    } else {
      SpelledAt(bytes[last], 8, p - 8 * last);
    }
  }

  lemma BytePosition(p: nat, last: nat)
    requires p < 8 * last + 8
    ensures if p < 8 * last then p / 8 < last else p / 8 == last && p % 8 == p - 8 * last
  {
  }

  // ---------------------------------------------------------------- Exp-Golomb

  function BitLength(n: nat): (k: nat)
    ensures n < Pow2(k)
    ensures n > 0 ==> k > 0 && Pow2(k - 1) <= n
  {
    if n == 0 then 0 else 1 + BitLength(n / 2)
  }

  function Falses(n: nat): (z: seq<bool>)
    ensures |z| == n
  {
    seq(n, _ => false)
  }

  /** As many zeros as the number plus one has further bits, then the number plus one. */
  function Golomb(value: nat): seq<bool> {
    var count := BitLength(value + 1);
    Falses(count - 1) + Spelled(value + 1, count)
  }

  function Concat(codes: seq<seq<bool>>): seq<bool> {
    if codes == [] then [] else codes[0] + Concat(codes[1..])
  }

  function GolombAll(values: seq<nat>): seq<bool> {
    Concat(seq(|values|, i requires 0 <= i < |values| => Golomb(values[i])))
  }

  const MAXIMUM_ZEROS := 30

  /** What the reader has after a number: the number, and the bits it took. */
  datatype Reading = Reading(value: nat, taken: nat)

  function ReadBits(bits: seq<bool>, n: nat): Option<Reading> {
    if n > 32 || n > |bits| then None else Some(Reading(Number(bits[..n]), n))
  }

  /** The number of zeros in front, unless there are too many or the bits run out. */
  function Zeros(bits: seq<bool>, seen: nat): Option<nat>
    decreases |bits|
  {
    if bits == [] then None
    else if bits[0] then Some(seen)
    else if seen + 1 > MAXIMUM_ZEROS then None
    else Zeros(bits[1..], seen + 1)
  }

  lemma {:induction false} ZerosBound(bits: seq<bool>, seen: nat)
    requires Zeros(bits, seen).Some?
    ensures seen <= Zeros(bits, seen).value && Zeros(bits, seen).value - seen < |bits|
    ensures seen <= MAXIMUM_ZEROS ==> Zeros(bits, seen).value <= MAXIMUM_ZEROS
    decreases |bits|
  {
    if bits[0] {
    } else {
      ZerosBound(bits[1..], seen + 1);
    }
  }

  function ReadGolomb(bits: seq<bool>): Option<Reading> {
    var zeros := Zeros(bits, 0);
    if zeros.None? then None
    else
      var z := zeros.value;
      ZerosBound(bits, 0);
      WithZeros(z, ReadBits(bits[z + 1..], z))
  }

  function WithZeros(z: nat, low: Option<Reading>): Option<Reading> {
    if low.None? then None else Some(Reading(Pow2(z) - 1 + low.value.value, 2 * z + 1))
  }

  lemma {:induction false} CountZeros(n: nat, rest: seq<bool>, seen: nat)
    requires seen + n <= MAXIMUM_ZEROS && rest != [] && rest[0]
    ensures Zeros(Falses(n) + rest, seen) == Some(seen + n)
    decreases n
  {
    if n == 0 {
      assert Falses(0) + rest == rest;
    } else {
      CountZeros(n - 1, rest, seen + 1);
      assert (Falses(n) + rest)[1..] == Falses(n - 1) + rest;
    }
  }

  /** The first bit of a number spelled with no more bits than it needs is a one. */
  lemma {:induction false} TopBit(n: nat, count: nat)
    requires count > 0 && Pow2(count - 1) <= n < Pow2(count)
    ensures Spelled(n, count)[0] && Number(Spelled(n, count)[1..]) == n - Pow2(count - 1)
  {
    var bits := Spelled(n, count);
    if count > 1 {
      TopBit(n / 2, count - 1);
      var shorter := Spelled(n / 2, count - 1);
      assert bits[1..][..count - 2] == shorter[1..];
      assert bits[1..][count - 2] == (n % 2 == 1);
    } else {
      assert Pow2(0) == 1 && Pow2(1) == 2;
      assert bits == Spelled(0, 0) + [true];
      assert bits[1..] == [];
    }
  }

  lemma {:induction false} Pow2Grows(a: nat, b: nat)
    requires a <= b
    ensures Pow2(a) <= Pow2(b)
    decreases b
  {
    if a == b {
    } else {
      Pow2Grows(a, b - 1);
    }
  }

  lemma LengthLimit(value: nat)
    requires value <= 0x7fff_fffe
    ensures BitLength(value + 1) <= 31
  {
    var count := BitLength(value + 1);
    assert Pow2(8) == 256;
    assert Pow2(16) == 0x1_0000;
    assert Pow2(24) == 0x100_0000;
    assert Pow2(31) == 0x8000_0000;
    if count > 31 {
      Pow2Grows(31, count - 1);
    }
  }

  lemma LowBitsRead(bits: seq<bool>, z: nat, low: nat)
    requires z <= MAXIMUM_ZEROS && z <= |bits| && Number(bits[..z]) == low
    ensures ReadBits(bits, z) == Some(Reading(low, z))
  {
  }

  lemma GolombOfParts(bits: seq<bool>, z: nat, low: nat)
    requires Zeros(bits, 0) == Some(z) && z < |bits| && ReadBits(bits[z + 1..], z) == Some(Reading(low, z))
    ensures ReadGolomb(bits) == WithZeros(z, Some(Reading(low, z)))
  {
  }

  lemma ReadParts(bits: seq<bool>, z: nat, low: nat)
    requires Zeros(bits, 0) == Some(z) && z <= MAXIMUM_ZEROS && 2 * z + 1 <= |bits| && Number(bits[z + 1..][..z]) == low
    ensures ReadGolomb(bits) == Some(Reading(Pow2(z) - 1 + low, 2 * z + 1))
  {
    ZerosBound(bits, 0);
    LowBitsRead(bits[z + 1..], z, low);
    GolombOfParts(bits, z, low);
  }

  /** Zeros, a number with one bit more than there are zeros, and the rest. */
  lemma CodeParts(n: nat, number: seq<bool>, rest: seq<bool>)
    requires |number| == n + 1
    ensures Falses(n) + number + rest == Falses(n) + (number + rest)
    ensures (Falses(n) + number + rest)[n + 1..][..n] == number[1..]
  {
  }

  /** Reading a code gives the number it was written for and takes exactly its bits. */
  lemma GolombIsRead(value: nat, rest: seq<bool>)
    requires value <= 0x7fff_fffe
    ensures ReadGolomb(Golomb(value) + rest) == Some(Reading(value, |Golomb(value)|))
  {
    var z := BitLength(value + 1) - 1;
    var number := Spelled(value + 1, z + 1);
    LengthLimit(value);
    TopBit(value + 1, z + 1);
    CodeParts(z, number, rest);
    CountZeros(z, number + rest, 0);
    ReadParts(Falses(z) + number + rest, z, value + 1 - Pow2(z));
  }

  /** A whole list of numbers. */
  function ReadAllGolomb(bits: seq<bool>, n: nat): Option<seq<nat>>
    decreases n
  {
    if n == 0 then Some([])
    else
      var one := ReadGolomb(bits);
      if one.None? || one.value.taken > |bits| then None
      else
        var rest := ReadAllGolomb(bits[one.value.taken..], n - 1);
        if rest.None? then None else Some([one.value.value] + rest.value)
  }

  lemma ReadOneMore(code: seq<bool>, tail: seq<bool>, value: nat, values: seq<nat>)
    requires ReadGolomb(code + tail) == Some(Reading(value, |code|)) && ReadAllGolomb(tail, |values|) == Some(values)
    ensures ReadAllGolomb(code + tail, |values| + 1) == Some([value] + values)
  {
    assert (code + tail)[|code|..] == tail;
  }

  /** Each of these codes is read as its number, whatever follows it. */
  ghost predicate CodesOf(values: seq<nat>, codes: seq<seq<bool>>) {
    |codes| == |values| &&
    forall i, tail | 0 <= i < |codes| :: ReadGolomb(codes[i] + tail) == Some(Reading(values[i], |codes[i]|))
  }

  lemma {:induction false} ReadConcat(values: seq<nat>, codes: seq<seq<bool>>, rest: seq<bool>)
    requires CodesOf(values, codes)
    ensures ReadAllGolomb(Concat(codes) + rest, |values|) == Some(values)
    decreases |values|
  {
    if values == [] {
    } else {
      var tail := Concat(codes[1..]) + rest;
      ReadConcat(values[1..], codes[1..], rest);
      ReadOneMore(codes[0], tail, values[0], values[1..]);
      assert Concat(codes) + rest == codes[0] + tail;
      assert [values[0]] + values[1..] == values;
    }
  }

  /** Reading undoes writing for every list of numbers, whatever follows. */
  lemma GolombRoundTrip(values: seq<nat>, rest: seq<bool>)
    requires forall v <- values :: v <= 0x7fff_fffe
    ensures ReadAllGolomb(GolombAll(values) + rest, |values|) == Some(values)
  {
    var codes := seq(|values|, i requires 0 <= i < |values| => Golomb(values[i]));
    forall i, tail | 0 <= i < |codes| ensures ReadGolomb(codes[i] + tail) == Some(Reading(values[i], |codes[i]|)) {
      assert values[i] in values;
      GolombIsRead(values[i], tail);
    }
    ReadConcat(values, codes, rest);
  }

  // ---------------------------------------------------------------- the reader

  class Bits {
    const data: seq<Byte>
    var position: nat

    ghost predicate Valid()
      reads this
    {
      position <= 8 * |data|
    }

    ghost function Left(): seq<bool>
      requires Valid()
      reads this
    {
      BitsOf(data)[position..]
    }

    constructor (bytes: seq<Byte>)
      ensures Valid() && data == bytes && position == 0
    {
      data, position := bytes, 0;
    }

    /** Reads `n` bits, or refuses and moves nowhere. */
    method Read(n: nat) returns (value: Option<nat>)
      requires Valid()
      modifies this
      ensures Valid()
      ensures var r := ReadBits(old(Left()), n);
              && (r.None? <==> value.None?)
              && (r.Some? ==> value == Some(r.value.value) && position == old(position) + r.value.taken)
              && (r.None? ==> position == old(position))
    {
      if n > 32 || n > |data| * 8 - position { return None; }
      ghost var bits, start := BitsOf(data), position;
      var number := 0;
      for k := 0 to n
        invariant position == start + k <= |bits| && number == Number(bits[start..position])
      {
        BitOfByte(data, position);
        var bit := (data[position / 8] / Pow2(7 - position % 8)) % 2;
        assert bits[start..position + 1][..k] == bits[start..position];
        number := number * 2 + bit;
        position := position + 1;
      }
      assert bits[start..][..n] == bits[start..start + n];
      value := Some(number);
    }

    /** Reads one Exp-Golomb code. */
    method Ue() returns (value: Option<nat>)
      requires Valid()
      modifies this
      ensures Valid()
      ensures var r := ReadGolomb(old(Left()));
              && (r.None? <==> value.None?)
              && (r.Some? ==> value == Some(r.value.value) && position == old(position) + r.value.taken)
    {
      ghost var bits := Left();
      var zeros := 0;
      while true
        invariant Valid() && position == old(position) + zeros && zeros <= MAXIMUM_ZEROS
        invariant Zeros(Left(), zeros) == Zeros(bits, 0)
        decreases 8 * |data| - position
      {
        ghost var left := Left();
        var bit := Read(1);
        if bit.None? { return None; }
        assert left[..1] == [left[0]] && [left[0]][..0] == [];
        assert left[1..] == Left();
        if bit.value == 1 { break; }
        zeros := zeros + 1;
        if zeros > MAXIMUM_ZEROS { return None; }
      }
      assert Left() == bits[zeros + 1..];
      var low := Read(zeros);
      if low.None? { return None; }
      value := Some(Pow2(zeros) - 1 + low.value);
    }
  }

  // --------------------------------------------------------------- the test's writer

  /** Bits eight at a time. */
  function Packed(bits: seq<bool>): (bytes: seq<Byte>)
    requires |bits| % 8 == 0
    ensures 8 * |bytes| == |bits|
  {
    if bits == [] then []
    else
      var start := |bits| - 8;
      Packed(bits[..start]) + [ByteFrom(bits[start..])]
  }

  function ByteFrom(bits: seq<bool>): Byte
    requires |bits| == 8
  {
    assert Pow2(8) == 256;
    Number(bits)
  }

  lemma {:induction false} PackedBits(bits: seq<bool>)
    requires |bits| % 8 == 0
    ensures BitsOf(Packed(bits)) == bits
    decreases |bits|
  {
    if bits == [] {
    } else {
      EightLess(|bits|);
      var init, last := bits[..|bits| - 8], bits[|bits| - 8..];
      PackedBits(init);
      ReadIsSpelled(last);
      BitsOfMore(Packed(init), ByteFrom(last));
      PackedMore(bits, init, last);
      assert bits == init + last;
    }
  }

  lemma EightLess(n: nat)
    requires n > 0 && n % 8 == 0
    ensures n >= 8 && (n - 8) % 8 == 0
  {
  }

  lemma PackedMore(bits: seq<bool>, init: seq<bool>, last: seq<bool>)
    requires |bits| >= 8 && |bits| % 8 == 0 && |init| % 8 == 0 && init == bits[..|bits| - 8] &&
             last == bits[|bits| - 8..]
    ensures |last| == 8 && Packed(bits) == Packed(init) + [ByteFrom(last)]
  {
  }

  /** Appends the low bits of a number, highest first. */
  method Put(bits: seq<bool>, value: nat, count: nat) returns (more: seq<bool>)
    ensures more == bits + Spelled(value, count)
  {
    more := bits;
    var left: nat := count;
    while left > 0
      invariant left <= count && more == bits + Spelled(value, count)[..count - left]
    {
      left := left - 1;
      SpelledAt(value, count, count - 1 - left);
      more := more + [(value / Pow2(left)) % 2 == 1];
    }
    assert Spelled(value, count)[..count] == Spelled(value, count);
  }

  /** Appends one Exp-Golomb code. */
  method PutUe(bits: seq<bool>, value: nat) returns (more: seq<bool>)
    ensures more == bits + Golomb(value)
  {
    var n: nat, count: nat := value + 1, 0;
    while n > 0
      invariant count + BitLength(n) == BitLength(value + 1)
    {
      count := count + 1;
      n := n / 2;
    }
    more := Put(bits + Falses(count - 1), value + 1, count);
    assert bits + Falses(count - 1) + Spelled(value + 1, count) == bits + Golomb(value);
  }

  /** Numbers written, packed into bytes and read back are the numbers. */
  lemma PackedRoundTrip(values: seq<nat>, padding: seq<bool>)
    requires (forall v <- values :: v <= 0x7fff_fffe) && |GolombAll(values) + padding| % 8 == 0
    ensures ReadAllGolomb(BitsOf(Packed(GolombAll(values) + padding)), |values|) == Some(values)
  {
    PackedBits(GolombAll(values) + padding);
    GolombRoundTrip(values, padding);
  }
}
