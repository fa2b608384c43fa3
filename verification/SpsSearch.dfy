/** Finding the sequence parameter set in a byte stream and undoing its emulation prevention. */
module SpsSearch {
  import opened Options
  import opened SpsProbe

  const MAXIMUM_SPS_BYTES := 4096

  // ------------------------------------------------------------ escape sequences

  /** How many zeros end the bytes so far, as far as the escape rule cares. */
  function TrailingZeros(zeros: nat, b: Byte): nat { if b == 0 then zeros + 1 else 0 }

  /** Emulation prevention: after two zeros a byte up to three is preceded by a three. */
  function Escape(rbsp: seq<Byte>, zeros: nat): seq<Byte>
    decreases |rbsp|
  {
    if rbsp == [] then []
    else
      var b := rbsp[0];
      if zeros >= 2 && b <= 3 then [3, b] + Escape(rbsp[1..], TrailingZeros(0, b))
      else [b] + Escape(rbsp[1..], TrailingZeros(zeros, b))
  }

  function Unescape(bytes: seq<Byte>, zeros: nat): Option<seq<Byte>>
    decreases |bytes|
  {
    if bytes == [] then Some([])
    else
      var b := bytes[0];
      if zeros >= 2 && b == 3 then
        if |bytes| == 1 || bytes[1] > 3 then None else Unescape(bytes[1..], 0)
      else
        var rest := Unescape(bytes[1..], TrailingZeros(zeros, b));
        if rest.None? then None else Some([b] + rest.value)
  }

  lemma UnescapeStep(b: Byte, rest: seq<Byte>, zeros: nat)
    requires !(zeros >= 2 && b == 3)
    ensures Unescape([b] + rest, zeros) ==
            var r := Unescape(rest, TrailingZeros(zeros, b)); if r.None? then None else Some([b] + r.value)
  {
    assert ([b] + rest)[1..] == rest;
  }

  lemma UnescapeSkip(b: Byte, rest: seq<Byte>, zeros: nat)
    requires zeros >= 2 && b <= 3
    ensures Unescape([3, b] + rest, zeros) == Unescape([b] + rest, 0)
  {
    assert ([3, b] + rest)[1..] == [b] + rest;
  }

  /** Removing the escapes recovers every payload. */
  lemma {:induction false} EscapeRoundTrip(rbsp: seq<Byte>, zeros: nat)
    ensures Unescape(Escape(rbsp, zeros), zeros) == Some(rbsp)
    decreases |rbsp|
  {
    if rbsp == [] {
    } else {
      var b := rbsp[0];
      assert [b] + rbsp[1..] == rbsp;
      if zeros >= 2 && b <= 3 {
        var rest := Escape(rbsp[1..], TrailingZeros(0, b));
        EscapeRoundTrip(rbsp[1..], TrailingZeros(0, b));
        UnescapeSkip(b, rest, zeros);
        UnescapeStep(b, rest, 0);
      } else {
        var rest := Escape(rbsp[1..], TrailingZeros(zeros, b));
        EscapeRoundTrip(rbsp[1..], TrailingZeros(zeros, b));
        UnescapeStep(b, rest, zeros);
      }
    }
  }

  /** No three bytes of an escaped payload are two zeros and a byte below three. */
  predicate NoStartCode(bytes: seq<Byte>) {
    forall i | 0 <= i < |bytes| - 2 :: !(bytes[i] == 0 && bytes[i + 1] == 0 && bytes[i + 2] <= 2)
  }

  /** The zeros that end a run of bytes stand in front. */
  function Lead(zeros: nat): seq<Byte> { seq(if zeros < 2 then zeros else 2, _ => 0) }

  lemma {:induction false} EscapedHasNoStartCode(rbsp: seq<Byte>, zeros: nat)
    ensures NoStartCode(Lead(zeros) + Escape(rbsp, zeros))
    decreases |rbsp|
  {
    if rbsp == [] {
    } else {
      var b := rbsp[0];
      var bytes := Lead(zeros) + Escape(rbsp, zeros);
      if zeros >= 2 && b <= 3 {
        var rest := Escape(rbsp[1..], TrailingZeros(0, b));
        EscapedHasNoStartCode(rbsp[1..], TrailingZeros(0, b));
        assert bytes == [0, 0, 3, b] + rest;
        var known := Lead(TrailingZeros(0, b)) + rest;
        ShiftedNoStartCode([0, 0, 3, b], rest, known);
      } else {
        var rest := Escape(rbsp[1..], TrailingZeros(zeros, b));
        EscapedHasNoStartCode(rbsp[1..], TrailingZeros(zeros, b));
        assert bytes == Lead(zeros) + [b] + rest;
        ShiftedNoStartCode(Lead(zeros) + [b], rest, Lead(TrailingZeros(zeros, b)) + rest);
      }
    }
  }

  /** A few bytes in front, of which only the trailing zeros matter. */
  lemma ShiftedNoStartCode(front: seq<Byte>, rest: seq<Byte>, known: seq<Byte>)
    requires NoStartCode(known) && NoStartCode(front)
    requires exists zeros: nat | zeros <= 2 :: known == Lead(zeros) + rest && Ends(front, zeros)
    ensures NoStartCode(front + rest)
  {
    var zeros: nat :| zeros <= 2 && known == Lead(zeros) + rest && Ends(front, zeros);
    var all := front + rest;
    var shift := |front| - zeros;
    forall i | 0 <= i < |all| - 2 ensures !(all[i] == 0 && all[i + 1] == 0 && all[i + 2] <= 2) {
      if i + 2 < |front| {
        assert all[i] == front[i] && all[i + 1] == front[i + 1] && all[i + 2] == front[i + 2];
      } else if i >= shift {
        assert known[i - shift] == all[i] && known[i + 1 - shift] == all[i + 1] && known[i + 2 - shift] == all[i + 2];
      } else {
        assert all[i] == front[i] && (i + 1 < |front| ==> all[i + 1] == front[i + 1]);
      }
    }
  }

  /** The bytes end in exactly this many zeros, counting no further than two. */
  predicate Ends(front: seq<Byte>, zeros: nat) {
    && zeros <= |front|
    && (forall i | |front| - zeros <= i < |front| :: front[i] == 0)
    && (zeros < 2 && zeros < |front| ==> front[|front| - zeros - 1] != 0)
  }

  // ------------------------------------------------------------- start codes

  predicate StartAt(a: seq<Byte>, i: nat) {
    i + 3 < |a| && a[i] == 0 && a[i + 1] == 0 && a[i + 2] == 1
  }

  predicate SpsAt(a: seq<Byte>, i: nat) { StartAt(a, i) && a[i + 3] % 32 == 7 }

  /** The first start code from `i` on, or the end of the stream. */
  function NextStart(a: seq<Byte>, i: nat): nat
    decreases |a| - i
  {
    if i + 3 >= |a| then |a| else if StartAt(a, i) then i else NextStart(a, i + 1)
  }

  function NextSps(a: seq<Byte>, i: nat): Option<nat>
    decreases |a| - i
  {
    if i + 3 >= |a| then None else if SpsAt(a, i) then Some(i) else NextSps(a, i + 1)
  }

  lemma {:induction false} NextStartIs(a: seq<Byte>, i: nat, j: nat)
    requires i <= j && forall k | i <= k < j :: !StartAt(a, k)
    requires StartAt(a, j) || j == |a|
    ensures NextStart(a, i) == j
    decreases j - i
  {
    if i == j || i + 3 >= |a| {
    } else {
      NextStartIs(a, i + 1, j);
    }
  }

  lemma {:induction false} NextSpsIs(a: seq<Byte>, i: nat, j: nat)
    requires i <= j && (forall k | i <= k < j :: !SpsAt(a, k)) && SpsAt(a, j)
    ensures NextSps(a, i) == Some(j)
    decreases j - i
  {
    if i == j {
    } else {
      NextSpsIs(a, i + 1, j);
    }
  }

  /** The payload of the first parameter set, unless it is missing, too large or badly escaped. */
  function Extract(a: seq<Byte>): Option<seq<Byte>> {
    var at := NextSps(a, 0);
    if at.None? then None
    else
      var begin := at.value + 4;
      var end := NextStart(a, at.value + 1);
      if begin >= end || end > |a| || end - begin > MAXIMUM_SPS_BYTES then None else Unescape(a[begin..end], 0)
  }

  /** A parameter set behind its start code, escaped, and followed by another start code or nothing. */
  function Stream(prefix: seq<Byte>, header: Byte, rbsp: seq<Byte>, tail: seq<Byte>): seq<Byte> {
    prefix + [0, 0, 1, header] + Escape(rbsp, 0) + tail
  }

  /** Bytes without a start code in them, followed by one or by nothing, hold none. */
  lemma NothingWithin(front: seq<Byte>, escaped: seq<Byte>, tail: seq<Byte>, k: nat)
    requires tail == [] || (|tail| >= 4 && tail[0] == 0 && tail[1] == 0)
    requires NoStartCode(escaped) && |front| <= k < |front| + |escaped|
    ensures !StartAt(front + escaped + tail, k)
  {
    var a, j := front + escaped + tail, k - |front|;
    if j + 2 < |escaped| {
      assert a[k] == escaped[j] && a[k + 1] == escaped[j + 1] && a[k + 2] == escaped[j + 2];
    } else if tail != [] {
      assert a[|front| + |escaped|] == tail[0] && a[|front| + |escaped| + 1] == tail[1];
    }
  }

  lemma NothingInside(prefix: seq<Byte>, header: Byte, rbsp: seq<Byte>, tail: seq<Byte>, k: nat)
    requires header % 32 == 7 && (tail == [] || (|tail| >= 4 && tail[..3] == [0, 0, 1]))
    requires |prefix| < k < |prefix| + 4 + |Escape(rbsp, 0)|
    ensures !StartAt(Stream(prefix, header, rbsp, tail), k)
  {
    var a, front, escaped := Stream(prefix, header, rbsp, tail), prefix + [0, 0, 1, header], Escape(rbsp, 0);
    assert a == front + (escaped + tail);
    if k < |front| {
      assert a[|prefix| + 1] == front[|prefix| + 1] && a[|prefix| + 2] == front[|prefix| + 2] &&
             a[|prefix| + 3] == front[|prefix| + 3];
    } else {
      EscapedHasNoStartCode(rbsp, 0);
      assert Lead(0) + escaped == escaped;
      assert tail != [] ==> tail[0] == tail[..3][0] && tail[1] == tail[..3][1];
      NothingWithin(front, escaped, tail, k);
    }
  }

  /** Search and escape removal recover exactly the payload that was framed. */
  lemma FramedIsExtracted(prefix: seq<Byte>, header: Byte, rbsp: seq<Byte>, tail: seq<Byte>)
    requires header % 32 == 7 && (tail == [] || (|tail| >= 4 && tail[..3] == [0, 0, 1]))
    requires 0 < |Escape(rbsp, 0)| <= MAXIMUM_SPS_BYTES
    requires forall k: nat | k < |prefix| :: !SpsAt(Stream(prefix, header, rbsp, tail), k)
    ensures Extract(Stream(prefix, header, rbsp, tail)) == Some(rbsp)
  {
    var a, at := Stream(prefix, header, rbsp, tail), |prefix|;
    var begin, end := at + 4, at + 4 + |Escape(rbsp, 0)|;
    assert a[at] == 0 && a[at + 1] == 0 && a[at + 2] == 1 && a[at + 3] == header;
    NextSpsIs(a, 0, at);
    forall k: nat | at < k < end ensures !StartAt(a, k) {
      NothingInside(prefix, header, rbsp, tail, k);
    }
    if tail != [] {
      assert a[end] == tail[..3][0] && a[end + 1] == tail[..3][1] && a[end + 2] == tail[..3][2];
    }
    NextStartIs(a, at + 1, end);
    assert a[begin..end] == Escape(rbsp, 0);
    EscapeRoundTrip(rbsp, 0);
  }

  // ---------------------------------------------------------------- the loops

  method FindSps(a: seq<Byte>) returns (begin: nat, end: nat)
    ensures NextSps(a, 0).None? ==> begin == end == |a|
    ensures NextSps(a, 0).Some? ==> begin == NextSps(a, 0).value + 4 && end == NextStart(a, NextSps(a, 0).value + 1)
  {
    begin, end := |a|, |a|;
    ghost var found := false;
    var i: nat := 0;
    while i + 3 < |a|
      invariant !found ==> begin == |a| && NextSps(a, 0) == NextSps(a, i)
      invariant found ==> NextSps(a, 0).Some? && begin == NextSps(a, 0).value + 4 && NextSps(a, 0).value < i &&
                          NextStart(a, NextSps(a, 0).value + 1) == NextStart(a, i)
      invariant end == |a|
      decreases |a| - i
    {
      if a[i] == 0 && a[i + 1] == 0 && a[i + 2] == 1 {
        if begin != |a| {
          end := i;
          return;
        }
        if a[i + 3] % 32 == 7 {
          begin, found := i + 4, true;
        }
      }
      i := i + 1;
    }
  }

  method RemoveEscapes(a: seq<Byte>, begin: nat, end: nat) returns (rbsp: Option<seq<Byte>>)
    requires begin <= end <= |a|
    ensures rbsp == Unescape(a[begin..end], 0)
  {
    var bytes: seq<Byte> := [];
    var zeros: nat := 0;
    ghost var whole := Unescape(a[begin..end], 0);
    assert whole.Some? ==> bytes + whole.value == whole.value;
    for i := begin to end
      invariant whole == Prepended(bytes, Unescape(a[i..end], zeros))
    {
      var b := a[i];
      assert a[i..end] == [b] + a[i + 1..end] && a[i..end][1..] == a[i + 1..end];
      if zeros >= 2 && b == 3 {
        if i + 1 >= end || a[i + 1] > 3 { return None; }
        zeros := 0;
      } else {
        UnescapeStep(b, a[i + 1..end], zeros);
        PrependedStep(bytes, b, Unescape(a[i + 1..end], TrailingZeros(zeros, b)));
        bytes := bytes + [b];
        zeros := if b == 0 then zeros + 1 else 0;
      }
    }
    assert a[end..end] == [] && bytes + [] == bytes;
    rbsp := Some(bytes);
  }

  function Prepended(bytes: seq<Byte>, rest: Option<seq<Byte>>): Option<seq<Byte>> {
    if rest.None? then None else Some(bytes + rest.value)
  }

  lemma PrependedStep(bytes: seq<Byte>, b: Byte, rest: Option<seq<Byte>>)
    ensures Prepended(bytes, Prepended([b], rest)) == Prepended(bytes + [b], rest)
  {
    assert rest.Some? ==> bytes + ([b] + rest.value) == bytes + [b] + rest.value;
  }

  method ExtractSps(a: seq<Byte>) returns (rbsp: Option<seq<Byte>>)
    ensures rbsp == Extract(a)
  {
    var begin, end := FindSps(a);
    NextSpsBound(a, 0);
    NextStartBound(a, if NextSps(a, 0).Some? then NextSps(a, 0).value + 1 else 0);
    if begin >= end || end - begin > MAXIMUM_SPS_BYTES { return None; }
    rbsp := RemoveEscapes(a, begin, end);
  }

  lemma {:induction false} NextSpsBound(a: seq<Byte>, i: nat)
    ensures NextSps(a, i).Some? ==> NextSps(a, i).value + 3 < |a|
    decreases |a| - i
  {
    if i + 3 >= |a| {
    } else {
      NextSpsBound(a, i + 1);
    }
  }

  lemma {:induction false} NextStartBound(a: seq<Byte>, i: nat)
    ensures NextStart(a, i) <= |a|
    decreases |a| - i
  {
    if i + 3 >= |a| {
    } else {
      NextStartBound(a, i + 1);
    }
  }
}
