/** Audio datagrams: a fixed header, big-endian fields and an Opus payload. */
module AudioPackets {
  import opened BigEndian
  import opened Options

  const OPUS_SAMPLE_RATE := 48000
  const MAXIMUM_OPUS_PACKET_SIZE := 1275
  const MAXIMUM_AUDIO_DATAGRAM_SIZE := 1400

  datatype Packet = Packet(
    sequence: nat, capturedAt: nat, sampleRate: nat, channels: nat, samples: nat, opus: seq<Byte>)

  function Magic(): seq<Byte> { [0x52, 0x57, 0x41, 0x31] }

  /** The check both directions make; the sequence and the time are 64 bit numbers. */
  predicate Valid(p: Packet) {
    && 0 < p.sequence < TWO_TO_THE_64 && 0 < p.capturedAt < TWO_TO_THE_64
    && p.sampleRate == OPUS_SAMPLE_RATE && (p.channels == 1 || p.channels == 2)
    && p.samples in {120, 240, 480, 960, 1920, 2880}
    && 0 < |p.opus| <= MAXIMUM_OPUS_PACKET_SIZE
  }

  function Header(p: Packet): seq<Byte> {
    Magic() + NumberBytes(1, 2) + NumberBytes(0, 2) + NumberBytes(p.sequence, 8) + NumberBytes(p.capturedAt, 8) +
    NumberBytes(p.sampleRate, 4) + NumberBytes(p.channels, 2) + NumberBytes(p.samples, 2) + NumberBytes(|p.opus|, 2)
  }

  function Datagram(p: Packet): seq<Byte> { Header(p) + p.opus }

  function Encode(p: Packet): Option<seq<Byte>> {
    if !Valid(p) || |Datagram(p)| > MAXIMUM_AUDIO_DATAGRAM_SIZE then None else Some(Datagram(p))
  }

  const HEADER_SIZE := 34

  /** The fields at their places; reading past the end is refused. */
  function Fields(bytes: seq<Byte>): Packet
    requires |bytes| >= HEADER_SIZE
  {
    Packet(NumberOf(bytes[8..16]), NumberOf(bytes[16..24]), NumberOf(bytes[24..28]), NumberOf(bytes[28..30]),
           NumberOf(bytes[30..32]), bytes[HEADER_SIZE..])
  }

  function Decode(bytes: seq<Byte>): Option<Packet> {
    if |bytes| > MAXIMUM_AUDIO_DATAGRAM_SIZE || |bytes| < HEADER_SIZE then None
    else if bytes[..4] != Magic() || NumberOf(bytes[4..6]) != 1 || NumberOf(bytes[6..8]) != 0 then None
    else if NumberOf(bytes[32..34]) != |bytes| - HEADER_SIZE || !Valid(Fields(bytes)) then None
    else Some(Fields(bytes))
  }

  /** Where each field of a datagram lies. */
  lemma Places(p: Packet)
    ensures |Datagram(p)| == HEADER_SIZE + |p.opus|
    ensures var b := Datagram(p);
            && b[..4] == Magic() && b[4..6] == NumberBytes(1, 2) && b[6..8] == NumberBytes(0, 2)
            && b[8..16] == NumberBytes(p.sequence, 8) && b[16..24] == NumberBytes(p.capturedAt, 8)
  {
    var start := Magic() + NumberBytes(1, 2) + NumberBytes(0, 2) + NumberBytes(p.sequence, 8) +
                 NumberBytes(p.capturedAt, 8);
    var b := Datagram(p);
    assert |start| == 24 && b[..24] == start;
    assert b[..4] == start[..4] && b[4..6] == start[4..6] && b[6..8] == start[6..8];
    assert b[8..16] == start[8..16] && b[16..24] == start[16..24];
  }

  lemma LaterPlaces(p: Packet)
    ensures |Datagram(p)| == HEADER_SIZE + |p.opus|
    ensures var b := Datagram(p);
            && b[24..28] == NumberBytes(p.sampleRate, 4) && b[28..30] == NumberBytes(p.channels, 2)
            && b[30..32] == NumberBytes(p.samples, 2) && b[32..34] == NumberBytes(|p.opus|, 2)
            && b[HEADER_SIZE..] == p.opus
  {
  }

  /** Decoding undoes encoding for every packet the encoder accepts, which is every valid one. */
  lemma PacketRoundTrip(p: Packet)
    requires Valid(p)
    ensures Encode(p).Some? && Decode(Encode(p).value) == Some(p)
  {
    Places(p);
    LaterPlaces(p);
    TwoToThe64();
    assert Pow256(1) == 256 && Pow256(2) == 0x1_0000 && Pow256(3) == 0x100_0000;
    NumberRoundTrip(1, 2);
    NumberRoundTrip(0, 2);
    NumberRoundTrip(p.sequence, 8);
    NumberRoundTrip(p.capturedAt, 8);
    NumberRoundTrip(p.sampleRate, 4);
    NumberRoundTrip(p.channels, 2);
    NumberRoundTrip(p.samples, 2);
    NumberRoundTrip(|p.opus|, 2);
  }

  /** A field of a known size is the bytes of the number read from it. */
  lemma FieldBytes(bytes: seq<Byte>, from: nat, to: nat)
    requires from <= to <= |bytes|
    ensures NumberBytes(NumberOf(bytes[from..to]), to - from) == bytes[from..to]
  {
    BytesRoundTrip(bytes[from..to]);
  }

  /** And the decoder accepts nothing but encodings. */
  lemma OnlyEncodingsDecode(bytes: seq<Byte>)
    requires Decode(bytes).Some?
    ensures Encode(Decode(bytes).value) == Some(bytes)
  {
    var p := Decode(bytes).value;
    Places(p);
    LaterPlaces(p);
    FieldBytes(bytes, 4, 6);
    FieldBytes(bytes, 6, 8);
    FieldBytes(bytes, 8, 16);
    FieldBytes(bytes, 16, 24);
    FieldBytes(bytes, 24, 28);
    FieldBytes(bytes, 28, 30);
    FieldBytes(bytes, 30, 32);
    FieldBytes(bytes, 32, 34);
    SameParts(Datagram(p), bytes);
  }

  lemma SameParts(a: seq<Byte>, b: seq<Byte>)
    requires |a| == |b| >= HEADER_SIZE
    requires a[..4] == b[..4] && a[4..6] == b[4..6] && a[6..8] == b[6..8] && a[8..16] == b[8..16] &&
             a[16..24] == b[16..24]
    requires a[24..28] == b[24..28] && a[28..30] == b[28..30] && a[30..32] == b[30..32] && a[32..34] == b[32..34]
    requires a[HEADER_SIZE..] == b[HEADER_SIZE..]
    ensures a == b
  {
    assert a == a[..4] + a[4..6] + a[6..8] + a[8..16] + a[16..24] + a[24..28] + a[28..30] + a[30..32] + a[32..34] +
           a[HEADER_SIZE..];
    assert b == b[..4] + b[4..6] + b[6..8] + b[8..16] + b[16..24] + b[24..28] + b[28..30] + b[30..32] + b[32..34] +
           b[HEADER_SIZE..];
  }

  // ----------------------------------------------------------------- the reader

  /** Reads big-endian fields one behind the other. */
  class FieldReader {
    const bytes: seq<Byte>
    var offset: nat

    predicate Sound()
      reads this
    {
      offset <= |bytes|
    }

    constructor (data: seq<Byte>)
      ensures Sound() && bytes == data && offset == 0
    {
      bytes, offset := data, 0;
    }

    method Take(count: nat) returns (part: Option<seq<Byte>>)
      requires Sound()
      modifies this
      ensures Sound()
      ensures part.Some? <==> old(offset) + count <= |bytes|
      ensures part.Some? ==> part.value == bytes[old(offset)..old(offset) + count] && offset == old(offset) + count
      ensures part.None? ==> offset == old(offset)
    {
      if count > |bytes| - offset { return None; }
      part := Some(bytes[offset..offset + count]);
      offset := offset + count;
    }

    method Number(count: nat) returns (value: Option<nat>)
      requires Sound()
      modifies this
      ensures Sound()
      ensures value.Some? <==> old(offset) + count <= |bytes|
      ensures value.Some? ==> value.value == NumberOf(bytes[old(offset)..old(offset) + count]) &&
                              offset == old(offset) + count
      ensures value.None? ==> offset == old(offset)
    {
      if count > |bytes| - offset { return None; }
      ghost var start := offset;
      var result: nat := 0;
      for index := 0 to count
        invariant offset == start + index && result == NumberOf(bytes[start..offset])
      {
        result := result * 256 + bytes[offset];
        offset := offset + 1;
        assert bytes[start..offset][..index] == bytes[start..offset - 1];
      }
      value := Some(result);
    }
  }

  method DecodePacket(bytes: seq<Byte>) returns (packet: Option<Packet>)
    ensures packet == Decode(bytes)
  {
    if |bytes| > MAXIMUM_AUDIO_DATAGRAM_SIZE { return None; }
    var reader := new FieldReader(bytes);
    var magic := reader.Take(4);
    if magic.None? || magic.value != Magic() { return None; }
    assert bytes[0..4] == bytes[..4];
    var version := reader.Number(2);
    if version.None? || version.value != 1 { return None; }
    var flags := reader.Number(2);
    if flags.None? || flags.value != 0 { return None; }
    var sequence := reader.Number(8);
    if sequence.None? { return None; }
    var capturedAt := reader.Number(8);
    if capturedAt.None? { return None; }
    var sampleRate := reader.Number(4);
    if sampleRate.None? { return None; }
    var channels := reader.Number(2);
    if channels.None? { return None; }
    var samples := reader.Number(2);
    if samples.None? { return None; }
    var size := reader.Number(2);
    if size.None? || size.value == 0 || size.value > MAXIMUM_OPUS_PACKET_SIZE { return None; }
    var payload := reader.Take(size.value);
    if payload.None? || reader.offset != |bytes| { return None; }
    assert payload.value == bytes[HEADER_SIZE..];
    var p := Packet(sequence.value, capturedAt.value, sampleRate.value, channels.value, samples.value, payload.value);
    if !Valid(p) { return None; }
    packet := Some(p);
  }
}
