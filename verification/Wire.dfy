/** What travels between the host and the viewer of one session. */
module Wire {
  import opened Pixels

  /** Digests as an injective record of what was hashed: a whole image, or a step from another digest. */
  datatype Digest =
    | Unset
    | OfImage(pixels: seq<Byte>)
    | OfRects(base: Digest, target: nat, rects: seq<Rect>)

  datatype Body =
    | Cursor
    | StateReset
    | Chunk(surface: Surface, total: nat, offset: nat, bytes: seq<Byte>)
    | RawRect(base: nat, surface: Surface, rect: Rect)
    | FrameCommit(base: nat)
    | AccessUnit(key: bool, pixels: seq<Byte>)

  /** A visual message: its header fields and its decoded payload. */
  datatype Message = Message(sequence: nat, epoch: nat, frame: nat, body: Body)

  /** A command for the compositor thread. */
  datatype Command =
    | Begin(epoch: nat, frame: nat, surface: Surface)
    | Upload(epoch: nat, frame: nat, offset: nat, bytes: seq<Byte>)
    | CommitSnapshot(epoch: nat, frame: nat, digest: Digest)
    | RectTransaction(epoch: nat, frame: nat, base: nat, digest: Digest, rects: seq<Rect>)
    | Cancel(epoch: nat)

  /** A decoded video frame waiting to be shown. */
  datatype VideoFrame = VideoFrame(epoch: nat, frame: nat, key: bool, pixels: seq<Byte>)

  datatype Ack = Ack(epoch: nat, frame: nat, digest: Digest)

  /** The fixed parameters of a session. */
  datatype Session = Session(surface: Surface, exactOnly: bool, rawRect: bool) {
    /** What the host's own size checks admit: a row fits a wire chunk, a surface fits the budget. */
    predicate Valid() {
      && 0 < surface.width <= 7680 && 0 < surface.height <= 4320
      && surface.Size() <= 32 * 1024 * 1024
      && surface.Stride() <= 64 * 1024
    }
  }

  const MAXIMUM_WIRE_CHUNK_BYTES := 64 * 1024
  const MAXIMUM_RECT_COUNT := 256
  const MAXIMUM_RECT_BYTES := 1920 * 1080 * 4

  /** The payload checks made while decoding; failing one ends the reader. */
  predicate Decodable(m: Message) {
    m.epoch != 0 && m.sequence != 0 &&
    match m.body
    case Chunk(s, total, offset, bytes) =>
      && s.width != 0 && s.height != 0 && s.width <= 7680 && s.height <= 4320
      && total == s.Size() && total <= 32 * 1024 * 1024
      && bytes != [] && |bytes| <= MAXIMUM_WIRE_CHUNK_BYTES
      && offset <= total && |bytes| <= total - offset
    case RawRect(base, s, r) =>
      && s.width != 0 && s.height != 0 && s.width <= 7680 && s.height <= 4320
      && r.WellFormed() && r.x < s.width && r.y < s.height && r.Fits(s)
      && |r.bgra| <= MAXIMUM_RECT_BYTES && base != 0
    case AccessUnit(_, _) => m.frame != 0
    case _ => true
  }

  function RectBytes(rs: seq<Rect>): nat {
    if rs == [] then 0 else RectBytes(rs[..|rs| - 1]) + |rs[|rs| - 1].bgra|
  }

  /** The digest covers each rectangle with its forty byte header, and refuses more than the protocol limit. */
  predicate DigestFits(rs: seq<Rect>) {
    RectBytes(rs) + 40 * |rs| <= MAXIMUM_RECT_BYTES
  }
}
