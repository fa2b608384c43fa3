/**
 The viewer's double-buffered framebuffer as a value: what each transaction step does to the
 working and committed buffers, and when it refuses. A `None` result is the exception the
 renderer throws before it touches anything.
 */
module FramebufferSpec {
  import opened Options
  import opened Pixels

  const MAXIMUM_SNAPSHOT_TOTAL_BYTES := 32 * 1024 * 1024

  datatype Framebuffer = Framebuffer(
    surface: Surface,
    committed: seq<Byte>,
    working: seq<Byte>,
    initialized: bool,
    updateActive: bool,
    snapshotActive: bool,
    received: nat,
    total: nat)
  {
    ghost predicate Valid() {
      && |committed| == |working| == surface.Size()
      && (initialized || snapshotActive || updateActive ==> surface.width > 0 && surface.height > 0)
      && (updateActive ==> initialized)
      && (snapshotActive ==> total == surface.Size() && received <= total)
    }

    /** Allocates fresh buffers when the surface changes, which forgets every transaction. */
    function EnsureSurface(s: Surface): Framebuffer {
      if s == surface then this else Blank(s)
    }

    function RenderVideo(s: Surface, pixels: seq<Byte>): Framebuffer {
      EnsureSurface(s).(committed := pixels, working := EnsureSurface(s).committed,
                        initialized := true, updateActive := false)
    }

    function BeginSnapshot(s: Surface): Option<Framebuffer> {
      if s.width == 0 || s.height == 0 || s.width * s.height > MAXIMUM_SNAPSHOT_TOTAL_BYTES / 4 then None
      else if updateActive || snapshotActive || (initialized && s != surface) then None
      else
        var fb := if initialized then this else EnsureSurface(s);
        Some(fb.(snapshotActive := true, received := 0, total := s.Size()))
    }

    function WriteChunk(offset: nat, bytes: seq<Byte>): Option<Framebuffer>
      requires Valid()
    {
      if !snapshotActive || bytes == [] || offset != received then None
      else if offset % surface.Stride() != 0 || |bytes| % surface.Stride() != 0 || |bytes| > total - received then None
      else Some(this.(working := working[..offset] + bytes + working[offset + |bytes|..],
                      received := received + |bytes|))
    }

    function CommitSnapshot(frame: nat): Option<Framebuffer> {
      if !snapshotActive || frame == 0 || received != total then None
      else Some(this.(committed := working, working := committed, snapshotActive := false, initialized := true))
    }

    function CancelSnapshot(): Framebuffer {
      this.(snapshotActive := false, received := 0, total := 0)
    }

    function BeginUpdate(): Framebuffer {
      if !initialized || updateActive then this else this.(working := committed, updateActive := true)
    }

    predicate Accepts(r: Rect) {
      initialized && r.WellFormed() && r.Fits(surface)
    }

    function Patch(r: Rect): Option<Framebuffer>
      requires Valid()
    {
      if !Accepts(r) then None
      else
        var fb := BeginUpdate();
        Some(fb.(working := Painted(fb.working, surface, r)))
    }

    function PatchAll(rs: seq<Rect>): (r: Option<Framebuffer>)
      requires Valid()
      ensures r.Some? ==> r.value.Valid()
      decreases |rs|
    {
      if rs == [] then Some(this)
      else
        var fb := PatchAll(rs[..|rs| - 1]);
        if fb.None? then None else fb.value.Patch(rs[|rs| - 1])
    }

    /** What a run of patches leaves behind; the first refused one ends it. */
    function Patching(rs: seq<Rect>): (fb: Framebuffer)
      requires Valid()
      ensures fb.Valid() && fb == this.(working := fb.working, updateActive := fb.updateActive)
      decreases |rs|
    {
      if rs == [] then this
      else
        var before := Patching(rs[..|rs| - 1]);
        if PatchAll(rs).Some? then PatchAll(rs).value else before
    }

    /** Whether the verifier may run at all; otherwise it throws. */
    predicate Verifiable(rs: seq<Rect>) {
      rs != [] && updateActive && forall r <- rs :: Accepts(r)
    }

    /** The verifier's verdict: no byte of any rectangle differs from the working buffer. */
    ghost predicate Verified(rs: seq<Rect>)
      requires Valid() && Verifiable(rs)
    {
      forall r <- rs :: Agrees(working, surface, r)
    }

    function CommitUpdate(frame: nat): Option<Framebuffer> {
      if !updateActive || frame == 0 then None
      else Some(this.(committed := working, working := committed, updateActive := false))
    }

    function CancelUpdate(): Framebuffer {
      this.(updateActive := false)
    }
  }

  function Blank(s: Surface): Framebuffer {
    Framebuffer(s, seq(s.Size(), _ => 0), seq(s.Size(), _ => 0), false, false, false, 0, 0)
  }

  const EMPTY := Framebuffer(Surface(0, 0), [], [], false, false, false, 0, 0)

  // ---------------------------------------------------------------- snapshots

  /** A run of contiguous uploads; `None` as soon as one is refused. */
  function UploadAll(fb: Framebuffer, chunks: seq<seq<Byte>>): (r: Option<Framebuffer>)
    requires fb.Valid()
    ensures r.Some? ==> r.value.Valid()
    decreases |chunks|
  {
    if chunks == [] then Some(fb)
    else
      var before := UploadAll(fb, chunks[..|chunks| - 1]);
      if before.None? then None
      else
        var data := chunks[|chunks| - 1];
        before.value.WriteChunk(before.value.received, data)
  }

  function Concat(chunks: seq<seq<Byte>>): seq<Byte> {
    if chunks == [] then [] else Concat(chunks[..|chunks| - 1]) + chunks[|chunks| - 1]
  }

  /** Uploading fills the working buffer from the front and leaves the committed one alone. */
  lemma {:induction false} UploadAllFills(fb: Framebuffer, chunks: seq<seq<Byte>>)
    requires fb.Valid() && fb.snapshotActive && fb.received == 0
    requires UploadAll(fb, chunks).Some?
    ensures var up := UploadAll(fb, chunks).value;
            && up.committed == fb.committed && up.snapshotActive && up.total == fb.total
            && up.initialized == fb.initialized && up.surface == fb.surface
            && up.received == |Concat(chunks)| && up.working[..up.received] == Concat(chunks)
  {
    if chunks == [] {
    } else {
      var init := chunks[..|chunks| - 1];
      UploadAllFills(fb, init);
      var mid, up := UploadAll(fb, init).value, UploadAll(fb, chunks).value;
      assert up.working[..up.received] == mid.working[..mid.received] + chunks[|chunks| - 1];
    }
  }

  /** A snapshot transaction begun, filled and committed shows exactly the received bytes. */
  lemma SnapshotCommits(fb: Framebuffer, s: Surface, chunks: seq<seq<Byte>>, frame: nat)
    requires fb.Valid() && fb.BeginSnapshot(s).Some?
    requires UploadAll(fb.BeginSnapshot(s).value, chunks).Some?
    ensures var up := UploadAll(fb.BeginSnapshot(s).value, chunks).value;
            && up.committed == fb.BeginSnapshot(s).value.committed
            && (up.CommitSnapshot(frame).Some? <==> frame != 0 && |Concat(chunks)| == s.Size())
            && (up.CommitSnapshot(frame).Some? ==> up.CommitSnapshot(frame).value.committed == Concat(chunks))
            && up.CancelSnapshot().committed == up.committed
  {
    var begun := fb.BeginSnapshot(s).value;
    UploadAllFills(begun, chunks);
    var up := UploadAll(begun, chunks).value;
    assert up.working == up.working[..up.received] + up.working[up.received..];
  }

  // ---------------------------------------------------------------- rectangles

  /** Patching starts from the committed image and paints every rectangle on the working copy. */
  lemma {:induction false} PatchAllPaints(fb: Framebuffer, rs: seq<Rect>)
    requires fb.Valid() && fb.initialized && !fb.updateActive
    ensures fb.PatchAll(rs).Some? <==> forall r <- rs :: fb.Accepts(r)
    ensures fb.PatchAll(rs).Some? && rs != [] ==>
              fb.PatchAll(rs).value == fb.(working := PaintAll(fb.committed, fb.surface, rs), updateActive := true)
    ensures rs == [] ==> fb.PatchAll(rs) == Some(fb)
  {
    if rs == [] {
    } else {
      var init, last := rs[..|rs| - 1], rs[|rs| - 1];
      PatchAllPaints(fb, init);
      assert rs == init + [last];
      if fb.PatchAll(init).Some? && fb.Accepts(last) {
        PatchPaints(fb, fb.PatchAll(init).value, if init == [] then fb.committed
                                                 else PaintAll(fb.committed, fb.surface, init), last);
      }
    }
  }

  /** One rectangle more, on an open transaction or on the image it would start from. */
  lemma PatchPaints(fb: Framebuffer, open: Framebuffer, image: seq<Byte>, r: Rect)
    requires fb.Valid() && open.Valid() && fb.initialized && !fb.updateActive && fb.Accepts(r) &&
             |image| == |fb.committed|
    requires open == fb.(working := image, updateActive := true) || (open == fb && image == fb.committed)
    ensures open.Patch(r) == Some(fb.(working := Painted(image, fb.surface, r), updateActive := true))
  {
  }

  /** A transaction of disjoint rectangles verifies and commits the old frame with them painted on. */
  lemma RectTransactionCommits(fb: Framebuffer, rs: seq<Rect>, frame: nat)
    requires fb.Valid() && fb.initialized && !fb.updateActive && rs != [] && frame != 0
    requires forall r <- rs :: fb.Accepts(r)
    ensures fb.PatchAll(rs).Some?
    ensures var up := fb.PatchAll(rs).value;
            && up.committed == fb.committed
            && up.Verifiable(rs)
            && (Disjoint(rs) ==> up.Verified(rs))
            && up.CommitUpdate(frame).Some?
            && up.CommitUpdate(frame).value.committed == PaintAll(fb.committed, fb.surface, rs)
            && up.CancelUpdate().committed == fb.committed
  {
    PatchAllPaints(fb, rs);
    var up := fb.PatchAll(rs).value;
    if Disjoint(rs) {
      forall r | r in rs ensures Agrees(up.working, fb.surface, r) {
        var i :| 0 <= i < |rs| && rs[i] == r;
        DisjointPaintAgrees(fb.committed, fb.surface, rs, i);
      }
    }
  }
}
