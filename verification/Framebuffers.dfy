/**
 The renderer's framebuffer as it is kept: arrays written in place and swapped. Each method is
 proved against the value it stands for, a `FramebufferSpec.Framebuffer`.
 */
module Framebuffers {
  import opened Options
  import opened Pixels
  import Spec = FramebufferSpec

  // ------------------------------------------------------- moving rows of bytes

  /** `count` rows of `bytes` bytes each, taken `pitch` bytes apart. */
  predicate Reaches(src: seq<Byte>, from: nat, pitch: nat, bytes: nat, count: nat) {
    bytes <= pitch && (count > 0 ==> from + (count - 1) * pitch + bytes <= |src|)
  }

  lemma RowInside(src: seq<Byte>, from: nat, pitch: nat, bytes: nat, count: nat, row: nat)
    requires Reaches(src, from, pitch, bytes, count) && row < count
    ensures from + row * pitch + bytes <= |src|
  {
    MulOrder(row, count - 1, pitch);
  }

  /** Those rows, tightly packed. */
  function Gathered(src: seq<Byte>, from: nat, pitch: nat, bytes: nat, count: nat): (g: seq<Byte>)
    requires Reaches(src, from, pitch, bytes, count)
    ensures |g| == bytes * count
  {
    seq(bytes * count, k requires 0 <= k < bytes * count =>
      (RowBound(k, count, bytes); RowInside(src, from, pitch, bytes, count, k / bytes);
       src[from + (k / bytes) * pitch + k % bytes]))
  }

  lemma GatheredAt(src: seq<Byte>, from: nat, pitch: nat, bytes: nat, count: nat, row: nat, col: nat)
    requires Reaches(src, from, pitch, bytes, count) && row < count && col < bytes
    ensures row * bytes + col < bytes * count && from + row * pitch + col < |src|
    ensures Gathered(src, from, pitch, bytes, count)[row * bytes + col] == src[from + row * pitch + col]
  {
    IndexBound(row, count, col, bytes);
    IndexSplit(row, col, bytes);
    RowInside(src, from, pitch, bytes, count, row);
  }

  /** The image with the first `rows` rows of a rectangle painted. */
  function RowsPainted(img: seq<Byte>, s: Surface, r: Rect, rows: nat): (p: seq<Byte>)
    requires r.WellFormed() && (|img| > 0 ==> s.width > 0)
    ensures |p| == |img|
  {
    seq(|img|, k requires 0 <= k < |img| =>
      if r.Covers(k / s.Stride(), k % s.Stride()) && k / s.Stride() < r.y + rows
      then r.Sample(k / s.Stride(), k % s.Stride()) else img[k])
  }

  lemma RowsPaintedAll(img: seq<Byte>, s: Surface, r: Rect)
    requires r.WellFormed() && |img| == s.Size()
    ensures RowsPainted(img, s, r, r.height) == Painted(img, s, r)
    ensures RowsPainted(img, s, r, 0) == img
  {
    forall k | 0 <= k < |img|
      ensures RowsPainted(img, s, r, r.height)[k] == Painted(img, s, r)[k] && RowsPainted(img, s, r, 0)[k] == img[k]
    {
      RowBound(k, s.height, s.Stride());
    }
  }

  /** Replacing a run of bytes. */
  function Spliced(img: seq<Byte>, at: nat, bytes: seq<Byte>): (p: seq<Byte>)
    requires at + |bytes| <= |img|
    ensures |p| == |img|
  {
    img[..at] + bytes + img[at + |bytes|..]
  }

  /** Where a row and column lie relative to one row of the rectangle. */
  lemma RowPlace(s: Surface, row: nat, col: nat, target: nat, left: nat, bytes: nat)
    requires col < s.Stride() && left + bytes <= s.Stride()
    ensures var at := target * s.Stride() + left;
            at <= row * s.Stride() + col < at + bytes <==> row == target && left <= col < left + bytes
  {
    MulOrder(row + 1, target, s.Stride());
    MulOrder(target + 1, row, s.Stride());
    assert (row + 1) * s.Stride() == row * s.Stride() + s.Stride();
    assert (target + 1) * s.Stride() == target * s.Stride() + s.Stride();
  }

  lemma RowFits(s: Surface, r: Rect, row: nat)
    requires r.WellFormed() && r.Fits(s) && row < r.height
    ensures (r.y + row) * s.Stride() + 4 * r.x + r.Stride() <= s.Size()
    ensures 4 * r.x + r.Stride() <= s.Stride()
    ensures (row + 1) * r.Stride() <= |r.bgra|
  {
    MulOrder(r.y + row + 1, s.height, s.Stride());
    assert (r.y + row + 1) * s.Stride() == (r.y + row) * s.Stride() + s.Stride();
    MulOrder(row + 1, r.height, r.Stride());
  }

  function RowOf(r: Rect, row: nat): seq<Byte>
    requires r.WellFormed() && row < r.height && (row + 1) * r.Stride() <= |r.bgra|
  {
    assert (row + 1) * r.Stride() == row * r.Stride() + r.Stride();
    r.bgra[row * r.Stride()..row * r.Stride() + r.Stride()]
  }

  lemma RowsPaintedAt(img: seq<Byte>, s: Surface, r: Rect, rows: nat, row: nat, col: nat)
    requires r.WellFormed() && |img| == s.Size() && row < s.height && col < s.Stride()
    ensures s.Index(row, col) < |img| && s.width > 0
    ensures RowsPainted(img, s, r, rows)[s.Index(row, col)] ==
            if r.Covers(row, col) && row < r.y + rows then r.Sample(row, col) else img[s.Index(row, col)]
  {
    IndexBound(row, s.height, col, s.Stride());
    IndexSplit(row, col, s.Stride());
  }

  lemma SplicedAt(img: seq<Byte>, at: nat, bytes: seq<Byte>, k: nat)
    requires at + |bytes| <= |img| && k < |img|
    ensures Spliced(img, at, bytes)[k] == if at <= k < at + |bytes| then bytes[k - at] else img[k]
  {
  }

  lemma RowSample(r: Rect, row: nat, j: nat)
    requires r.WellFormed() && row < r.height && (row + 1) * r.Stride() <= |r.bgra| &&
             4 * r.x <= j < 4 * r.x + r.Stride()
    ensures r.Covers(r.y + row, j) && r.Sample(r.y + row, j) == RowOf(r, row)[j - 4 * r.x]
  {
  }

  lemma PaintRowInside(img: seq<Byte>, s: Surface, r: Rect, row: nat, j: nat, at: nat)
    requires r.WellFormed() && r.Fits(s) && row < r.height && |img| == s.Size() && 4 * r.x <= j < 4 * r.x + r.Stride()
    requires (row + 1) * r.Stride() <= |r.bgra| && j < s.Stride() && s.width > 0
    requires at == (r.y + row) * s.Stride() + 4 * r.x && at + r.Stride() <= |img|
    ensures s.Index(r.y + row, j) == at + (j - 4 * r.x)
    ensures RowsPainted(img, s, r, row + 1)[s.Index(r.y + row, j)] == RowOf(r, row)[j - 4 * r.x]
  {
    RowsPaintedAt(img, s, r, row + 1, r.y + row, j);
    RowSample(r, row, j);
  }

  lemma PaintRowOutside(img: seq<Byte>, s: Surface, r: Rect, row: nat, i: nat, j: nat)
    requires r.WellFormed() && r.Fits(s) && row < r.height && |img| == s.Size() && i < s.height && j < s.Stride()
    requires !(i == r.y + row && 4 * r.x <= j < 4 * r.x + r.Stride()) && s.width > 0
    ensures s.Index(i, j) < |img|
    ensures RowsPainted(img, s, r, row + 1)[s.Index(i, j)] == RowsPainted(img, s, r, row)[s.Index(i, j)]
  {
    RowsPaintedAt(img, s, r, row, i, j);
    RowsPaintedAt(img, s, r, row + 1, i, j);
  }

  /** One more row painted is one more run replaced. */
  lemma PaintRow(img: seq<Byte>, s: Surface, r: Rect, row: nat)
    requires r.WellFormed() && r.Fits(s) && row < r.height && |img| == s.Size() && s.width > 0
    requires (row + 1) * r.Stride() <= |r.bgra|
    requires (r.y + row) * s.Stride() + 4 * r.x + r.Stride() <= s.Size()
    ensures RowsPainted(img, s, r, row + 1) ==
            Spliced(RowsPainted(img, s, r, row), (r.y + row) * s.Stride() + 4 * r.x, RowOf(r, row))
  {
    var before, after := RowsPainted(img, s, r, row), RowsPainted(img, s, r, row + 1);
    var at := (r.y + row) * s.Stride() + 4 * r.x;
    var stripe := RowOf(r, row);
    forall k | 0 <= k < |img| ensures after[k] == Spliced(before, at, stripe)[k] {
      PaintRowAt(img, s, r, row, at, k);
      SplicedAt(before, at, stripe, k);
    }
  }

  /** One byte of it. */
  lemma PaintRowAt(img: seq<Byte>, s: Surface, r: Rect, row: nat, at: nat, k: nat)
    requires r.WellFormed() && r.Fits(s) && row < r.height && |img| == s.Size() && s.width > 0 && k < |img|
    requires (row + 1) * r.Stride() <= |r.bgra| && at == (r.y + row) * s.Stride() + 4 * r.x && at + r.Stride() <= |img|
    ensures RowsPainted(img, s, r, row + 1)[k] ==
            if at <= k < at + r.Stride() then RowOf(r, row)[k - at] else RowsPainted(img, s, r, row)[k]
  {
    RowFits(s, r, row);
    var i, j := Position(s, k);
    RowPlace(s, i, j, r.y + row, 4 * r.x, r.Stride());
    if i == r.y + row && 4 * r.x <= j < 4 * r.x + r.Stride() {
      PaintRowInside(img, s, r, row, j, at);
    } else {
      PaintRowOutside(img, s, r, row, i, j);
    }
  }

  /** Copies `bytes` bytes of one row. */
  method CopyRow(dst: array<Byte>, at: nat, src: seq<Byte>, from: nat, bytes: nat)
    requires at + bytes <= dst.Length && from + bytes <= |src|
    modifies dst
    ensures dst[..] == Spliced(old(dst[..]), at, src[from..from + bytes])
  {
    for column := 0 to bytes
      invariant dst[..] == Spliced(old(dst[..]), at, src[from..from + column])
    {
      dst[at + column] := src[from + column];
      assert src[from..from + column + 1] == src[from..from + column] + [src[from + column]];
    }
  }

  lemma RowGathered(src: seq<Byte>, from: nat, pitch: nat, r: Rect, row: nat)
    requires r.WellFormed() && row < r.height && Reaches(src, from, pitch, r.Stride(), r.height)
    requires r.bgra == Gathered(src, from, pitch, r.Stride(), r.height)
    ensures from + row * pitch + r.Stride() <= |src| && (row + 1) * r.Stride() <= |r.bgra|
    ensures src[from + row * pitch..from + row * pitch + r.Stride()] == RowOf(r, row)
  {
    var bytes := r.Stride();
    RowInside(src, from, pitch, bytes, r.height, row);
    MulOrder(row + 1, r.height, bytes);
    StripeGathered(src, from, pitch, bytes, r.height, row, row * bytes, from + row * pitch);
  }

  lemma StripeGathered(src: seq<Byte>, from: nat, pitch: nat, bytes: nat, count: nat, row: nat, at: nat, start: nat)
    requires Reaches(src, from, pitch, bytes, count) && row < count
    requires at == row * bytes && start == from + row * pitch && start + bytes <= |src| && at + bytes <= bytes * count
    ensures src[start..start + bytes] == Gathered(src, from, pitch, bytes, count)[at..at + bytes]
  {
    var packed := Gathered(src, from, pitch, bytes, count);
    forall k | start <= k < start + bytes ensures src[k] == packed[k - start + at] {
      GatheredAt(src, from, pitch, bytes, count, row, k - start);
    }
    SameRun(src, start, packed, at, bytes);
  }

  lemma SameRun(a: seq<Byte>, i: nat, b: seq<Byte>, j: nat, n: nat)
    requires i + n <= |a| && j + n <= |b| && forall k | i <= k < i + n :: a[k] == b[k - i + j]
    ensures a[i..i + n] == b[j..j + n]
  {
  }

  /** One more row painted is one more run copied from the source. */
  lemma PaintNextRow(img: seq<Byte>, s: Surface, r: Rect, src: seq<Byte>, from: nat, pitch: nat, row: nat, at: nat,
                     start: nat)
    requires r.WellFormed() && r.Fits(s) && row < r.height && |img| == s.Size() && s.width > 0
    requires Reaches(src, from, pitch, r.Stride(), r.height) &&
             r.bgra == Gathered(src, from, pitch, r.Stride(), r.height)
    requires at == (r.y + row) * s.Stride() + 4 * r.x && start == from + row * pitch
    ensures at + r.Stride() <= |img| && start + r.Stride() <= |src|
    ensures RowsPainted(img, s, r, row + 1) == Spliced(RowsPainted(img, s, r, row), at, src[start..start + r.Stride()])
  {
    RowFits(s, r, row);
    RowGathered(src, from, pitch, r, row);
    PaintRow(img, s, r, row);
  }

  /** Copies a box of rows into a texture; the source rows lie `pitch` bytes apart. */
  method CopyBox(dst: array<Byte>, s: Surface, x: nat, y: nat, width: nat, height: nat, src: seq<Byte>, from: nat,
                 pitch: nat)
    requires dst.Length == s.Size() && width > 0 && height > 0
    requires x + width <= s.width && y + height <= s.height
    requires Reaches(src, from, pitch, 4 * width, height)
    modifies dst
    ensures dst[..] == Painted(old(dst[..]), s,
                               Rect(x, y, width, height, Gathered(src, from, pitch, 4 * width, height)))
  {
    ghost var r := Rect(x, y, width, height, Gathered(src, from, pitch, 4 * width, height));
    RowsPaintedAll(dst[..], s, r);
    for row := 0 to height
      invariant dst[..] == RowsPainted(old(dst[..]), s, r, row)
    {
      var at, start := (y + row) * s.Stride() + 4 * x, from + row * pitch;
      PaintNextRow(old(dst[..]), s, r, src, from, pitch, row, at, start);
      CopyRow(dst, at, src, start, 4 * width);
    }
  }

  // ------------------------------------------------------------------- regions

  /** The packed pixels of a region of an image. */
  function Region(img: seq<Byte>, s: Surface, x: nat, y: nat, width: nat, height: nat): (g: seq<Byte>)
    requires |img| == s.Size() && x + width <= s.width && y + height <= s.height
    ensures |g| == 4 * width * height
  {
    RegionReaches(img, s, x, y, width, height);
    Gathered(img, y * s.Stride() + 4 * x, s.Stride(), 4 * width, height)
  }

  lemma RegionReaches(img: seq<Byte>, s: Surface, x: nat, y: nat, width: nat, height: nat)
    requires |img| == s.Size() && x + width <= s.width && y + height <= s.height
    ensures Reaches(img, y * s.Stride() + 4 * x, s.Stride(), 4 * width, height)
  {
    if height > 0 {
      MulOrder(y + height, s.height, s.Stride());
      assert (y + height) * s.Stride() == y * s.Stride() + (height - 1) * s.Stride() + s.Stride();
    }
  }

  function RegionRect(img: seq<Byte>, s: Surface, x: nat, y: nat, width: nat, height: nat, toX: nat, toY: nat): Rect
    requires |img| == s.Size() && x + width <= s.width && y + height <= s.height
  {
    Rect(toX, toY, width, height, Region(img, s, x, y, width, height))
  }

  lemma RowSum(y: nat, i: nat, stride: nat)
    ensures (y + i) * stride == y * stride + i * stride
  {
  }

  lemma RegionIndex(s: Surface, x: nat, y: nat, i: nat, j: nat)
    ensures y * s.Stride() + 4 * x + i * s.Stride() + j == s.Index(y + i, 4 * x + j)
  {
    RowSum(y, i, s.Stride());
  }

  /** A byte of a region is the byte as far from its corner. */
  lemma RegionByte(img: seq<Byte>, s: Surface, r: Rect, i: nat, j: nat)
    requires r.WellFormed() && r.Fits(s) && |img| == s.Size() && i < r.height && j < r.Stride()
    ensures i * r.Stride() + j < 4 * r.width * r.height
    ensures Region(img, s, r.x, r.y, r.width, r.height)[i * r.Stride() + j] == At(img, s, r.y + i, 4 * r.x + j)
  {
    RegionReaches(img, s, r.x, r.y, r.width, r.height);
    GatheredAt(img, r.y * s.Stride() + 4 * r.x, s.Stride(), r.Stride(), r.height, i, j);
    RegionIndex(s, r.x, r.y, i, j);
  }

  /** What a region carries for a position is the byte as far from its corner in the source. */
  lemma RegionSample(img: seq<Byte>, s: Surface, x: nat, y: nat, width: nat, height: nat, toX: nat, toY: nat, i: nat,
                     j: nat)
    requires |img| == s.Size() && x + width <= s.width && y + height <= s.height && width > 0 && height > 0
    requires toY <= i < toY + height && 4 * toX <= j < 4 * (toX + width)
    ensures y + i - toY < s.height && 4 * x + j - 4 * toX < s.Stride()
    ensures RegionRect(img, s, x, y, width, height, toX, toY).Sample(i, j) ==
            At(img, s, y + i - toY, 4 * x + j - 4 * toX)
  {
    RegionByte(img, s, RegionRect(img, s, x, y, width, height, x, y), i - toY, j - 4 * toX);
  }

  /** A region painted into another image and cut out again is itself. */
  lemma RegionPainted(img: seq<Byte>, s: Surface, r: Rect)
    requires r.WellFormed() && r.Fits(s) && |img| == s.Size() && s.width > 0
    ensures Region(Painted(img, s, r), s, r.x, r.y, r.width, r.height) == r.bgra
  {
    var painted := Painted(img, s, r);
    var region := Region(painted, s, r.x, r.y, r.width, r.height);
    forall k | 0 <= k < |region| ensures region[k] == r.bgra[k] {
      var i, j := Divide(k, r.height, r.Stride());
      RegionByte(painted, s, r, i, j);
      PaintedAtStep(img, s, r, r.y + i, 4 * r.x + j);
    }
  }

  /** Copies a region of one texture to a place in another. */
  method CopyRegion(dst: array<Byte>, s: Surface, toX: nat, toY: nat, src: array<Byte>, x: nat, y: nat, width: nat,
                    height: nat)
    requires dst != src && dst.Length == src.Length == s.Size() && width > 0 && height > 0
    requires x + width <= s.width && y + height <= s.height && toX + width <= s.width && toY + height <= s.height
    modifies dst
    ensures dst[..] == Painted(old(dst[..]), s, RegionRect(src[..], s, x, y, width, height, toX, toY))
  {
    RegionReaches(src[..], s, x, y, width, height);
    CopyBox(dst, s, toX, toY, width, height, src[..], y * s.Stride() + 4 * x, s.Stride());
  }

  /** The image after moving a region onto another, both read before anything is written. */
  function Moved(img: seq<Byte>, s: Surface, x: nat, y: nat, toX: nat, toY: nat, width: nat, height: nat): seq<Byte>
    requires |img| == s.Size() && x + width <= s.width && y + height <= s.height && width > 0 && height > 0
  {
    Painted(img, s, RegionRect(img, s, x, y, width, height, toX, toY))
  }

  /** Moving is a simultaneous copy, whether or not the two regions overlap. */
  lemma MovedAt(img: seq<Byte>, s: Surface, x: nat, y: nat, toX: nat, toY: nat, width: nat, height: nat, i: nat, j: nat)
    requires |img| == s.Size() && x + width <= s.width && y + height <= s.height && width > 0 && height > 0
    requires i < s.height && j < s.Stride()
    ensures var moved := Moved(img, s, x, y, toX, toY, width, height);
            if toY <= i < toY + height && 4 * toX <= j < 4 * (toX + width)
            then At(moved, s, i, j) == At(img, s, y + i - toY, 4 * x + j - 4 * toX)
            else At(moved, s, i, j) == At(img, s, i, j)
  {
    PaintedAtStep(img, s, RegionRect(img, s, x, y, width, height, toX, toY), i, j);
    if toY <= i < toY + height && 4 * toX <= j < 4 * (toX + width) {
      RegionSample(img, s, x, y, width, height, toX, toY, i, j);
    }
  }

  /** Tightly packed rows are gathered unchanged. */
  lemma GatheredTight(src: seq<Byte>, bytes: nat, count: nat)
    requires |src| == bytes * count
    ensures Reaches(src, 0, bytes, bytes, count) && Gathered(src, 0, bytes, bytes, count) == src
  {
    if count > 0 {
      assert (count - 1) * bytes + bytes == bytes * count;
    }
    forall k | 0 <= k < |src| ensures Gathered(src, 0, bytes, bytes, count)[k] == src[k] {
      var i, j := Divide(k, count, bytes);
      GatheredAt(src, 0, bytes, bytes, count, i, j);
    }
  }

  // ------------------------------------------------------------------ the class

  method Blank(size: nat) returns (texture: array<Byte>)
    ensures fresh(texture) && texture[..] == seq(size, _ => 0)
  {
    var zero: Byte := 0;
    texture := new Byte[size](_ => zero);
  }

  method Textures(size: nat) returns (a: array<Byte>, b: array<Byte>, c: array<Byte>, d: array<Byte>)
    ensures fresh(a) && fresh(b) && fresh(c) && fresh(d)
    ensures a != b && a != c && a != d && b != c && b != d && c != d
    ensures a[..] == b[..] == seq(size, _ => 0) && c.Length == d.Length == size
  {
    a := Blank(size);
    b := Blank(size);
    c := Blank(size);
    d := Blank(size);
  }

  class Framebuffer {
    var surface: Surface
    var working: array<Byte>
    var committed: array<Byte>
    var scratch: array<Byte>
    var staging: array<Byte>
    var initialized: bool
    var updateActive: bool
    var snapshotActive: bool
    var received: nat
    var total: nat

    ghost function Buffers(): set<object>
      reads this
    {
      {working, committed, scratch, staging}
    }

    ghost predicate Distinct()
      reads this, Buffers()
    {
      && working != committed && working != scratch && working != staging
      && committed != scratch && committed != staging && scratch != staging
      && working.Length == committed.Length == scratch.Length == staging.Length == surface.Size()
    }

    ghost function Model(): Spec.Framebuffer
      reads this, Buffers()
    {
      Spec.Framebuffer(surface, committed[..], working[..], initialized, updateActive, snapshotActive, received, total)
    }

    ghost predicate Valid()
      reads this, Buffers()
    {
      Distinct() && Model().Valid()
    }

    constructor ()
      ensures Valid() && fresh(Buffers()) && Model() == Spec.EMPTY
    {
      surface := Surface(0, 0);
      working, committed, scratch, staging := new Byte[0], new Byte[0], new Byte[0], new Byte[0];
      initialized, updateActive, snapshotActive := false, false, false;
      received, total := 0, 0;
    }

    /** Allocates new textures when the surface changes. */
    method EnsureSurface(s: Surface)
      requires Valid()
      modifies this
      ensures Valid() && fresh(Buffers() - old(Buffers())) && Model() == old(Model()).EnsureSurface(s)
    {
      if s != surface {
        Replace(s);
      }
    }

    /** Four new textures; every transaction is forgotten. */
    method Replace(s: Surface)
      modifies this
      ensures Valid() && fresh(Buffers()) && Model() == Spec.Blank(s)
    {
      var a, b, c, d := Textures(s.Size());
      surface, working, committed, scratch, staging := s, a, b, c, d;
      initialized, updateActive, snapshotActive := false, false, false;
      received, total := 0, 0;
    }

    /** A decoded frame becomes the committed image; the frame before it becomes the working copy. */
    method RenderVideo(s: Surface, pixels: seq<Byte>)
      requires Valid() && |pixels| == s.Size() && s.width > 0 && s.height > 0
      modifies this, Buffers()
      ensures Valid() && fresh(Buffers() - old(Buffers())) && Model() == old(Model()).RenderVideo(s, pixels)
    {
      EnsureSurface(s);
      CopyRow(working, 0, pixels, 0, |pixels|);
      assert pixels[0..|pixels|] == pixels && working[..] == pixels;
      working, committed := committed, working;
      initialized, updateActive := true, false;
    }

    method BeginUpdate()
      requires Valid()
      modifies this`updateActive, working
      ensures Valid() && Model() == old(Model()).BeginUpdate()
    {
      if initialized && !updateActive {
        for k := 0 to working.Length
          invariant Distinct() && working[..k] == committed[..k]
          invariant Model() == old(Model()).(working := working[..])
        {
          working[k] := committed[k];
        }
        updateActive := true;
      }
    }

    predicate Within(x: nat, y: nat, width: nat, height: nat)
      reads this
    {
      && initialized && width != 0 && height != 0 && x <= surface.width && y <= surface.height
      && width <= surface.width - x && height <= surface.height - y
    }

    /** Paints a rectangle whose rows lie `rowStride` bytes apart. */
    method Patch(x: nat, y: nat, width: nat, height: nat, rowStride: nat, bgra: seq<Byte>) returns (ok: bool)
      requires Valid()
      modifies this`updateActive, working
      ensures Valid()
      ensures ok <==> Within(x, y, width, height) && rowStride >= 4 * width && |bgra| == rowStride * height
      ensures !ok ==> Model() == old(Model())
      ensures ok ==> Reaches(bgra, 0, rowStride, 4 * width, height) &&
                     old(Model()).Patch(Rect(x, y, width, height, Gathered(bgra, 0, rowStride, 4 * width, height))) ==
                     Some(Model())
    {
      ok := Within(x, y, width, height) && rowStride >= 4 * width && |bgra| == rowStride * height;
      if ok {
        assert (height - 1) * rowStride + rowStride == rowStride * height;
        BeginUpdate();
        CopyBox(working, surface, x, y, width, height, bgra, 0, rowStride);
      }
    }

    /** Moves a region through the scratch texture. */
    method CopyRect(x: nat, y: nat, toX: nat, toY: nat, width: nat, height: nat) returns (ok: bool)
      requires Valid()
      modifies this`updateActive, working, scratch
      ensures Valid()
      ensures ok <==> Within(x, y, width, height) && Within(toX, toY, width, height)
      ensures !ok ==> Model() == old(Model())
      ensures ok ==> var before := old(Model()).BeginUpdate();
                     Model() == before.(working := Moved(before.working, surface, x, y, toX, toY, width, height))
    {
      ok := Within(x, y, width, height) && Within(toX, toY, width, height);
      if ok {
        BeginUpdate();
        ghost var image, untouched := working[..], scratch[..];
        CopyRegion(scratch, surface, 0, 0, working, x, y, width, height);
        RegionPainted(untouched, surface, RegionRect(image, surface, x, y, width, height, 0, 0));
        CopyRegion(working, surface, toX, toY, scratch, 0, 0, width, height);
      }
    }

    method CommitUpdate(frame: nat) returns (ok: bool)
      requires Valid()
      modifies this`working, this`committed, this`updateActive
      ensures Valid() && Buffers() == old(Buffers())
      ensures ok <==> old(Model()).CommitUpdate(frame).Some?
      ensures Model() == if ok then old(Model()).CommitUpdate(frame).value else old(Model())
    {
      ok := updateActive && frame != 0;
      if ok {
        working, committed, updateActive := committed, working, false;
      }
    }

    method CancelUpdate()
      requires Valid()
      modifies this`updateActive
      ensures Valid() && Model() == old(Model()).CancelUpdate()
    {
      updateActive := false;
    }

    /** `ready`: there is a device and a swap chain. */
    method BeginSnapshot(s: Surface, ready: bool) returns (ok: bool)
      requires Valid()
      modifies this
      ensures Valid() && fresh(Buffers() - old(Buffers()))
      ensures ok <==> ready && old(Model()).BeginSnapshot(s).Some?
      ensures Model() == if ok then old(Model()).BeginSnapshot(s).value else old(Model())
    {
      ok := s.width != 0 && s.height != 0 && s.width * s.height <= Spec.MAXIMUM_SNAPSHOT_TOTAL_BYTES / 4 &&
            ready && !updateActive && !snapshotActive && (!initialized || s == surface);
      if ok {
        if !initialized {
          EnsureSurface(s);
        }
        snapshotActive, received, total := true, 0, s.Size();
      }
    }

    method WriteChunk(offset: nat, bytes: seq<Byte>) returns (ok: bool)
      requires Valid()
      modifies this`received, working
      ensures Valid()
      ensures ok <==> old(Model()).WriteChunk(offset, bytes).Some?
      ensures Model() == if ok then old(Model()).WriteChunk(offset, bytes).value else old(Model())
    {
      ok := snapshotActive && bytes != [] && offset == received && offset % surface.Stride() == 0 &&
            |bytes| % surface.Stride() == 0 && |bytes| <= total - received;
      if ok {
        CopyRow(working, offset, bytes, 0, |bytes|);
        assert bytes[0..|bytes|] == bytes;
        received := received + |bytes|;
      }
    }

    method CommitSnapshot(frame: nat) returns (ok: bool)
      requires Valid()
      modifies this`working, this`committed, this`snapshotActive, this`initialized
      ensures Valid() && Buffers() == old(Buffers())
      ensures ok <==> old(Model()).CommitSnapshot(frame).Some?
      ensures Model() == if ok then old(Model()).CommitSnapshot(frame).value else old(Model())
    {
      ok := snapshotActive && frame != 0 && received == total;
      if ok {
        working, committed, snapshotActive, initialized := committed, working, false, true;
      }
    }

    method CancelSnapshot()
      requires Valid()
      modifies this`snapshotActive, this`received, this`total
      ensures Valid() && Model() == old(Model()).CancelSnapshot()
    {
      snapshotActive, received, total := false, 0, 0;
    }
  }
}
