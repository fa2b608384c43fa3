/** The pixel verifier: bytes of a texture compared against the rectangles that should be on it. */
module Verifier {
  import opened Options
  import opened Pixels
  import opened Framebuffers
  import opened Wire

  /** What the comparison counts. */
  datatype Tally = Tally(mismatched: nat, absolute: nat, squared: nat) {
    function Plus(other: Tally): Tally {
      Tally(mismatched + other.mismatched, absolute + other.absolute, squared + other.squared)
    }

    /** The three counts vanish together. */
    predicate Coherent() {
      mismatched <= absolute <= squared && (mismatched == 0 <==> squared == 0)
    }
  }

  const CLEAN := Tally(0, 0, 0)

  function Difference(a: Byte, b: Byte): nat { if a > b then a - b else b - a }

  /** Compares one row. */
  method CompareRow(actual: array<Byte>, at: nat, expected: seq<Byte>, from: nat, bytes: nat) returns (t: Tally)
    requires at + bytes <= actual.Length && from + bytes <= |expected|
    ensures t.Coherent() && t.mismatched <= bytes
    ensures t.mismatched == 0 <==> actual[at..at + bytes] == expected[from..from + bytes]
  {
    t := CLEAN;
    for column := 0 to bytes
      invariant t.Coherent() && t.mismatched <= column
      invariant t.mismatched == 0 <==> actual[at..at + column] == expected[from..from + column]
    {
      var d := Difference(actual[at + column], expected[from + column]);
      SliceStep(actual[..], at, expected, from, column);
      t := t.Plus(One(d));
    }
  }

  /** The counts of one pair of bytes. */
  function One(d: nat): (t: Tally)
    ensures t.Coherent() && t.mismatched <= 1 && (t.mismatched == 0 <==> d == 0)
  {
    assert d == 0 || d * d >= d;
    Tally(if d != 0 then 1 else 0, d, d * d)
  }

  lemma SliceStep(a: seq<Byte>, at: nat, b: seq<Byte>, from: nat, n: nat)
    requires at + n < |a| && from + n < |b|
    ensures a[at..at + n + 1] == b[from..from + n + 1] <==> a[at..at + n] == b[from..from + n] &&
                                                            a[at + n] == b[from + n]
  {
    var x, y := a[at..at + n + 1], b[from..from + n + 1];
    assert x == a[at..at + n] + [a[at + n]] && y == b[from..from + n] + [b[from + n]];
    assert x == y ==> x[..n] == y[..n] && x[n] == y[n];
  }

  function RegionOf(img: seq<Byte>, s: Surface, r: Rect): (g: seq<Byte>)
    requires r.WellFormed() && r.Fits(s) && |img| == s.Size()
    ensures |g| == |r.bgra|
  {
    Region(img, s, r.x, r.y, r.width, r.height)
  }

  lemma SampleByte(r: Rect, i: nat, j: nat)
    requires r.WellFormed() && i < r.height && j < r.Stride() && i * r.Stride() + j < |r.bgra|
    ensures r.Covers(r.y + i, 4 * r.x + j) && r.Sample(r.y + i, 4 * r.x + j) == r.bgra[i * r.Stride() + j]
  {
  }

  lemma RegionAgreesAt(img: seq<Byte>, s: Surface, r: Rect, i: nat, j: nat)
    requires r.WellFormed() && r.Fits(s) && |img| == s.Size() && i < r.height && j < r.Stride()
    ensures i * r.Stride() + j < |r.bgra| && r.y + i < s.height && 4 * r.x + j < s.Stride()
    ensures r.Covers(r.y + i, 4 * r.x + j)
    ensures RegionOf(img, s, r)[i * r.Stride() + j] == r.bgra[i * r.Stride() + j] <==>
            At(img, s, r.y + i, 4 * r.x + j) == r.Sample(r.y + i, 4 * r.x + j)
  {
    RegionByte(img, s, r, i, j);
    SampleByte(r, i, j);
  }

  /** An image agrees with a rectangle when the region it covers is the rectangle's own bytes. */
  lemma RegionAgrees(img: seq<Byte>, s: Surface, r: Rect)
    requires r.WellFormed() && r.Fits(s) && |img| == s.Size()
    ensures Agrees(img, s, r) <==> RegionOf(img, s, r) == r.bgra
  {
    var g := RegionOf(img, s, r);
    if Agrees(img, s, r) {
      forall k | 0 <= k < |g| ensures g[k] == r.bgra[k] {
        var i, j := Divide(k, r.height, r.Stride());
        RegionAgreesAt(img, s, r, i, j);
      }
    }
    if g == r.bgra {
      forall i: nat, j: nat | i < s.height && j < s.Stride() &&
      r.Covers(i, j) ensures At(img, s, i, j) == r.Sample(i, j) {
        RegionAgreesAt(img, s, r, i - r.y, j - 4 * r.x);
      }
    }
  }

  lemma PrefixStep(g: seq<Byte>, e: seq<Byte>, k: nat, n: nat)
    requires k + n <= |g| == |e|
    ensures g[..k + n] == e[..k + n] <==> g[..k] == e[..k] && g[k..k + n] == e[k..k + n]
  {
    assert g[..k + n] == g[..k] + g[k..k + n] && e[..k + n] == e[..k] + e[k..k + n];
    assert g[..k + n] == e[..k + n] ==> g[..k + n][..k] == e[..k + n][..k] && g[..k + n][k..] == e[..k + n][k..];
  }

  /** Where a row of the rectangle lies in the image and among the region's bytes. */
  lemma RegionRow(img: seq<Byte>, s: Surface, r: Rect, row: nat)
    requires r.WellFormed() && r.Fits(s) && |img| == s.Size() && row < r.height
    ensures var at, from := (r.y + row) * s.Stride() + 4 * r.x, row * r.Stride();
            && at + r.Stride() <= |img| && from + r.Stride() <= |r.bgra|
            && img[at..at + r.Stride()] == RegionOf(img, s, r)[from..from + r.Stride()]
  {
    var g := r.(bgra := RegionOf(img, s, r));
    RegionReaches(img, s, r.x, r.y, r.width, r.height);
    RowGathered(img, r.y * s.Stride() + 4 * r.x, s.Stride(), g, row);
    assert (r.y + row) * s.Stride() == r.y * s.Stride() + row * s.Stride();
    assert (row + 1) * r.Stride() == row * r.Stride() + r.Stride();
  }

  /** The first `rows` rows of the region carry the rectangle's bytes. */
  ghost predicate CleanUpTo(img: seq<Byte>, s: Surface, r: Rect, rows: nat)
    requires r.WellFormed() && r.Fits(s) && |img| == s.Size() && rows <= r.height
  {
    rows == 0 || (CleanUpTo(img, s, r, rows - 1) && RowClean(img, s, r, rows - 1))
  }

  ghost predicate RowClean(img: seq<Byte>, s: Surface, r: Rect, row: nat)
    requires r.WellFormed() && r.Fits(s) && |img| == s.Size() && row < r.height
  {
    RowFits(s, r, row);
    img[(r.y + row) * s.Stride() + 4 * r.x..(r.y + row) * s.Stride() + 4 * r.x + r.Stride()] == RowOf(r, row)
  }

  lemma {:induction false} CleanPrefix(img: seq<Byte>, s: Surface, r: Rect, rows: nat)
    requires r.WellFormed() && r.Fits(s) && |img| == s.Size() && rows <= r.height
    ensures rows * r.Stride() <= |r.bgra|
    ensures CleanUpTo(img, s, r, rows) <==> RegionOf(img, s, r)[..rows * r.Stride()] == r.bgra[..rows * r.Stride()]
    decreases rows
  {
    MulOrder(rows, r.height, r.Stride());
    if rows == 0 {
    } else {
      CleanPrefix(img, s, r, rows - 1);
      RegionRow(img, s, r, rows - 1);
      var from := (rows - 1) * r.Stride();
      assert rows * r.Stride() == from + r.Stride();
      PrefixStep(RegionOf(img, s, r), r.bgra, from, r.Stride());
    }
  }

  /** Row by row is the whole rectangle. */
  lemma CleanAgrees(img: seq<Byte>, s: Surface, r: Rect)
    requires r.WellFormed() && r.Fits(s) && |img| == s.Size()
    ensures CleanUpTo(img, s, r, r.height) <==> Agrees(img, s, r)
  {
    var g := RegionOf(img, s, r);
    CleanPrefix(img, s, r, r.height);
    assert r.height * r.Stride() == |r.bgra|;
    assert g[..|g|] == g && r.bgra[..|r.bgra|] == r.bgra;
    RegionAgrees(img, s, r);
  }

  method CompareRectRow(actual: array<Byte>, s: Surface, r: Rect, row: nat) returns (t: Tally)
    requires r.WellFormed() && r.Fits(s) && actual.Length == s.Size() && row < r.height
    ensures t.Coherent()
    ensures t.mismatched == 0 <==> RowClean(actual[..], s, r, row)
  {
    RowFits(s, r, row);
    assert (row + 1) * r.Stride() == row * r.Stride() + r.Stride();
    var at := (r.y + row) * s.Stride() + 4 * r.x;
    t := CompareRow(actual, at, r.bgra, row * r.Stride(), r.Stride());
    assert actual[..][at..at + r.Stride()] == actual[at..at + r.Stride()];
  }

  /** Compares one rectangle, row by row. */
  method CompareRect(actual: array<Byte>, s: Surface, r: Rect) returns (t: Tally)
    requires r.WellFormed() && r.Fits(s) && actual.Length == s.Size()
    ensures t.Coherent()
    ensures t.mismatched == 0 <==> Agrees(actual[..], s, r)
  {
    t := CLEAN;
    for row := 0 to r.height
      invariant t.Coherent()
      invariant t.mismatched == 0 <==> CleanUpTo(actual[..], s, r, row)
    {
      var one := CompareRectRow(actual, s, r, row);
      t := t.Plus(one);
    }
    CleanAgrees(actual[..], s, r);
  }

  // ------------------------------------------------------------ the bounding box

  datatype Box = Box(left: nat, top: nat, right: nat, bottom: nat) {
    predicate Holds(r: Rect) {
      left <= r.x && top <= r.y && r.x + r.width <= right && r.y + r.height <= bottom
    }

    predicate On(s: Surface) { left < right <= s.width && top < bottom <= s.height }
  }

  function Min(a: nat, b: nat): nat { if a < b then a else b }
  function Max(a: nat, b: nat): nat { if a > b then a else b }

  /** The smallest box around the rectangles. */
  method BoxAround(s: Surface, rs: seq<Rect>) returns (b: Box)
    requires rs != [] && AllFit(s, rs)
    ensures b.On(s) && forall r <- rs :: b.Holds(r)
  {
    b := Box(s.width, s.height, 0, 0);
    for i := 0 to |rs|
      invariant forall k | 0 <= k < i :: b.Holds(rs[k])
      invariant b.right <= s.width && b.bottom <= s.height
      invariant i > 0 ==> b.left < b.right && b.top < b.bottom
    {
      var r := rs[i];
      assert r in rs;
      b := Box(Min(b.left, r.x), Min(b.top, r.y), Max(b.right, r.x + r.width), Max(b.bottom, r.y + r.height));
    }
  }

  /** A rectangle inside the staged region agrees with the stage exactly when it agrees with the source. */
  lemma StagedAgrees(stage: seq<Byte>, img: seq<Byte>, s: Surface, b: Box, r: Rect)
    requires |stage| == |img| == s.Size() && b.On(s) && b.Holds(r) && r.WellFormed() && r.Fits(s)
    ensures var staged := Painted(stage, s,
                                  RegionRect(img, s, b.left, b.top, b.right - b.left, b.bottom - b.top, b.left, b.top));
            Agrees(staged, s, r) <==> Agrees(img, s, r)
  {
    var box := RegionRect(img, s, b.left, b.top, b.right - b.left, b.bottom - b.top, b.left, b.top);
    var staged := Painted(stage, s, box);
    forall i: nat, j: nat | i < s.height && j < s.Stride() &&
    r.Covers(i, j) ensures At(staged, s, i, j) == At(img, s, i, j) {
      PaintedAtStep(stage, s, box, i, j);
      RegionSample(img, s, b.left, b.top, b.right - b.left, b.bottom - b.top, b.left, b.top, i, j);
    }
  }

  datatype Receipt = Receipt(tally: Tally, verifiedBytes: nat)

  lemma RectBytesMore(rs: seq<Rect>, k: nat)
    requires k < |rs|
    ensures RectBytes(rs[..k + 1]) == RectBytes(rs[..k]) + |rs[k].bgra|
  {
    assert rs[..k + 1][..k] == rs[..k];
  }

  method CompareAll(actual: array<Byte>, s: Surface, rs: seq<Rect>) returns (receipt: Receipt)
    requires AllFit(s, rs) && actual.Length == s.Size()
    ensures receipt.verifiedBytes == RectBytes(rs) && receipt.tally.Coherent()
    ensures receipt.tally.mismatched == 0 <==> forall r <- rs :: Agrees(actual[..], s, r)
  {
    receipt := Receipt(CLEAN, 0);
    for i := 0 to |rs|
      invariant receipt.verifiedBytes == RectBytes(rs[..i]) && receipt.tally.Coherent()
      invariant receipt.tally.mismatched == 0 <==> forall r <- rs[..i] :: Agrees(actual[..], s, r)
    {
      assert rs[i] in rs;
      var one := CompareRect(actual, s, rs[i]);
      RectBytesMore(rs, i);
      assert rs[..i + 1] == rs[..i] + [rs[i]];
      receipt := Receipt(receipt.tally.Plus(one), receipt.verifiedBytes + |rs[i].bgra|);
    }
    assert rs[..|rs|] == rs;
  }

  /**
   Refuses what the renderer refuses; otherwise reports no mismatch exactly when every rectangle is on the
   working copy.
   */
  method Verify(fb: Framebuffer, rs: seq<Rect>) returns (receipt: Option<Receipt>)
    requires fb.Valid()
    modifies fb.staging
    ensures fb.Valid() && fb.Model() == old(fb.Model())
    ensures receipt.Some? <==> fb.Model().Verifiable(rs)
    ensures receipt.Some? ==> receipt.value.verifiedBytes == RectBytes(rs) && receipt.value.tally.Coherent()
    ensures receipt.Some? ==> (receipt.value.tally.mismatched == 0 <==> fb.Model().Verified(rs))
  {
    if rs == [] || !fb.updateActive { return None; }
    for i := 0 to |rs|
      invariant forall k | 0 <= k < i :: fb.Model().Accepts(rs[k])
    {
      var r := rs[i];
      if !fb.Within(r.x, r.y, r.width, r.height) || |r.bgra| != r.Stride() * r.height {
        assert r in rs && !fb.Model().Accepts(r);
        return None;
      }
    }
    var s := fb.surface;
    var b := BoxAround(s, rs);
    ghost var image, stage := fb.working[..], fb.staging[..];
    CopyRegion(fb.staging, s, b.left, b.top, fb.working, b.left, b.top, b.right - b.left, b.bottom - b.top);
    forall r | r in rs ensures Agrees(fb.staging[..], s, r) <==> Agrees(image, s, r) {
      StagedAgrees(stage, image, s, b, r);
    }
    var all := CompareAll(fb.staging, s, rs);
    receipt := Some(all);
  }
}
