/** Packed BGRA surfaces, rectangles on them, and what painting a rectangle means. */
module Pixels {

  type Byte = x: int | 0 <= x < 256

  /** A surface is row-major with four bytes a pixel; `Stride` is one row in bytes. */
  datatype Surface = Surface(width: nat, height: nat) {
    function Stride(): nat { 4 * width }
    function Size(): nat { Stride() * height }

    /** Position of byte column `col` of row `row` in the packed surface. */
    function Index(row: nat, col: nat): nat { row * Stride() + col }
  }

  /** A rectangle with its own tightly packed pixels: its row stride is four times its width. */
  datatype Rect = Rect(x: nat, y: nat, width: nat, height: nat, bgra: seq<Byte>) {
    function Stride(): nat { 4 * width }

    predicate WellFormed() {
      width > 0 && height > 0 && |bgra| == Stride() * height
    }

    predicate Covers(row: nat, col: nat) {
      y <= row < y + height && 4 * x <= col < 4 * (x + width)
    }

    /** The byte the rectangle carries for a position it covers. */
    function Sample(row: nat, col: nat): Byte
      requires WellFormed() && Covers(row, col)
    {
      IndexBound(row - y, height, col - 4 * x, Stride());
      bgra[(row - y) * Stride() + (col - 4 * x)]
    }

    predicate Fits(s: Surface) {
      x <= s.width && y <= s.height && width <= s.width - x && height <= s.height - y
    }

    predicate Overlaps(other: Rect) {
      x < other.x + other.width && x + width > other.x &&
      y < other.y + other.height && y + height > other.y
    }
  }

  lemma IndexBound(row: nat, rows: nat, col: nat, stride: nat)
    requires row < rows && col < stride
    ensures row * stride + col < rows * stride
  {
    assert (row + 1) * stride <= rows * stride;
  }

  lemma MulOrder(a: int, b: int, c: nat)
    ensures a <= b ==> a * c <= b * c
  {
  }

  lemma IndexSplit(row: nat, col: nat, stride: nat)
    requires col < stride
    ensures (row * stride + col) / stride == row
    ensures (row * stride + col) % stride == col
  {
    QuotientUnique(row * stride + col, row, col, stride);
  }

  lemma QuotientUnique(k: nat, row: nat, col: nat, stride: nat)
    requires col < stride && k == row * stride + col
    ensures k / stride == row && k % stride == col
  {
    var q := k / stride;
    MulOrder(row + 1, q, stride);
    MulOrder(q + 1, row, stride);
    assert (row + 1) * stride == row * stride + stride;
    assert (q + 1) * stride == q * stride + stride;
  }

  /** The image after painting one rectangle; everything it does not cover keeps its value. */
  function Painted(img: seq<Byte>, s: Surface, r: Rect): (p: seq<Byte>)
    requires r.WellFormed() && (|img| > 0 ==> s.width > 0)
    ensures |p| == |img|
  {
    seq(|img|, k requires 0 <= k < |img| =>
      if r.Covers(k / s.Stride(), k % s.Stride())
      then r.Sample(k / s.Stride(), k % s.Stride()) else img[k])
  }

  /** Painting seen through rows and columns. */
  lemma PaintedAt(img: seq<Byte>, s: Surface, r: Rect, row: nat, col: nat)
    requires r.WellFormed() && |img| == s.Size()
    requires row < s.height && col < s.Stride()
    ensures s.Index(row, col) < |img|
    ensures Painted(img, s, r)[s.Index(row, col)] ==
            if r.Covers(row, col) then r.Sample(row, col) else img[s.Index(row, col)]
  {
    IndexBound(row, s.height, col, s.Stride());
    IndexSplit(row, col, s.Stride());
  }

  lemma RowBound(k: nat, rows: nat, stride: nat)
    requires k < stride * rows
    ensures stride > 0 && k / stride < rows && k == (k / stride) * stride + k % stride
  {
    MulOrder(rows, k / stride, stride);
  }

  /** Every position of a surface is some row and column of it. */
  lemma Position(s: Surface, k: nat) returns (row: nat, col: nat)
    requires k < s.Size()
    ensures row < s.height && col < s.Stride() && k == s.Index(row, col)
  {
    row, col := Divide(k, s.height, s.Stride());
  }

  lemma Divide(k: nat, rows: nat, stride: nat) returns (row: nat, col: nat)
    requires k < stride * rows
    ensures row < rows && col < stride && k == row * stride + col
  {
    RowBound(k, rows, stride);
    row, col := k / stride, k % stride;
  }

  function PaintAll(img: seq<Byte>, s: Surface, rs: seq<Rect>): (p: seq<Byte>)
    requires (forall r <- rs :: r.WellFormed()) && (|img| > 0 ==> s.width > 0)
    ensures |p| == |img|
  {
    if rs == [] then img
    else Painted(PaintAll(img, s, rs[..|rs| - 1]), s, rs[|rs| - 1])
  }

  /** The image holds, at every position a rectangle covers, the byte that rectangle carries. */
  ghost predicate Agrees(img: seq<Byte>, s: Surface, r: Rect)
    requires r.WellFormed() && r.Fits(s) && |img| == s.Size()
  {
    forall row: nat, col: nat | row < s.height && col < s.Stride() && r.Covers(row, col) ::
      At(img, s, row, col) == r.Sample(row, col)
  }

  function At(img: seq<Byte>, s: Surface, row: nat, col: nat): Byte
    requires |img| == s.Size() && row < s.height && col < s.Stride()
  {
    IndexBound(row, s.height, col, s.Stride());
    img[s.Index(row, col)]
  }

  ghost predicate Disjoint(rs: seq<Rect>) {
    forall i, j | 0 <= i < j < |rs| :: !rs[i].Overlaps(rs[j])
  }

  predicate AllFit(s: Surface, rs: seq<Rect>) {
    forall r <- rs :: r.WellFormed() && r.Fits(s)
  }

  lemma PaintedAtStep(img: seq<Byte>, s: Surface, r: Rect, row: nat, col: nat)
    requires r.WellFormed() && |img| == s.Size() && row < s.height && col < s.Stride()
    ensures At(Painted(img, s, r), s, row, col) ==
            if r.Covers(row, col) then r.Sample(row, col) else At(img, s, row, col)
  {
    PaintedAt(img, s, r, row, col);
  }

  /** The byte painting leaves at a position: that of the last rectangle covering it, else the old one. */
  function TopByte(under: Byte, rs: seq<Rect>, row: nat, col: nat): Byte
    requires forall r <- rs :: r.WellFormed()
  {
    if rs == [] then under
    else if rs[|rs| - 1].Covers(row, col) then rs[|rs| - 1].Sample(row, col)
    else TopByte(under, rs[..|rs| - 1], row, col)
  }

  lemma {:induction false} PaintAllTop(img: seq<Byte>, s: Surface, rs: seq<Rect>, row: nat, col: nat)
    requires AllFit(s, rs) && |img| == s.Size() && row < s.height && col < s.Stride()
    ensures At(PaintAll(img, s, rs), s, row, col) == TopByte(At(img, s, row, col), rs, row, col)
  {
    if rs == [] {
    } else {
      var last := |rs| - 1;
      PaintAllTop(img, s, rs[..last], row, col);
      PaintedAtStep(PaintAll(img, s, rs[..last]), s, rs[last], row, col);
    }
  }

  lemma {:induction false} TopByteIs(under: Byte, rs: seq<Rect>, i: nat, row: nat, col: nat)
    requires (forall r <- rs :: r.WellFormed()) && i < |rs| && rs[i].Covers(row, col)
    requires forall j | i < j < |rs| :: !rs[j].Covers(row, col)
    ensures TopByte(under, rs, row, col) == rs[i].Sample(row, col)
  {
    if i == |rs| - 1 {
    } else {
      TopByteIs(under, rs[..|rs| - 1], i, row, col);
    }
  }

  lemma {:induction false} TopByteNone(under: Byte, rs: seq<Rect>, row: nat, col: nat)
    requires forall r <- rs :: r.WellFormed() && !r.Covers(row, col)
    ensures TopByte(under, rs, row, col) == under
  {
    if rs == [] {
    } else {
      TopByteNone(under, rs[..|rs| - 1], row, col);
    }
  }

  /** A painted position holds the last rectangle that covers it, an unpainted one its old byte. */
  lemma PaintAllAt(img: seq<Byte>, s: Surface, rs: seq<Rect>, row: nat, col: nat)
    requires AllFit(s, rs) && |img| == s.Size() && row < s.height && col < s.Stride()
    ensures forall i | 0 <= i < |rs| && rs[i].Covers(row, col) &&
                       (forall j | i < j < |rs| :: !rs[j].Covers(row, col)) ::
              At(PaintAll(img, s, rs), s, row, col) == rs[i].Sample(row, col)
    ensures (forall i | 0 <= i < |rs| :: !rs[i].Covers(row, col)) ==>
              At(PaintAll(img, s, rs), s, row, col) == At(img, s, row, col)
  {
    var under := At(img, s, row, col);
    PaintAllTop(img, s, rs, row, col);
    forall i | 0 <= i < |rs| && rs[i].Covers(row, col) && (forall j | i < j < |rs| :: !rs[j].Covers(row, col))
      ensures TopByte(under, rs, row, col) == rs[i].Sample(row, col)
    {
      TopByteIs(under, rs, i, row, col);
    }
    if forall i | 0 <= i < |rs| :: !rs[i].Covers(row, col) {
      TopByteNone(under, rs, row, col);
    }
  }

  /** After painting pairwise disjoint rectangles the image agrees with every one of them. */
  lemma DisjointPaintAgrees(img: seq<Byte>, s: Surface, rs: seq<Rect>, i: nat)
    requires AllFit(s, rs) && Disjoint(rs) && |img| == s.Size() && i < |rs|
    ensures Agrees(PaintAll(img, s, rs), s, rs[i])
  {
    forall row: nat, col: nat | row < s.height && col < s.Stride() && rs[i].Covers(row, col)
      ensures At(PaintAll(img, s, rs), s, row, col) == rs[i].Sample(row, col)
    {
      forall j | i < j < |rs| ensures !rs[j].Covers(row, col) {
        if rs[j].Covers(row, col) {
          assert rs[i].Overlaps(rs[j]);
        }
      }
      PaintAllAt(img, s, rs, row, col);
    }
  }
}
