/**
  Tree markers: each tree is drawn as a red plus centred on the pixel its
  location maps to. The program's writes are modelled as written, with the
  panics of a debug build, next to the clipped drawing the rest of the model
  uses.
 */
module Markers {
  import opened Wrappers
  import opened Color
  import opened Raster
  import opened Geo

  /** Why a debug build of the marker loop panics. */
  datatype Panic = ArithmeticOverflow | IndexOutOfBounds(index: nat)

  const UsizeModulus: int := 0x1_0000_0000_0000_0000

  /** `v as usize` for an `i32` value: the two's-complement bit pattern, sign-extended. */
  function I32AsUsize(v: int): (u: nat)
    requires I32Min <= v <= I32Max
    ensures u < UsizeModulus
    ensures 0 <= v ==> u == v
    ensures v < 0 ==> u == UsizeModulus + v
  {
    v % UsizeModulus
  }

  /** `row as usize * 800 + col as usize` with the overflow checks of a debug build. */
  function BufferOffset(row: int, col: int): (r: Result<nat, Panic>)
    requires I32Min <= row <= I32Max && I32Min <= col <= I32Max
    ensures 0 <= row <= I32Max && 0 <= col <= I32Max ==> r == Success(row * Width + col)
    ensures row < 0 || col < 0 ==> r.Failure? || r.value >= PixelCount
  {
    var r, c := I32AsUsize(row), I32AsUsize(col);
    if r * Width >= UsizeModulus then Failure(ArithmeticOverflow)
    else if r * Width + c >= UsizeModulus then Failure(ArithmeticOverflow)
    else Success(r * Width + c)
  }

  /** `buffer[row as usize * 800 + col as usize] = 0xFF0000`, bounds-checked. */
  function StoreRed(buf: Buffer, row: int, col: int): (r: Result<Buffer, Panic>)
    requires I32Min <= row <= I32Max && I32Min <= col <= I32Max
    ensures r.Success? ==> |r.value| == |buf|
    ensures |buf| == PixelCount && 0 <= row && 0 <= col && row * Width + col < PixelCount ==>
      r == Success(buf[row * Width + col := MarkerColor])
    ensures |buf| == PixelCount && (row < 0 || col < 0 || row * Width + col >= PixelCount) ==> r.Failure?
  {
    var i :- BufferOffset(row, col);
    if i < |buf| then Success(buf[i := MarkerColor]) else Failure(IndexOutOfBounds(i))
  }

  /**
    The marker writes as written: the guard checks only that the centre lies in
    the raster, then the centre, the pixel below, left, above and right are set.
   */
  function PaintMarkerAsWritten(buf: Buffer, tx: int, ty: int): (r: Result<Buffer, Panic>)
    requires |buf| == PixelCount
    requires I32Min <= tx <= I32Max && I32Min <= ty <= I32Max
    ensures r.Success? ==> |r.value| == PixelCount
    ensures !(0 <= tx < Width && 0 <= ty < Height) ==> r == Success(buf)
    ensures r.Failure? <==> InRaster(tx, ty) && (tx == 0 || ty == 0 || ty == Height - 1)
  {
    if !(0 <= tx < Width && 0 <= ty < Height) then Success(buf)
    else
      var b1 :- StoreRed(buf, ty, tx);
      var b2 :- StoreRed(b1, ty + 1, tx);
      var b3 :- StoreRed(b2, ty, tx - 1);
      var b4 :- StoreRed(b3, ty - 1, tx);
      StoreRed(b4, ty, tx + 1)
  }

  function Abs(n: int): nat {
    if n < 0 then -n else n
  }

  /** Pixel (x, y) is one of the five pixels of the plus centred on (tx, ty). */
  predicate OnPlus(x: int, y: int, tx: int, ty: int) {
    Abs(x - tx) + Abs(y - ty) <= 1
  }

  predicate InRaster(x: int, y: int) {
    0 <= x < Width && 0 <= y < Height
  }

  /** Sets pixel (x, y) to the marker colour when it lies in the raster. */
  function PaintClipped(buf: Buffer, x: int, y: int): (r: Buffer)
    requires |buf| == PixelCount
    ensures |r| == PixelCount
    ensures forall x': nat, y': nat | x' < Width && y' < Height ::
      r[Index(x', y')] == if x' == x && y' == y then MarkerColor else buf[Index(x', y')]
  {
    if InRaster(x, y) then buf[Index(x, y) := MarkerColor] else buf
  }

  /**
    The marker with each arm clipped to the raster: a plus centred in the
    raster is drawn wherever it overlaps the raster and nowhere else.
   */
  function PaintMarker(buf: Buffer, tx: int, ty: int): (r: Buffer)
    requires |buf| == PixelCount
    ensures |r| == PixelCount
    ensures forall x: nat, y: nat | x < Width && y < Height ::
      r[Index(x, y)] == if InRaster(tx, ty) && OnPlus(x, y, tx, ty) then MarkerColor else buf[Index(x, y)]
  {
    if !InRaster(tx, ty) then buf
    else
      PaintClipped(PaintClipped(PaintClipped(PaintClipped(PaintClipped(buf, tx, ty), tx, ty + 1), tx - 1, ty), tx, ty - 1), tx + 1, ty)
  }

  /** Away from the raster border the five writes stay in the buffer and agree with the clipped drawing. */
  lemma InteriorMarkerAgrees(buf: Buffer, tx: int, ty: int)
    requires |buf| == PixelCount
    requires 1 <= tx < Width - 1 && 1 <= ty < Height - 1
    ensures PaintMarkerAsWritten(buf, tx, ty) == Success(PaintMarker(buf, tx, ty))
  {
  }

  /** A tree on the bottom row passes the guard, and the write below it indexes past the buffer. */
  lemma BottomRowMarkerPanics(buf: Buffer)
    requires |buf| == PixelCount
    ensures InRaster(400, 299)
    ensures PaintMarkerAsWritten(buf, 400, 299) == Failure(IndexOutOfBounds(240400))
  {
  }

  /** A tree on the top row: `(ty - 1) as usize` wraps to 2^64 - 1 and the multiplication overflows. */
  lemma TopRowMarkerPanics(buf: Buffer)
    requires |buf| == PixelCount
    ensures InRaster(400, 0)
    ensures PaintMarkerAsWritten(buf, 400, 0) == Failure(ArithmeticOverflow)
  {
  }

  /** A tree on the left column: `(tx - 1) as usize` wraps and the addition overflows. */
  lemma LeftColumnMarkerPanics(buf: Buffer)
    requires |buf| == PixelCount
    ensures InRaster(0, 150)
    ensures PaintMarkerAsWritten(buf, 0, 150) == Failure(ArithmeticOverflow)
  {
  }

  /** A tree on the right column: the right arm lands on the first pixel of the next row. */
  lemma RightColumnMarkerWraps(buf: Buffer)
    requires |buf| == PixelCount
    ensures !OnPlus(0, 151, 799, 150)
    ensures var r := PaintMarkerAsWritten(buf, 799, 150);
      r.Success? && r.value[Index(0, 151)] == MarkerColor
  {
  }

  /** On the right column, away from the top and bottom rows, the code draws the clipped plus and also the first pixel of the next row. */
  lemma RightColumnMarkerAddsWrappedPixel(buf: Buffer, ty: int)
    requires |buf| == PixelCount
    requires 1 <= ty < Height - 1
    ensures PaintMarkerAsWritten(buf, Width - 1, ty) == Success(PaintMarker(buf, Width - 1, ty)[Index(0, ty + 1) := MarkerColor])
  {
  }

  /** The tree at `t` is drawn over pixel (x, y). */
  predicate MarkerCovers(box: BoundingBox, t: Point, x: int, y: int)
    requires box.Valid()
  {
    var (tx, ty) := MarkerPixel(box, t);
    InRaster(tx, ty) && OnPlus(x, y, tx, ty)
  }

  predicate Marked(box: BoundingBox, trees: seq<Point>, x: int, y: int)
    requires box.Valid()
  {
    exists k :: 0 <= k < |trees| && MarkerCovers(box, trees[k], x, y)
  }

  /** The marker loop over all trees, with clipped markers: pixels under some marker turn red, the rest stay. */
  method DrawTrees(buf: Buffer, box: BoundingBox, trees: seq<Point>) returns (out: Buffer)
    requires box.Valid() && |buf| == PixelCount
    ensures |out| == PixelCount
    ensures forall x: nat, y: nat | x < Width && y < Height ::
      out[Index(x, y)] == if Marked(box, trees, x, y) then MarkerColor else buf[Index(x, y)]
  {
    out := buf;
    for k := 0 to |trees|
      invariant |out| == PixelCount
      invariant forall x: nat, y: nat | x < Width && y < Height ::
        out[Index(x, y)] == if Marked(box, trees[..k], x, y) then MarkerColor else buf[Index(x, y)]
    {
      var (tx, ty) := MarkerPixel(box, trees[k]);
      out := PaintMarker(out, tx, ty);
      assert forall x: nat, y: nat | x < Width && y < Height ::
        Marked(box, trees[..k + 1], x, y) <==> Marked(box, trees[..k], x, y) || MarkerCovers(box, trees[k], x, y)
      by {
        forall x: nat, y: nat | x < Width && y < Height
          ensures Marked(box, trees[..k + 1], x, y) <==> Marked(box, trees[..k], x, y) || MarkerCovers(box, trees[k], x, y)
        {
          assert trees[..k + 1][k] == trees[k];
          assert forall j :: 0 <= j < k ==> trees[..k + 1][j] == trees[..k][j];
        }
      }
    }
    assert trees[..|trees|] == trees;
  }

  /** The marker is drawn without panic and as the clipped plus: its centre is off the raster or one pixel inside every edge. */
  predicate SafeCentre(tx: int, ty: int) {
    !InRaster(tx, ty) || (1 <= tx < Width - 1 && 1 <= ty < Height - 1)
  }

  /** The code as written panics on a marker centred here: in the raster, on column 0, row 0 or the bottom row. */
  predicate PanicCentre(tx: int, ty: int) {
    InRaster(tx, ty) && (tx == 0 || ty == 0 || ty == Height - 1)
  }

  /** The marker loop of lines 94-106 as written: the trees in order, stopping at the first panic. */
  function DrawTreesAsWritten(buf: Buffer, box: BoundingBox, trees: seq<Point>): (r: Result<Buffer, Panic>)
    requires box.Valid() && |buf| == PixelCount
    ensures r.Success? ==> |r.value| == PixelCount
  {
    if |trees| == 0 then Success(buf)
    else
      var b :- DrawTreesAsWritten(buf, box, trees[..|trees| - 1]);
      var (tx, ty) := MarkerPixel(box, trees[|trees| - 1]);
      PaintMarkerAsWritten(b, tx, ty)
  }

  /** A pixel is covered by the markers of a list exactly when the last tree's or an earlier tree's marker covers it. */
  lemma MarkedExtend(box: BoundingBox, trees: seq<Point>, x: nat, y: nat)
    requires box.Valid() && |trees| > 0
    ensures Marked(box, trees, x, y) <==>
      Marked(box, trees[..|trees| - 1], x, y) || MarkerCovers(box, trees[|trees| - 1], x, y)
  {
    var init := trees[..|trees| - 1];
    if Marked(box, trees, x, y) && !MarkerCovers(box, trees[|trees| - 1], x, y) {
      var k :| 0 <= k < |trees| && MarkerCovers(box, trees[k], x, y);
      assert init[k] == trees[k];
    }
    if Marked(box, init, x, y) {
      var k :| 0 <= k < |init| && MarkerCovers(box, init[k], x, y);
      assert trees[k] == init[k];
    }
  }

  /** A safe centre is drawn by the code as written exactly as the clipped plus. */
  lemma SafeMarkerAgrees(buf: Buffer, tx: int, ty: int)
    requires |buf| == PixelCount && I32Min <= tx <= I32Max && I32Min <= ty <= I32Max
    requires SafeCentre(tx, ty)
    ensures PaintMarkerAsWritten(buf, tx, ty) == Success(PaintMarker(buf, tx, ty))
  {
    if InRaster(tx, ty) {
      InteriorMarkerAgrees(buf, tx, ty);
    }
  }

  /**
    When no tree's marker centre lies on the border, the marker loop as written
    does not panic and paints red exactly the pixels that DrawTrees does.
   */
  lemma {:induction false} DrawTreesAsWrittenAgrees(buf: Buffer, box: BoundingBox, trees: seq<Point>)
    requires box.Valid() && |buf| == PixelCount
    requires forall k :: 0 <= k < |trees| ==> SafeCentre(MarkerPixel(box, trees[k]).0, MarkerPixel(box, trees[k]).1)
    ensures DrawTreesAsWritten(buf, box, trees).Success?
    ensures forall x: nat, y: nat | x < Width && y < Height ::
      DrawTreesAsWritten(buf, box, trees).value[Index(x, y)] == if Marked(box, trees, x, y) then MarkerColor else buf[Index(x, y)]
  {
    if |trees| > 0 {
      var n := |trees| - 1;
      var init := trees[..n];
      assert forall k :: 0 <= k < |init| ==> init[k] == trees[k];
      DrawTreesAsWrittenAgrees(buf, box, init);
      var b := DrawTreesAsWritten(buf, box, init).value;
      var m := MarkerPixel(box, trees[n]);
      SafeMarkerAgrees(b, m.0, m.1);
      var r := PaintMarker(b, m.0, m.1);
      assert DrawTreesAsWritten(buf, box, trees) == Success(r);
      forall x: nat, y: nat | x < Width && y < Height
        ensures r[Index(x, y)] == if Marked(box, trees, x, y) then MarkerColor else buf[Index(x, y)]
      {
        MarkedExtend(box, trees, x, y);
      }
    }
  }

  /** The marker loop as written panics exactly when some tree's marker centre is a panicking one. */
  lemma {:induction false} DrawTreesAsWrittenFails(buf: Buffer, box: BoundingBox, trees: seq<Point>)
    requires box.Valid() && |buf| == PixelCount
    ensures DrawTreesAsWritten(buf, box, trees).Failure? <==>
      exists k :: 0 <= k < |trees| && PanicCentre(MarkerPixel(box, trees[k]).0, MarkerPixel(box, trees[k]).1)
  {
    if |trees| > 0 {
      var n := |trees| - 1;
      var init := trees[..n];
      assert forall k :: 0 <= k < |init| ==> init[k] == trees[k];
      DrawTreesAsWrittenFails(buf, box, init);
      if DrawTreesAsWritten(buf, box, init).Failure? {
        var k :| 0 <= k < |init| && PanicCentre(MarkerPixel(box, init[k]).0, MarkerPixel(box, init[k]).1);
        assert trees[k] == init[k];
      }
    }
  }
}
