/**
  `heatmap_step_30m`: the raster is walked in 9x9 cells; a cell whose anchor
  lies within 30 units of some tree (the candidate included) has every pixel
  tinted, each tint computed from the input buffer.
 */
module Heatmap {
  import opened Color
  import opened Raster
  import opened Geo
  import opened Proximity

  const ClusterSize: nat := 9

  /** The anchor coordinate of the cell containing coordinate `v`: a multiple of 9 within 8 below `v`. */
  function CellAnchor(v: nat): (a: nat)
    ensures a % ClusterSize == 0 && a <= v < a + ClusterSize
  {
    v - v % ClusterSize
  }

  /** No other cell contains `v`: cells do not overlap. */
  lemma CellAnchorUnique(v: nat, a: nat)
    requires a % ClusterSize == 0 && a <= v < a + ClusterSize
    ensures a == CellAnchor(v)
  {
  }

  /** The values of `(0..n).step_by(9)`. */
  function Anchors(n: nat): (s: seq<nat>)
    ensures |s| == (n + ClusterSize - 1) / ClusterSize
    ensures forall k :: 0 <= k < |s| ==> s[k] == k * ClusterSize && s[k] < n
  {
    seq((n + ClusterSize - 1) / ClusterSize, k => k * ClusterSize)
  }

  /** The visited anchors are exactly the multiples of 9 below `n`. */
  lemma AnchorsAreCellStarts(n: nat, v: nat)
    ensures v in Anchors(n) <==> v < n && v % ClusterSize == 0
  {
    var s := Anchors(n);
    if v < n && v % ClusterSize == 0 {
      assert s[v / ClusterSize] == v;
    }
  }

  /** Each coordinate below `n` lies in the cell of exactly one anchor the loop visits. */
  lemma AnchorsCover(n: nat, v: nat)
    requires v < n
    ensures CellAnchor(v) in Anchors(n)
    ensures forall k :: 0 <= k < |Anchors(n)| && Anchors(n)[k] <= v < Anchors(n)[k] + ClusterSize ==> Anchors(n)[k] == CellAnchor(v)
  {
    var s := Anchors(n);
    assert s[v / ClusterSize] == CellAnchor(v);
  }

  /** 800 = 88 * 9 + 8 and 300 = 33 * 9 + 3: the last column and row of cells are clipped. */
  lemma PartialEdgeCells()
    ensures |Anchors(Width)| == 89 && Anchors(Width)[88] == 792 && Width - 792 == 8
    ensures |Anchors(Height)| == 34 && Anchors(Height)[33] == 297 && Height - 297 == 3
  {
  }

  predicate InCell(x: nat, y: nat, xx: nat, yy: nat) {
    xx <= x < xx + ClusterSize && yy <= y < yy + ClusterSize
  }

  /** The geographic point sampled for the cell that contains pixel (x, y). */
  function CellSample(box: BoundingBox, x: nat, y: nat): Point
    requires y < Height
  {
    AnchorToGeo(box, CellAnchor(x), CellAnchor(y))
  }

  /** The heatmap's output at pixel (x, y): tinted when the pixel's cell is sampled near a tree. */
  function HeatPixel(buffer: Buffer, box: BoundingBox, trees: seq<Point>, x: nat, y: nat): Color
    requires |buffer| == PixelCount && x < Width && y < Height
  {
    var c := buffer[Index(x, y)];
    if AnyNear(CellSample(box, x, y), trees) then Tint(c) else c
  }

  /** One row `yy + dy` of a cell: clipped to the raster, each pixel set to the tint of its input colour. */
  method TintCellRow(buffer: Buffer, ret: Buffer, xx: nat, y: nat) returns (out: Buffer)
    requires |buffer| == PixelCount && |ret| == PixelCount
    ensures |out| == PixelCount
    ensures forall x': nat, y': nat | x' < Width && y' < Height ::
      out[Index(x', y')] == if y' == y && xx <= x' < xx + ClusterSize then Tint(buffer[Index(x', y')]) else ret[Index(x', y')]
  {
    out := ret;
    for dx := 0 to ClusterSize
      invariant |out| == PixelCount
      invariant forall x': nat, y': nat | x' < Width && y' < Height ::
        out[Index(x', y')] == if y' == y && xx <= x' < xx + dx then Tint(buffer[Index(x', y')]) else ret[Index(x', y')]
    {
      var xIdx := xx + dx;
      if xIdx < Width && y < Height {
        var i := xIdx + y * Width;
        out := out[i := Tint(buffer[i])];
      }
    }
  }

  /** The two `0..cluster_size` loops: every pixel of the cell inside the raster is tinted from `buffer`. */
  method TintCell(buffer: Buffer, ret: Buffer, xx: nat, yy: nat) returns (out: Buffer)
    requires |buffer| == PixelCount && |ret| == PixelCount
    ensures |out| == PixelCount
    ensures forall x: nat, y: nat | x < Width && y < Height ::
      out[Index(x, y)] == if InCell(x, y, xx, yy) then Tint(buffer[Index(x, y)]) else ret[Index(x, y)]
  {
    out := ret;
    for dy := 0 to ClusterSize
      invariant |out| == PixelCount
      invariant forall x: nat, y: nat | x < Width && y < Height ::
        out[Index(x, y)] == if xx <= x < xx + ClusterSize && yy <= y < yy + dy then Tint(buffer[Index(x, y)]) else ret[Index(x, y)]
    {
      out := TintCellRow(buffer, out, xx, yy + dy);
    }
  }

  /**
    The loop over all trees for the cell anchored at (xx, yy): the cell is
    tinted once some tree is near its sample point, and later near trees tint
    it again from the same input colours.
   */
  method ShadeCell(buffer: Buffer, ret: Buffer, box: BoundingBox, trees: seq<Point>, xx: nat, yy: nat) returns (out: Buffer)
    requires |buffer| == PixelCount && |ret| == PixelCount
    requires xx % ClusterSize == 0 && yy % ClusterSize == 0 && yy < Height
    requires forall x: nat, y: nat | x < Width && y < Height && InCell(x, y, xx, yy) :: ret[Index(x, y)] == buffer[Index(x, y)]
    ensures |out| == PixelCount
    ensures forall x: nat, y: nat | x < Width && y < Height ::
      out[Index(x, y)] == if InCell(x, y, xx, yy) then HeatPixel(buffer, box, trees, x, y) else ret[Index(x, y)]
  {
    var sample := AnchorToGeo(box, xx, yy);
    out := ret;
    for k := 0 to |trees|
      invariant |out| == PixelCount
      invariant forall x: nat, y: nat | x < Width && y < Height ::
        out[Index(x, y)] == if InCell(x, y, xx, yy) && AnyNear(sample, trees[..k]) then Tint(buffer[Index(x, y)]) else ret[Index(x, y)]
    {
      AnyNearExtend(sample, trees, k);
      if Near(sample, trees[k]) {
        out := TintCell(buffer, out, xx, yy);
      }
    }
    assert trees[..|trees|] == trees;
    CellSampleIsAnchorSample(box, xx, yy);
  }

  /** Every pixel of the cell anchored at (xx, yy) shares the cell's one sample point. */
  lemma CellSampleIsAnchorSample(box: BoundingBox, xx: nat, yy: nat)
    requires xx % ClusterSize == 0 && yy % ClusterSize == 0 && yy < Height
    ensures forall x: nat, y: nat | x < Width && y < Height && InCell(x, y, xx, yy) ::
      CellSample(box, x, y) == AnchorToGeo(box, xx, yy)
  {
    forall x: nat, y: nat | x < Width && y < Height && InCell(x, y, xx, yy)
      ensures CellSample(box, x, y) == AnchorToGeo(box, xx, yy)
    {
      CellAnchorUnique(x, xx);
      CellAnchorUnique(y, yy);
    }
  }

  /** Pixel (x, y) lies in a cell the walk has reached when it is at anchor (xx, yy). */
  predicate Visited(x: nat, y: nat, xx: nat, yy: nat) {
    y < yy || (y < yy + ClusterSize && x < xx)
  }

  /** `heatmap_step_30m`: the candidate joins the trees and the buffer is shaded cell by cell into a copy. */
  method HeatmapStep(newTree: Point, trees: seq<Point>, buffer: Buffer, box: BoundingBox) returns (ret: Buffer)
    requires |buffer| == PixelCount
    ensures |ret| == |buffer|
    ensures forall x: nat, y: nat | x < Width && y < Height ::
      ret[Index(x, y)] == HeatPixel(buffer, box, trees + [newTree], x, y)
    ensures forall i :: 0 <= i < |ret| ==> ret[i] == buffer[i] || ret[i] == Tint(buffer[i])
  {
    var changed := trees + [newTree];
    ret := buffer;
    var rows := Anchors(Height);
    for ky := 0 to |rows|
      invariant |ret| == PixelCount
      invariant forall x: nat, y: nat | x < Width && y < Height ::
        ret[Index(x, y)] == if y < ky * ClusterSize then HeatPixel(buffer, box, changed, x, y) else buffer[Index(x, y)]
    {
      var yy := rows[ky];
      var cols := Anchors(Width);
      for kx := 0 to |cols|
        invariant |ret| == PixelCount
        invariant forall x: nat, y: nat | x < Width && y < Height ::
          ret[Index(x, y)] == if Visited(x, y, kx * ClusterSize, yy) then HeatPixel(buffer, box, changed, x, y) else buffer[Index(x, y)]
      {
        var xx := cols[kx];
        ret := ShadeCell(buffer, ret, box, changed, xx, yy);
      }
    }
    forall i | 0 <= i < |ret|
      ensures ret[i] == buffer[i] || ret[i] == Tint(buffer[i])
    {
      assert i == Index(i % Width, i / Width);
    }
  }

  /** A cell is tinted exactly when the value function counts a tree near its sample point. */
  lemma TintedIffCounted(buffer: Buffer, box: BoundingBox, trees: seq<Point>, x: nat, y: nat)
    requires |buffer| == PixelCount && x < Width && y < Height
    ensures HeatPixel(buffer, box, trees, x, y) ==
      if CountNear(CellSample(box, x, y), trees) > 0 then Tint(buffer[Index(x, y)]) else buffer[Index(x, y)]
  {
    CountPositiveIffAnyNear(CellSample(box, x, y), trees);
  }

  /** Adding the candidate never untints a cell: a cell near an existing tree stays tinted. */
  lemma CandidateKeepsTint(buffer: Buffer, box: BoundingBox, trees: seq<Point>, t: Point, x: nat, y: nat)
    requires |buffer| == PixelCount && x < Width && y < Height
    requires AnyNear(CellSample(box, x, y), trees)
    ensures HeatPixel(buffer, box, trees + [t], x, y) == Tint(buffer[Index(x, y)])
  {
    var k :| 0 <= k < |trees| && Near(CellSample(box, x, y), trees[k]);
    assert (trees + [t])[k] == trees[k];
  }
}
