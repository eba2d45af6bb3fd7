/** One frame of the main loop: blit, tree markers, then the heatmap for the pointer position. */
module Frame {
  import opened Wrappers
  import opened Color
  import opened Raster
  import opened Geo
  import opened Proximity
  import opened Blit
  import opened Markers
  import opened Heatmap

  /** The colour of pixel (x, y) after the blit and the markers, before the heatmap. */
  function BasePixel(img: Image, box: BoundingBox, trees: seq<Point>, x: nat, y: nat): Color
    requires img.Valid() && box.Valid() && x < Width && y < Height
  {
    if Marked(box, trees, x, y) then MarkerColor else BlitPixel(img, x, y)
  }

  /**
    The frame shown for pointer position (px, py): the base layer, tinted in
    every cell whose sample point is near a tree or the candidate under the
    pointer. Nothing from an earlier frame survives.
   */
  method RenderFrame(img: Image, box: BoundingBox, trees: seq<Point>, px: real, py: real) returns (buffer: Buffer)
    requires img.Valid() && box.Valid()
    ensures |buffer| == PixelCount
    ensures forall x: nat, y: nat | x < Width && y < Height ::
      var base := BasePixel(img, box, trees, x, y);
      buffer[Index(x, y)] == if AnyNear(CellSample(box, x, y), trees + [PointerToGeo(box, px, py)]) then Tint(base) else base
  {
    buffer := BlitImage(img);
    buffer := DrawTrees(buffer, box, trees);
    var candidate := PointerToGeo(box, px, py);
    buffer := HeatmapStep(candidate, trees, buffer, box);
  }

  /**
    The frame as the code computes it, with the marker loop as written: a panic
    exactly when some tree's marker centre is a panicking one, and, when every
    centre is safe, the frame RenderFrame describes.
   */
  method RenderFrameAsWritten(img: Image, box: BoundingBox, trees: seq<Point>, px: real, py: real) returns (r: Result<Buffer, Panic>)
    requires img.Valid() && box.Valid()
    ensures r.Failure? <==>
      exists k :: 0 <= k < |trees| && PanicCentre(MarkerPixel(box, trees[k]).0, MarkerPixel(box, trees[k]).1)
    ensures r.Success? ==> |r.value| == PixelCount
    ensures (forall k :: 0 <= k < |trees| ==> SafeCentre(MarkerPixel(box, trees[k]).0, MarkerPixel(box, trees[k]).1)) ==>
      r.Success? && forall x: nat, y: nat | x < Width && y < Height ::
        var base := BasePixel(img, box, trees, x, y);
        r.value[Index(x, y)] == if AnyNear(CellSample(box, x, y), trees + [PointerToGeo(box, px, py)]) then Tint(base) else base
  {
    var blitted := BlitImage(img);
    var drawn := DrawTreesAsWritten(blitted, box, trees);
    DrawTreesAsWrittenFails(blitted, box, trees);
    if drawn.Failure? {
      return Failure(drawn.error);
    }
    if forall k :: 0 <= k < |trees| ==> SafeCentre(MarkerPixel(box, trees[k]).0, MarkerPixel(box, trees[k]).1) {
      DrawTreesAsWrittenAgrees(blitted, box, trees);
    }
    var candidate := PointerToGeo(box, px, py);
    var buffer := HeatmapStep(candidate, trees, drawn.value, box);
    return Success(buffer);
  }
}
