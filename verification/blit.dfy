/** Nearest-neighbour copy of the decoded background image into the window buffer. */
module Blit {
  import opened Color
  import opened Raster

  /** The decoded RGB8 image; `rows[y][x]` is `img.get_pixel(x, y)`. */
  datatype Image = Image(width: nat, height: nat, rows: seq<seq<Rgb>>) {
    predicate Valid() {
      && 0 < width && 0 < height
      && |rows| == height
      && forall y :: 0 <= y < |rows| ==> |rows[y]| == width
    }
  }

  /**
    The source coordinate `d * srcLen / dstLen` sampled for destination
    coordinate `d`: the source cell whose scaled span contains the scaled
    position of `d`, and always inside the source.
   */
  function SourceCoord(d: nat, srcLen: nat, dstLen: nat): (s: nat)
    requires d < dstLen && 0 < srcLen
    ensures s < srcLen
    ensures s * dstLen <= d * srcLen < (s + 1) * dstLen
  {
    ScaledBelow(d, srcLen, dstLen);
    d * srcLen / dstLen
  }

  lemma ScaledBelow(d: nat, srcLen: nat, dstLen: nat)
    requires d < dstLen && 0 < srcLen
    ensures d * srcLen / dstLen < srcLen
  {
    var q := d * srcLen / dstLen;
    assert q * dstLen <= d * srcLen;
    assert d * srcLen < dstLen * srcLen by {
      assert (dstLen - d) * srcLen > 0;
    }
    if q >= srcLen {
      MulMonotone(srcLen, q, dstLen);
      assert false;
    }
  }

  lemma MulMonotone(a: nat, b: nat, c: nat)
    ensures a <= b ==> a * c <= b * c
  {
    if a <= b {
      assert b * c == a * c + (b - a) * c;
    }
  }

  /** The packed colour the blit stores at window pixel (x, y). */
  function BlitPixel(img: Image, x: nat, y: nat): Color
    requires img.Valid() && x < Width && y < Height
  {
    Pack(img.rows[SourceCoord(y, img.height, Height)][SourceCoord(x, img.width, Width)])
  }

  /** One pass of the inner loop: row `y` filled from the image, every other pixel kept. */
  method BlitRow(img: Image, buffer: Buffer, y: nat) returns (out: Buffer)
    requires img.Valid() && y < Height && |buffer| == PixelCount
    ensures |out| == PixelCount
    ensures forall x: nat | x < Width :: out[Index(x, y)] == BlitPixel(img, x, y)
    ensures forall x: nat, y': nat | x < Width && y' < Height && y' != y :: out[Index(x, y')] == buffer[Index(x, y')]
  {
    out := buffer;
    var x := 0;
    while x < Width
      invariant x <= Width && |out| == PixelCount
      invariant forall x': nat | x' < x :: out[Index(x', y)] == BlitPixel(img, x', y)
      invariant forall x': nat, y': nat | x' < Width && y' < Height && y' != y :: out[Index(x', y')] == buffer[Index(x', y')]
    {
      var srcX := SourceCoord(x, img.width, Width);
      var srcY := SourceCoord(y, img.height, Height);
      out := out[Index(x, y) := Pack(img.rows[srcY][srcX])];
      x := x + 1;
    }
  }

  /**
    The per-frame blit: a white buffer of 800x300 pixels, every pixel then
    overwritten, row by row, with its nearest source pixel.
   */
  method BlitImage(img: Image) returns (buffer: Buffer)
    requires img.Valid()
    ensures |buffer| == PixelCount
    ensures forall x: nat, y: nat | x < Width && y < Height :: buffer[Index(x, y)] == BlitPixel(img, x, y)
  {
    buffer := seq(PixelCount, _ => 0xFFFFFF);
    var y := 0;
    while y < Height
      invariant y <= Height && |buffer| == PixelCount
      invariant forall x': nat, y': nat | x' < Width && y' < y :: buffer[Index(x', y')] == BlitPixel(img, x', y')
    {
      buffer := BlitRow(img, buffer, y);
      y := y + 1;
    }
  }
}
