/** The 800x300 window buffer: row-major packed colours, origin top-left. */
module Raster {
  import opened Color

  const Width: nat := 800
  const Height: nat := 300
  const PixelCount: nat := Width * Height

  /** A frame buffer is a row-major `Vec<u32>` of `PixelCount` packed colours. */
  type Buffer = seq<Color>

  /** The buffer position of pixel (x, y), `y * 800 + x`; the pixel is recovered from it. */
  function Index(x: nat, y: nat): (i: nat)
    requires x < Width && y < Height
    ensures i < PixelCount
    ensures i % Width == x && i / Width == y
  {
    y * Width + x
  }
}
