/**
  Packed pixel colours as used by the window buffer: one `u32` per pixel laid
  out as 0xAARRGGBB, with the alpha byte in bits 24-31.
 */
module Color {

  type Color = bv32

  /** One decoded RGB8 pixel of the background image. */
  datatype Rgb = Rgb(r: bv8, g: bv8, b: bv8)

  const MarkerColor: Color := 0xFF0000

  function Min(a: int, b: int): int {
    if a < b then a else b
  }

  /** Channel extraction, `(color >> k) & 0xFF`. */
  function Alpha(c: Color): bv32 { (c >> 24) & 0xFF }
  function Red(c: Color): bv32 { (c >> 16) & 0xFF }
  function Green(c: Color): bv32 { (c >> 8) & 0xFF }
  function Blue(c: Color): bv32 { c & 0xFF }

  /** `(alpha << 24) | (red << 16) | (green << 8) | blue` for channels that fit a byte. */
  function Assemble(a: bv32, r: bv32, g: bv32, b: bv32): (c: Color)
    requires a <= 0xFF && r <= 0xFF && g <= 0xFF && b <= 0xFF
    ensures Alpha(c) == a && Red(c) == r && Green(c) == g && Blue(c) == b
  {
    (a << 24) | (r << 16) | (g << 8) | b
  }

  /** Every packed colour is rebuilt from its four channels. */
  lemma AssembleChannels(c: Color)
    ensures Assemble(Alpha(c), Red(c), Green(c), Blue(c)) == c
  {
  }

  /** The blit's packing of an image pixel: `(r << 16) | (g << 8) | b` with the channels widened to u32. */
  function Pack(p: Rgb): (c: Color)
    ensures Alpha(c) == 0
    ensures Red(c) as int == p.r as int && Green(c) as int == p.g as int && Blue(c) as int == p.b as int
  {
    ((p.r as bv32) << 16) | ((p.g as bv32) << 8) | (p.b as bv32)
  }

  /**
    `(n as f32 * factor).min(255.0) as u32` for a channel value `n`, the
    reference for the tint arithmetic. For channel values 0..255 and the factors
    2.0 and 0.5 every f32 step is exact, so the computation is carried out over
    the reals; `as u32` truncates the non-negative result.
   */
  function F32Scale(n: int, factor: real): (s: int)
    requires 0 <= n <= 0xFF && (factor == 2.0 || factor == 0.5)
    ensures 0 <= s <= 0xFF
    ensures factor == 2.0 ==> s == Min(2 * n, 255)
    ensures factor == 0.5 ==> s == n / 2
  {
    var scaled := n as real * factor;
    var clamped := if scaled < 255.0 then scaled else 255.0;
    if factor == 0.5 then HalfFloor(n); clamped.Floor
    else clamped.Floor
  }

  lemma HalfFloor(n: int)
    requires 0 <= n
    ensures (n as real * 0.5).Floor == n / 2
  {
    var q, r := n / 2, n % 2;
    assert n as real * 0.5 == q as real + r as real * 0.5;
  }

  /** The red channel of the tint, `(red as f32 * 2.).min(255.0) as u32`, on the packed word. */
  function DoubleRed(v: bv32): (s: bv32)
    requires v <= 0xFF
    ensures s as int == F32Scale(v as int, 2.0)
  {
    if v < 0x80 then v << 1 else 0xFF
  }

  /** The green and blue channels of the tint, `(c as f32 * 0.5).min(255.0) as u32`, on the packed word. */
  function HalveChannel(v: bv32): (s: bv32)
    requires v <= 0xFF
    ensures s as int == F32Scale(v as int, 0.5)
  {
    assert (v >> 1) as int == v as int / 2;
    v >> 1
  }

  /**
    The heatmap tint of one pixel: red doubled and saturated at 255, green and
    blue halved rounding down, alpha carried over.
   */
  function Tint(c: Color): (t: Color)
    ensures Alpha(t) == Alpha(c)
    ensures Red(t) as int == Min(2 * Red(c) as int, 255)
    ensures Green(t) as int == Green(c) as int / 2
    ensures Blue(t) as int == Blue(c) as int / 2
  {
    Assemble(Alpha(c), DoubleRed(Red(c)), HalveChannel(Green(c)), HalveChannel(Blue(c)))
  }

  /**
    Tinting is not idempotent (blue 2 halves to 1, then to 0), so tinting a
    cell once per nearby tree gives one tint only because every tint reads the
    input buffer.
   */
  lemma TintNotIdempotent()
    ensures Tint(0x000002) == 0x000001
    ensures Tint(Tint(0x000002)) == 0
  {
  }
}
