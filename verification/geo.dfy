/**
  Geographic points, the layer's bounding box and the affine maps between
  geographic coordinates and the 800x300 raster. Coordinates are `f64` in the
  program; here they are reals.
 */
module Geo {
  import opened Raster

  datatype Point = Point(x: real, y: real)

  /** The layer extent (MinX, MinY, MaxX, MaxY). */
  datatype BoundingBox = BoundingBox(minX: real, minY: real, maxX: real, maxY: real) {
    predicate Valid() {
      minX < maxX && minY < maxY
    }

    predicate Contains(p: Point) {
      minX <= p.x <= maxX && minY <= p.y <= maxY
    }
  }

  /** The proximity threshold used by both the heatmap and the value function. */
  const Radius: real := 30.0

  function SqDist(p: Point, q: Point): real {
    (p.x - q.x) * (p.x - q.x) + (p.y - q.y) * (p.y - q.y)
  }

  /**
    `p.euclidean_distance(&q) < 30.`: the distance is the square root of
    SqDist, and for a non-negative s, sqrt(s) < 30 exactly when s < 900.
   */
  predicate Near(p: Point, q: Point) {
    SqDist(p, q) < Radius * Radius
  }

  /** The pointer position (px, py) in window pixels mapped to geographic coordinates. */
  function PointerToGeo(box: BoundingBox, px: real, py: real): (p: Point)
    ensures px == 0.0 ==> p.x == box.minX
    ensures px == Width as real ==> p.x == box.maxX
    ensures py == 0.0 ==> p.y == box.maxY
    ensures py == Height as real ==> p.y == box.minY
    ensures box.Valid() && 0.0 <= px <= Width as real && 0.0 <= py <= Height as real ==> box.Contains(p)
  {
    Point(box.minX + Share(px, Width as real, box.maxX - box.minX),
          box.maxY - Share(py, Height as real, box.maxY - box.minY))
  }

  /** The share `(v / n) * w` of a span `w`: none at 0, all of it at `n`, and within the span in between. */
  function Share(v: real, n: real, w: real): (s: real)
    requires 0.0 < n
    ensures v == 0.0 ==> s == 0.0
    ensures v == n ==> s == w
    ensures 0.0 <= v <= n && 0.0 < w ==> 0.0 <= s <= w
  {
    ScaleUnit(v / n, w);
    (v / n) * w
  }

  lemma ScaleUnit(a: real, w: real)
    ensures 0.0 <= a <= 1.0 && 0.0 < w ==> 0.0 <= a * w <= w
  {
    if 0.0 <= a <= 1.0 && 0.0 < w {
      assert (1.0 - a) * w >= 0.0;
    }
  }

  lemma MulDivCancel(a: real, w: real)
    requires w != 0.0
    ensures a * w / w == a && a / w * w == a
  {
  }

  /** A geographic point mapped to fractional raster coordinates, before the `as i32` casts. */
  function GeoToPixel(box: BoundingBox, p: Point): (r: (real, real))
    requires box.Valid()
    ensures p.x == box.minX ==> r.0 == 0.0
    ensures p.x == box.maxX ==> r.0 == Width as real
    ensures p.y == box.maxY ==> r.1 == 0.0
    ensures p.y == box.minY ==> r.1 == Height as real
    ensures box.Contains(p) ==> 0.0 <= r.0 <= Width as real && 0.0 <= r.1 <= Height as real
  {
    (Span(p.x - box.minX, box.maxX - box.minX, Width as real),
     Span(box.maxY - p.y, box.maxY - box.minY, Height as real))
  }

  /** The offset `d` within a span of length `w`, rescaled to length `n`: `d / w * n`. */
  function Span(d: real, w: real, n: real): (s: real)
    requires 0.0 < w && 0.0 < n
    ensures d == 0.0 ==> s == 0.0
    ensures d == w ==> s == n
    ensures 0.0 <= d <= w ==> 0.0 <= s <= n
  {
    ScaleUnit(d / w, n);
    d / w * n
  }

  /** The two maps are inverse to each other over the reals: pixel to geo to pixel. */
  lemma PixelGeoPixel(box: BoundingBox, px: real, py: real)
    requires box.Valid()
    ensures GeoToPixel(box, PointerToGeo(box, px, py)) == (px, py)
  {
    var p := PointerToGeo(box, px, py);
    var a, w := px / Width as real, box.maxX - box.minX;
    var b, h := py / Height as real, box.maxY - box.minY;
    assert p.x - box.minX == a * w;
    assert box.maxY - p.y == b * h;
    MulDivCancel(a, w);
    MulDivCancel(b, h);
    assert (p.x - box.minX) / w == a;
    assert (box.maxY - p.y) / h == b;
  }

  /** And geo to pixel to geo. */
  lemma GeoPixelGeo(box: BoundingBox, p: Point)
    requires box.Valid()
    ensures var (px, py) := GeoToPixel(box, p); PointerToGeo(box, px, py) == p
  {
    var w, h := box.maxX - box.minX, box.maxY - box.minY;
    MulDivCancel(p.x - box.minX, w);
    MulDivCancel(box.maxY - p.y, h);
  }

  /**
    The geographic sample point of the heatmap cell anchored at pixel (xx, yy):
    x as for the pointer, but y computed from `299 - yy` measured up from MinY.
   */
  function AnchorToGeo(box: BoundingBox, xx: nat, yy: nat): (p: Point)
    requires yy < Height
    ensures p == PointerToGeo(box, xx as real, (yy + 1) as real)
  {
    FlippedRow(yy, box.minY, box.maxY);
    Point((xx as real / Width as real) * (box.maxX - box.minX) + box.minX,
          ((Height - 1 - yy) as real / Height as real) * (box.maxY - box.minY) + box.minY)
  }

  /** Measuring `299 - yy` rows up from the bottom edge lands where `yy + 1` rows down from the top edge does. */
  lemma FlippedRow(yy: nat, lo: real, hi: real)
    requires yy < Height
    ensures ((Height - 1 - yy) as real / Height as real) * (hi - lo) + lo == hi - ((yy + 1) as real / Height as real) * (hi - lo)
  {
    var b := (yy + 1) as real / Height as real;
    assert (Height - 1 - yy) as real / Height as real == 1.0 - b;
    assert (1.0 - b) * (hi - lo) == (hi - lo) - b * (hi - lo);
  }

  /** The cell anchor is sampled at the top edge of the pixel row BELOW the anchor row. */
  lemma AnchorSamplesRowBelow(box: BoundingBox, xx: nat, yy: nat)
    requires box.Valid() && yy < Height
    ensures GeoToPixel(box, AnchorToGeo(box, xx, yy)) == (xx as real, (yy + 1) as real)
  {
    PixelGeoPixel(box, xx as real, (yy + 1) as real);
  }

  const I32Min: int := -0x8000_0000
  const I32Max: int := 0x7FFF_FFFF

  /** Rust's `f as i32`: truncation toward zero, saturating at the i32 bounds. */
  function TruncateToI32(f: real): (n: int)
    ensures I32Min <= n <= I32Max
    ensures 0.0 <= f < I32Max as real ==> n as real <= f < n as real + 1.0
    ensures I32Min as real < f <= 0.0 ==> n as real - 1.0 < f <= n as real
    ensures f >= I32Max as real ==> n == I32Max
    ensures f <= I32Min as real ==> n == I32Min
  {
    var t := if f >= 0.0 then f.Floor else -((-f).Floor);
    if t < I32Min then I32Min else if t > I32Max then I32Max else t
  }

  /** The marker guard `0 <= t < n` on a truncated coordinate admits exactly the reals in (-1, n). */
  lemma TruncatedInRange(f: real, n: nat)
    requires 0 < n <= I32Max
    ensures 0 <= TruncateToI32(f) < n <==> -1.0 < f < n as real
  {
  }

  /** The pixel a tree is drawn at, `(tx, ty)` of the marker loop. */
  function MarkerPixel(box: BoundingBox, t: Point): (m: (int, int))
    requires box.Valid()
    ensures I32Min <= m.0 <= I32Max && I32Min <= m.1 <= I32Max
    ensures 0 <= m.0 < Width <==> -1.0 < GeoToPixel(box, t).0 < Width as real
    ensures 0 <= m.1 < Height <==> -1.0 < GeoToPixel(box, t).1 < Height as real
  {
    TruncatedInRange(GeoToPixel(box, t).0, Width);
    TruncatedInRange(GeoToPixel(box, t).1, Height);
    var (fx, fy) := GeoToPixel(box, t);
    (TruncateToI32(fx), TruncateToI32(fy))
  }

  /** A tree placed on the geographic point of a window pixel is drawn on that pixel. */
  lemma MarkerOfPointerPixel(box: BoundingBox, px: nat, py: nat)
    requires box.Valid() && px < Width && py < Height
    ensures MarkerPixel(box, PointerToGeo(box, px as real, py as real)) == (px, py)
  {
    PixelGeoPixel(box, px as real, py as real);
  }

  /**
    A tree placed on the geographic point of the centre of a window pixel is
    drawn on that pixel; the centre is half a pixel away from the jumps of `as i32`.
   */
  lemma MarkerOfPixelCentre(box: BoundingBox, px: nat, py: nat)
    requires box.Valid() && px < Width && py < Height
    ensures MarkerPixel(box, PointerToGeo(box, px as real + 0.5, py as real + 0.5)) == (px, py)
  {
    PixelGeoPixel(box, px as real + 0.5, py as real + 0.5);
    assert GeoToPixel(box, PointerToGeo(box, px as real + 0.5, py as real + 0.5)) == (px as real + 0.5, py as real + 0.5);
  }
}
