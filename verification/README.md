# Liebegg tree heatmap: the per-frame raster pipeline

The program shows an 800×300 window over a georeferenced background picture of
the Liebegg site. It marks every known tree (single trees and bushes from the
swissTLM3D layer) as a small red plus. As the pointer moves, it tints the
neighbourhood of every tree, and of a *candidate* tree under the pointer, in
9×9-pixel cells. This project models one frame of that pipeline in
`src/main.rs`:

- **Blit** (`Blit`): the decoded RGB8 background is resampled into a buffer of
  packed `0xRRGGBB` words by nearest-neighbour integer division.
- **Markers** (`Markers`, `Geo`): each tree is mapped to a pixel by the
  geo→pixel affine map, which flips y and truncates with `as i32`. A red plus
  is painted there.
- **Heatmap** (`Heatmap`): the candidate joins the tree list. The raster is
  walked in 9×9 cells, clipped at the right and bottom edges. A cell whose
  anchor maps to a geographic point strictly within 30 units of some tree has
  every pixel tinted: red doubled and saturated, green and blue halved. Each
  tint is computed from the input buffer and written into a copy.
- **Value function** (`Proximity`): the number of trees strictly closer than
  30 units to the candidate.
- **Frame** (`Frame`): blit, then markers, then heatmap, for one pointer
  position.

Modelling choices:

- Pixels are `bv32`, with the source's shifts and masks. Image channels are `bv8`.
- The tint's `f32` arithmetic is modelled over the reals (`Color.F32Scale`).
  For channel values 0..255 and the factors 2.0 and 0.5, every `f32` step is
  exact, so this model is exact too.
- Coordinates are `real`. `euclidean_distance(p, q) < 30.` becomes
  `dx² + dy² < 900` (`Geo.Near`). The two agree exactly for real numbers,
  because a square root of a non-negative number is below 30 exactly when the
  number is below 900.
- A tree is the first vertex of its geometry, as a `Geo.Point`.
- The candidate tree is built by formatting the pointer's geographic
  coordinates into WKT and parsing them back. Rust prints `f64` values in a
  form that parses back to the same value, so the model uses the coordinates
  directly.
- The marker writes are modelled twice:
  - as written, with the panics of a debug build;
  - clipped per arm.

  The frame uses the clipped version (see Findings).
- The heatmap samples each cell at `((299 - yy) / 300) * (maxy - miny) + miny`.
  This is not the pointer map's point for row `yy`, but for row `yy + 1`. The
  model reproduces the code as written and proves that relation
  (`Geo.AnchorToGeo`, `Geo.AnchorSamplesRowBelow`).
- The heatmap's tint is a fixed red-doubling, green/blue-halving, applied to
  a cell when its one sample point is strictly within 30 units of some tree.
  No distance-weighted blend exists in `src/main.rs`.

## Model

| member | source | states |
|---|---|---|
| Color.Pack | src/main.rs:87-90 | packing an image pixel `(r << 16) \| (g << 8) \| b` leaves alpha 0 and unpacks (the masks of lines 168-171) back to exactly r, g and b |
| Color.Assemble | src/main.rs:168-177 | repacking four byte-sized channels and extracting them again with the shifts and masks returns each channel unchanged |
| Color.AssembleChannels | src/main.rs:167-177 | every 32-bit colour is rebuilt exactly from its four extracted channels, so the alpha byte survives the tint's repacking |
| Color.F32Scale | src/main.rs:173-175 | the `f32` scale, `min(255)` and `as u32` steps on a channel value give at most 255: `min(2n, 255)` for factor 2.0, `n / 2` for factor 0.5 |
| Color.DoubleRed | src/main.rs:173 | the bit-level red scaling equals the `f32` computation `(red as f32 * 2.).min(255.0) as u32` |
| Color.HalveChannel | src/main.rs:174-175 | the bit-level halving equals the `f32` computation `(c as f32 * 0.5).min(255.0) as u32` |
| Color.Tint | src/main.rs:167-177 | the tinted pixel keeps its alpha byte; its red channel is min(2·red, 255); its green and blue channels are halved, rounding down |
| Color.TintNotIdempotent | src/main.rs:167-177 | tinting twice differs from tinting once (blue 2 → 1 → 0), so one tint per near cell relies on reading `buffer`, not `ret_buffer` |
| Raster.Index | src/main.rs:90 | the buffer index `y*800 + x` of an in-raster pixel is below 800·300, and x and y are recovered from it by `% 800` and `/ 800` |
| Geo.PointerToGeo | src/main.rs:109-110 | the pointer map sends column 0 to MinX and column 800 to MaxX; it sends row 0 to MaxY and row 300 to MinY (the y flip); for a valid extent it sends every in-window position inside the bounding box |
| Geo.PixelGeoPixel | src/main.rs:109-110 | for a valid extent, mapping a pointer position to geographic coordinates and back with the marker map returns the same position |
| Geo.GeoPixelGeo | src/main.rs:97-98 | for a valid extent, mapping a geographic point to raster coordinates and back with the pointer map returns the same point |
| Geo.AnchorToGeo | src/main.rs:154-155 | the sample point of the cell anchored at (xx, yy) is the pointer map's point for (xx, yy + 1), one row below the anchor |
| Geo.AnchorSamplesRowBelow | src/main.rs:154-155 | the marker map sends the cell sample back to raster position (xx, yy + 1) |
| Geo.GeoToPixel | src/main.rs:97-98 | before the casts, the geo→pixel map sends MinX to column 0 and MaxX to 800, MaxY to row 0 and MinY to 300 (the y flip), and a point in the box to a position within the 800×300 window |
| Geo.TruncateToI32 | src/main.rs:97-98 | `as i32` stays in the i32 range; it is the floor for inputs in [0, I32Max), the ceiling for inputs in (I32Min, 0], and saturates at I32Max or I32Min beyond them |
| Geo.MarkerPixel | src/main.rs:97-98 | the marker pixel `(tx, ty)` is a pair of i32 values, and each passes the guard `0 <= t < n` exactly when its unrounded coordinate lies strictly between -1 and n |
| Geo.TruncatedInRange | src/main.rs:99 | the guard `0 <= t < n` on a truncated coordinate holds exactly for the reals strictly between -1 and n |
| Geo.MarkerOfPointerPixel | src/main.rs:97-98 | over exact reals, a tree placed at the geographic point of window pixel (px, py) gets its marker centred on (px, py) |
| Geo.MarkerOfPixelCentre | src/main.rs:97-99 | a tree placed at the geographic point of the centre of window pixel (px, py) gets its marker centred on (px, py), half a pixel away from the jumps of `as i32` |
| Blit.SourceCoord | src/main.rs:84-85 | the nearest-neighbour source coordinate `d * src / 800` (or `/ 300`) is inside the image and is the source cell whose scaled span contains `d` |
| Blit.BlitRow | src/main.rs:83-91 | one pass of the `x` loop sets every pixel of row y to its packed source pixel and leaves the other rows untouched |
| Blit.BlitImage | src/main.rs:77-92 | the blit buffer has 800·300 entries, and every pixel (x, y) holds the packed image pixel at the scaled source coordinates, whatever the white initial value |
| Markers.BufferOffset | src/main.rs:100-104 | with debug overflow checks, a non-negative (row, col) yields `row*800 + col`; a negative row or column never yields an index inside the buffer |
| Markers.I32AsUsize | src/main.rs:100-104 | `v as usize` on an i32 keeps a non-negative value and sends a negative one to 2^64 + v |
| Markers.StoreRed | src/main.rs:100 | one bounds-checked write: an offset inside the buffer sets that entry to red; a negative row or column, or an offset past the buffer, panics |
| Markers.PaintMarkerAsWritten | src/main.rs:99-105 | a tree whose pixel fails the guard leaves the buffer unchanged; the five writes panic exactly when the centre is in the raster on column 0, row 0 or row 299; a success keeps the length |
| Markers.RightColumnMarkerAddsWrappedPixel | src/main.rs:99-104 | for a centre on column 799 away from the top and bottom rows, the code paints the clipped plus and also the first pixel of the next row |
| Markers.SafeMarkerAgrees | src/main.rs:99-105 | for a centre off the raster or at least one pixel from every edge, the five writes as written succeed and give the clipped plus |
| Markers.DrawTreesAsWritten | src/main.rs:94-106 | the marker loop as written paints the trees in order, stopping at the first panic; a frame it returns keeps the raster's size |
| Markers.DrawTreesAsWrittenFails | src/main.rs:94-106 | the marker loop as written panics exactly when some tree's marker centre is in the raster on column 0, row 0 or row 299 |
| Markers.DrawTreesAsWrittenAgrees | src/main.rs:94-106 | when no tree's marker centre lies on row 0, row 299 or column 0 or 799, the marker loop as written does not panic, and a pixel is red exactly when some tree's plus covers it |
| Markers.InteriorMarkerAgrees | src/main.rs:99-105 | for 1 ≤ tx ≤ 798 and 1 ≤ ty ≤ 298 the five writes stay in bounds and paint exactly the clipped plus |
| Markers.BottomRowMarkerPanics | src/main.rs:101 | a tree on row 299 passes the guard, and the write below it indexes 240400, past the buffer |
| Markers.TopRowMarkerPanics | src/main.rs:103 | a tree on row 0 passes the guard; `(ty-1) as usize` wraps and `* 800` overflows |
| Markers.LeftColumnMarkerPanics | src/main.rs:102 | a tree on column 0 (row 150) passes the guard; `(tx-1) as usize` wraps and the addition overflows |
| Markers.RightColumnMarkerWraps | src/main.rs:104 | a tree on column 799 paints the first pixel of the next row, which is not part of its plus |
| Markers.PaintClipped | src/main.rs:100-104 | one arm of the plus, clipped: it turns its pixel red when that pixel is in the raster and leaves every other pixel unchanged |
| Markers.PaintMarker | src/main.rs:99-105 | for a centre inside the raster, exactly the in-raster pixels within Manhattan distance 1 of the centre turn red; every other pixel, and every pixel for an outside centre, is unchanged |
| Markers.DrawTrees | src/main.rs:94-106 | with clipped markers, after the marker loop, a pixel is red exactly when some tree's plus covers it, and otherwise keeps its blitted colour |
| Markers.MarkedExtend | src/main.rs:94-106 | after one more tree, a pixel is covered exactly when the earlier trees covered it or the new tree's plus does |
| Proximity.AnyNearExtend | src/main.rs:157-160 | extending a prefix of the tree list by one tree makes "some tree is near" true exactly when it was already true or the new tree is near |
| Proximity.CountNear | src/main.rs:223-234 | the in-order count of near trees never exceeds the number of trees |
| Proximity.ValueFnStep | src/main.rs:222-235 | `value_fn_step_30m` returns the number of tree positions strictly within 30 units of the candidate, at most the number of trees |
| Proximity.CountIsCardinality | src/main.rs:225-233 | the loop's running count equals the size of the set of near tree positions |
| Proximity.CountAppend | src/main.rs:225-233 | appending one tree raises the count, and the number of near tree positions, by one if that tree is near and leaves them unchanged otherwise |
| Proximity.CountPositiveIffAnyNear | src/main.rs:230-232 | the count is positive exactly when some tree is strictly within 30 units |
| Proximity.AtRadiusNotCounted | src/main.rs:230 | a tree at distance exactly 30 is not counted |
| Proximity.ThresholdExamples | src/main.rs:230 | trees at 30.01 and at exactly 30 give 0; a tree at 29.99 gives 1 |
| Heatmap.CellAnchor | src/main.rs:152-153 | every coordinate lies in the cell of a multiple of 9 that is at most 8 below it |
| Heatmap.CellAnchorUnique | src/main.rs:161-164 | a coordinate lies in no other cell, so cells do not overlap |
| Heatmap.Anchors | src/main.rs:152-153 | `(0..n).step_by(9)` yields ⌈n/9⌉ anchors, the k-th being 9k, all below n |
| Heatmap.AnchorsAreCellStarts | src/main.rs:152-153 | the values of `(0..n).step_by(9)` are exactly the multiples of 9 below n |
| Heatmap.AnchorsCover | src/main.rs:152-164 | every coordinate below n lies in the cell of exactly one visited anchor |
| Heatmap.PartialEdgeCells | src/main.rs:152-166 | 89 column anchors and 34 row anchors are visited; the last ones (792 and 297) leave clipped cells 8 wide and 3 tall |
| Heatmap.TintCellRow | src/main.rs:162-178 | the `dx` loop tints, from the input buffer, exactly the in-raster pixels of one cell row; every write is in bounds and all other pixels keep their value |
| Heatmap.TintCell | src/main.rs:161-180 | the `dy`/`dx` loops tint, from the input buffer, exactly the in-raster pixels of the cell; everything else keeps its value |
| Heatmap.ShadeCell | src/main.rs:157-182 | after the tree loop the cell holds the tinted input colour if any tree is near its sample point and the input colour otherwise, however many trees are near; other pixels are unchanged |
| Heatmap.CellSampleIsAnchorSample | src/main.rs:154-164 | all pixels of a cell share the one sample point computed from its anchor |
| Heatmap.HeatmapStep | src/main.rs:142-220 | walking the `step_by(9)` anchors row by row, the output has the input's length; each pixel is the tint of its input colour when its cell's sample point is within 30 units of a tree or the candidate, and the input colour otherwise |
| Heatmap.TintedIffCounted | src/main.rs:157-160 | a cell is tinted exactly when the value function's count at its sample point is positive |
| Heatmap.CandidateKeepsTint | src/main.rs:145-146 | adding the candidate never untints a cell that an existing tree already tints |
| Frame.RenderFrame | src/main.rs:72-123 | the frame for a pointer position is the base layer (red where a marker covers the pixel, the blitted pixel elsewhere) tinted in exactly the cells whose sample point is near a tree or the pointer's candidate |
| Frame.RenderFrameAsWritten | src/main.rs:72-123 | the frame with the marker loop as written panics exactly when some tree's marker centre is in the raster on column 0, row 0 or row 299; when every centre is off the raster or one pixel inside every edge, it succeeds and is the frame `Frame.RenderFrame` describes |

## Left out

- GDAL: opening the shapefile and GeoPackage, reading the layer extent, building the WKT polygon and the spatial filter (lines 8-45) are foreign library I/O. The model takes the extent as a `BoundingBox` and the trees as a sequence of points.
- Image opening, decoding and the RGB8 conversion (lines 53-64) are library I/O. The model takes the decoded image as rows of RGB triples. `Blit.BlitImage` requires a non-empty image: for an empty one, `get_pixel` would panic on the first read.
- The minifb window, event loop, key and mouse polling and buffer presentation (lines 48-51, 69-79, 123) are UI plumbing. The pointer position is a parameter of `Frame.RenderFrame`. The unused `mouse_down`, `mouse_down_last_frame` and `click_pos` have no effect and are not modelled.
- Geo.MarkerOfPointerPixel: holds over exact reals only. The round trip lands exactly on an integer, where `as i32` jumps, so in `f64` a column can come back one to the left (for the extent 0..800, column 29 maps to 28.999999999999996 and truncates to 28). `Geo.MarkerOfPixelCentre` states the round trip at the pixel centre, half a pixel from any jump.
- `geo::EuclideanDistance` is replaced by the exact squared-distance comparison, and all `f64` rounding is idealised to real arithmetic.
- Geo.TruncateToI32: NaN and infinite inputs are not modelled, since reals have none. They can only arise from a degenerate extent (`maxx == minx` or `maxy == miny`), so `Geo.MarkerPixel` and `Markers.DrawTrees` require a valid extent.
- Markers.PaintMarkerAsWritten: models a debug build, where the wrapped `as usize` values make the index arithmetic panic on overflow. A release build wraps instead: on column 0 it paints the last pixel of the previous row rather than panicking.
- The commented-out per-pixel variant (lines 186-217) is dead code.
- Markers.DrawTrees: draws the clipped plus, so it differs from lines 94-106 for a tree whose marker centre lies on row 0, row 299 or column 0 (the code panics there) or on column 799 (the code also paints the first pixel of the next row). `Markers.DrawTreesAsWritten` models the loop as written, and `Markers.DrawTreesAsWrittenAgrees` proves that the two agree, with no panic, whenever no tree's centre lies on that border.
- Frame.RenderFrame: built on `Markers.DrawTrees`, so it returns a frame in the border cases above where the program panics or paints the wrapped pixel. `Frame.RenderFrameAsWritten` builds the frame with the marker loop as written; it panics exactly in the panicking cases and proves the two frames equal when no tree's centre lies on the border.
- `x * img_width` in the blit cannot overflow `usize`, because image dimensions are `u32` and `x < 800`. The model uses unbounded naturals.

## Findings

| source | as written | input that shows it | evidently intended | confidence | as-written member | corrected member |
|---|---|---|---|---|---|---|
| src/main.rs:99-101 | the guard admits `ty = 299`; the write below indexes row 300 | a tree mapping to (400, 299): index 240400 is out of bounds and the frame panics | draw the part of the plus that lies in the raster | high (not executed) | Markers.PaintMarkerAsWritten, Markers.BottomRowMarkerPanics | Markers.PaintMarker |
| src/main.rs:99,103 | the guard admits `ty = 0`; `(ty-1) as usize` is 2^64-1 | a tree mapping to (400, 0): the multiplication by 800 overflows and a debug build panics | draw the part of the plus that lies in the raster | high (not executed) | Markers.PaintMarkerAsWritten, Markers.TopRowMarkerPanics | Markers.PaintMarker |
| src/main.rs:99,102 | the guard admits `tx = 0`; `(tx-1) as usize` is 2^64-1 | a tree mapping to (0, 150): the addition overflows and a debug build panics | draw the part of the plus that lies in the raster | high (not executed) | Markers.PaintMarkerAsWritten, Markers.LeftColumnMarkerPanics | Markers.PaintMarker |
| src/main.rs:99,104 | the guard admits `tx = 799`; the right arm's index `ty*800 + 800` is the next row's first pixel | a tree mapping to (799, 150) paints pixel (0, 151) red | no right arm outside the raster | high (not executed) | Markers.PaintMarkerAsWritten, Markers.RightColumnMarkerWraps, Markers.RightColumnMarkerAddsWrappedPixel | Markers.PaintMarker |

`Markers.PaintMarkerAsWritten` states exactly which centres panic: those in the raster on column 0, row 0 or row 299. `Markers.InteriorMarkerAgrees` proves that the corrected drawing agrees with the code as written whenever the centre is at least one pixel away from every edge. `Markers.DrawTrees` and `Frame.RenderFrame` use the corrected drawing. `Markers.DrawTreesAsWrittenFails` lifts the panic to the whole marker loop: it panics exactly when some tree's centre is on column 0, row 0 or row 299. `Markers.DrawTreesAsWrittenAgrees` lifts the agreement, and `Frame.RenderFrameAsWritten` carries both to the frame.
