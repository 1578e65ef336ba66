# rraayy — a Dafny model of the ray-casting core

rraayy is a small Rust renderer. Every frame it casts one primary ray per
pixel of a 640 × 360 viewport against a list of shapes. The shape kinds are
axis-aligned boxes, one-sided planes and triangles; the scene the redraw
handler builds (src/main.rs:214-243) holds boxes and one triangle, and no
plane. It keeps the nearest hit between the near and far distances
and turns that depth into a grey level. The viewport is cut into 4 × 4
tiles. Each tile is rendered into its own RGBA byte buffer, and the buffers
are then copied into the viewport texture in tile order. A keyboard tracker
records which keys are held and which were just pressed.

This project models, with `f32` taken as Dafny `real`:

- the ray–shape intersection kernel: `Ray::new`, the box slab test, the
  one-sided plane test and the triangle test (`vector.dfy`, `ray.dfy`,
  `box_shape.dfy`, `plane_shape.dfy`, `triangle_shape.dfy`, `shape.dfy`);
- the frame assembly of the redraw handler: the tile/pixel index arithmetic
  (`tiles.dfy`), the nearest-hit loop, the depth-to-grey mapping and the
  tile byte layout (`render.dfy`), the merge of the tiles into the texture
  (`frame.dfy`), and the screen-space part of `pixel_to_camera`
  (`camera.dfy`);
- the keyboard edge-state tracker (`input.dfy`).

Modelling choices:

- The `Shape` trait becomes the closed datatype `Shapes.Shape` (Box, Plane
  or Triangle), with one dispatching function `Shapes.IntersectsRay`.
- `Ray` is a datatype. It cannot change after construction, and its
  accessors are the datatype's destructors.
- `normalize` needs a square root. A triangle therefore carries the factor
  `k` that `normalize` applies to its normal. `TriangleShapes.UnitFactor`
  requires `k > 0 && k*k*dot(n, n) == 1`, or a zero normal. For a zero
  normal the derived plane misses, just as the source's NaN normal does.
- The per-pixel primary rays (`pixel_to_camera` with the frame's camera
  matrix) are a parameter of `Render.Context`. Only their screen-space part
  is modelled, in module Camera.
- The parallel `into_par_iter().map` over tiles is a sequential map over cell
  indices (`Render.RenderCells`). The tiles share no mutable state.
- The viewport texture is an `array3<Byte>` indexed by row, column and
  channel. `Frame.UploadTile` stands for one `TexSubImage2D` call.
- The box test seeds `t_min`/`t_max` with -∞/+∞. Over the reals the first
  `max`/`min` against those seeds is the identity, so the model starts its
  chain at the x axis.
- The intersection lemmas about boxes require `Rays.Valid`, which is what
  `Rays.NewRay` establishes when every direction component is nonzero: then
  `inv_dir` is finite and exactly `1/dir`. The primary rays of
  `Render.Context` are arbitrary `Ray` values, because every theorem of
  modules Render and Frame holds for any camera.

Two consequences of the code that are easy to get wrong:

- The triangle (0,0,0), (2,0,0), (0,2,0) is not hit by the ray from
  (0.5, 0.5, 5) along (0,0,-1). Its normalised normal is (0,0,1), so
  `denom` is -1 and the one-sided plane test rejects the ray
  (`TriangleShapes.CornerMissed`; in general `TriangleShapes.BackFacingMisses`).
  The same triangle wound (0,0,0), (0,2,0), (2,0,0) is hit at t = 5
  (`TriangleShapes.ReversedCornerHit`), and `TriangleShapes.WindingOneSided`
  shows that a triangle and its reversed winding are never both hit. The
  example ray is written out as a `Ray` value rather than built by
  `Rays.NewRay`, because its direction has zero components; the triangle
  test reads only its origin and direction.
- A box containing the ray origin reports a hit with `t <= 0`
  (`BoxShapes.OriginInsideHits`). `t` is negative when the origin is
  strictly inside (`BoxShapes.OriginStrictlyInsideHitsBehind`), and can be
  0 only when the origin lies on the boundary.

## Model

| member | source | states |
|---|---|---|
| `Rays.NewRay` | src/ray.rs:15-26 | The origin and direction are stored unchanged. `inv_dir * dir == 1` on each axis. Each sign flag holds iff the matching `inv_dir` component is negative, and iff the `dir` component is negative. |
| `PlaneShapes.Intersect` | src/plane_shape.rs:30-40 | If `denom < 1e-6` the result is exactly `(false, 0)`. Otherwise `t * denom == dot(origin - ray.origin, normal)`, and the ray hits iff `t >= 0`. A hit always has `t >= 0`. |
| `PlaneShapes.HitLiesOnPlane` | src/plane_shape.rs:32-36 | At a reported hit, the point `origin + t*dir` lies on the plane. |
| `PlaneShapes.PlanePointAheadIsHit` | src/plane_shape.rs:31-36 | Converse: when `denom >= 1e-6`, a plane point at parameter `s >= 0` is reported as exactly `(true, s)`. |
| `PlaneShapes.OriginOnPlaneHitsAtZero` | src/plane_shape.rs:32-36 | A ray that starts on the plane, with `denom >= 1e-6`, hits with `t == 0`. |
| `PlaneShapes.NeverBothSides` | src/plane_shape.rs:31-32 | A plane and its copy with negated normal never both report a hit for the same ray. |
| `BoxShapes.Intersect` | src/box_shape.rs:24-50 | The returned `t` is the largest per-axis entry `min(t1,t2)`, returned on a miss too. The ray hits iff every per-axis exit `max(t1,t2)` is at least `t` and at least 0, i.e. `t_max >= t_min && t_max >= 0`. |
| `BoxShapes.Entry` | src/box_shape.rs:29-45 | Definition of an axis's entry `min(t1, t2)`; properties in `BoxShapes.Intersect`, `BoxShapes.PointsBetweenAreInside` and `BoxShapes.InsideIsBetween`. |
| `BoxShapes.Exit` | src/box_shape.rs:29-45 | Definition of an axis's exit `max(t1, t2)`; properties in the same lemmas as `BoxShapes.Entry` and in `BoxShapes.ExitBehindMisses`. |
| `BoxShapes.SwapCorners` | src/box_shape.rs:28-45 | Exchanging the two corners gives an identical result. |
| `BoxShapes.SwapOneAxis` | src/box_shape.rs:28-45 | Exchanging the corners' coordinates on one axis only gives an identical result. |
| `BoxShapes.PointsBetweenAreInside` | src/box_shape.rs:28-45 | Every parameter between the returned `t` and the smallest exit gives a point inside the box on every axis. |
| `BoxShapes.InsideIsBetween` | src/box_shape.rs:28-45 | Conversely, a parameter whose point is inside the box lies between `t` and every exit. |
| `BoxShapes.HitIffPointAhead` | src/box_shape.rs:28-50 | The slab test reports a hit iff some point of the ray at a non-negative parameter lies in the box. |
| `BoxShapes.OriginInsideHits` | src/box_shape.rs:28-50 | A ray starting inside the box hits it, with `t <= 0`. |
| `BoxShapes.EntryBehindOrigin` | src/box_shape.rs:29-45 | On an axis where the origin lies strictly between the corners, the entry `min(t1, t2)` is negative. |
| `BoxShapes.OriginStrictlyInsideHitsBehind` | src/box_shape.rs:28-50 | A ray starting strictly inside the box hits it with `t < 0`. |
| `BoxShapes.BothCornersBehindMisses` | src/box_shape.rs:28-48 | If on some axis both corners lie behind the origin along the direction, the box is missed. |
| `Rays.At` | src/triangle_shape.rs:40 | Definition of the point `origin + dir*t`; properties in `PlaneShapes.HitLiesOnPlane`, `BoxShapes.HitIffPointAhead` and `TriangleShapes.HitLiesOnTrianglePlane`. |
| `TriangleShapes.Normal` | src/triangle_shape.rs:26-28 | Definition of `cross(b-a, c-a)`; properties in `TriangleShapes.ReversedNormal`, `TriangleShapes.HitFacesNormal` and `TriangleShapes.HitLiesOnTrianglePlane`. |
| `TriangleShapes.DerivedPlane` | src/triangle_shape.rs:30-32 | Definition of the plane through `a` with normal `k*cross(b-a, c-a)`; properties in `TriangleShapes.Intersect` and `TriangleShapes.PlaneMissIsMiss`. |
| `TriangleShapes.EdgeTest` | src/triangle_shape.rs:42-61 | Definition of one same-side value `dot(n, cross(end-start, p-start))`; properties in `TriangleShapes.Intersect` and `TriangleShapes.ReversedCornerHit`. |
| `TriangleShapes.WithinEdges` | src/triangle_shape.rs:42-61 | Definition: all three edge values are non-negative; properties in `TriangleShapes.Intersect` and `TriangleShapes.PlaneHitWithinEdgesIsHit`. |
| `TriangleShapes.Intersect` | src/triangle_shape.rs:25-67 | The triangle is hit iff the derived plane (origin `a`, normal `k * cross(b-a, c-a)`) is hit and the hit point passes all three edge tests `dot(n, cross(edge, p - start)) >= 0` with the unnormalised normal. A hit returns the plane's `t` unchanged, with `t >= 0`. Every miss returns `t == 0`. |
| `TriangleShapes.PlaneMissIsMiss` | src/triangle_shape.rs:34-35 | When the derived plane misses, the triangle returns `(false, 0)`. |
| `TriangleShapes.PlaneHitWithinEdgesIsHit` | src/triangle_shape.rs:40-63 | A plane hit at `t` whose point passes the three edge tests is the triangle's hit `(true, t)`. |
| `TriangleShapes.HitFacesNormal` | src/triangle_shape.rs:26-35 | A hit implies a nonzero normal, and a direction with positive component along the unnormalised normal. |
| `TriangleShapes.BackFacingMisses` | src/triangle_shape.rs:26-35 | A ray whose direction has no positive component along the normal misses, wherever it starts. |
| `TriangleShapes.WindingOneSided` | src/triangle_shape.rs:26-35 | A triangle and its reversed winding `(a, c, b)` are never both hit by the same ray. |
| `TriangleShapes.CornerMissed` | src/triangle_shape.rs:26-35 | The triangle (0,0,0), (2,0,0), (0,2,0), normalised by 1/4, misses the ray from (0.5,0.5,5) along (0,0,-1), with `(false, 0)`. |
| `TriangleShapes.ReversedCornerHit` | src/triangle_shape.rs:26-66 | The same triangle wound (0,0,0), (0,2,0), (2,0,0) is hit by that ray at exactly t = 5. |
| `TriangleShapes.HitLiesOnTrianglePlane` | src/triangle_shape.rs:30-38 | At a hit, the point at `t` lies on the triangle's plane. |
| `Shapes.IntersectsRay` | src/shape.rs:5-7 | Dispatch over the three kinds. Planes and triangles never hit behind the origin, and their misses never report a parameter ahead of it. A triangle miss reports 0. |
| `Shapes.HitAheadLiesOnShape` | src/shape.rs:5-7 | At a reported hit, the point lies inside the box (when `t >= 0`), on the plane, or on the triangle's plane. |
| `Tiles.MakeLayout` | src/main.rs:207-212 | With `pixels_hor = width / cells_hor` and `pixels_vert = height / cells_vert`, the tiles cover at most the viewport and leave fewer than `cells_hor` columns and fewer than `cells_vert` rows of it uncovered. |
| `Tiles.MainLayoutCoversViewport` | src/main.rs:207-212 | The redraw handler's layout is 4 × 4 tiles of 160 × 90 pixels. It covers the 640 × 360 viewport exactly: 16 cells of 14400 pixels. |
| `Tiles.CellX` | src/main.rs:268-274 | The tile column `cell % cells_hor` is below `cells_hor`. Further properties in `Tiles.RenderMapRoundTrip` and `Tiles.MergeOriginIsRenderOrigin`. |
| `Tiles.CellY` | src/main.rs:268-274 | The tile row `cell / cells_hor` and the column recombine row-major into the cell index. |
| `Tiles.PixelX` | src/main.rs:268-274 | Definition of `pixel_x`; properties in `Tiles.PixelInViewport`, `Tiles.RenderMapRoundTrip`, `Tiles.RenderMapOnto` and `Tiles.RowMajorStep`. |
| `Tiles.PixelY` | src/main.rs:268-274 | Definition of `pixel_y`; properties in the same lemmas as `Tiles.PixelX`. |
| `Tiles.PixelInViewport` | src/main.rs:268-274 | For `cell_index < cells` and `pixel_index < pixels`, `(pixel_x, pixel_y)` lies within `cells_hor*pixels_hor × cells_vert*pixels_vert`. |
| `Tiles.RenderMapRoundTrip` | src/main.rs:268-274 | The inverse map `(pixel_x, pixel_y) → (cell, pixel)` recovers the cell index and pixel index. |
| `Tiles.RenderMapInjective` | src/main.rs:268-274 | No two (cell, pixel) pairs render the same viewport pixel. |
| `Tiles.RenderMapOnto` | src/main.rs:268-274 | Every viewport pixel is rendered by some in-range (cell, pixel) pair. |
| `Tiles.TileCoords` | src/main.rs:268-274 | A cell index `qy*cells_hor + qx` and pixel index `ry*pixels_hor + rx` built from in-range coordinates are in range. They render pixel `(rx + qx*pixels_hor, ry + qy*pixels_vert)`. |
| `Tiles.RowMajorStep` | src/main.rs:273-274 | Successive pixel indices advance x by one, and wrap to the tile's first column on the next row after `pixels_hor`. |
| `Tiles.MergeOriginIsRenderOrigin` | src/main.rs:305-316 | The merge loop's index `y*cells_hor + x` is the cell in column `x`, row `y`. The merge places it at `(x*pixels_hor, y*pixels_vert)`, the same origin its first pixel had when rendered. |
| `Render.Nearest` | src/main.rs:276-288 | The depth the loop leaves behind is at most the start. It is either the start or the `t` of a shape hit with `t > near`, and it is at most the `t` of every shape hit with `t > near`. |
| `Render.NearestDepth` | src/main.rs:276-288 | The in-place loop over `shapes` computes `Nearest` from `far`. The result is at most `far`, is `far` or some hit's `t > near`, and is no farther than any hit beyond `near`. |
| `Render.NearestUnique` | src/main.rs:276-288 | Two scenes holding the same shapes give the same nearest depth. |
| `Render.NearestOrderIndependent` | src/main.rs:276-288 | Permuting the scene list does not change the nearest depth. |
| `Render.Grey` | src/main.rs:292 | `clamp(0, 255) as u8` gives the byte `v` with `v <= clamp(x, 0, 255) < v + 1`. |
| `Render.Intensity` | src/main.rs:291-292 | The grey value is a byte `v` with `v <= clamp(depth*255/far, 0, 255) < v + 1`. |
| `Render.IntensityMonotone` | src/main.rs:291-292 | A greater depth never gives a darker value. |
| `Render.IntensityAtFar` | src/main.rs:291-292 | Depth `far` (nothing hit) gives 255. |
| `Render.IntensityAtEye` | src/main.rs:291-292 | A depth at or before 0 gives 0. |
| `Render.PixelValue` | src/main.rs:276-292 | Definition: the grey value of the nearest-hit depth of the pixel's primary ray. Properties in `Render.Nearest`, `Render.Intensity` and `Frame.RenderFrame`. |
| `Render.PixelBytes` | src/main.rs:294 | One pixel's bytes are four channels, `[v, v, v, 255]`. |
| `Render.TileBytes` | src/main.rs:271-298 | The flattened tile holds `4 * pixels` bytes. Byte `j` is channel `j % 4` of pixel `j / 4`. |
| `Render.TileBytesChannel` | src/main.rs:294-298 | In the collected bytes, byte `4k + c` is channel `c` of pixel `k`'s quadruple. |
| `Render.TileBytesAt` | src/main.rs:271-298 | Bytes `4k .. 4k+3` are `[v, v, v, 255]` for the k-th pixel's value `v`. |
| `Render.TileBuffer` | src/main.rs:271-298 | The per-tile `flat_map` holds `4*pixels` bytes. Its contents are stated by `Render.TileBufferLayout`. |
| `Render.RenderCells` | src/main.rs:265-300 | The mapped tile list holds one buffer per cell, each of `4*pixels` bytes. |
| `Render.TileBufferLayout` | src/main.rs:271-298 | Each tile buffer has length `4*pixels_hor*pixels_vert`. Bytes `4k .. 4k+3` are the grey value of the k-th pixel the tile renders, three times, then 255. |
| `Render.RenderedByte` | src/main.rs:265-298 | In the tile list, byte `4k + c` of tile `cell` is channel `c` of the grey value of the viewport pixel that the tile's k-th pixel renders. |
| `Render.MergedPixelIsRendered` | src/main.rs:265-300 | Reading viewport pixel `(x, y)` from its own tile's buffer, at its own offset, gives that pixel's grey value. |
| `Render.TilingIrrelevant` | src/main.rs:265-300 | Two layouts covering the same area give every pixel the same bytes, so 1 tile and 16 tiles render the same image. |
| `Frame.Texel` | src/main.rs:312-322 | The offset of channel `c` of texel `(col, row)` in a `w × h` RGBA buffer lies in `[4*(row*w+col), 4*(row*w+col)+4)`, that texel's four bytes, and inside the buffer. |
| `Frame.UploadTile` | src/main.rs:312-322 | One `TexSubImage2D`: the tile's rectangle takes the buffer's texels in row-major order, and every other texel is unchanged. |
| `Frame.InTileRect` | src/main.rs:307-318 | A pixel inside the rectangle at `(x*pixels_hor, y*pixels_vert)` of size `pixels_hor × pixels_vert` belongs to cell `y*cells_hor + x`, at its row-major offset within the rectangle. |
| `Frame.TileRectHolds` | src/main.rs:307-318 | Conversely, a covered pixel whose cell is `y*cells_hor + x` lies in that rectangle. |
| `Frame.TileFits` | src/main.rs:307-318 | For `x < cells_hor` and `y < cells_vert`, `index` is a valid index into `cells`, the tile's buffer holds `4*pixels_hor*pixels_vert` bytes, and the uploaded rectangle ends inside the covered area. |
| `Frame.TileRect` | src/main.rs:307-321 | A pixel is in tile `(x, y)`'s rectangle iff it is covered and its cell is `index`. The texel the upload copies to it is the byte at that pixel's own offset in its own tile. |
| `Frame.MergeTile` | src/main.rs:307-322 | One iteration of the merge loop: exactly the covered pixels whose cell is `y*cells_hor + x` get the bytes of their own pixel from that tile, and every other texel is unchanged. |
| `Frame.MergeTiles` | src/main.rs:305-325 | After the nested merge loop, each covered pixel holds the bytes at its offset in its own tile's buffer. The rest of the texture is unchanged. |
| `Frame.RenderFrame` | src/main.rs:265-325 | Rendering then merging leaves every covered pixel with the RGBA of its own primary ray's grey value. |
| `Frame.Redraw` | src/main.rs:207-325 | With the 4 × 4 layout, every texel of the 640 × 360 texture gets its pixel's grey value. |
| `Camera.Ndc` | src/main.rs:355-356 | The pixel-centre coordinate `(x + 0.5)/size` lies strictly between 0 and 1 for every pixel of the viewport. |
| `Camera.ScreenX` | src/main.rs:358 | Definition of the horizontal screen coordinate `2*ndc_x - 1`; properties in `Camera.ScreenInRange`, `Camera.ScreenStep`, `Camera.ScreenMirror` and `Camera.CentreStraddled`. |
| `Camera.ScreenY` | src/main.rs:359 | Definition of the flipped vertical coordinate `1 - 2*ndc_y`; properties in the same lemmas as `Camera.ScreenX`. |
| `Camera.ScreenInRange` | src/main.rs:355-359 | Every viewport pixel maps strictly inside `(-1, 1)` on both screen axes. |
| `Camera.ScreenStep` | src/main.rs:355-359 | Neighbouring pixels are `2/width` apart to the right. Vertically they are `2/height` apart and move downwards, because y is flipped. |
| `Camera.ScreenMirror` | src/main.rs:355-359 | Mirrored pixels get opposite screen coordinates. |
| `Camera.CentreStraddled` | src/main.rs:355-359 | The viewport centre lies half a pixel from pixels 319/320 and 179/180. |
| `Keyboard.Lookup` | src/input.rs:20 | A key with no entry reads as `false`. Otherwise the lookup is the stored value. |
| `Keyboard.Input.constructor` | src/input.rs:12-17 | A fresh tracker has empty maps, so no key is held or just pressed. |
| `Keyboard.Input.KeyPressed` | src/input.rs:19-21 | `false` for a key absent from `pressed`. True iff `pressed` maps the key to true. |
| `Keyboard.Input.KeyJustPressed` | src/input.rs:23-27 | Implies `KeyPressed`. True iff the key is pressed and `prev_pressed` does not map it to true. |
| `Keyboard.Input.ProcessEvent` | src/input.rs:29-36 | With a keycode, `prev_pressed[k]` becomes the old `key_pressed(k)` and `pressed[k]` becomes `state == Pressed`. Every other key's queries are unchanged. Without a keycode nothing changes. The two maps keep equal key sets. |
| `Keyboard.ReleasePressRepeat` | src/input.rs:23-34 | After a Released then a Pressed event for `k`, `key_just_pressed(k)` holds. A second Pressed event (key repeat) clears it. |
| `Keyboard.Input.UpdateStates` | src/input.rs:38-42 | As written, both maps and every key's "just pressed" answer are unchanged. |
| `Keyboard.StaleJustPressed` | src/input.rs:38-42 | A key pressed on a fresh tracker is still "just pressed" after the as-written `UpdateStates`, and not after the corrected one. |
| `Keyboard.Input.UpdateStatesCorrected` | src/input.rs:38-42 | `prev_pressed` takes each recorded key's current state and `pressed` is unchanged, so afterwards no key is "just pressed". |

## Findings

| source | as written | input that shows it | evidently intended | confidence | as-written member | corrected member |
|---|---|---|---|---|---|---|
| src/input.rs:38-42 | `update_states` assigns the entries of `prev_pressed.clone()`, and the clone is then dropped, so neither map changes | a Pressed event for key K on a fresh `Input`, then `update_states`: `key_just_pressed(K)` is still true in the next frame | at each frame boundary `prev_pressed` takes every key's current state, so a key is "just pressed" for one frame only | not executed; medium, since `key_just_pressed` has no caller in the redraw handler | `Keyboard.Input.UpdateStates`, exhibited by `Keyboard.StaleJustPressed` | `Keyboard.Input.UpdateStatesCorrected` |

## Left out

- Window, GL context and event-loop plumbing (src/main.rs:46-136, 302-351): texture creation, `ClearColor`, draw calls and `swap_buffers` are foreign calls. Only the byte buffers handed to `TexSubImage2D` and the texture they fill are modelled.
- The camera pose from pitch/yaw and WASD movement (src/main.rs:149-156, 175-205), and the FOV/aspect scaling, camera matrix and normalisation in `pixel_to_camera` (src/main.rs:361-372). They rely on trigonometry, cgmath quaternions and matrices, and a square root. Primary rays are a parameter of `Render.Context`.
- The scene built each frame (src/main.rs:214-243) is a caller-supplied `seq<Shape>`. The model proves properties for every scene, not for that particular list.
- `rayon` parallelism (src/main.rs:266): modelled as a sequential map.
- src/program.rs, src/old_shader.rs and build.rs (file I/O, shader compilation, binding generation), and src/transform.rs, which is not in the module tree. src/vector.rs is not part of this model: `Vectors` defines the operations the core uses (add, sub, negate, scale, dot, cross).
- IEEE-754 behaviour: ±∞ from a zero direction component, NaN propagation, rounding, and the saturating `as u8`. Rays require nonzero direction components, and `as u8` after the clamp is modelled as `Floor`.
- `Rays.NewRay`: requires nonzero direction components, because the source's infinite reciprocals on axis-parallel rays have no counterpart over the reals.
- `normalize`: the square root is replaced by the factor `k` carried with each triangle, constrained by `TriangleShapes.UnitFactor`.
- The `u32` index arithmetic of the redraw handler is modelled with unbounded naturals. All values stay far below 2^32, and Dafny's `/` and `%` agree with Rust's on non-negative operands.
- `VirtualKeyCode` is modelled as a natural number; the tracker only compares keys for equality.
