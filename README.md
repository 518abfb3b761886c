# Comic Book Creator: the comic model in Dafny

This project models the editing core of Comic Book Creator, a Swing editor that
lays out photos and text on comic pages. The modelled parts are:

- **Border** (`Borders`): the editable polygon of a layer. It is bounded by
  `[0,maxX] x [0,maxY]` and has an optional snapping grid whose lines lie at
  `spacing/2 + k*spacing`. It supports validated point edits, snapping
  (`toGrid`, `toBounds`), nearest vertex and nearest edge queries, scaling
  and translation. Snapping and edge geometry are in `Snapping` and `Edges`.
- **PositionedImage** (`Images`, `Raster`, `Halftone`): a pixel buffer with an
  origin that follows the original (0,0) pixel. It supports saturating
  compositing (`addDot`, `addImage`, `addCircle`), `reset`, the
  floor/ceiling shears, the three-shear rotation, greyscale copies and
  the rotated halftone screens. The class is an `array2` of RGB triples.
  Each method is proved equal to a value-level function in `Raster` or
  `Halftone`. The properties are proved about those functions, among them
  the exact round trip of a shear, and of a rotation, followed by its
  inverse and a reset.
- **Layer, ImageLayer, TextLayer** (`Layers`): a layer's border and contents
  box, the image layer's lazily filled effect caches, and typing into a
  text layer.
- **ComicPage, ComicBook** (`Pages`, on top of `Lists`): lists of layers and
  of pages that are refilled when the last element is removed.
- **LayerPanel.actionPerformed** (`Panel`): the seven layer buttons as a
  state machine over the page's layer list and the selected index.

Java exceptions are the `Status` values of `Outcomes`. A method that can throw
returns `Ok` or `Throws(e)` and states the state it leaves on success and on
each exception, including the slots already replaced when `scale` throws
part of the way through.
A Java `null` is `None`. Java's `int` division and remainder, `Math.floor`,
`Math.ceil`, `Math.round`, the `(int)` cast and BigDecimal's half-up rounding
are written out in `JavaMath`. Doubles are exact reals.

## Model

| member | source | states |
|---|---|---|
| JavaMath.Div | src/comicBookModel/Layer.java:57-61 | Java's `/` truncates toward zero. It agrees with Dafny's division on a non-negative dividend and positive divisor, and is non-negative when the signs agree |
| JavaMath.Rem | src/comicBookModel/Border.java:256-264 | Java's `%`: `a == Div(a,b)*b + r`, and `r` has the sign of the dividend and a magnitude below `abs(b)` |
| JavaMath.Floor | src/comicBookModel/PositionedImage.java:385-386 | `Math.floor`: the greatest integer at most `v` |
| JavaMath.Ceil | src/comicBookModel/PositionedImage.java:384-385 | `Math.ceil`: the least integer at least `v` |
| JavaMath.Trunc | src/comicBookModel/PositionedImage.java:149-153 | The `(int)` cast of a double: floor for non-negative values, ceiling for negative ones |
| JavaMath.Round | src/comicBookModel/Layer.java:151-155 | `Math.round`: the integer within half of `v`, with halves rounded up |
| JavaMath.RoundHalfUp | src/comicBookModel/Border.java:396-397 | `setScale(0, HALF_UP)`: the nearest integer, with halves rounded away from zero |
| JavaMath.CeilNeg | src/comicBookModel/PositionedImage.java:384-386 | `ceil(-v) == -floor(v)` and `floor(-v) == -ceil(v)`: the asymmetry that lets a shear by `-s` undo a shear by `s` |
| JavaMath.LatticeMod | src/comicBookModel/Border.java:256-264 | A point of the lattice `h + g*k` with `0 <= h < g` has remainder `h` modulo `g` |
| Geometry.SqDist | src/comicBookModel/Border.java:271-287 | The squared distance is non-negative and zero exactly for equal points. It orders points as `Point.distance` does |
| Geometry.MinX | src/comicBookModel/Layer.java:147-149 | The least x over the vertices, attained by one of them: the left side of `getBounds` |
| Geometry.MaxX | src/comicBookModel/Layer.java:147-149 | The greatest x over the vertices, attained by one of them: the right side of `getBounds` |
| Geometry.MinY | src/comicBookModel/Layer.java:147-149 | The least y over the vertices, attained by one of them: the top of `getBounds` |
| Geometry.MaxY | src/comicBookModel/Layer.java:147-149 | The greatest y over the vertices, attained by one of them: the bottom of `getBounds` |
| Geometry.Bounds | src/comicBookModel/Layer.java:147-149 | `getBounds`: a box of non-negative size containing every vertex, each of whose four sides passes through a vertex |
| Geometry.BoundsSmallest | src/comicBookModel/Layer.java:147-149 | Every box holding all vertices contains the bounds, so they are the smallest such box |
| Geometry.BoundsExact | src/comicBookModel/Layer.java:147-149 | A box holding all vertices, each of whose sides passes through a named vertex, is exactly the bounds |
| Geometry.Translated | src/comicBookModel/Layer.java:126-128 | `Polygon.translate`: the same number of vertices, each moved by `(dx,dy)` |
| Snapping.InBounds | src/comicBookModel/Border.java:244-250 | `validBounds`: both coordinates lie between 0 and the maximum, inclusive |
| Snapping.OnGrid | src/comicBookModel/Border.java:256-264 | `validGrid`: always true with the grid off; with it on, both coordinates have Java remainder `spacing/2` modulo the spacing |
| Snapping.ToBounds | src/comicBookModel/Border.java:463-483 | `toBounds`: each coordinate raised to the minimum (`g/2` with the grid on, else 0) and then lowered to the last allowed line at or below the bound; proved in bounds by `ToBoundsInBounds` and on the grid by `ClampOnGrid` |
| Snapping.SnapCoord | src/comicBookModel/Border.java:449-452 | The snapping step of `toGrid` on one coordinate, with `%` as Java's remainder: down by the overshoot below `g/2`, else up to the next line; proved to land on a line by `SnapCoordLattice` and to move at most half a spacing by `SnapCoordStep` |
| Snapping.ToGridAsWritten | src/comicBookModel/Border.java:445-455 | `toGrid` as written: both coordinates snapped, then `toBounds`, even with the grid off; `ToGridAsWrittenValid` proves the result valid, `ToGridAsWrittenMovesValidPoint` shows it moving a valid point |
| Snapping.ToGrid | src/comicBookModel/Border.java:439-455 | The documented `toGrid`: the same as written while the grid is active, only `toBounds` while it is off; `ToGridValid`, `ToGridFixesValid` and `ToGridNearest` prove its promise |
| Snapping.LatticeOnGrid | src/comicBookModel/Border.java:256-264 | A non-negative grid line `g/2 + g*k` passes `validGrid` |
| Snapping.SnapCoordLattice | src/comicBookModel/Border.java:449-452 | Both outcomes of the snapping step of `toGrid` are grid lines |
| Snapping.MaxCoordLattice | src/comicBookModel/Border.java:466-469 | With the grid active, the largest coordinate `toBounds` allows is a grid line between `g/2` and the bound |
| Snapping.ClampOnGrid | src/comicBookModel/Border.java:476-480 | Clamping a grid line between the first and last allowed lines keeps it on the grid and in bounds |
| Snapping.ToBoundsInBounds | src/comicBookModel/Border.java:463-483 | `toBounds` lands in `[0,maxX] x [0,maxY]` whenever the box reaches the first grid line |
| Snapping.ToGridValid | src/comicBookModel/Border.java:445-455 | `toGrid` yields a point in bounds, and on the grid when the grid is active |
| Snapping.SnapCoordFixed | src/comicBookModel/Border.java:449-452 | The snapping step leaves a grid line where it is |
| Snapping.ToGridFixesValid | src/comicBookModel/Border.java:445-483 | The documented `toGrid` (the same as the source's while the grid is active) returns a point that is already in bounds and on the grid unchanged (idempotence) |
| Snapping.ToGridAsWrittenInactive | src/comicBookModel/Border.java:445-455 | As written, with the grid inactive, `toGrid` moves every point by (1,1) before clamping |
| Snapping.ToGridAsWrittenMovesValidPoint | src/comicBookModel/Border.java:449-452 | Counterexample: on a 200x200 box with no grid, the valid (3,3) becomes (4,4) and (-2,50) becomes (0,51). The corrected `ToGrid` returns (3,3) and (0,50) |
| Snapping.ToGridSnapsToLines | src/comicBookModel/Border.java:445-455 | With spacing 20, (33,47) snaps to (30,50), which is on the grid |
| Snapping.ToGridAsWrittenValid | src/comicBookModel/Border.java:445-455 | `toGrid` as written also yields a point in bounds, and on the grid when it is active, whenever the box reaches the first grid line |
| Snapping.SnapCoordStep | src/comicBookModel/Border.java:449-452 | The snapping step moves a coordinate at or after the first line by at most half a spacing, and one before it up to the first line at most |
| Snapping.SnapClampNearest | src/comicBookModel/Border.java:445-483 | With an active grid of even spacing, no allowed grid coordinate is strictly closer to the input than the snapped and clamped one |
| Snapping.ToGridNearest | src/comicBookModel/Border.java:439-455 | With an active grid of even spacing, `toGrid` returns a closest valid point, as its comment promises: no valid point is nearer along either axis or in distance |
| Snapping.ToGridOddSpacingFarther | src/comicBookModel/Border.java:449-452 | With spacing 3, (2,2) snaps to (4,4) although the valid (1,1) is nearer, so the promise fails for odd spacings |
| Edges.Foot | src/comicBookModel/Border.java:366-397 | The foot of the perpendicular from the point to the edge's line: exact on vertical and horizontal edges, otherwise from the two slope-intercept forms, each coordinate rounded half up |
| Edges.ClosestPointAsWritten | src/comicBookModel/Border.java:359-412 | `closestPoint` as written: the foot when it lies in the edge's box, otherwise the first endpoint (lines 407-408 compare it with itself); see `ClosestPointAsWrittenInBox` and `ClosestPointAsWrittenFallback` |
| Edges.ClosestPoint | src/comicBookModel/Border.java:359-412 | The documented `closestPoint`: the foot when it lies in the edge's box, otherwise the nearer endpoint, the second on a tie; see `ClosestPointInBox` and `ClosestPointNearestOnAxisEdge` |
| Edges.SlopeGap | src/comicBookModel/Border.java:388-393 | The slope of an oblique edge and the slope of its perpendicular always differ, so the foot computation never divides by zero |
| Edges.ClosestPointInBox | src/comicBookModel/Border.java:398-411 | The documented `closestPoint` always lies in the box spanned by the edge's endpoints |
| Edges.ClosestPointAsWrittenInBox | src/comicBookModel/Border.java:398-411 | `closestPoint` as written always lies in that box too |
| Edges.NearestOnVerticalEdge | src/comicBookModel/Border.java:368-370 | On a vertical edge, no integer point of the edge is closer to the query point than the result |
| Edges.NearestOnHorizontalEdge | src/comicBookModel/Border.java:371-373 | On a horizontal edge, no integer point of the edge is closer to the query point than the result |
| Edges.ClosestPointNearestOnAxisEdge | src/comicBookModel/Border.java:359-412 | On an axis-aligned edge, the result is a nearest point of the edge |
| Edges.ClosestPointAsWrittenFallback | src/comicBookModel/Border.java:405-411 | As written, when the foot is off the edge, the result is always the first endpoint. The corrected version returns the nearer endpoint |
| Edges.ClosestPointAsWrittenMissesEndpoint | src/comicBookModel/Border.java:407-408 | Counterexample: for edge (0,0)-(10,0) and point (20,0) the code answers (0,0) at squared distance 400. The corrected version answers (10,0) |
| Borders.HighestOneBit | src/comicBookModel/Border.java:130 | `Integer.highestOneBit`: the largest power of two not above `m` |
| Borders.GrowLength | src/comicBookModel/Border.java:130 | The array length `Polygon.addPoint` grows to is strictly larger |
| Borders.Appended | src/comicBookModel/Border.java:123-131 | Appending keeps the first `n` slots, puts `p` at `n`, and pads new slots with (0,0) |
| Borders.FirstIndex | src/comicBookModel/Border.java:231-238 | The first index of `p`, or -1 exactly when `p` does not occur |
| Borders.ScaledAbout | src/comicBookModel/Border.java:421-428 | One vertex moved by the factor about the centre, each coordinate rounded by `Math.round`; `ScaledAboutOne` shows factor 1 is the identity |
| Borders.Placed | src/comicBookModel/Border.java:429-433 | What `scale` stores for a target: the target itself when `setPoint` accepts it, else its `toGrid` (as written or documented); `PlacedValid` proves it valid |
| Borders.ScaledAboutOne | src/comicBookModel/Border.java:425-427 | Scaling by 1 about any centre moves no point |
| Borders.PlacedScaledByOne | src/comicBookModel/Border.java:425-433 | Scaling a valid vertex by 1 stores it unchanged, with either `toGrid` |
| Borders.PlacedValid | src/comicBookModel/Border.java:428-433 | What `scale` stores (the target, or its snapped version from `toGrid` as written or as documented) is a valid point whenever the box reaches the first grid line |
| Borders.ScaleAsWrittenShiftsSnappedPoint | src/comicBookModel/Border.java:420-433 | Counterexample: scaling (10,50),(100,50),(100,60),(10,60) by 2 on a 200x200 box with no grid targets (-35,45) about the centre (55,55). As written `scale` stores (0,46); the documented `toGrid` gives (0,45) |
| Borders.GetIndexAsWrittenFindsSpareSlot | src/comicBookModel/Border.java:231-238 | Counterexample: after two `addPoint` calls on a triangle, the arrays hold 8 slots, and scanning them finds (0,0) at index 5, although no vertex is (0,0) |
| Borders.Border.constructor | src/comicBookModel/Border.java:62-77 | A border built from at least 3 vertices holds exactly those vertices, with the grid off and spacing 1 |
| Borders.Border.Create | src/comicBookModel/Border.java:62-77 | The checked constructor succeeds iff `3 <= n`, the arrays hold `n` points, and every point is in bounds. Otherwise it throws IndexOutOfBounds, NegativeArraySize or IllegalArgument, in Polygon's order |
| Borders.Border.SetGrid | src/comicBookModel/Border.java:84-90 | A spacing below 2 throws and changes nothing. Otherwise the grid becomes active with that spacing and no vertex moves |
| Borders.Border.DeactivateGrid | src/comicBookModel/Border.java:101-104 | Spacing 1, grid off; afterwards a point is valid iff it is in bounds |
| Borders.Border.AddPoint | src/comicBookModel/Border.java:123-131 | An invalid point throws and changes nothing. A valid one is appended as the last vertex |
| Borders.Border.SetPoint | src/comicBookModel/Border.java:150-160 | An invalid point throws before the index is checked. An index outside the arrays throws. Otherwise exactly that slot changes |
| Borders.Border.InsertPoint | src/comicBookModel/Border.java:172-198 | Invalid point or index beyond the arrays: throws and changes nothing. Otherwise `p` is at `index` and the old vertices keep their order around it |
| Borders.Border.RemovePoint | src/comicBookModel/Border.java:206-225 | With 3 vertices it does nothing. Otherwise the slot at `index` goes, order is kept and the count drops by one. An index outside the arrays throws and changes nothing |
| Borders.Border.GetIndexAsWritten | src/comicBookModel/Border.java:231-238 | As written, the scan covers the whole arrays, spare slots included: the first slot equal to `p`, or -1 |
| Borders.Border.GetIndex | src/comicBookModel/Border.java:231-238 | As documented: the first vertex equal to `p`, always below `npoints`, or -1 exactly when no vertex is `p` |
| Borders.Border.ClosestVertexPoint | src/comicBookModel/Border.java:271-287 | A vertex at least distance. Every earlier vertex is strictly farther, so the first of equally near vertices wins |
| Borders.EdgePoint | src/comicBookModel/Border.java:331-340 | The point `closestPoint` gives for edge i, from vertex i to vertex i+1 with the last edge closing back to vertex 0, as written or as documented |
| Borders.ClosestEdgeUnique | src/comicBookModel/Border.java:327-350 | The description of the result of `closestEdge` determines both the point and the index |
| Borders.ScanEdges | src/comicBookModel/Border.java:327-350 | The loop of `closestEdge`: vertex 0 and index 0 unless some edge point is strictly closer, otherwise the first edge point at the least distance, which is no farther than any edge point |
| Borders.ClosestEdgeAsWrittenPicksNextEdge | src/comicBookModel/Border.java:318-352 | Counterexample: for the square (0,0),(10,0),(10,10),(0,10) and point (12,-2), `closestEdge` as written answers edge 1, and with the documented `closestPoint` it answers edge 0 |
| Borders.Border.ClosestEdgeAsWritten | src/comicBookModel/Border.java:318-352 | `closestEdge` as written, over `closestPoint` as written: the point and index the source computes, no farther than vertex 0 |
| Borders.Border.ClosestEdge | src/comicBookModel/Border.java:318-352 | `closestEdge` over the documented `closestPoint`: the index is in `[0,n)`, the point is no farther than vertex 0 or the closest point of any edge, including the closing edge, and every earlier edge is strictly farther |
| Borders.Border.ValidPoint | src/comicBookModel/Border.java:244-264 | What `setPoint` checks: `validBounds` and `validGrid` with the border's own box and grid |
| Borders.Border.ScaledSlots | src/comicBookModel/Border.java:420-434 | Every slot's placed target about the centre of the bounds, one per slot (`xpoints.length` of them) |
| Borders.Border.PartlyScaled | src/comicBookModel/Border.java:426-434 | The state `scale` leaves when a snapped target still fails `setPoint`: slots before the failing index replaced and valid, the failing target invalid, the rest unchanged |
| Borders.ScalePoints | src/comicBookModel/Border.java:426-434 | The loop of `scale` over all slots: the first `done` slots become their placed targets and are valid, the rest are unchanged, and the loop stops early only at a target that stays invalid, which cannot happen when the box reaches the first grid line |
| Borders.Border.ScaleAsWritten | src/comicBookModel/Border.java:420-436 | `scale` as written: on success every slot becomes its scaled target, snapped by `toGrid` as written when invalid, and is valid. On failure it throws IllegalArgument and leaves the slots `PartlyScaled`: those before the failing one are replaced and the rest are unchanged. The grid, the spacing and the vertex count are kept. It always succeeds when the box reaches the first grid line |
| Borders.Border.Scale | src/comicBookModel/Border.java:420-436 | `scale` with the documented `toGrid`: the same, except that invalid targets are only clamped while the grid is inactive |
| Borders.Border.Translate | src/comicBookModel/Layer.java:126-128 | Every vertex moves by `(dx,dy)` with no validity check. Spare slots and the grid are unchanged |
| Raster.SatAdd | src/comicBookModel/PositionedImage.java:117-123 | The sum of two channels when it is at most 255, and 255 otherwise: never more than the sum, and either the sum or 255 |
| Raster.AddColor | src/comicBookModel/PositionedImage.java:113-128 | `addDot`'s new colour: no channel gets darker, and each channel is the sum of the two or 255 |
| Raster.AddColorLaws | src/comicBookModel/PositionedImage.java:113-128 | Adding black changes nothing, adding is commutative, and the order in which two dots are added does not matter |
| Raster.Blank | src/comicBookModel/PositionedImage.java:47-54 | A new image is all black with origin (0,0) |
| Raster.Pasted | src/comicBookModel/PositionedImage.java:135-144 | `addImage` keeps the size, kind and origin. It adds exactly the source pixels that fall inside the image and leaves the others |
| Raster.PastedOntoBlank | src/comicBookModel/PositionedImage.java:64-67 | Pasting onto a blank image of the same size at (0,0) reproduces the source pixels |
| Raster.Circle | src/comicBookModel/PositionedImage.java:149-164 | `addCircle` keeps the size, kind and origin. It adds the colour to the pixels of the clipped box inside the disc and to no other |
| Raster.WithinRadius | src/comicBookModel/PositionedImage.java:150-153 | An integer offset whose square is at most `r*r` lies within `(int) r` |
| Raster.TouchesIffInDisc | src/comicBookModel/PositionedImage.java:149-164 | The clipped scan box loses no pixel of the disc: a pixel of the image is touched iff it is in the disc |
| Raster.Reset | src/comicBookModel/PositionedImage.java:89-99 | A `w x h` image, origin (0,0), whose pixel `(x,y)` is the old pixel `(x+ox, y+oy)` |
| Raster.Shift | src/comicBookModel/PositionedImage.java:385-386 | The shift of the line at distance d from the origin's: `Math.ceil(d*s)` for a negative shear, `Math.floor(d*s)` otherwise; see `ShiftZero`, `ShiftNeg`, `ShiftMono` |
| Raster.Offset | src/comicBookModel/PositionedImage.java:374-375 | The shear's offset, the shift of the first or last line by the sign of the shear; `ShiftBounds` proves it the least shift |
| Raster.MaxShift | src/comicBookModel/PositionedImage.java:378-379 | The shift added to the height for the new size; `ShiftBounds` proves it the largest shift |
| Raster.ShiftZero | src/comicBookModel/PositionedImage.java:384-393 | The origin column is never shifted, which is why the new origin is the old origin's image |
| Raster.ShiftNeg | src/comicBookModel/PositionedImage.java:385-386 | The shift for `-s` is exactly the negation of the shift for `s` |
| Raster.ShiftMono | src/comicBookModel/PositionedImage.java:385-386 | Shifts grow with the column for `s >= 0` and shrink for `s < 0` |
| Raster.ShiftBounds | src/comicBookModel/PositionedImage.java:373-379 | Every column's shift lies between the offset and the largest shift, so every target row is inside the new image |
| Raster.ShearedSize | src/comicBookModel/PositionedImage.java:378-379 | The sheared height is never less than the old one |
| Raster.ShearV | src/comicBookModel/PositionedImage.java:300-398 | `shearVert`: same width and kind, height `height - offset + maxShift`, and origin `(ox, oy - offset)` |
| Raster.ShearH | src/comicBookModel/PositionedImage.java:403-435 | `shearHorz`: the transpose of `ShearV` |
| Raster.Rotate | src/comicBookModel/PositionedImage.java:282-292 | `rotate` as vertical, horizontal and then vertical shears, with the two shear factors as parameters |
| Raster.ShearVRel | src/comicBookModel/PositionedImage.java:382-395 | Seen from the origin, the vertical shear moves the pixel at `(u,v)` to `(u, v + shift(u))`, keeping it in the image, and writes nothing else |
| Raster.ShearHRel | src/comicBookModel/PositionedImage.java:419-432 | The same for the horizontal shear, on rows |
| Raster.ResetRecovers | src/comicBookModel/PositionedImage.java:89-99 | An image that agrees with `orig` on every pixel relative to the origin resets to exactly `orig` |
| Raster.ShearVUndo | src/comicBookModel/PositionedImage.java:277-291 | Shearing vertically by `s`, then by `-s`, restores every pixel relative to the origin |
| Raster.ShearHUndo | src/comicBookModel/PositionedImage.java:277-291 | The same for the horizontal shear |
| Raster.ShearVRoundTrip | src/comicBookModel/PositionedImage.java:277-291 | For an image with origin (0,0), `shearVert(s)`, `shearVert(-s)` and `reset(w,h)` give back the image |
| Raster.ShearHRoundTrip | src/comicBookModel/PositionedImage.java:277-291 | The same for `shearHorz` |
| Raster.RotateUndoInner | src/comicBookModel/PositionedImage.java:282-292 | Inside the rotation and its inverse, the horizontal shear, the two middle vertical shears and the inverse horizontal shear restore every pixel relative to the origin |
| Raster.RotateUndo | src/comicBookModel/PositionedImage.java:282-292 | Rotating with `(a,b)` and then with `(-a,-b)` restores every pixel relative to the origin |
| Raster.RotateRoundTrip | src/comicBookModel/PositionedImage.java:282-292 | For an image with origin (0,0), a rotation, its inverse and `reset(w,h)` give back the image exactly, with no pixel lost or duplicated |
| Raster.RotateSameFrame | src/comicBookModel/PositionedImage.java:282-292 | Two images with the same size and origin rotate to images with the same size and origin |
| Raster.RotateFits | src/comicBookModel/PositionedImage.java:191-194 | Rotating back any image with the frame of a rotated image leaves the original window, measured from the new origin, inside the result, so the `reset` that follows never reads outside it |
| Raster.Greyscale | src/comicBookModel/PositionedImage.java:104-108 | `toGreyscale`: a grey-typed copy with the same size and pixels, origin (0,0) |
| Halftone.DotColor | src/comicBookModel/PositionedImage.java:253-254 | 128 on each requested channel, 0 on the others |
| Halftone.Fraction | src/comicBookModel/PositionedImage.java:259-261 | The requested share of a pixel's colour lies in `[0,1]` |
| Halftone.Dot | src/comicBookModel/PositionedImage.java:258-264 | One sample's circle keeps the canvas size, kind and origin |
| Halftone.Column | src/comicBookModel/PositionedImage.java:264-271 | The inner sampling loop: one dot every `size` rows of column x from row y on; the canvas keeps its size, kind and origin |
| Halftone.Columns | src/comicBookModel/PositionedImage.java:263-272 | The outer sampling loop: the columns every `size` pixels from x on; the canvas keeps its size, kind and origin |
| Halftone.HalftoneOf | src/comicBookModel/PositionedImage.java:237-274 | The per-channel halftone keeps the input's size, kind and origin |
| Halftone.ShadedAddDot | src/comicBookModel/PositionedImage.java:253-264 | Adding the dot colour to a pixel whose channels are 0, 128 or 255 (0 where not requested) keeps that form |
| Halftone.DotShaded | src/comicBookModel/PositionedImage.java:258-264 | One dot keeps every pixel of that form |
| Halftone.ColumnShaded | src/comicBookModel/PositionedImage.java:257-265 | One column of dots keeps every pixel of that form |
| Halftone.ColumnsShaded | src/comicBookModel/PositionedImage.java:256-265 | All columns keep every pixel of that form |
| Halftone.HalftoneShaded | src/comicBookModel/PositionedImage.java:237-274 | Every halftone pixel is 0, 128 or 255 on the requested channels and 0 on the others |
| Halftone.ColumnUntouched | src/comicBookModel/PositionedImage.java:257-264 | A pixel touched by no dot of a column keeps its colour |
| Halftone.ColumnsUntouched | src/comicBookModel/PositionedImage.java:256-265 | A pixel touched by no dot of any later column keeps its colour |
| Halftone.HalftoneOnlyAtSamples | src/comicBookModel/PositionedImage.java:256-264 | A pixel within reach of no dot centred at a sample point `(k*size, m*size)` inside the image stays black |
| Halftone.DotsTurnedBack | src/comicBookModel/PositionedImage.java:191-193 | Rotate, halftone and rotate back: the original image's window, measured from the new origin, fits in the result |
| Halftone.HalftonePass | src/comicBookModel/PositionedImage.java:189-196 | One screen: the same size and kind as the input, with origin (0,0) |
| Halftone.HalftoneBW | src/comicBookModel/PositionedImage.java:189-196 | `toHalftoneBW`: one screen on all channels, same size and kind, origin (0,0) |
| Halftone.HalftoneRGB | src/comicBookModel/PositionedImage.java:206-227 | `toHalftoneRGB`: three screens pasted together, same size and kind, origin (0,0) |
| Halftone.HalftoneImage | src/comicBookModel/PositionedImage.java:174-180 | `toHalftone(size)`: black and white for grey images, RGB otherwise, with the input's size and kind |
| Halftone.HalftonePassShaded | src/comicBookModel/PositionedImage.java:189-196 | Every pixel of one screen is 0, 128 or 255 on its channels and 0 on the others, through both rotations and the reset |
| Halftone.HalftoneBWGrey | src/comicBookModel/PositionedImage.java:189-196 | Every black and white halftone pixel is grey: its three channels are equal, each 0, 128 or 255 |
| Halftone.HalftoneRGBChannels | src/comicBookModel/PositionedImage.java:206-227 | Each channel of the RGB halftone is that channel of its own screen and is 0, 128 or 255 |
| Halftone.Halftoned | src/comicBookModel/PositionedImage.java:174-180 | The halftone at the fixed screen angles keeps the input's size and kind, origin (0,0) |
| Halftone.GreyHalftoneIsGrey | src/comicBookModel/ImageLayer.java:152-159 | The halftone of a greyscale copy, the black and white halftone, is grey at every pixel |
| Images.PositionedImage.Blank | src/comicBookModel/PositionedImage.java:47-54 | A new buffer holds the blank image |
| Images.PositionedImage.FromImage | src/comicBookModel/PositionedImage.java:64-67 | The copy of a BufferedImage has its pixels and size, origin (0,0) |
| Images.PositionedImage.Copy | src/comicBookModel/PositionedImage.java:77-83 | The copy of a PositionedImage has its pixels, size and origin |
| Images.PositionedImage.AddDot | src/comicBookModel/PositionedImage.java:113-128 | Exactly pixel `(x,y)` changes, to the saturated sum |
| Images.PositionedImage.AddImage | src/comicBookModel/PositionedImage.java:135-144 | The buffer becomes `Pasted` of its old contents |
| Images.PositionedImage.AddCircle | src/comicBookModel/PositionedImage.java:149-164 | The buffer becomes `Circle` of its old contents |
| Images.PositionedImage.Reset | src/comicBookModel/PositionedImage.java:89-99 | A fresh buffer holding `Reset` of this image |
| Images.PositionedImage.ToGreyscale | src/comicBookModel/PositionedImage.java:104-108 | A fresh buffer holding `Greyscale` of this image |
| Images.PositionedImage.ShearVert | src/comicBookModel/PositionedImage.java:300-398 | A fresh buffer holding `ShearV` of this image, its origin set when the loop passes the old origin |
| Images.PositionedImage.ShearHorz | src/comicBookModel/PositionedImage.java:403-435 | A fresh buffer holding `ShearH` of this image |
| Images.PositionedImage.Rotate | src/comicBookModel/PositionedImage.java:282-292 | A fresh buffer holding `Rotate` of this image |
| Images.PositionedImage.ToHalftoneChannels | src/comicBookModel/PositionedImage.java:237-274 | A fresh buffer holding `HalftoneOf` this image |
| Images.PositionedImage.DrawColumn | src/comicBookModel/PositionedImage.java:264-271 | The inner loop: the canvas becomes `Column` of its old contents, the dots of column `x` at every size-th row |
| Images.PositionedImage.TurnedDots | src/comicBookModel/PositionedImage.java:191-192 | A fresh buffer holding the halftone of this image rotated |
| Images.PositionedImage.DotsTurnedBack | src/comicBookModel/PositionedImage.java:191-193 | A fresh buffer holding `DotsTurnedBack` of this image |
| Images.PositionedImage.ToHalftonePass | src/comicBookModel/PositionedImage.java:189-196 | A fresh buffer holding `HalftonePass` of this image |
| Images.PositionedImage.ToHalftoneBW | src/comicBookModel/PositionedImage.java:189-196 | A fresh buffer holding `HalftoneBW` of this image |
| Images.PositionedImage.AddPass | src/comicBookModel/PositionedImage.java:213-224 | One more screen, computed from this image, is pasted at (0,0) onto the accumulating buffer. This image's own buffer is left alone |
| Images.PositionedImage.ToHalftoneRGB | src/comicBookModel/PositionedImage.java:206-227 | A fresh buffer holding `HalftoneRGB` of this image |
| Images.PositionedImage.ToHalftone | src/comicBookModel/PositionedImage.java:174-180 | A fresh buffer holding `HalftoneImage` of this image |
| Layers.InitialFrame | src/comicBookModel/Layer.java:57-65 | The starting border: four corners TL, TR, BR, BL of an axis-aligned rectangle at `(W/4,H/4)`, all inside `[0,W] x [0,H]` |
| Layers.Layer.constructor | src/comicBookModel/Layer.java:53-66 | Contents at `(W/4,H/4)` of size `(W/2,H/2)`, and a border made of `InitialFrame`, which the checking Border constructor accepts |
| Layers.Layer.TranslateContents | src/comicBookModel/Layer.java:138-141 | The contents position moves by `(dx,dy)`. Its size and the border stay |
| Layers.Layer.TranslateBorder | src/comicBookModel/Layer.java:126-128 | Every border vertex moves by `(dx,dy)`. The contents stay |
| Layers.Layer.Translate | src/comicBookModel/Layer.java:112-115 | Border and contents move by the same delta, with no bounds check |
| Layers.Layer.ScaleBorder | src/comicBookModel/Layer.java:132-134 | `Border.scale` as written, whose failure is passed on: Ok or IllegalArgument. On success the slots are its result; on failure they are partly scaled, as in `Border.ScaleAsWritten`. The grid, the spacing and the vertex count are kept, and the layer's own fields are unchanged. It cannot fail when the box reaches the first grid line |
| Layers.ScaledSize | src/comicBookModel/Layer.java:154-155 | A rounded scaled side: unchanged by factor 1, non-negative for non-negative inputs |
| Layers.Layer.ScaleContents | src/comicBookModel/Layer.java:145-156 | The contents corner moves by the factor about the border's centre, and both sides are scaled and rounded |
| Layers.Layer.Scale | src/comicBookModel/Layer.java:119-122 | The border is scaled first, as written, and the outcome is Ok or IllegalArgument. If that throws, the contents are untouched and the border's slots are partly scaled. Otherwise the slots are the scaled targets and the contents are scaled about the new border's centre. The grid and spacing are kept either way |
| Layers.ImageLayer.constructor | src/comicBookModel/ImageLayer.java:57-62 | No image, no effect, empty caches, halftone size -1 |
| Layers.ImageLayer.SetEffect | src/comicBookModel/ImageLayer.java:74-76 | Only the effect changes |
| Layers.ImageLayer.SetHalftoneSize | src/comicBookModel/ImageLayer.java:82-91 | Below 2 throws and changes nothing. A different size empties both halftone caches, and the same size keeps them |
| Layers.ImageLayer.GetGreyscale | src/comicBookModel/ImageLayer.java:127-134 | None without an image. Otherwise the greyscale of the current image, cached from then on |
| Layers.ImageLayer.GetRGBHalftone | src/comicBookModel/ImageLayer.java:140-147 | None without an image, the cached copy when there is one, else the halftone at the current size. With no size set it throws |
| Layers.ImageLayer.GetBWHalftone | src/comicBookModel/ImageLayer.java:152-159 | As `GetRGBHalftone`, derived from the greyscale copy, which gets cached even when the halftone throws |
| Layers.ImageLayer.GetImage | src/comicBookModel/ImageLayer.java:102-115 | Dispatches on the effect: none gives the image, then greyscale, RGB halftone, or black and white halftone, throwing where the getter throws. The cache that effect uses holds the result, and the other caches stay |
| Layers.ImageLayer.SetRGBHalftone | src/comicBookModel/ImageLayer.java:148-151 | The size is set first. If accepted, the RGB cache holds the given image, and the other cache is emptied only when the size changed |
| Layers.ImageLayer.SetBWHalftone | src/comicBookModel/ImageLayer.java:160-163 | The same for the black and white cache |
| Layers.ImageLayer.SetImage | src/comicBookModel/ImageLayer.java:194-213 | New image, all caches emptied, no effect. The contents box is the image scaled by the cover factor and centred on the border's bounds |
| Layers.ImageLayer.ImageSet | src/comicBookModel/ImageLayer.java:167-169 | `imageSet` as written: true exactly when no image is set |
| Layers.ImageLayer.GreyscaleSet | src/comicBookModel/ImageLayer.java:174-176 | `greyscaleSet` as written: true exactly when no greyscale copy is cached |
| Layers.ImageLayer.RgbHalftoneSet | src/comicBookModel/ImageLayer.java:181-183 | `rgbHalftoneSet` as written: true exactly when no RGB halftone is cached |
| Layers.ImageLayer.BwHalftoneSet | src/comicBookModel/ImageLayer.java:188-190 | `bwHalftoneSet` as written: true exactly when no black and white halftone is cached |
| Layers.ImageLayer.ImageIsSet | src/comicBookModel/ImageLayer.java:164-169 | `imageSet` as its comment documents: true once an image is set |
| Layers.ImageLayer.GreyscaleIsSet | src/comicBookModel/ImageLayer.java:170-176 | `greyscaleSet` as documented: true once the greyscale copy is cached |
| Layers.ImageLayer.RgbHalftoneIsSet | src/comicBookModel/ImageLayer.java:177-183 | `rgbHalftoneSet` as documented: true once the RGB halftone is cached |
| Layers.ImageLayer.BwHalftoneIsSet | src/comicBookModel/ImageLayer.java:184-190 | `bwHalftoneSet` as documented: true once the black and white halftone is cached |
| Layers.ImageLayer.SetPredicatesInverted | src/comicBookModel/ImageLayer.java:164-190 | Each of the four `*Set` predicates as written is the negation of what its comment documents |
| Layers.CoverFactor | src/comicBookModel/ImageLayer.java:204-206 | The larger of the two ratios: at least each ratio and equal to one of them |
| Layers.CentredStart | src/comicBookModel/ImageLayer.java:210-211 | A side that covers the bound starts no later than the bound, and the excess is split within one pixel |
| Layers.CoveredSideCovers | src/comicBookModel/ImageLayer.java:207-208 | A side scaled by at least `bound/size` is at least `bound`, and exactly `bound` at that ratio |
| Layers.CoverFactorCovers | src/comicBookModel/ImageLayer.java:202-208 | Scaled by the cover factor, the image covers the border's bounds in both directions and matches them exactly in one |
| Layers.TextLayer.constructor | src/comicBookModel/TextLayer.java:38-48 | No text, font size 16 |
| Layers.Typed | src/comicBookModel/TextLayer.java:53-63 | 10 and 13 append a newline, backspace drops the last character if any, and any other character is appended as is |
| Layers.BackspaceUndoes | src/comicBookModel/TextLayer.java:56-62 | A backspace right after any other character gives back the text before it |
| Layers.TextLayer.AppendText | src/comicBookModel/TextLayer.java:52-76 | A backspace before any text throws and changes nothing. The first character sets the contents box to the border's bounds, moved 3 right. Later characters change only the text. The font size and the border never change |
| Layers.ScaledFontSize | src/comicBookModel/TextLayer.java:81-84 | The font size times the factor: unchanged by factor 1, non-negative for non-negative inputs |
| Layers.TextLayer.ScaleContents | src/comicBookModel/TextLayer.java:81-84 | The layer's contents scaling, plus the font size multiplied by the factor |
| Layers.TextLayer.Scale | src/comicBookModel/Layer.java:119-122 | `scale` dispatching to the text layer's override, with outcome Ok or IllegalArgument. On success the border holds the result of `scale` as written, and the contents box and font are scaled. On failure the border's slots are partly scaled and nothing else changes. The grid and spacing are kept either way |
| Lists.Inserted | src/comicBookModel/ComicPage.java:72-74 | `add(i, x)`: `x` at `i`, earlier elements in place, later ones shifted up |
| Lists.Removed | src/comicBookModel/ComicPage.java:93-94 | `remove(i)`: earlier elements in place, later ones shifted down |
| Lists.RemovedInserted | src/comicBookModel/ComicPage.java:72-98 | Removing at `i` what was inserted at `i` gives the list back |
| Lists.InsertedRemoved | src/comicBookModel/ComicPage.java:72-98 | Reinserting a removed element where it was gives the list back |
| Lists.InsertedMultiset | src/comicBookModel/ComicPage.java:72-74 | Insertion adds exactly one occurrence |
| Lists.RemovedMultiset | src/comicBookModel/ComicPage.java:93-94 | Removal takes away exactly one occurrence |
| Lists.Moved | src/comicBookGUI/LayerPanel.java:93-102 | The moved element ends at `to`. No element is lost or duplicated, and the others keep their relative order |
| Lists.MovedBack | src/comicBookGUI/LayerPanel.java:93-102 | Moving the element back to where it came from undoes the move |
| Lists.MovedElements | src/comicBookGUI/LayerPanel.java:93-102 | A moved list has exactly the elements of the original |
| Pages.ComicPage.constructor | src/comicBookModel/ComicPage.java:48-52 | A new page holds exactly one layer, a fresh image layer of the page's size |
| Pages.ComicPage.AddLayer | src/comicBookModel/ComicPage.java:72-74 | Inserts at `index`. An index outside `0..n` throws and changes nothing. The page stays uniform iff the layer has the page's size |
| Pages.ComicPage.AddImageLayer | src/comicBookModel/ComicPage.java:78-81 | Appends a fresh empty image layer of the page's size, keeping the others |
| Pages.ComicPage.AddTextLayer | src/comicBookModel/ComicPage.java:85-88 | Appends a fresh empty text layer of the page's size, keeping the others |
| Pages.ComicPage.RemoveLayer | src/comicBookModel/ComicPage.java:93-98 | Removes the layer at `index`. Removing the last layer leaves one fresh image layer, so a page is never empty. A bad index throws and changes nothing |
| Pages.ComicPage.GetLayer | src/comicBookModel/ComicPage.java:104-106 | The layer at `index`, or None exactly when the index is out of range |
| Pages.ComicPage.NoOfLayers | src/comicBookModel/ComicPage.java:111-113 | The number of layers, at least 1 on a valid page |
| Pages.ComicBook.constructor | src/comicBookModel/ComicBook.java:41-45 | A new book holds exactly one blank page of its size |
| Pages.ComicBook.AddPage | src/comicBookModel/ComicBook.java:50-53 | Appends a fresh page of the book's size with one layer, keeping the others |
| Pages.ComicBook.RemovePage | src/comicBookModel/ComicBook.java:58-63 | Removes the page at `index`. Removing the last page leaves one fresh page. A bad index throws and changes nothing |
| Pages.ComicBook.GetPage | src/comicBookModel/ComicBook.java:69-71 | The page at `index`, which has the book's size, or None exactly when the index is out of range |
| Pages.ComicBook.NoOfPages | src/comicBookModel/ComicBook.java:76-78 | The number of pages, at least 1 in a valid book |
| Panel.Prev | src/comicBookGUI/LayerPanel.java:86-88 | `(l-1+n)%n` is in `[0,n)`: `l-1`, with 0 wrapping to `n-1` |
| Panel.Next | src/comicBookGUI/LayerPanel.java:90-92 | `(l+1+n)%n` is in `[0,n)`: `l+1`, with `n-1` wrapping to 0 |
| Panel.PrevNextInverse | src/comicBookGUI/LayerPanel.java:85-92 | NEXT followed by PREV, or PREV followed by NEXT, restores the selection |
| Panel.AfterDelete | src/comicBookGUI/LayerPanel.java:115-120 | The selection after a delete is `l` or `l-1` and lies inside the shorter list |
| Panel.MoveLayer | src/comicBookGUI/LayerPanel.java:93-102 | Remove the layer, then add it back at `to`. On two or more layers this is `Moved`. On one layer the page ends with that layer and a fresh blank image layer. The page stays non-empty and uniform |
| Panel.AddOnTop | src/comicBookGUI/LayerPanel.java:103-114 | A fresh image or text layer on top, selected, with the earlier layers kept. Its grid is 20 exactly when `active` |
| Panel.ActionPerformed | src/comicBookGUI/LayerPanel.java:79-123 | For every command: the selection stays in range, the page stays non-empty and uniform, and each button does what it names. With one layer, a move ends with two layers. An added layer's grid is 20 iff the previous layer's grid was active |
| Panel.MoveDownUpRestores | src/comicBookGUI/LayerPanel.java:93-102 | On pages of two or more layers, moving a layer down then up, or up then down, restores the page |

## Left out

- Rendering is not modelled: `toImage` of the layers and the page, `drawBorderGrid`, `TextLayer.wrapToBorder`, and Polygon clipping and `contains` all depend on Graphics2D and FontMetrics.
- Mouse handling, the other panels, file saving and the colour chooser are outside this model, as is the background thread that computes halftones.
- `Border.reset` overrides Polygon's reset with an empty body, so it changes nothing and has no member. `getGrid`, `gridActive`, `getPoint`, `closestEdgePoint` and `closestEdgeIndex` are field reads or projections. They correspond to the fields `grid` and `gridActive`, a slot, and the two results of `ClosestEdgeAsWritten`.
- The accessors `Layer.getContentsWidth`, `getContentsHeight`, `getBorder`, `getStroke` and `setStroke`, `ImageLayer.getType`, `getHalftoneSize` and `getDefault`, and `ComicPage`'s and `ComicBook`'s `getWidth`/`getHeight` are field reads and writes. The stroke, colours and background paint are rendering state and are not modelled.
- `Border` dead branches: `closestVertexPoint` and `closestEdge` handle 0 and 1 vertices, which a valid border never has.
- `Polygon.invalidate` is not modelled. The bounds are always recomputed from the vertices, which is the state `invalidate` restores.
- Borders.Border.ClosestEdgeAsWritten and Borders.Border.ClosestEdge: the oblique-edge foot uses exact rationals rounded half up, not BigDecimal at 64 digits. Points far from the edge may round differently in the source.
- `Point.distance` is a square root of a double. The model compares squared integer distances instead, which gives the same order.
- Integer overflow of Java `int` and the `long` result of `Math.round` are not modelled. Coordinates are unbounded integers, and doubles are exact reals.
- Trigonometry and square roots are parameters: `Turn(alpha, beta)` stands for the two shear factors `-tan(rad/2)` and `sin(rad)`, and `Screen` holds the four fixed screens (15 degrees for black and white; -15, 7.5 and 30 for red, green and blue). The halftone radius `size*sqrt(2*frac/pi)` is the parameter `radius`.
- The TYPE_BYTE_GRAY colour model is not modelled. A grey image keeps RGB triples, and `Greyscale` changes only its kind.
- Images.PositionedImage.AddImage: requires `x, y >= 0`. The source's loops would also write at negative coordinates, but every caller passes (0,0).
- Images.PositionedImage.Reset: requires the window `origin + (w,h)` to lie inside the image, as the source does implicitly (it reads those pixels).
- A BufferedImage must be at least 1x1, so the image constructors require `width, height >= 1`. The `imageType` check is always true because `ImageType` has only the two accepted kinds.
- Images.PositionedImage.ToHalftone: requires `size >= 1` and origin (0,0). Size 0 never ends in the source. Every image a layer holds is a fresh copy with origin (0,0), and sizes come from `setHalftoneSize`, which refuses sizes below 2.
- A halftone pass with no channel requested divides 0 by 0 in the source and draws nothing. The model gives fraction 0, and a zero-colour dot is black, so the image is the same.
- Layers.ImageLayer.GetImage: an effect string that is none of the three constants reaches `assert false` in the source. The `Effect` datatype has no such value.
- Layers.ImageLayer.GetRGBHalftone: with no halftone size set, the source loops with step -1 and reads row -1. The model reports that as `Throws(IndexOutOfBounds)` without modelling the partial work.
- The image layer holds images as values. Java shares the same PositionedImage between the caller and the layer, and that aliasing is not modelled.
- Layers.ImageLayer.SetImage: requires the image to be well formed with origin (0,0), which holds for every image the editor loads. Its comment says the image is scaled to fit inside the border, but the code takes the larger ratio, which covers the border. The model follows the code.
- Layers.Layer.constructor: requires `width, height >= 0`. With a negative size, a corner falls outside the bounds and the Border constructor throws.
- Snapping.ToGridNearest: the closest-valid-point promise of `toGrid` is proved for even spacings only. For an odd spacing `toGrid` can pick the farther of two neighbouring grid lines: with spacing 3 the lines lie at 1, 4, 7, and 2 goes to 4, not 1 (`ToGridOddSpacingFarther`). The editor uses spacing 20.
- Text is a sequence of `char` values, as in Java, where a `char` is a UTF-16 code unit. A backspace removes one code unit, which can be half of a surrogate pair. The model does the same, but it does not model code points or surrogate pairs.
- `ComicBookState` is reduced to the selected index that `ActionPerformed` takes and returns. The page index and `repaint` are left out.
- The Layer `WIDTH`/`HEIGHT` accessors are the `const` fields `width` and `height`, which no method can change.

## Findings

| source | as written | input that shows it | evidently intended | confidence | as-written member | corrected member |
|---|---|---|---|---|---|---|
| src/comicBookModel/Border.java:407-408 | The fallback of `closestPoint` builds both candidate endpoints from `x1,y1`, so it always returns the first endpoint | edge (0,0)-(10,0), point (20,0): answers (0,0) at squared distance 400. In `closestEdge`, the square (0,0),(10,0),(10,10),(0,10) and point (12,-2) give edge 1 instead of edge 0 | the nearer endpoint, (10,0) at squared distance 100, and edge 0 | high, not executed | Edges.ClosestPointAsWrittenMissesEndpoint, Borders.ClosestEdgeAsWrittenPicksNextEdge, Borders.Border.ClosestEdgeAsWritten | Edges.ClosestPoint, Borders.Border.ClosestEdge |
| src/comicBookModel/Border.java:449-452 | With the grid inactive (spacing 1), `overX < 1/2` is `0 < 0`, so `toGrid` adds 1 to both coordinates before clamping | 200x200 box, no grid, point (3,3): becomes (4,4); (-2,50) becomes (0,51). It is reached from the catch branch of `scale`: scaling (10,50),(100,50),(100,60),(10,60) by 2 stores (0,46) for vertex 0 | an inactive grid only clamps: (3,3) and (0,50), and `scale` stores (0,45) | high, not executed | Snapping.ToGridAsWrittenMovesValidPoint, Borders.ScaleAsWrittenShiftsSnappedPoint, Borders.Border.ScaleAsWritten | Snapping.ToGrid, Borders.Border.Scale |
| src/comicBookModel/Border.java:231-238 | `getIndex` scans all `xpoints.length` slots, including the spare (0,0) slots that `Polygon.addPoint` leaves after growing | a triangle and two `addPoint` calls; `getIndex((0,0))` returns 5 although no vertex is (0,0) | scan only the `npoints` vertices, returning -1 | low: `addPoint` has no caller in the editor, not executed | Borders.GetIndexAsWrittenFindsSpareSlot | Borders.Border.GetIndex |
| src/comicBookModel/ImageLayer.java:164-190 | `imageSet`, `greyscaleSet`, `rgbHalftoneSet` and `bwHalftoneSet` return `slot == null` | a new image layer with no image: `imageSet()` is true | true once the slot is filled (`!= null`) | high, but no caller uses them, not executed | Layers.ImageLayer.SetPredicatesInverted | Layers.ImageLayer.ImageIsSet |
