# StudioLaValse.Geometry in Dafny

A model of the geometry and colour core of the StudioLaValse.Geometry C#
library, over exact `real` and `int` arithmetic:

- `MathUtils` (math_utils.dfy): the order-insensitive clamps,
  `ForcePositiveModulo`, `UnsignedModulo`, the scalar `Map` and the index
  selection of `SubSampleValues`.
- `GeometryExtensions` (geometry_extensions.dfy): `AlmostEqualTo` with its
  optional threshold, defaulting to the base threshold 0.001.
- `Points` (xy.dfy): the immutable `XY` point with `+`, `-`, `*`, `/`,
  `Average`, and squared distance and length.
- `Lines` (line.dfy): the segment, its squared point-to-segment distance
  (project, clamp the parameter into [0, 1], measure to the foot) and its
  closest point.
- `Search` and `Segments` (search.dfy, segments.dfy): the "first strictly
  nearer candidate wins" scan that every closest-point method of the library
  uses, over points and over segments.
- `Boxes` (boxes.dfy): the bounding box, its three constructors, `Width`,
  `Height`, `Center`, and the extensions `Expand`, `Overlaps`,
  `Contains(point)` (strict), `Contains(box)` and `ContainedBy`.
- `Polygons` (polygon.dfy): the closed polygon, its edges, the nearest
  outline point, the even-odd ray-casting test and the nearest shape point.
- `Polylines` (polyline.dfy): the open polyline, its edges, total length and
  nearest point.
- `Beziers` (bezier.dfy): quadratic and cubic Bezier segments, their
  Bernstein evaluation, uniform sampling into a polyline and the nearest
  sample.
- `Colors` (colors.dfy): `ColorRGB`, `ColorARGB`, `ColorHSB`, `ColorAHSB` and
  `ColorAHSL`, their normalising constructors, `IsDifferent`, `HueToRgb`,
  `FromHSB`, `FromRGB` and the implicit conversions.
- `ColorConversion` (color_conversion.dfy): the proof that, over exact
  arithmetic, RGB → HSB → RGB returns every valid colour unchanged.

Exceptions become `Result` failures (`Wrappers`). Square roots are not
modelled: every distance is kept squared. The closest-point searches compare
square roots with `<`. The square root is strictly increasing on
non-negative numbers, so comparing squares selects the same candidate.

`Line.cs` does not define `ClosestPoint`. It is called at `Polygon.cs:56`
and `Polyline.cs:65`, and `LineTests.cs:57-111` exercises it, so the model
defines it as the clamped foot that `DistToSegmentSquared` measures to
(`Line.cs:52-54`), and the start point for a segment of length zero.

`BoundingBox.cs` repeats the extension class with a `Contains(point)` that
includes the boundary. The model follows the strict version in
`BoundingBoxExtensions.cs`.

## Model

| member | source | states |
|---|---|---|
| MathUtils.Trunc | StudioLaValse.Geometry/ColorRGB.cs:73 | The `(int)` cast of a double truncates toward zero: the result is the integer at most one unit closer to zero than the input. |
| MathUtils.Map | StudioLaValse.Geometry/Private/MathUtils.cs:83-91 | Fails exactly when the source range is empty; otherwise sends `minStart` to `minEnd` and `maxStart` to `maxEnd`. |
| MathUtils.MapProportional | StudioLaValse.Geometry/Private/MathUtils.cs:83-91 | The mapped value moves along the target range in the same proportion as the input moves along the source range. |
| MathUtils.Clamp | StudioLaValse.Geometry/Private/MathUtils.cs:101-108 | The result lies between the smaller and the larger bound, whatever their order; values in range are kept; values outside go to the nearer bound. |
| MathUtils.ClampInt | StudioLaValse.Geometry/Private/MathUtils.cs:117-124 | The same for integers. |
| MathUtils.ClampIdempotent | StudioLaValse.Geometry/Private/MathUtils.cs:101-108 | Clamping twice equals clamping once, and swapping the bounds changes nothing. |
| MathUtils.ClampIntIdempotent | StudioLaValse.Geometry/Private/MathUtils.cs:117-124 | The same for integers. |
| MathUtils.ClampUnit | StudioLaValse.Geometry/Line.cs:53 | `Max(0, Min(1, t))` lies in [0, 1], keeps values in it, sends values outside to the nearer end, and is the order-insensitive clamp to [0, 1] that the HSB constructor applies. |
| MathUtils.ForcePositiveModulo | StudioLaValse.Geometry/Private/MathUtils.cs:136-146 | Whenever the add-while-negative loop ends (a positive modulus, or a negative modulus with a non-negative value), the result is in [0, abs(max)) and congruent to the input modulo `max`. |
| MathUtils.ForcePositiveModuloNegativeExample | StudioLaValse.Geometry/Private/MathUtils.cs:136-146 | C#'s `%` with a negative modulus: 7 with modulus −3 gives 1, the same as with modulus 3. |
| MathUtils.ForcePositiveModuloUnit | StudioLaValse.Geometry/Private/MathUtils.cs:125-135 | The double overload at `max = 1`: the result is in [0, 1) and differs from the input by a whole number. |
| MathUtils.ForcePositiveModuloUnitIdentity | StudioLaValse.Geometry/Private/MathUtils.cs:125-135 | Values already in [0, 1) are returned unchanged. |
| MathUtils.ForcePositiveModuloUnitIdempotent | StudioLaValse.Geometry/Private/MathUtils.cs:125-135 | Wrapping twice equals wrapping once. |
| MathUtils.UnsignedModulo | StudioLaValse.Geometry/Private/MathUtils.cs:147-157 | The result is in [0, max) and congruent to the input modulo `max`. |
| MathUtils.SubSampleIndex | StudioLaValse.Geometry/Private/MathUtils.cs:55 | The index read for output slot `i` is the integer quotient of `i * count` by `newLength`, and it lies below `count`. |
| MathUtils.SubSampleIndexIsMappedFloor | StudioLaValse.Geometry/Private/MathUtils.cs:55 | The floor of `Map(i, 0, newLength, 0, count)` is that index, so every read is in bounds. |
| MathUtils.SubSampleValues | StudioLaValse.Geometry/Private/MathUtils.cs:41-61 | Empty input gives empty output; equal length returns the input; a negative length fails with the overflow error that allocating the array raises; otherwise the output has `newLength` values, each read at its sub-sample index. |
| GeometryExtensions.AlmostEqualTo | StudioLaValse.Geometry/GeometryExtensions.cs:15-19 | True iff the difference is strictly inside (−threshold, threshold); a missing threshold means 0.001. |
| GeometryExtensions.AlmostEqualToSymmetric | StudioLaValse.Geometry/GeometryExtensions.cs:15-19 | The comparison is symmetric in its operands. |
| GeometryExtensions.AlmostEqualToReflexive | StudioLaValse.Geometry/GeometryExtensions.cs:17-18 | Every value is almost equal to itself under a positive or default threshold. |
| GeometryExtensions.AlmostEqualToNonPositiveThreshold | StudioLaValse.Geometry/GeometryExtensions.cs:18 | A threshold at or below zero accepts nothing, not even equal values. |
| Points.Quotient | StudioLaValse.Geometry/XY.cs:116-121 | For a non-zero divisor, the quotient scaled back by the divisor is the dividend. |
| Points.Div | StudioLaValse.Geometry/XY.cs:116-121 | Dividing by exactly zero fails; otherwise the result scaled back is the dividend. |
| Points.Add | StudioLaValse.Geometry/XY.cs:95-98 | Subtracting the right operand from the sum gives the left operand back. |
| Points.Sub | StudioLaValse.Geometry/XY.cs:105-108 | The difference is the origin exactly when the operands are equal. |
| Points.Scale | StudioLaValse.Geometry/XY.cs:128-131 | Scaling by zero gives the origin and scaling by one gives the point back. |
| Points.AddCommutative | StudioLaValse.Geometry/XY.cs:95-98 | Point addition is commutative. |
| Points.DivUndoesScale | StudioLaValse.Geometry/XY.cs:116-131 | For `k != 0`, `(p * k) / k == p`. |
| Points.Dist2 | StudioLaValse.Geometry/XY.cs:55-58 | The squared distance is zero exactly between equal points. |
| Points.Dist2NonNegative | StudioLaValse.Geometry/XY.cs:55-58 | The squared distance is never negative. |
| Points.Dist2Symmetric | StudioLaValse.Geometry/XY.cs:55-58 | The squared distance is symmetric. |
| Points.Length2 | StudioLaValse.Geometry/XY.cs:63-66 | The squared length is non-negative and zero exactly at the origin. |
| Points.Normalize | StudioLaValse.Geometry/XY.cs:71-74 | Fails exactly when the length is zero; otherwise the result scaled by the length is the point. |
| Points.NormalizeFailsOnlyAtOrigin | StudioLaValse.Geometry/XY.cs:63-74 | With the true length, normalising fails exactly for the zero vector. |
| Points.Average | StudioLaValse.Geometry/XY.cs:33-48 | Nothing for an empty list; otherwise the point that the count scales back to the component-wise sum. |
| Points.Sum | StudioLaValse.Geometry/XY.cs:35-42 | The accumulated coordinates are the origin for no point and the point itself for one point. |
| Points.SumOfConstant | StudioLaValse.Geometry/XY.cs:38-42 | The accumulated sum of `n` copies of `q` is `q` scaled by `n`. |
| Points.AverageOfConstant | StudioLaValse.Geometry/XY.cs:33-48 | Averaging copies of one point gives that point back. |
| Points.SumAppend | StudioLaValse.Geometry/XY.cs:38-42 | The accumulated sum splits over concatenation. |
| Points.SumOfThree | StudioLaValse.Geometry/XY.cs:38-42 | Three points accumulate in loop order: `(a + b) + c`. |
| Points.AverageExample | StudioLaValse.Geometry/XY.cs:33-48 | (1,1), (3,3), (5,5) average to (3,3). |
| Lines.PointAt | StudioLaValse.Geometry/Line.cs:54 | Parameter 0 gives the start, parameter 1 the end, and a segment of length zero is its start at every parameter. |
| Lines.FootParameter | StudioLaValse.Geometry/Line.cs:46-53 | The projection parameter always lies in [0, 1], so the foot is on the segment. |
| Lines.ClosestPoint | StudioLaValse.Geometry/Line.cs:46-54 | The closest point lies on the segment: it is the segment's point at a parameter in [0, 1]. |
| Lines.DistToSegmentSquared | StudioLaValse.Geometry/Line.cs:44-55 | The squared distance is the squared distance to the closest point. |
| Lines.Distance2 | StudioLaValse.Geometry/Line.cs:63-66 | `Distance`, squared, measures to the closest point. |
| Lines.DegenerateSegment | StudioLaValse.Geometry/Line.cs:46-50 | A segment of length zero measures to its start point. |
| Lines.SegmentMinimal | StudioLaValse.Geometry/Line.cs:58-66 | No point `start + s (end - start)` with `s` in [0, 1] is nearer than the segment distance. |
| Lines.FootMinimal | StudioLaValse.Geometry/Line.cs:52-54 | For a segment of positive length, the clamped foot minimises the squared distance over the segment. |
| Lines.NoFartherThanEndpoints | StudioLaValse.Geometry/Line.cs:44-55 | The segment distance never exceeds the distance to either end. |
| Lines.ZeroOnSegment | StudioLaValse.Geometry/Line.cs:44-55 | Every point of the segment, the ends included, is at distance zero. |
| Lines.SwapInvariant | StudioLaValse.Geometry/Line.cs:44-55 | Swapping the ends does not change the distance. |
| Lines.PointAtReversed | StudioLaValse.Geometry/Line.cs:54 | Walking the reversed segment at `t` is walking the segment at `1 - t`. |
| Lines.DiagonalExample | StudioLaValse.Geometry/Line.cs:52-54 | Segment (0,0)-(5,5) and point (3,0): foot (1.5,1.5), squared distance 4.5. |
| Lines.DiagonalOnSegmentExample | StudioLaValse.Geometry/Line.cs:52-54 | (2,2) on that segment is its own closest point. |
| Lines.DiagonalBeforeStartExample | StudioLaValse.Geometry/Line.cs:53 | (-1,-1) clamps to the start. |
| Lines.DiagonalPastEndExample | StudioLaValse.Geometry/Line.cs:53 | (6,6) clamps to the end. |
| Lines.HorizontalFoot | StudioLaValse.Geometry/Line.cs:52-54 | On a horizontal segment, the foot is the point's x clamped between the ends. |
| Lines.VerticalFoot | StudioLaValse.Geometry/Line.cs:52-54 | On a vertical segment, the foot is the point's y clamped between the ends. |
| Search.FirstMin | StudioLaValse.Geometry/Polygon.cs:51-64 | The scan that replaces only on a strictly smaller distance finds a position where nothing is smaller and everything earlier is strictly larger; it finds nothing only for no candidates. |
| Search.FirstMinCharacterised | StudioLaValse.Geometry/Polygon.cs:59-63 | The scan result is exactly the first minimum. |
| Search.FirstMinUnique | StudioLaValse.Geometry/Polygon.cs:59-63 | There is only one first minimum. |
| Search.Nearest | StudioLaValse.Geometry/Polygon.cs:51-71 | Fails exactly when there is no candidate; otherwise returns a candidate no farther than any candidate. |
| Search.NearestIsEarliest | StudioLaValse.Geometry/Polygon.cs:59-63 | Every candidate before the returned one is strictly farther, so ties keep the earliest. |
| Search.NearestScan | StudioLaValse.Geometry/Polygon.cs:51-71 | The loop with a running best and a strict comparison computes `Nearest`. |
| Segments.Candidates | StudioLaValse.Geometry/Polygon.cs:54-56 | One candidate per segment, its closest point, in segment order. |
| Segments.ClosestOnSegments | StudioLaValse.Geometry/Polygon.cs:49-72 | Fails exactly for no segment; otherwise returns some segment's candidate no farther than any segment's distance. |
| Segments.ClosestOnSegmentsGlobal | StudioLaValse.Geometry/Polygon.cs:49-72 | The result is no farther than any point of any segment. |
| Segments.ClosestOnSegmentsEarliest | StudioLaValse.Geometry/Polygon.cs:59-63 | Every segment before the winning one is strictly farther. |
| Segments.ClosestOnSegmentsAt | StudioLaValse.Geometry/Polygon.cs:59-63 | When the distances first reach their minimum at `k`, segment `k`'s candidate is returned. |
| Boxes.FromCoords | StudioLaValse.Geometry/BoundingBox.cs:36-40 | Every corner coordinate is the smaller or the larger of its two inputs, so the min corner never exceeds the max corner. |
| Boxes.FromCoordsOrderInsensitive | StudioLaValse.Geometry/BoundingBox.cs:38-39 | Swapping x1 and x2, or y1 and y2, gives the same box. |
| Boxes.FromPoints | StudioLaValse.Geometry/BoundingBox.cs:47-51 | The smallest box containing both points in its closed rectangle. |
| Boxes.FromPointsSymmetric | StudioLaValse.Geometry/BoundingBox.cs:47-51 | Swapping the points changes nothing; the box equals the coordinate constructor's. |
| Boxes.Hull | StudioLaValse.Geometry/BoundingBox.cs:68-82 | The folded corners are at or beyond every box's corners, and each is attained by some box. |
| Boxes.Join | StudioLaValse.Geometry/BoundingBox.cs:76-82 | One step of the loop over boxes: the result is valid for valid inputs and contains every point of the running box and of the new box. |
| Boxes.FromBoxes | StudioLaValse.Geometry/BoundingBox.cs:58-83 | No boxes give the zero box at the origin; otherwise every valid input lies in the result's closed rectangle. |
| Boxes.FromBoxesOrderInsensitive | StudioLaValse.Geometry/BoundingBox.cs:58-83 | The result depends only on the set of boxes, not on their order or repetition. |
| Boxes.Width | StudioLaValse.Geometry/BoundingBox.cs:27 | The width is non-negative for a valid box and spans from the min to the max x. |
| Boxes.Height | StudioLaValse.Geometry/BoundingBox.cs:23 | The height is non-negative for a valid box and spans from the min to the max y. |
| Boxes.Center | StudioLaValse.Geometry/BoundingBox.cs:19 | The division by 2 succeeds, and the centre is equidistant from both corners and inside a valid box. |
| Boxes.CenterExample | StudioLaValse.Geometry/BoundingBox.cs:19 | The box (1, 3, 2, 4) has centre (2, 3). |
| Boxes.Expand | StudioLaValse.Geometry/BoundingBoxExtensions.cs:14-17 | The result is valid; a non-negative offset widens and heightens a valid box by twice the offset. |
| Boxes.ExpandShiftsCorners | StudioLaValse.Geometry/BoundingBoxExtensions.cs:14-17 | A non-negative offset moves each corner outwards by exactly the offset, keeping the original box inside. |
| Boxes.Overlaps | StudioLaValse.Geometry/BoundingBoxExtensions.cs:26-49 | Valid boxes overlap exactly when their closed rectangles share a point. |
| Boxes.OverlapsSymmetric | StudioLaValse.Geometry/BoundingBoxExtensions.cs:26-49 | Overlap is symmetric. |
| Boxes.TouchingBoxesOverlap | StudioLaValse.Geometry/BoundingBoxExtensions.cs:28-46 | Boxes that only share an edge count as overlapping. |
| Boxes.ContainsPoint | StudioLaValse.Geometry/BoundingBoxExtensions.cs:79-102 | True iff the point is in the closed rectangle and on none of its four boundary lines. |
| Boxes.CornersNotContained | StudioLaValse.Geometry/BoundingBoxExtensions.cs:79-102 | No corner of a box is contained in it. |
| Boxes.ContainsBox | StudioLaValse.Geometry/BoundingBoxExtensions.cs:61-71 | A containing box is valid. For a valid `other`, the test holds exactly when every point of `other` lies strictly inside the box: other lies completely within it. |
| Boxes.ContainedBy | StudioLaValse.Geometry/BoundingBoxExtensions.cs:57-60 | `ContainedBy(a, b)` is `Contains(b, a)`. |
| Boxes.NoBoxContainsItself | StudioLaValse.Geometry/BoundingBoxExtensions.cs:57-71 | No box contains itself or is contained by itself. |
| Boxes.ContainsImpliesOverlaps | StudioLaValse.Geometry/BoundingBoxExtensions.cs:26-71 | Containment implies overlap both ways round. |
| Polygons.MakePolygon | StudioLaValse.Geometry/Polygon.cs:20-28 | Fails exactly for fewer than three points; otherwise keeps the points. |
| Polygons.Edges | StudioLaValse.Geometry/Polygon.cs:34-42 | One edge per point, each starting at its point. |
| Polygons.EdgesChain | StudioLaValse.Geometry/Polygon.cs:34-42 | Each edge ends where the next begins, and the last edge closes back to the first point. |
| Polygons.ClosestPointEdge | StudioLaValse.Geometry/Polygon.cs:49-72 | Fails only without points; otherwise some edge's candidate no farther than any edge. |
| Polygons.ClosestPointEdgeMinimal | StudioLaValse.Geometry/Polygon.cs:20-72 | For a constructed polygon the search succeeds and is no farther than any point of any edge. |
| Polygons.Prev | StudioLaValse.Geometry/Polygon.cs:99-110 | The trailing index `j` is in range and is followed by `i` around the cycle. |
| Polygons.StraddlesY | StudioLaValse.Geometry/Polygon.cs:103 | The half-open Y test passes exactly when the ray's height is above the lower end and at most the upper end of the edge, so the edge is not horizontal. |
| Polygons.HeightParameter | StudioLaValse.Geometry/Polygon.cs:105 | The division `(point.Y - Y_i) / (Y_j - Y_i)` of a straddling edge is a parameter in [0, 1] at which the edge is at the ray's height. |
| Polygons.HeightParameterUnique | StudioLaValse.Geometry/Polygon.cs:105 | No other parameter puts a straddling edge at the ray's height. |
| Polygons.Crosses | StudioLaValse.Geometry/Polygon.cs:103-105 | An edge crosses exactly when it straddles the ray's height and the edge's point at that height lies strictly left of the tested point. |
| Polygons.CrossesIsLoopTest | StudioLaValse.Geometry/Polygon.cs:103-105 | The crossing predicate is the loop's two nested tests, written as the source writes them. |
| Polygons.InsideAfter | StudioLaValse.Geometry/Polygon.cs:99-111 | The flag toggled over the first `n` iterations is false when none of those edges crosses the ray. |
| Polygons.IsPointInPolygon | StudioLaValse.Geometry/Polygon.cs:96-114 | Inside iff the number of edges crossing the leftward ray is odd. |
| Polygons.InsideParity | StudioLaValse.Geometry/Polygon.cs:101-111 | After `n` iterations the toggled flag is the parity of the crossings so far. |
| Polygons.CrossingSetStep | StudioLaValse.Geometry/Polygon.cs:101-111 | Each iteration adds its edge to the crossings exactly when that edge crosses, and the edge was not among the earlier ones. |
| Polygons.IsPointInPolygonLoop | StudioLaValse.Geometry/Polygon.cs:96-114 | The loop with `j` trailing `i` computes `IsPointInPolygon`. |
| Polygons.ClosestPointShape | StudioLaValse.Geometry/Polygon.cs:79-89 | The query point itself when inside, otherwise the nearest edge point; fails only without points. |
| Polygons.AboveAllVerticesIsOutside | StudioLaValse.Geometry/Polygon.cs:96-114 | A point above every vertex crosses no edge and is outside. |
| Polygons.RectangleInterior | StudioLaValse.Geometry/Polygon.cs:79-114 | A point strictly inside a rectangle is inside, and its shape point is itself. |
| Polygons.SquareInsideExample | StudioLaValse.Geometry/Polygon.cs:96-114 | In the square (0,0), (5,0), (5,5), (0,5), the point (3,3) is inside. |
| Polygons.SquareOutsideExample | StudioLaValse.Geometry/Polygon.cs:96-114 | In the same square, (6,6) is outside. |
| Polygons.SquareEdgeAbove | StudioLaValse.Geometry/Polygon.cs:49-72 | A point above a square, within its horizontal extent, is nearest to its projection onto the top edge. |
| Polygons.SquareEdgeExample | StudioLaValse.Geometry/Polygon.cs:49-72 | For that square, the outline point nearest to (2,7) is (2,5). |
| Polylines.MakePolyline | StudioLaValse.Geometry/Polyline.cs:20-28 | Fails exactly when no point is given; otherwise keeps the points. |
| Polylines.Edges | StudioLaValse.Geometry/Polyline.cs:87-100 | One segment fewer than points, segment `i` from point `i` to point `i + 1`, no closing segment. |
| Polylines.EdgesRecoverPoints | StudioLaValse.Geometry/Polyline.cs:87-100 | The segments chain, and their vertices give the points back. |
| Polylines.LengthOf | StudioLaValse.Geometry/Polyline.cs:34-50 | The running sum is zero for at most one point, is the single segment's distance for two points, and is never negative with a non-negative distance. |
| Polylines.TotalLength | StudioLaValse.Geometry/Polyline.cs:34-50 | The total length is never negative and is zero for a single point. |
| Polylines.LengthSplitsFirst | StudioLaValse.Geometry/Polyline.cs:34-50 | The running sum is the first segment's distance plus the length of the rest. |
| Polylines.SegmentsLength | StudioLaValse.Geometry/Polyline.cs:34-50 | The summed lengths of no segments are zero, and never negative with a non-negative distance. |
| Polylines.LengthIsSumOverEdges | StudioLaValse.Geometry/Polyline.cs:34-50 | The total length equals the sum of the lengths of the polyline's segments from `GetLineSegments`. |
| Polylines.LengthOfReverse | StudioLaValse.Geometry/Polyline.cs:34-50 | With a symmetric distance, the reversed polyline has the same length. |
| Polylines.TotalLengthLoop | StudioLaValse.Geometry/Polyline.cs:34-50 | The loop that remembers the previous point computes `TotalLength`. |
| Polylines.ClosestPoint | StudioLaValse.Geometry/Polyline.cs:58-81 | Fails exactly for at most one point; otherwise some segment's candidate no farther than any segment. |
| Polylines.ClosestPointMinimal | StudioLaValse.Geometry/Polyline.cs:58-81 | The result is no farther than any point of any segment. |
| Polylines.CornerTieKeepsFirst | StudioLaValse.Geometry/Polyline.cs:68-72 | For an L-shaped polyline, a point no nearer to the second segment gets the first segment's foot, also on a tie. |
| Polylines.TieExample | StudioLaValse.Geometry/Polyline.cs:68-72 | (0,0), (5,0), (5,5) and target (3,2): both segments tie, and (3,0) is returned. |
| Polylines.SinglePointFails | StudioLaValse.Geometry/Polyline.cs:75-78 | A single-point polyline constructs but has no closest point. |
| Beziers.QuadraticPoint | StudioLaValse.Geometry/QuadraticBezierSegment.cs:45-50 | The curve starts at the first control point (t = 0) and ends at the third (t = 1). |
| Beziers.CubicPoint | StudioLaValse.Geometry/CubicBezierSegment.cs:46-51 | The curve starts at the first control point (t = 0) and ends at the fourth (t = 1). |
| Beziers.Bernstein2IsDeCasteljau | StudioLaValse.Geometry/QuadraticBezierSegment.cs:45-50 | The quadratic Bernstein form equals de Casteljau's repeated interpolation. |
| Beziers.Bernstein3IsDeCasteljau | StudioLaValse.Geometry/CubicBezierSegment.cs:46-51 | The cubic Bernstein form equals de Casteljau's repeated interpolation. |
| Beziers.CubicFromQuadratics | StudioLaValse.Geometry/CubicBezierSegment.cs:48-49 | A cubic coordinate interpolates the quadratics of its first three and last three control values. |
| Beziers.QuadraticWeightsSumToOne | StudioLaValse.Geometry/QuadraticBezierSegment.cs:47-48 | The three quadratic weights sum to one. |
| Beziers.CubicWeightsSumToOne | StudioLaValse.Geometry/CubicBezierSegment.cs:48-49 | The four cubic weights sum to one. |
| Beziers.QuadraticConstant | StudioLaValse.Geometry/QuadraticBezierSegment.cs:47-48 | Three equal control points give a constant curve. |
| Beziers.CubicConstant | StudioLaValse.Geometry/CubicBezierSegment.cs:48-49 | Four equal control points give a constant curve. |
| Beziers.QuadraticExample | StudioLaValse.Geometry/QuadraticBezierSegment.cs:45-50 | (0,0), (12,8), (16,2) at t = 0.5 is (10, 4.5). |
| Beziers.CubicExample | StudioLaValse.Geometry/CubicBezierSegment.cs:46-51 | (−16,−4), (−10,10), (8,−4), (16,10) at t = 0.5 is (−0.75, 3). |
| Beziers.SampleParameter | StudioLaValse.Geometry/QuadraticBezierSegment.cs:62 | `i / n` lies in [0, 1] for `i` in [0, n], and is 0 and 1 at the ends. |
| Beziers.Samples | StudioLaValse.Geometry/QuadraticBezierSegment.cs:59-64 | `n + 1` points, point `i` on the curve at `i / n`. |
| Beziers.SampledPolyline | StudioLaValse.Geometry/QuadraticBezierSegment.cs:57-66 | Fails for fewer than one segment; otherwise `n + 1` samples from `curve(0)` to `curve(1)`. |
| Beziers.SampledClosest | StudioLaValse.Geometry/QuadraticBezierSegment.cs:74-97 | Fails exactly for fewer than one segment; otherwise a sample no farther than any sample. |
| Beziers.SampledClosestEarliest | StudioLaValse.Geometry/QuadraticBezierSegment.cs:84-88 | Every earlier sample is strictly farther, so ties keep the earliest. |
| Beziers.SampledClosestNoFartherThanEnds | StudioLaValse.Geometry/QuadraticBezierSegment.cs:79-90 | Both ends are sampled, so the result is no farther than either. |
| Beziers.SampledClosestLoop | StudioLaValse.Geometry/QuadraticBezierSegment.cs:74-97 | The sampling loop with a strict comparison computes `SampledClosest`. |
| Beziers.QuadraticToPolyline | StudioLaValse.Geometry/QuadraticBezierSegment.cs:57-66 | `n + 1` points on the curve, from the first to the third control point; fails for fewer than one segment. |
| Beziers.CubicToPolyline | StudioLaValse.Geometry/CubicBezierSegment.cs:58-67 | `n + 1` points on the curve, from the first to the fourth control point; fails for fewer than one segment. |
| Beziers.QuadraticClosest | StudioLaValse.Geometry/QuadraticBezierSegment.cs:74-97 | Fails exactly for fewer than one segment; otherwise a sample no farther than any sample and either end control point. |
| Beziers.CubicClosest | StudioLaValse.Geometry/CubicBezierSegment.cs:75-98 | Fails exactly for fewer than one segment; otherwise a sample no farther than any sample and either end control point. |
| Beziers.QuadraticClosestDefault | StudioLaValse.Geometry/QuadraticBezierSegment.cs:74 | Without a segment count the search samples 100 segments, always succeeds, and is no farther than either end control point. |
| Beziers.CubicClosestDefault | StudioLaValse.Geometry/CubicBezierSegment.cs:75 | The same for the cubic segment. |
| Colors.ClampChannel | StudioLaValse.Geometry/ColorRGB.cs:45-47 | A channel is clamped into [0, 255], keeping values in range. |
| Colors.MakeRGB | StudioLaValse.Geometry/ColorRGB.cs:43-48 | The constructed colour is valid and keeps channels already in range. |
| Colors.MakeRGBOfValid | StudioLaValse.Geometry/ColorRGB.cs:43-48 | Re-constructing a valid colour gives it back. |
| Colors.IsDifferent | StudioLaValse.Geometry/ColorRGB.cs:92-110 | A missing colour is different; otherwise different exactly when some channel differs. |
| Colors.IsDifferentIrreflexive | StudioLaValse.Geometry/ColorRGB.cs:92-98 | A colour is not different from itself and is different from nothing. |
| Colors.WrapHue | StudioLaValse.Geometry/ColorRGB.cs:78-79 | For `t` in [−1, 2] the wrapped value is in [0, 1], moved by at most one turn, and [0, 1] is kept. |
| Colors.HueRamp | StudioLaValse.Geometry/ColorRGB.cs:80-84 | For a non-negative wrapped `t` the ramp stays between `p` and `q`, and is `p` from 2/3 on. |
| Colors.HueToRgb | StudioLaValse.Geometry/ColorRGB.cs:76-85 | For `t` in [−1, 2] the result lies between `p` and `q`. |
| Colors.HueToRgbPeriodic | StudioLaValse.Geometry/ColorRGB.cs:76-85 | Shifting `t` by one turn does not change the result. |
| Colors.RampBetween | StudioLaValse.Geometry/ColorRGB.cs:80-82 | `p + (q - p) s` with `s` in [0, 1] lies between `p` and `q`. |
| Colors.MakeHSB | StudioLaValse.Geometry/ColorHSB.cs:35-42 | The hue wraps into [0, 1) by a whole number of turns; saturation and brightness are clamped; values in range are kept. |
| Colors.MakeHSBOfValid | StudioLaValse.Geometry/ColorHSB.cs:35-42 | Re-constructing a valid colour gives it back. |
| Colors.MakeHSBIdempotent | StudioLaValse.Geometry/ColorHSB.cs:35-42 | The constructor is idempotent. |
| Colors.SetBrightness | StudioLaValse.Geometry/ColorHSB.cs:133-136 | Only the brightness changes, to its clamped value. |
| Colors.SetSaturation | StudioLaValse.Geometry/ColorHSB.cs:142-145 | Only the saturation changes, to its clamped value. |
| Colors.Normalised | StudioLaValse.Geometry/ColorHSB.cs:51-53 | A channel over 255 is a fraction in [0, 1] that scales back to the channel. |
| Colors.FromRGB | StudioLaValse.Geometry/ColorHSB.cs:49-91 | The result is a valid HSB colour whose brightness is the mean of the largest and smallest fraction. |
| Colors.FromRGBGrey | StudioLaValse.Geometry/ColorHSB.cs:55-66 | A grey has hue 0, saturation 0 and brightness channel / 255. |
| Colors.FromRGBPrimaries | StudioLaValse.Geometry/ColorHSB.cs:69-82 | Pure red, green and blue have hues 0, 1/3 and 2/3, saturation 1 and brightness 1/2. |
| Colors.ToChannel | StudioLaValse.Geometry/ColorRGB.cs:73 | A fraction in [0, 1] becomes a channel in range, the truncation of the fraction times 255. |
| Colors.FromHSB | StudioLaValse.Geometry/ColorRGB.cs:55-74 | The result is a valid colour; zero saturation gives a grey at the truncated brightness. |
| Colors.HSBToARGB | StudioLaValse.Geometry/ColorHSB.cs:157 | The conversion is opaque and carries the `FromHSB` colour. |
| Colors.MakeARGB | StudioLaValse.Geometry/ColorARGB.cs:46-49 | Alpha is clamped into [0, 255] and the channels go through the RGB constructor. |
| Colors.MakeARGBFrom | StudioLaValse.Geometry/ColorARGB.cs:34-37 | Alpha is clamped, and a valid colour passes through unchanged. |
| Colors.MakeARGBConstructorsAgree | StudioLaValse.Geometry/ColorARGB.cs:34-49 | The two constructors agree. |
| Colors.NamedColors | StudioLaValse.Geometry/ColorARGB.cs:14-22 | Transparent is all zero; White and Black are opaque with channels 255 and 0. |
| Colors.IsDifferentARGB | StudioLaValse.Geometry/ColorARGB.cs:56-65 | A missing colour is different; otherwise different exactly when alpha or a channel differs, and with equal alpha the RGB comparison decides. |
| Colors.MakeAHSB | StudioLaValse.Geometry/ColorAHSB.cs:22-25 | Alpha is clamped into [0, 1] and the rest goes through the HSB constructor. |
| Colors.MakeAHSBFrom | StudioLaValse.Geometry/ColorAHSB.cs:32-35 | Alpha is clamped, and a valid HSB colour passes through unchanged. |
| Colors.SetAlpha | StudioLaValse.Geometry/ColorAHSB.cs:42-45 | Only alpha changes, to its clamped value. |
| Colors.SetAlphaTwice | StudioLaValse.Geometry/ColorAHSB.cs:42-45 | Setting alpha twice keeps only the second. |
| Colors.AHSBToARGB | StudioLaValse.Geometry/ColorAHSB.cs:51 | Alpha becomes the truncation of alpha times 255, in range; the colour goes through `FromHSB`. |
| Colors.MakeAHSL | StudioLaValse.Geometry/ColorAHSL.cs:34-43 | The hue wraps into [0, 360) congruent to the input; saturation, lightness and alpha are clamped; values in range are kept. |
| Colors.HueCongruent | StudioLaValse.Geometry/ColorAHSL.cs:36 | The wrapped hue is congruent to the input modulo 360. |
| Colors.MakeHSL | StudioLaValse.Geometry/ColorAHSL.cs:51-60 | The three-argument constructor is the four-argument one with alpha exactly 1. |
| Colors.MakeAHSLOfValid | StudioLaValse.Geometry/ColorAHSL.cs:34-43 | Re-constructing a valid colour gives it back. |
| Colors.HueWrapExamples | StudioLaValse.Geometry/ColorAHSL.cs:36-40 | 360 wraps to 0 and −30 to 330; saturation 150 and lightness −5 clamp to 100 and 0. |
| ColorConversion.RGBRoundTrip | StudioLaValse.Geometry/ColorHSB.cs:49-91 | Over exact arithmetic, every valid RGB colour converted to HSB and back is unchanged. |
| ColorConversion.GreyRoundTrip | StudioLaValse.Geometry/ColorRGB.cs:59-62 | A grey comes back as itself. |
| ColorConversion.FractionsRoundTrip | StudioLaValse.Geometry/ColorRGB.cs:63-71 | For fractions not all equal, the colour rebuilt from the derived hue, saturation and brightness has, as channels, the truncations of the fractions times 255. |
| ColorConversion.SaturationInverse | StudioLaValse.Geometry/ColorRGB.cs:65-66 | The saturation derived from the extreme channels makes `FromHSB`'s ramp levels exactly those channels. |
| ColorConversion.ChannelRoundTrip | StudioLaValse.Geometry/ColorHSB.cs:51-53 | A channel scaled to a fraction and truncated back is unchanged. |
| ColorConversion.SectorRedGreen | StudioLaValse.Geometry/ColorHSB.cs:71-74 | Red largest, blue smallest: the hue is in [0, 1/6] and the ramp reproduces all three channels. |
| ColorConversion.SectorRedBlue | StudioLaValse.Geometry/ColorHSB.cs:71-85 | Red largest, green smallest: the hue wraps into [5/6, 1) and the ramp reproduces the channels. |
| ColorConversion.SectorGreenBlue | StudioLaValse.Geometry/ColorHSB.cs:75-78 | Green largest, red smallest: the ramp reproduces the channels. |
| ColorConversion.SectorGreenRed | StudioLaValse.Geometry/ColorHSB.cs:75-78 | Green largest, blue smallest: the ramp reproduces the channels. |
| ColorConversion.SectorBlueRed | StudioLaValse.Geometry/ColorHSB.cs:79-82 | Blue largest, green smallest: the ramp reproduces the channels. |
| ColorConversion.SectorBlueGreen | StudioLaValse.Geometry/ColorHSB.cs:79-82 | Blue largest, red smallest: the ramp reproduces the channels. |

## Left out

- Floating point: every double is a `real`, so rounding, NaN and infinities are not modelled. Integers are unbounded; `int` overflow in the `(int)` casts and in the modulo loops is not modelled.
- Beziers.SampledPolyline: with zero segments the source samples the parameter 0 / 0 and builds a one-point polyline at a NaN point; NaN has no `real`, so this case is a failure. A negative count leaves the list empty, and the polyline constructor throws.
- ColorConversion.RGBRoundTrip: the round trip is exact only over real arithmetic. In the program, the single-precision hue offsets and the truncating `(int)` cast of `FromHSB` (`ColorRGB.cs:73`) lose a unit on some colours. Worked by hand in double arithmetic: (0, 3, 3) gets hue 0.3333333433 + 1/6 = 0.5000000099, which falls in the descending branch of `HueToRgb` (`ColorRGB.cs:82`). Green becomes 2.9999998 and truncates to 2, so the colour comes back as (0, 2, 3).
- Colors.FromRGB: the source writes the green and blue hue offsets as the single-precision `1.0f / 3` and `2.0f / 3`; the model uses exactly 1/3 and 2/3. It also requires a valid colour, which every `ColorRGB` constructor guarantees.
- Colors.IsDifferent: the reference-equality shortcut is modelled as structural equality; both give `false` when all channels agree.
- Points.Average: the source divides 0 by 0 for an empty list (NaN); the model returns `None`.
- Square roots: `DistanceTo`, `Length`, `Line.Distance` and the distance comparisons are modelled on squared distance. Points.Normalize takes the length as a parameter.
- Polylines.TotalLength: the distance is a parameter (any non-negative function, symmetric where a lemma needs it), because it is a square root.
- MathUtils.ForcePositiveModuloUnit: the double `ForcePositiveModulo` is modelled only at `max = 1`, its one use (the HSB hue).
- MathUtils.ForcePositiveModulo: a negative value with a negative modulus is excluded. Adding the modulus moves away from zero until the 32-bit `int` overflows. In C#'s default unchecked arithmetic it wraps to a large positive value and the loop then ends: (−1, −3) wraps to 2147483646 and returns 0. In a checked build it throws an overflow exception. A zero modulus is excluded too: it loops forever for a negative value and divides by zero otherwise. The only call sites pass 360 (`ColorAHSL.cs:36`, `ColorAHSL.cs:53`).
- MathUtils.UnsignedModulo: requires a positive modulus, since with zero the source loops forever or divides by zero. The modulus is also assumed to fit in a signed 32-bit int, as the source's `(int)max` cast needs.
- The list overloads of `Map` (which round through `float`), the `decimal` overloads of `Map` and `Clamp`, and the `float` overload of `SubSampleValues` duplicate the modelled logic.
- `XY.Move`, `ColorHSB.FromPosition`, `ColorHSB.ToCircularPosition` and `ColorExtensions` use trigonometry.
- `Circle` is a centre and a radius with constructors only; `Circle.cs` and `BoundingBox.cs` define no closest-point methods, so none is modelled.
- The extension class repeated inside `BoundingBox.cs` (with a boundary-inclusive `Contains`) and the helpers repeated in `BaseGeometry.cs` are duplicates; only the threshold constant 0.001 is taken from `BaseGeometry.cs`, as a fixed value.
- The process-wide mutable threshold of `BaseGeometry` is a constant.
- Lazy `yield` enumeration is modelled as sequences; the `MaxValue` starting distance of the searches is modelled by letting the first candidate win.
