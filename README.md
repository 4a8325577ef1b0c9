# geojson_utils in Dafny

A model of the geometric predicates of the `geojson_utils` library. The model works on
already-decoded GeoJSON coordinate arrays and covers:

- segment intersection of two line strings (`linestrings_intersect`);
- the bounding box of a polygon and the box test (`bbox_around_polycoords`, `point_in_bbox`);
- W. R. Franklin's ray-casting test over the concatenated rings of a polygon (`pnpoly`);
- point-in-polygon containment for Polygons and MultiPolygons (`_point_in_polygon`,
  `point_in_polygon`, `point_in_multipolygon`).

Coordinates are exact reals. As in the library, a position `[v0, v1]` is read with x = `v1`
and y = `v0`; the accessors `X` and `Y` in `geometry.dfy` carry that flip everywhere.
Python exceptions raised by malformed input are `Err` values of a `Result`:
- `IndexError` for `[0]` of an empty list;
- `ValueError` for `min` of an empty list;
- `TypeError` for iterating over a number.

Each loop of the library is a method proved against a specification function: its `ensures`
says the result equals that function. Lemmas then prove the promised properties of the
functions. Three loops are split into their own methods:
- the inner loop of `linestrings_intersect` is `RowIntersections`;
- the two phases of `pnpoly` are `BuildVertices` (building `vert`) and `WalkVertices` (the `while` walk);
- the two flag loops of `_point_in_polygon` are `BoxLoop` and `RayLoop`.

Modules, one per file:
- `Geometry` (`geometry.dfy`): coordinates, rings, polygons, the `'type'` tag, errors.
- `Intersect` (`intersect.dfy`): `linestrings_intersect`.
- `BBox` (`bbox.dfy`): `bbox_around_polycoords` and `point_in_bbox`.
- `RayCasting` (`pnpoly.dfy`): `pnpoly`.
- `Containment` (`containment.dfy`): `_point_in_polygon`, `point_in_polygon`, `point_in_multipolygon`.
- `SelfTest` (`selftest.dfy`): the examples of the library's `test()` routine.
- `RingExamples` (`rings.dfy`): polygons with two rings.

Facts about several rings that the model makes explicit:

- **Several rings combine by the even-odd rule.** The docstring of `point_in_multipolygon`
  (geojson_utils.py:122) says donut polygons are not supported, but the code does subtract
  holes. In the code, `vert` is one `[0, 0]` sentinel and then, per ring, the ring's nodes, its
  first node and `[0, 0]`. The edges between a ring's first node and the sentinel are walked
  once in each direction, so they cancel. The crossing count is therefore, modulo 2, the sum
  of the per-ring counts. `pnpoly` reports the point inside exactly when an odd number of rings
  contain it (`RayCasting.RayCastByRings`). A hole inside the outer ring removes its area
  (`RingExamples.DonutHoleIsOutside`).
- **The vertex list has one sentinel per ring, plus one at the start.** There is no sentinel
  both before and after every ring (`RayCasting.VerticesLayout`).
- **The box filter reads only the first ring.** A second ring outside the first ring's box is
  never reached, although `pnpoly` alone would report the point inside
  (`RingExamples.PhasesDisagreeOnSecondRing`). For polygons of one ring the filter never
  changes the answer (`Containment.OneRingFilterExact`).

## Model

| member | source | states |
|---|---|---|
| Intersect.SegmentsIntersect | geojson_utils.py:18-33 | a point is appended exactly when the denominator is non-zero and both parameters lie in [0, 1]; the point is `a1 + u_a (a2 - a1)` and lies on both segments |
| Intersect.LinestringsIntersect | geojson_utils.py:15-36 | the nested loops return exactly the points of the reported segment pairs, in loop order |
| Intersect.RowIntersections | geojson_utils.py:17-33 | the inner loop for segment i of line 1 appends exactly the points of the reported pairs (i, j), in increasing j |
| Intersect.HitOnBothSegments | geojson_utils.py:26-33 | an emitted point is segment a at parameter `u_a` and segment b at parameter `u_b`, both in [0, 1] |
| Intersect.InterpolationsMeet | geojson_utils.py:26-33 | when the denominator is non-zero, segment a at `ua_t / u_b` and segment b at `ub_t / u_b` are the same point |
| Intersect.HitsSymmetric | geojson_utils.py:26-32 | swapping the two segments reports the same pairs at the same point |
| Intersect.HitPairsComplete | geojson_utils.py:16-32 | pair (i, j) is reported if and only if both segments exist and the closed form accepts them |
| Intersect.ParallelPairSkipped | geojson_utils.py:28-29 | a pair with zero denominator (parallel or collinear) contributes no point |
| Intersect.HitPairsOrdered | geojson_utils.py:16-17 | the reported pairs come in strictly increasing lexicographic (i, j) order, line 1 outer |
| Intersect.IntersectionsBound | geojson_utils.py:16-17 | at most `(n1 - 1) * (n2 - 1)` points are emitted |
| Intersect.ShortLineNoIntersections | geojson_utils.py:16-17 | a line with fewer than two coordinates gives the empty result |
| Intersect.IntersectionsOnBothLines | geojson_utils.py:16-33 | the k-th emitted point comes from the k-th reported pair (i, j) and lies on segment i of line 1 and segment j of line 2 |
| Intersect.IntersectionsMembership | geojson_utils.py:16-33 | a point is in the result if and only if some segment pair is reported at it |
| Intersect.IntersectionsSymmetric | geojson_utils.py:16-33 | the set of intersection points does not depend on which line comes first |
| BBox.Min | geojson_utils.py:50 | `min` of a non-empty list is at most every element and is one of them |
| BBox.Max | geojson_utils.py:50 | `max` of a non-empty list is at least every element and is one of them |
| BBox.BboxAroundPolycoords | geojson_utils.py:43-50 | the box is the min/max envelope of the first ring, `[min x, min y, max x, max y]`; no ring raises IndexError and an empty first ring raises ValueError |
| BBox.PointInBbox | geojson_utils.py:53-58 | true if and only if `b[0] <= x <= b[2]` and `b[1] <= y <= b[3]`, closed intervals |
| BBox.EnvelopeContainsRing | geojson_utils.py:46-58 | every vertex of the first ring passes `point_in_bbox` against its polygon's box |
| BBox.EnvelopeAttained | geojson_utils.py:46-50 | each of the four bounds is attained by some vertex of the first ring |
| BBox.EnvelopeSmallest | geojson_utils.py:46-50 | every box containing all vertices of the first ring contains the envelope |
| RayCasting.Vertices | geojson_utils.py:66-72 | `vert` starts and ends with the `[0, 0]` sentinel |
| RayCasting.VerticesLength | geojson_utils.py:66-72 | `len(vert)` is `1 + sum(len(ring) + 2)` |
| RayCasting.VerticesLayout | geojson_utils.py:66-72 | each ring's block in `vert` holds the ring's nodes, then its first node, then `[0, 0]` |
| RayCasting.BuildVertices | geojson_utils.py:66-72 | the append loops build `vert`, and raise IndexError exactly when some ring is empty |
| RayCasting.VerticesSnoc | geojson_utils.py:68-72 | one more ring appends exactly its block to `vert` |
| RayCasting.Crosses | geojson_utils.py:80-81 | the quotient is evaluated only when `vert[i][0] != vert[j][0]`: no division by zero |
| RayCasting.WalkVertices | geojson_utils.py:74-86 | the `while` loop, with `j` the cyclic predecessor of `i`, returns the parity of the number of crossed edges (i, j) |
| RayCasting.Pnpoly | geojson_utils.py:61-86 | `pnpoly` returns the even-odd parity of the crossings of `vert`, or IndexError for an empty ring |
| RayCasting.NoRingsOutside | geojson_utils.py:66-86 | with no rings the result is False |
| RayCasting.RayCastFails | geojson_utils.py:68-71 | `pnpoly` raises if and only if some ring is empty |
| RayCasting.CrossesSymmetric | geojson_utils.py:80-81 | the crossing test does not depend on the direction of the edge |
| RayCasting.ChainParity | geojson_utils.py:66-86 | the crossings along `vert` have the parity of the ring-by-ring even-odd rule |
| RayCasting.RayCastByRings | geojson_utils.py:66-86 | the result is True exactly when an odd number of rings contain the point by the classic test |
| RayCasting.RayCastOneRing | geojson_utils.py:66-86 | on one ring the sentinels change nothing: the result is the classic test on that ring |
| RayCasting.CrossingXBetween | geojson_utils.py:80-81 | when `y` lies between an edge's ends, the crossing abscissa lies between the ends' abscissas |
| RayCasting.CrossingBounds | geojson_utils.py:80-81 | a crossed edge has one end above `y`, one end not above it, and one end right of `x` |
| RayCasting.CrossesFromLeft | geojson_utils.py:80-81 | seen from left of both ends, an edge is crossed exactly when it straddles `y` |
| RayCasting.FarLeftOutside | geojson_utils.py:76-86 | a point left of every vertex of a ring is outside it |
| Containment.BoxLoop | geojson_utils.py:90-97 | the box loop stops at the first candidate whose box contains the point, and raises when a box cannot be computed |
| Containment.RayLoop | geojson_utils.py:99-105 | the ray-casting loop stops at the first candidate whose `pnpoly` is True, and raises when one raises |
| Containment.PointInPolygonCandidates | geojson_utils.py:89-105 | `_point_in_polygon` returns False without ray casting when no box contains the point, else the result of the ray-casting loop |
| Containment.PointInPolygon | geojson_utils.py:117-118 | a Polygon is the candidate list `[coordinates]`; a MultiPolygon's polygons are the candidate list |
| Containment.PointInMultipolygon | geojson_utils.py:130-136 | on a MultiPolygon, the result of `_point_in_polygon` on its polygons; on a Polygon, TypeError at the first non-empty ring, False when there is none |
| Containment.BoxPhaseExact | geojson_utils.py:90-97 | on well-formed candidates, the box loop is True exactly when some candidate's box contains the point |
| Containment.RayPhaseExact | geojson_utils.py:99-105 | on well-formed candidates, the ray-casting loop is True exactly when some candidate's `pnpoly` is True |
| Containment.PointInCandidatesExact | geojson_utils.py:89-105 | on well-formed candidates, `_point_in_polygon` is (some box contains the point) and (some `pnpoly` is True), possibly for different candidates |
| Containment.NoBoxNoRayCast | geojson_utils.py:90-97 | when no candidate's box contains the point the result is False, whatever the ray cast would do |
| Containment.MalformedCandidateRaises | geojson_utils.py:89-97 | a candidate whose box cannot be computed, with no earlier box containing the point, makes `_point_in_polygon` raise that error |
| Containment.OnePolygon | geojson_utils.py:89-118 | for one Polygon: an error of its box, its `pnpoly` when its box contains the point, else False |
| Containment.MultiPolygonAgrees | geojson_utils.py:130-136 | on a MultiPolygon, `point_in_multipolygon` equals `point_in_polygon` |
| Containment.InsideMemberInsideMulti | geojson_utils.py:130-136 | a point inside one polygon of a well-formed MultiPolygon is inside the MultiPolygon |
| Containment.PolygonIntoMultiFails | geojson_utils.py:130-136 | on a Polygon, `point_in_multipolygon` raises if and only if some ring has a vertex |
| Containment.InsideRingWithinBox | geojson_utils.py:89-105 | a point inside a ring by the classic test lies in the ring's box, and strictly below its largest x and its largest y |
| Containment.OneRingFilterExact | geojson_utils.py:89-105 | for a one-ring Polygon, `point_in_polygon` is the classic ray cast on that ring |
| Containment.OneRingCandidatesExact | geojson_utils.py:89-105 | for candidates of one ring each, `_point_in_polygon` is True exactly when some ring contains the point |
| SelfTest.DiagonalsIntersect | geojson_utils.py:171-178 | the two diagonals of the square meet once, at `[5, 5]` |
| SelfTest.ParallelLinesDoNotIntersect | geojson_utils.py:171-180 | the diagonal and the far-away parallel line do not intersect |
| SelfTest.CentreInSquare | geojson_utils.py:183-190 | `[5, 5]` is inside the square |
| SelfTest.FarPointOutsideSquare | geojson_utils.py:183-192 | `[15, 15]` is outside the square, rejected by its box |
| SelfTest.PointInFirstSquare | geojson_utils.py:195-202 | `[0.5, 0.5]` is inside the MultiPolygon of two squares |
| SelfTest.PointOutsideBothSquares | geojson_utils.py:195-204 | `[-1, -1]` is outside the MultiPolygon, rejected by both boxes |
| RingExamples.DonutRayCast | geojson_utils.py:66-86 | the centre of a square with a square hole is reported outside by `pnpoly` |
| RingExamples.DonutHoleIsOutside | geojson_utils.py:89-118 | `point_in_polygon` reports a point in the hole outside, although it passes the box test |
| RingExamples.SecondRingRayCast | geojson_utils.py:66-86 | a point in the second of two disjoint rings is reported inside by `pnpoly` |
| RingExamples.PhasesDisagreeOnSecondRing | geojson_utils.py:89-118 | that point is reported outside by `point_in_polygon`, because the box of the first ring excludes it |

## Left out

- `number2radius` and `number2degree` (geojson_utils.py:138-148): scaling by the float `math.pi`, floating-point only.
- `test()` and the `__main__` hook: JSON decoding and printing. Their literal geometries are the lemmas of `SelfTest`.
- JSON decoding and access by string key: geometries are typed values, and a missing key (KeyError) does not arise.
- Arithmetic is exact real arithmetic with true division; IEEE-754 rounding is not modelled.
- Python 2 floor division is not modelled. Under Python 2 with integer coordinates, three divisions floor-divide: `ua_t / u_b` and `ub_t / u_b` (geojson_utils.py:30-31), and the quotient of the crossing test (geojson_utils.py:80-81). For example, `2 * 1 / 3` is `0` there. The model divides exactly throughout.
- SelfTest.DiagonalsIntersect: holds for the literals read as reals. With the integer literals of `test()`, Python 2 floor-divides `-100 / -200` to `0` and reports `[0, 0]`.
- The `{'type': 'Point', ...}` dictionary around each emitted point: the result is the sequence of its coordinate pairs.
- Geometry `'type'` values other than `Polygon` and `MultiPolygon`: `point_in_polygon` treats every other tag as a MultiPolygon, and the model has only the two constructors.
- Positions of other lengths than two, and non-numeric coordinates.
- `point_in_multipolygon` on a Polygon: the TypeError from iterating over a number is stated directly, without modelling Python's dynamic typing.
- The commented-out stubs (geojson_utils.py:150-164) contain no code.
