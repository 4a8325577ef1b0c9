/** `_point_in_polygon`, `point_in_polygon` and `point_in_multipolygon`: a
    bounding-box pre-filter over a list of candidate polygons, then ray casting
    over the same candidates. */
module Containment {
  import opened Geometry
  import opened BBox
  import opened RayCasting

  // ---------------------------------------------------------------------------
  // Specification of `_point_in_polygon(point, coords)`; `coords` is a list of
  // candidate polygons.
  // ---------------------------------------------------------------------------

  /** The first loop: boxes are computed in order until one contains the point;
      a box that cannot be computed raises. */
  function BoxPhase(point: Coord, cands: seq<Poly>): Result<bool> {
    if cands == [] then Ok(false)
    else
      match BoundingBox(cands[0])
      case Err(e) => Err(e)
      case Ok(b) => if PointInBbox(point, b) then Ok(true) else BoxPhase(point, cands[1..])
  }

  /** The second loop: `pnpoly(point[1], point[0], coord)` in order until one is true. */
  function RayPhase(point: Coord, cands: seq<Poly>): Result<bool> {
    if cands == [] then Ok(false)
    else
      match RayCast(X(point), Y(point), cands[0])
      case Err(e) => Err(e)
      case Ok(inside) => if inside then Ok(true) else RayPhase(point, cands[1..])
  }

  /** What `_point_in_polygon(point, cands)` returns or raises: False without any
      ray casting when no box contains the point. */
  function PointInCandidates(point: Coord, cands: seq<Poly>): Result<bool> {
    match BoxPhase(point, cands)
    case Err(e) => Err(e)
    case Ok(inBox) => if inBox then RayPhase(point, cands) else Ok(false)
  }

  /** The candidate list `point_in_polygon` builds: `[coords]` for a Polygon, the
      coordinates themselves (a list of polygons) otherwise. */
  function Candidates(poly: Geometry): seq<Poly> {
    match poly
    case Polygon(rings) => [rings]
    case MultiPolygon(polys) => polys
  }

  // ---------------------------------------------------------------------------
  // The operations.
  // ---------------------------------------------------------------------------

  /** `_point_in_polygon`: the box loop, then, only when some box contains the
      point, the ray-casting loop. */
  method PointInPolygonCandidates(point: Coord, coords: seq<Poly>) returns (r: Result<bool>)
    ensures r == PointInCandidates(point, coords)
  {
    var insideBox := BoxLoop(point, coords);
    if insideBox.Err? {
      return Err(insideBox.error);
    }
    if !insideBox.value {
      return Ok(false);
    }
    r := RayLoop(point, coords);
  }

  /** The first flag loop of `_point_in_polygon`, leaving early with `break`
      once a box contains the point. */
  method BoxLoop(point: Coord, coords: seq<Poly>) returns (r: Result<bool>)
    ensures r == BoxPhase(point, coords)
  {
    var insideBox := false;
    var k := 0;
    while k < |coords|
      invariant 0 <= k <= |coords|
      invariant !insideBox ==> BoxPhase(point, coords) == BoxPhase(point, coords[k..])
      invariant insideBox ==> BoxPhase(point, coords) == Ok(true)
    {
      if insideBox {
        break;
      }
      var bounds := BboxAroundPolycoords(coords[k]);
      if bounds.Err? {
        return Err(bounds.error);
      }
      if PointInBbox(point, bounds.value) {
        insideBox := true;
      }
      BoxPhaseSuffix(point, coords, k);
      k := k + 1;
    }
    r := Ok(insideBox);
  }

  /** The second flag loop of `_point_in_polygon`, leaving early with `break`
      once a ray cast reports the point inside. */
  method RayLoop(point: Coord, coords: seq<Poly>) returns (r: Result<bool>)
    ensures r == RayPhase(point, coords)
  {
    var insidePoly := false;
    var k := 0;
    while k < |coords|
      invariant 0 <= k <= |coords|
      invariant !insidePoly ==> RayPhase(point, coords) == RayPhase(point, coords[k..])
      invariant insidePoly ==> RayPhase(point, coords) == Ok(true)
    {
      if insidePoly {
        break;
      }
      var inside := Pnpoly(X(point), Y(point), coords[k]);
      if inside.Err? {
        return Err(inside.error);
      }
      if inside.value {
        insidePoly := true;
      }
      RayPhaseSuffix(point, coords, k);
      k := k + 1;
    }
    r := Ok(insidePoly);
  }

  /** One step of the box loop, at candidate `k`. */
  lemma BoxPhaseSuffix(point: Coord, cands: seq<Poly>, k: nat)
    requires k < |cands|
    ensures BoxPhase(point, cands[k..])
         == if BoundingBox(cands[k]).Err? then Err(BoundingBox(cands[k]).error)
            else if PointInBbox(point, BoundingBox(cands[k]).value) then Ok(true)
            else BoxPhase(point, cands[k + 1..])
  {
    assert cands[k..][0] == cands[k] && cands[k..][1..] == cands[k + 1..];
  }

  /** One step of the ray-casting loop, at candidate `k`. */
  lemma RayPhaseSuffix(point: Coord, cands: seq<Poly>, k: nat)
    requires k < |cands|
    ensures RayPhase(point, cands[k..])
         == if RayCast(X(point), Y(point), cands[k]).Err? then Err(RayCast(X(point), Y(point), cands[k]).error)
            else if RayCast(X(point), Y(point), cands[k]).value then Ok(true)
            else RayPhase(point, cands[k + 1..])
  {
    assert cands[k..][0] == cands[k] && cands[k..][1..] == cands[k + 1..];
  }

  /** `point_in_polygon`: a Polygon becomes a one-element candidate list. */
  method PointInPolygon(point: Coord, poly: Geometry) returns (r: Result<bool>)
    ensures poly.Polygon? ==> r == PointInCandidates(point, [poly.rings])
    ensures poly.MultiPolygon? ==> r == PointInCandidates(point, poly.polys)
  {
    var coords := if poly.Polygon? then [poly.rings] else poly.polys;
    r := PointInPolygonCandidates(point, coords);
  }

  /** What `point_in_multipolygon` returns or raises. For a MultiPolygon the list
      `[coordinates]` has one element, the list of its polygons. For any other
      geometry the rings of the Polygon are taken for lists of polygons: an empty
      ring is an empty candidate list (False), and the first non-empty one raises
      TypeError, since its first coordinate pair is taken for a polygon and its
      first number for a ring to iterate over. */
  function InMultiPolygon(point: Coord, multipoly: Geometry): Result<bool> {
    match multipoly
    case MultiPolygon(polys) => PointInCandidates(point, polys)
    case Polygon(rings) =>
      if exists k :: 0 <= k < |rings| && rings[k] != [] then Err(TypeError) else Ok(false)
  }

  /** `point_in_multipolygon`: a loop over `coords_array` with an early `return`. */
  method PointInMultipolygon(point: Coord, multipoly: Geometry) returns (r: Result<bool>)
    ensures r == InMultiPolygon(point, multipoly)
  {
    match multipoly
    case MultiPolygon(polys) =>
      var coordsArray := [polys];
      for k := 0 to |coordsArray|
        invariant forall t :: 0 <= t < k ==> PointInCandidates(point, coordsArray[t]) == Ok(false)
      {
        var inside := PointInPolygonCandidates(point, coordsArray[k]);
        if inside.Err? || inside.value {
          return inside;
        }
      }
      assert coordsArray[0] == polys;
      return Ok(false);
    case Polygon(rings) =>
      for k := 0 to |rings|
        invariant forall t :: 0 <= t < k ==> rings[t] == []
      {
        if rings[k] != [] {
          // `bbox_around_polycoords(rings[k][0])` iterates over the number `rings[k][0][0]`.
          return Err(TypeError);
        }
      }
      return Ok(false);
  }

  // ---------------------------------------------------------------------------
  // Properties.
  // ---------------------------------------------------------------------------

  /** A candidate polygon whose box and ray cast cannot fail: its first ring and
      every other ring have a vertex. */
  predicate WellFormed(poly: Poly) {
    |poly| > 0 && RingsNonEmpty(poly)
  }

  /** The box of a well-formed candidate contains the point. */
  predicate BoxHit(point: Coord, poly: Poly)
    requires WellFormed(poly)
  {
    PointInBbox(point, Envelope(poly[0]))
  }

  /** The ray cast of a well-formed candidate reports the point inside. */
  predicate RayHit(point: Coord, poly: Poly)
    requires WellFormed(poly)
  {
    Inside(Vertices(poly), X(point), Y(point))
  }

  /** One step of the box loop on a well-formed candidate. */
  lemma BoxPhaseHead(point: Coord, cands: seq<Poly>)
    requires cands != [] && WellFormed(cands[0])
    ensures BoxPhase(point, cands) == if BoxHit(point, cands[0]) then Ok(true) else BoxPhase(point, cands[1..])
  {
    assert BoundingBox(cands[0]) == Ok(Envelope(cands[0][0]));
  }

  lemma {:induction false} BoxPhaseExact(point: Coord, cands: seq<Poly>)
    requires forall k :: 0 <= k < |cands| ==> WellFormed(cands[k])
    ensures BoxPhase(point, cands) == Ok(exists k :: 0 <= k < |cands| && BoxHit(point, cands[k]))
  {
    if cands != [] {
      var rest := cands[1..];
      assert forall k :: 0 <= k < |rest| ==> rest[k] == cands[k + 1];
      BoxPhaseExact(point, rest);
      BoxPhaseHead(point, cands);
      if !BoxHit(point, cands[0]) {
        if exists k :: 0 <= k < |cands| && BoxHit(point, cands[k]) {
          var k :| 0 <= k < |cands| && BoxHit(point, cands[k]);
          assert rest[k - 1] == cands[k];
        }
      }
    }
  }

  lemma {:induction false} RayPhaseExact(point: Coord, cands: seq<Poly>)
    requires forall k :: 0 <= k < |cands| ==> WellFormed(cands[k])
    ensures RayPhase(point, cands) == Ok(exists k :: 0 <= k < |cands| && RayHit(point, cands[k]))
  {
    if cands != [] {
      RayPhaseExact(point, cands[1..]);
      assert forall k :: 1 <= k < |cands| ==> cands[k] == cands[1..][k - 1];
    }
  }

  /** On well-formed candidates `_point_in_polygon` is exactly "some candidate's box
      contains the point and some candidate's ray cast is true", the two possibly
      being different candidates. */
  lemma PointInCandidatesExact(point: Coord, cands: seq<Poly>)
    requires forall k :: 0 <= k < |cands| ==> WellFormed(cands[k])
    ensures PointInCandidates(point, cands)
         == Ok((exists k :: 0 <= k < |cands| && BoxHit(point, cands[k]))
               && (exists k :: 0 <= k < |cands| && RayHit(point, cands[k])))
  {
    BoxPhaseExact(point, cands);
    RayPhaseExact(point, cands);
  }

  lemma {:induction false} BoxPhaseMisses(point: Coord, cands: seq<Poly>)
    requires forall k :: 0 <= k < |cands| ==> |cands[k]| > 0 && |cands[k][0]| > 0
    requires forall k :: 0 <= k < |cands| ==> !PointInBbox(point, Envelope(cands[k][0]))
    ensures BoxPhase(point, cands) == Ok(false)
  {
    if cands != [] {
      var rest := cands[1..];
      assert forall k :: 0 <= k < |rest| ==> rest[k] == cands[k + 1];
      BoxPhaseMisses(point, rest);
      assert BoundingBox(cands[0]) == Ok(Envelope(cands[0][0]));
    }
  }

  /** When every candidate has a first vertex and no box contains the point, the
      result is False whatever the ray cast would do, even raise: it is never run. */
  lemma NoBoxNoRayCast(point: Coord, cands: seq<Poly>)
    requires forall k :: 0 <= k < |cands| ==> |cands[k]| > 0 && |cands[k][0]| > 0
    requires forall k :: 0 <= k < |cands| ==> !PointInBbox(point, Envelope(cands[k][0]))
    ensures PointInCandidates(point, cands) == Ok(false)
  {
    BoxPhaseMisses(point, cands);
  }

  lemma {:induction false} BoxPhaseRaises(point: Coord, cands: seq<Poly>, k: nat)
    requires k < |cands| && BoundingBox(cands[k]).Err?
    requires forall t :: 0 <= t < k ==> |cands[t]| > 0 && |cands[t][0]| > 0
    requires forall t :: 0 <= t < k ==> !PointInBbox(point, Envelope(cands[t][0]))
    ensures BoxPhase(point, cands) == Err(BoundingBox(cands[k]).error)
  {
    if k > 0 {
      var rest := cands[1..];
      assert forall t :: 0 <= t < |rest| ==> rest[t] == cands[t + 1];
      BoxPhaseRaises(point, rest, k - 1);
      assert BoundingBox(cands[0]) == Ok(Envelope(cands[0][0]));
    }
  }

  /** A polygon with an empty first ring or no ring at all makes the box loop raise
      if no earlier candidate's box contains the point. */
  lemma MalformedCandidateRaises(point: Coord, cands: seq<Poly>, k: nat)
    requires k < |cands| && BoundingBox(cands[k]).Err?
    requires forall t :: 0 <= t < k ==> |cands[t]| > 0 && |cands[t][0]| > 0
    requires forall t :: 0 <= t < k ==> !PointInBbox(point, Envelope(cands[t][0]))
    ensures PointInCandidates(point, cands) == Err(BoundingBox(cands[k]).error)
  {
    BoxPhaseRaises(point, cands, k);
  }

  /** For a single Polygon, `point_in_polygon` is its ray cast when its box contains
      the point and False when not; a box that cannot be computed raises. */
  lemma OnePolygon(point: Coord, rings: Poly)
    ensures BoundingBox(rings).Err? ==> PointInCandidates(point, Candidates(Polygon(rings))) == Err(BoundingBox(rings).error)
    ensures BoundingBox(rings).Ok? && PointInBbox(point, BoundingBox(rings).value)
        ==> PointInCandidates(point, Candidates(Polygon(rings))) == RayCast(X(point), Y(point), rings)
    ensures BoundingBox(rings).Ok? && !PointInBbox(point, BoundingBox(rings).value)
        ==> PointInCandidates(point, Candidates(Polygon(rings))) == Ok(false)
  {
    var cands := [rings];
    assert cands[1..] == [];
    assert RayPhase(point, cands) == RayCast(X(point), Y(point), rings);
    if BoundingBox(rings).Ok? {
      assert BoxPhase(point, cands) == Ok(PointInBbox(point, BoundingBox(rings).value));
    }
  }

  /** `point_in_multipolygon` and `point_in_polygon` agree on a MultiPolygon. */
  lemma MultiPolygonAgrees(point: Coord, polys: seq<Poly>)
    ensures InMultiPolygon(point, MultiPolygon(polys)) == PointInCandidates(point, Candidates(MultiPolygon(polys)))
  {
  }

  /** A point that `point_in_polygon` places inside one polygon of a well-formed
      MultiPolygon is inside the MultiPolygon. */
  lemma InsideMemberInsideMulti(point: Coord, polys: seq<Poly>, k: nat)
    requires forall t :: 0 <= t < |polys| ==> WellFormed(polys[t])
    requires k < |polys| && PointInCandidates(point, Candidates(Polygon(polys[k]))) == Ok(true)
    ensures InMultiPolygon(point, MultiPolygon(polys)) == Ok(true)
  {
    PointInCandidatesExact(point, [polys[k]]);
    PointInCandidatesExact(point, polys);
    assert BoxHit(point, [polys[k]][0]) && RayHit(point, [polys[k]][0]);
  }

  /** Given a Polygon, `point_in_multipolygon` raises TypeError exactly when some ring has a vertex. */
  lemma PolygonIntoMultiFails(point: Coord, rings: Poly)
    ensures InMultiPolygon(point, Polygon(rings)).Err?
        <==> exists k :: 0 <= k < |rings| && |rings[k]| > 0
  {
  }

  // ---------------------------------------------------------------------------
  // The pre-filter against the ray cast.
  // ---------------------------------------------------------------------------

  /** By the classic test a point inside a ring lies in the ring's box; indeed
      `min x <= x < max x` and `min y <= y < max y`. */
  lemma InsideRingWithinBox(point: Coord, ring: Ring)
    requires |ring| > 0 && Inside(ring, X(point), Y(point))
    ensures PointInBbox(point, Envelope(ring))
    ensures X(point) < Envelope(ring).maxX && Y(point) < Envelope(ring).maxY
  {
    var x, y, box := X(point), Y(point), Envelope(ring);
    SomeCrossing(ring, x, y, |ring|);
    var i :| 0 <= i < |ring| && Crosses(ring[i], ring[Pred(|ring|, i)], x, y);
    CrossingBounds(ring[i], ring[Pred(|ring|, i)], x, y);
    EnvelopeContainsRing(ring, i);
    EnvelopeContainsRing(ring, Pred(|ring|, i));
    if x < box.minX {
      forall k | 0 <= k < |ring| ensures x < X(ring[k]) {
        EnvelopeContainsRing(ring, k);
      }
      FarLeftOutside(ring, x, y);
    }
  }

  /** For a polygon of one ring the pre-filter never changes the answer:
      `point_in_polygon` is the classic ray cast on that ring. */
  lemma OneRingFilterExact(point: Coord, ring: Ring)
    requires |ring| > 0
    ensures PointInCandidates(point, Candidates(Polygon([ring]))) == Ok(Inside(ring, X(point), Y(point)))
  {
    var cands := [[ring]];
    RayCastOneRing(X(point), Y(point), ring);
    assert BoundingBox([ring]) == Ok(Envelope(ring));
    assert cands[1..] == [];
    assert BoxPhase(point, cands) == Ok(PointInBbox(point, Envelope(ring)));
    assert RayPhase(point, cands) == Ok(Inside(ring, X(point), Y(point)));
    if Inside(ring, X(point), Y(point)) {
      InsideRingWithinBox(point, ring);
    }
  }

  /** For candidates of one ring each, `_point_in_polygon` is "some candidate's ray
      cast is true": the box test only skips work. */
  lemma OneRingCandidatesExact(point: Coord, cands: seq<Poly>)
    requires forall k :: 0 <= k < |cands| ==> |cands[k]| == 1 && |cands[k][0]| > 0
    ensures PointInCandidates(point, cands) == Ok(exists k :: 0 <= k < |cands| && Inside(cands[k][0], X(point), Y(point)))
  {
    assert forall k :: 0 <= k < |cands| ==> cands[k] == [cands[k][0]];
    assert forall k :: 0 <= k < |cands| ==> WellFormed(cands[k]);
    PointInCandidatesExact(point, cands);
    forall k | 0 <= k < |cands|
      ensures RayHit(point, cands[k]) == Inside(cands[k][0], X(point), Y(point))
      ensures Inside(cands[k][0], X(point), Y(point)) ==> BoxHit(point, cands[k])
    {
      RayCastOneRing(X(point), Y(point), cands[k][0]);
      if Inside(cands[k][0], X(point), Y(point)) {
        InsideRingWithinBox(point, cands[k][0]);
      }
    }
  }
}
