/** The examples of the library's `test()` routine, stated as facts about the model. */
module SelfTest {
  import opened Geometry
  import opened Intersect
  import opened BBox
  import opened RayCasting
  import opened Containment

  /** `[[0, 0], [10, 10]]`. */
  const DiagonalUp: seq<Coord> := [Coord(0.0, 0.0), Coord(10.0, 10.0)]
  /** `[[10, 0], [0, 10]]`. */
  const DiagonalDown: seq<Coord> := [Coord(10.0, 0.0), Coord(0.0, 10.0)]
  /** `[[100, 100], [110, 110]]`. */
  const FarAway: seq<Coord> := [Coord(100.0, 100.0), Coord(110.0, 110.0)]

  /** Both parameters of the diagonals are one half. */
  lemma DiagonalsHit()
    ensures Hits(DiagonalUp[0], DiagonalUp[1], DiagonalDown[0], DiagonalDown[1])
    ensures HitPoint(DiagonalUp[0], DiagonalUp[1], DiagonalDown[0], DiagonalDown[1]) == Coord(5.0, 5.0)
  {
    var a1, a2, b1, b2 := DiagonalUp[0], DiagonalUp[1], DiagonalDown[0], DiagonalDown[1];
    assert Denominator(a1, a2, b1, b2) == -200.0;
    assert UaNumerator(a1, a2, b1, b2) == -100.0;
    assert UbNumerator(a1, a2, b1, b2) == -100.0;
  }

  /** The two diagonals of the square meet once, in its centre. */
  lemma DiagonalsIntersect()
    ensures Intersections(DiagonalUp, DiagonalDown) == [Coord(5.0, 5.0)]
  {
    DiagonalsHit();
    assert RowPairs(DiagonalUp, DiagonalDown, 0, 1) == [Pair(0, 0)];
    assert HitPairs(DiagonalUp, DiagonalDown) == [Pair(0, 0)];
    assert PairPoint(DiagonalUp, DiagonalDown, Pair(0, 0)) == Coord(5.0, 5.0);
  }

  /** The diagonal and the far-away line are parallel: their denominator is zero. */
  lemma FarAwayParallel()
    ensures Denominator(DiagonalUp[0], DiagonalUp[1], FarAway[0], FarAway[1]) == 0.0
  {
    var a1, a2, b1, b2 := DiagonalUp[0], DiagonalUp[1], FarAway[0], FarAway[1];
    assert X(a2) - X(a1) == 10.0 && Y(a2) - Y(a1) == 10.0;
    assert X(b2) - X(b1) == 10.0 && Y(b2) - Y(b1) == 10.0;
  }

  /** Parallel lines have no intersection. */
  lemma ParallelLinesDoNotIntersect()
    ensures Intersections(DiagonalUp, FarAway) == []
  {
    var l1, l2 := DiagonalUp, FarAway;
    assert |l1| == 2 && |l2| == 2;
    assert Denominator(l1[0], l1[1], l2[0], l2[1]) == 0.0 by { FarAwayParallel(); }
    ParallelSegmentsNoPoints(l1, l2);
  }

  /** `[[0, 0], [10, 0], [10, 10], [0, 10]]`: a square given without its closing vertex. */
  const SquareRing: Ring := [Coord(0.0, 0.0), Coord(10.0, 0.0), Coord(10.0, 10.0), Coord(0.0, 10.0)]

  /** The ray from `[5, 5]` crosses only the edge from `[10, 10]` to `[0, 10]`. */
  lemma CentreInSquareRing()
    ensures Inside(SquareRing, 5.0, 5.0)
  {
    var r := SquareRing;
    assert CrossingsBefore(r, 5.0, 5.0, 1) == 0;
    assert CrossingsBefore(r, 5.0, 5.0, 2) == 0;
    assert CrossingsBefore(r, 5.0, 5.0, 3) == 0;
    assert CrossingsBefore(r, 5.0, 5.0, 4) == 1;
  }

  /** `[5, 5]` lies in the square. */
  lemma CentreInSquare()
    ensures PointInCandidates(Coord(5.0, 5.0), Candidates(Polygon([SquareRing]))) == Ok(true)
  {
    CentreInSquareRing();
    OneRingFilterExact(Coord(5.0, 5.0), SquareRing);
  }

  lemma FarPointOutsideSquareBox()
    ensures !PointInBbox(Coord(15.0, 15.0), Envelope(SquareRing))
  {
    EnvelopeSmallest(SquareRing, Box(0.0, 0.0, 10.0, 10.0));
  }

  /** `[15, 15]` lies outside the square's box, so the ray cast is never run. */
  lemma FarPointOutsideSquare()
    ensures !PointInBbox(Coord(15.0, 15.0), Envelope(SquareRing))
    ensures PointInCandidates(Coord(15.0, 15.0), Candidates(Polygon([SquareRing]))) == Ok(false)
  {
    var p, cands := Coord(15.0, 15.0), [[SquareRing]];
    FarPointOutsideSquareBox();
    assert BoundingBox(cands[0]) == Ok(Envelope(SquareRing));
    assert cands[1..] == [];
    assert BoxPhase(p, cands) == Ok(false);
    assert Candidates(Polygon([SquareRing])) == cands;
  }

  /** `[[0, 0], [0, 10], [10, 10], [10, 0], [0, 0]]`: a closed square. */
  const LowerRing: Ring := [Coord(0.0, 0.0), Coord(0.0, 10.0), Coord(10.0, 10.0), Coord(10.0, 0.0), Coord(0.0, 0.0)]
  /** `[[10, 10], [10, 20], [20, 20], [20, 10], [10, 10]]`: the closed square touching it at `[10, 10]`. */
  const UpperRing: Ring := [Coord(10.0, 10.0), Coord(10.0, 20.0), Coord(20.0, 20.0), Coord(20.0, 10.0), Coord(10.0, 10.0)]

  /** The ray from `[0.5, 0.5]` crosses only the edge from `[0, 10]` to `[10, 10]`. */
  lemma PointInLowerRing()
    ensures Inside(LowerRing, 0.5, 0.5)
  {
    var r := LowerRing;
    assert CrossingsBefore(r, 0.5, 0.5, 1) == 0;
    assert CrossingsBefore(r, 0.5, 0.5, 2) == 0;
    assert CrossingsBefore(r, 0.5, 0.5, 3) == 1;
    assert CrossingsBefore(r, 0.5, 0.5, 4) == 1;
    assert CrossingsBefore(r, 0.5, 0.5, 5) == 1;
  }

  /** `[0.5, 0.5]` lies in the first square of the MultiPolygon. */
  lemma PointInFirstSquare()
    ensures InMultiPolygon(Coord(0.5, 0.5), MultiPolygon([[LowerRing], [UpperRing]])) == Ok(true)
  {
    var polys := [[LowerRing], [UpperRing]];
    PointInLowerRing();
    OneRingCandidatesExact(Coord(0.5, 0.5), polys);
    assert Inside(polys[0][0], 0.5, 0.5);
  }

  lemma OutsideLowerBox()
    ensures !PointInBbox(Coord(-1.0, -1.0), Envelope(LowerRing))
  {
    EnvelopeSmallest(LowerRing, Box(0.0, 0.0, 10.0, 10.0));
  }

  lemma OutsideUpperBox()
    ensures !PointInBbox(Coord(-1.0, -1.0), Envelope(UpperRing))
  {
    EnvelopeSmallest(UpperRing, Box(10.0, 10.0, 20.0, 20.0));
  }

  /** `[-1, -1]` lies outside both boxes, so it is outside the MultiPolygon. */
  lemma PointOutsideBothSquares()
    ensures !PointInBbox(Coord(-1.0, -1.0), Envelope(LowerRing))
    ensures !PointInBbox(Coord(-1.0, -1.0), Envelope(UpperRing))
    ensures InMultiPolygon(Coord(-1.0, -1.0), MultiPolygon([[LowerRing], [UpperRing]])) == Ok(false)
  {
    var p, lower, upper := Coord(-1.0, -1.0), [LowerRing], [UpperRing];
    OutsideLowerBox();
    OutsideUpperBox();
    assert lower[0] == LowerRing && upper[0] == UpperRing;
    BothBoxesMiss(p, lower, upper);
  }

  /** A point outside the boxes of both polygons of a two-polygon MultiPolygon is outside it. */
  lemma BothBoxesMiss(point: Coord, p: Poly, q: Poly)
    requires |p| > 0 && |p[0]| > 0 && !PointInBbox(point, Envelope(p[0]))
    requires |q| > 0 && |q[0]| > 0 && !PointInBbox(point, Envelope(q[0]))
    ensures InMultiPolygon(point, MultiPolygon([p, q])) == Ok(false)
  {
    var polys := [p, q];
    assert forall k :: 0 <= k < |polys| ==> polys[k] == p || polys[k] == q;
    NoBoxNoRayCast(point, polys);
  }
}
