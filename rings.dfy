/** Polygons with more than one ring. The ray cast combines the rings by the
    even-odd rule, so a hole inside the outer ring removes its area; the box
    pre-filter reads the first ring only, so a second ring outside the first
    ring's box is never reached. */
module RingExamples {
  import opened Geometry
  import opened BBox
  import opened RayCasting
  import opened Containment

  /** The axis-aligned square ring `[[lo, lo], [hi, lo], [hi, hi], [lo, hi]]`. */
  function Square(lo: real, hi: real): Ring {
    [Coord(lo, lo), Coord(hi, lo), Coord(hi, hi), Coord(lo, hi)]
  }

  /** The ray from `(5, 5)` crosses only the edge from `[0, 10]` to `[10, 10]` of the outer square. */
  lemma CentreInOuter()
    ensures Inside(Square(0.0, 10.0), 5.0, 5.0)
  {
    var r := Square(0.0, 10.0);
    assert CrossingsBefore(r, 5.0, 5.0, 1) == 0;
    assert CrossingsBefore(r, 5.0, 5.0, 2) == 0;
    assert CrossingsBefore(r, 5.0, 5.0, 3) == 0;
    assert CrossingsBefore(r, 5.0, 5.0, 4) == 1;
  }

  /** The ray from `(5, 5)` crosses only the edge from `[2, 8]` to `[8, 8]` of the hole. */
  lemma CentreInHole()
    ensures Inside(Square(2.0, 8.0), 5.0, 5.0)
  {
    var r := Square(2.0, 8.0);
    assert CrossingsBefore(r, 5.0, 5.0, 1) == 0;
    assert CrossingsBefore(r, 5.0, 5.0, 2) == 0;
    assert CrossingsBefore(r, 5.0, 5.0, 3) == 0;
    assert CrossingsBefore(r, 5.0, 5.0, 4) == 1;
  }

  /** The ray cast alone reports the centre of the donut outside: the two rings cancel. */
  lemma DonutRayCast()
    ensures RayCast(5.0, 5.0, [Square(0.0, 10.0), Square(2.0, 8.0)]) == Ok(false)
  {
    var rings := [Square(0.0, 10.0), Square(2.0, 8.0)];
    CentreInOuter();
    CentreInHole();
    RayCastByRings(5.0, 5.0, rings);
    assert rings[..1] == [Square(0.0, 10.0)] && rings[..1][..0] == [];
  }

  lemma CentreInOuterBox()
    ensures PointInBbox(Coord(5.0, 5.0), Envelope(Square(0.0, 10.0)))
  {
    EnvelopeContainsRing(Square(0.0, 10.0), 0);
    EnvelopeContainsRing(Square(0.0, 10.0), 2);
  }

  /** A point in the hole of a donut passes the box test and is then reported outside. */
  lemma DonutHoleIsOutside()
    ensures PointInBbox(Coord(5.0, 5.0), Envelope(Square(0.0, 10.0)))
    ensures PointInCandidates(Coord(5.0, 5.0), Candidates(Polygon([Square(0.0, 10.0), Square(2.0, 8.0)]))) == Ok(false)
  {
    var rings := [Square(0.0, 10.0), Square(2.0, 8.0)];
    DonutRayCast();
    CentreInOuterBox();
    assert BoundingBox(rings) == Ok(Envelope(Square(0.0, 10.0)));
    OnePolygon(Coord(5.0, 5.0), rings);
  }

  /** Far from the first square of the second example, its first ring contributes nothing. */
  lemma FarFromFirst()
    ensures !Inside(Square(0.0, 10.0), 25.0, 25.0)
  {
    var r := Square(0.0, 10.0);
    assert CrossingsBefore(r, 25.0, 25.0, 4) == 0;
  }

  /** `(25, 25)` is inside the square from 20 to 30. */
  lemma InFarSquare()
    ensures Inside(Square(20.0, 30.0), 25.0, 25.0)
  {
    var r := Square(20.0, 30.0);
    assert CrossingsBefore(r, 25.0, 25.0, 1) == 0;
    assert CrossingsBefore(r, 25.0, 25.0, 2) == 0;
    assert CrossingsBefore(r, 25.0, 25.0, 3) == 0;
    assert CrossingsBefore(r, 25.0, 25.0, 4) == 1;
  }

  /** The ray cast over both rings: only the second contains the point. */
  lemma SecondRingRayCast()
    ensures RayCast(25.0, 25.0, [Square(0.0, 10.0), Square(20.0, 30.0)]) == Ok(true)
  {
    var rings := [Square(0.0, 10.0), Square(20.0, 30.0)];
    FarFromFirst();
    InFarSquare();
    RayCastByRings(25.0, 25.0, rings);
    assert rings[..1] == [Square(0.0, 10.0)] && rings[..1][..0] == [];
  }

  lemma FarFromFirstBox()
    ensures !PointInBbox(Coord(25.0, 25.0), Envelope(Square(0.0, 10.0)))
  {
    EnvelopeSmallest(Square(0.0, 10.0), Box(0.0, 0.0, 10.0, 10.0));
  }

  /** The two phases disagree on a polygon whose second ring lies outside the first
      ring's box: the ray cast alone reports the point inside, `point_in_polygon`
      reports it outside because the box test never looks past the first ring. */
  lemma PhasesDisagreeOnSecondRing()
    ensures RayCast(25.0, 25.0, [Square(0.0, 10.0), Square(20.0, 30.0)]) == Ok(true)
    ensures !PointInBbox(Coord(25.0, 25.0), Envelope(Square(0.0, 10.0)))
    ensures PointInCandidates(Coord(25.0, 25.0), Candidates(Polygon([Square(0.0, 10.0), Square(20.0, 30.0)]))) == Ok(false)
  {
    var rings := [Square(0.0, 10.0), Square(20.0, 30.0)];
    SecondRingRayCast();
    FarFromFirstBox();
    assert BoundingBox(rings) == Ok(Envelope(Square(0.0, 10.0)));
    OnePolygon(Coord(25.0, 25.0), rings);
  }
}
