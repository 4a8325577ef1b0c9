/** `bbox_around_polycoords` and `point_in_bbox`: the envelope of a polygon's
    first ring, in the flipped axis order `[min x, min y, max x, max y]` with
    x = c[1] and y = c[0], and the closed-interval test of a point against it. */
module BBox {
  import opened Geometry

  /** The four numbers `[min(x_all), min(y_all), max(x_all), max(y_all)]`. */
  datatype Box = Box(minX: real, minY: real, maxX: real, maxY: real)

  /** Python's `min` of a non-empty list of numbers. */
  function Min(s: seq<real>): (m: real)
    requires |s| > 0
    ensures forall k :: 0 <= k < |s| ==> m <= s[k]
    ensures exists k :: 0 <= k < |s| && m == s[k]
  {
    if |s| == 1 then s[0]
    else
      var rest := Min(s[1..]);
      assert forall k :: 1 <= k < |s| ==> s[k] == s[1..][k - 1];
      if s[0] <= rest then s[0] else rest
  }

  /** Python's `max` of a non-empty list of numbers. */
  function Max(s: seq<real>): (m: real)
    requires |s| > 0
    ensures forall k :: 0 <= k < |s| ==> s[k] <= m
    ensures exists k :: 0 <= k < |s| && m == s[k]
  {
    if |s| == 1 then s[0]
    else
      var rest := Max(s[1..]);
      assert forall k :: 1 <= k < |s| ==> s[k] == s[1..][k - 1];
      if s[0] >= rest then s[0] else rest
  }

  /** The list `x_all`: the x value `c[1]` of every vertex of a ring. */
  function Xs(ring: Ring): (r: seq<real>)
    ensures |r| == |ring|
  {
    seq(|ring|, k requires 0 <= k < |ring| => X(ring[k]))
  }

  /** The list `y_all`: the y value `c[0]` of every vertex of a ring. */
  function Ys(ring: Ring): (r: seq<real>)
    ensures |r| == |ring|
  {
    seq(|ring|, k requires 0 <= k < |ring| => Y(ring[k]))
  }

  /** The envelope of a non-empty ring. */
  function Envelope(ring: Ring): Box
    requires |ring| > 0
  {
    Box(Min(Xs(ring)), Min(Ys(ring)), Max(Xs(ring)), Max(Ys(ring)))
  }

  /** What `bbox_around_polycoords(coords)` returns or raises: `coords[0]` of a
      polygon without rings is an IndexError, `min` of an empty first ring a ValueError. */
  function BoundingBox(coords: Poly): Result<Box> {
    if |coords| == 0 then Err(IndexError)
    else if |coords[0]| == 0 then Err(ValueError)
    else Ok(Envelope(coords[0]))
  }

  /** `bbox_around_polycoords`: the loop filling `x_all` and `y_all`, then min and max. */
  method BboxAroundPolycoords(coords: Poly) returns (r: Result<Box>)
    ensures r == BoundingBox(coords)
  {
    if |coords| == 0 {
      return Err(IndexError);
    }
    var first := coords[0];
    var xAll: seq<real> := [];
    var yAll: seq<real> := [];
    for k := 0 to |first|
      invariant xAll == Xs(first[..k]) && yAll == Ys(first[..k])
    {
      assert first[..k + 1] == first[..k] + [first[k]];
      xAll := xAll + [X(first[k])];
      yAll := yAll + [Y(first[k])];
    }
    assert first[..|first|] == first;
    if |xAll| == 0 {
      return Err(ValueError);
    }
    r := Ok(Box(Min(xAll), Min(yAll), Max(xAll), Max(yAll)));
  }

  /** `point_in_bbox`: `not (x < b[0] or x > b[2] or y < b[1] or y > b[3])`. */
  function PointInBbox(point: Coord, bounds: Box): (r: bool)
    ensures r <==> bounds.minX <= X(point) <= bounds.maxX && bounds.minY <= Y(point) <= bounds.maxY
  {
    !(X(point) < bounds.minX || X(point) > bounds.maxX || Y(point) < bounds.minY || Y(point) > bounds.maxY)
  }

  /** Every vertex of the first ring passes `point_in_bbox` against its polygon's box. */
  lemma EnvelopeContainsRing(ring: Ring, k: nat)
    requires k < |ring|
    ensures PointInBbox(ring[k], Envelope(ring))
  {
    assert Xs(ring)[k] == X(ring[k]) && Ys(ring)[k] == Y(ring[k]);
  }

  /** Each of the four bounds is attained by some vertex of the ring. */
  lemma EnvelopeAttained(ring: Ring)
    requires |ring| > 0
    ensures exists k :: 0 <= k < |ring| && X(ring[k]) == Envelope(ring).minX
    ensures exists k :: 0 <= k < |ring| && Y(ring[k]) == Envelope(ring).minY
    ensures exists k :: 0 <= k < |ring| && X(ring[k]) == Envelope(ring).maxX
    ensures exists k :: 0 <= k < |ring| && Y(ring[k]) == Envelope(ring).maxY
  {
    var xs, ys := Xs(ring), Ys(ring);
    var a :| 0 <= a < |xs| && Min(xs) == xs[a];
    var b :| 0 <= b < |ys| && Min(ys) == ys[b];
    var c :| 0 <= c < |xs| && Max(xs) == xs[c];
    var d :| 0 <= d < |ys| && Max(ys) == ys[d];
    assert X(ring[a]) == Envelope(ring).minX;
    assert Y(ring[b]) == Envelope(ring).minY;
    assert X(ring[c]) == Envelope(ring).maxX;
    assert Y(ring[d]) == Envelope(ring).maxY;
  }

  /** The envelope is the smallest box containing the ring: any box that contains
      every vertex contains the envelope's corners. */
  lemma EnvelopeSmallest(ring: Ring, b: Box)
    requires |ring| > 0
    requires forall k :: 0 <= k < |ring| ==> PointInBbox(ring[k], b)
    ensures b.minX <= Envelope(ring).minX && Envelope(ring).maxX <= b.maxX
    ensures b.minY <= Envelope(ring).minY && Envelope(ring).maxY <= b.maxY
  {
    EnvelopeAttained(ring);
  }
}
