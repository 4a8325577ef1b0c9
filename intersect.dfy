/** `linestrings_intersect`: every segment of the first line string is tested
    against every segment of the second with the parametric closed form of two
    lines (Bourke). Parallel and collinear pairs (zero denominator) are skipped;
    every other pair whose two parameters lie in [0, 1] yields one point. */
module Intersect {
  import opened Geometry

  // ---------------------------------------------------------------------------
  // One pair of segments: a1-a2 of the first line, b1-b2 of the second.
  // All three quantities read x as X(c) = c[1] and y as Y(c) = c[0].
  // ---------------------------------------------------------------------------

  /** The common denominator `u_b`; zero exactly when the two segments are parallel. */
  function Denominator(a1: Coord, a2: Coord, b1: Coord, b2: Coord): real {
    (Y(b2) - Y(b1)) * (X(a2) - X(a1)) - (X(b2) - X(b1)) * (Y(a2) - Y(a1))
  }

  /** The numerator `ua_t` of the parameter along segment a. */
  function UaNumerator(a1: Coord, a2: Coord, b1: Coord, b2: Coord): real {
    (X(b2) - X(b1)) * (Y(a1) - Y(b1)) - (Y(b2) - Y(b1)) * (X(a1) - X(b1))
  }

  /** The numerator `ub_t` of the parameter along segment b. */
  function UbNumerator(a1: Coord, a2: Coord, b1: Coord, b2: Coord): real {
    (X(a2) - X(a1)) * (Y(a1) - Y(b1)) - (Y(a2) - Y(a1)) * (X(a1) - X(b1))
  }

  /** The pair is reported: a non-zero denominator and both parameters in the closed unit interval. */
  predicate Hits(a1: Coord, a2: Coord, b1: Coord, b2: Coord) {
    var d := Denominator(a1, a2, b1, b2);
    d != 0.0
    && 0.0 <= UaNumerator(a1, a2, b1, b2) / d <= 1.0
    && 0.0 <= UbNumerator(a1, a2, b1, b2) / d <= 1.0
  }

  /** The point at parameter `t` along segment a-b, written as the library writes
      its output: `[x, y]`, that is, in swapped order relative to the input. */
  function Interpolate(a: Coord, b: Coord, t: real): Coord {
    Coord(X(a) + t * (X(b) - X(a)), Y(a) + t * (Y(b) - Y(a)))
  }

  /** `p` (in output order) lies on the closed segment a-b. */
  ghost predicate OnSegment(p: Coord, a: Coord, b: Coord) {
    exists t :: 0.0 <= t <= 1.0 && p == Interpolate(a, b, t)
  }

  /** The emitted point `a1 + u_a * (a2 - a1)`. */
  function HitPoint(a1: Coord, a2: Coord, b1: Coord, b2: Coord): Coord
    requires Denominator(a1, a2, b1, b2) != 0.0
  {
    Interpolate(a1, a2, UaNumerator(a1, a2, b1, b2) / Denominator(a1, a2, b1, b2))
  }

  /** The point emitted for a reported pair lies on both segments: it is segment a
      at parameter `u_a` and segment b at parameter `u_b`, both in [0, 1]. */
  lemma HitOnBothSegments(a1: Coord, a2: Coord, b1: Coord, b2: Coord)
    requires Hits(a1, a2, b1, b2)
    ensures OnSegment(HitPoint(a1, a2, b1, b2), a1, a2)
    ensures OnSegment(HitPoint(a1, a2, b1, b2), b1, b2)
  {
    var d := Denominator(a1, a2, b1, b2);
    var ua := UaNumerator(a1, a2, b1, b2) / d;
    var ub := UbNumerator(a1, a2, b1, b2) / d;
    var p := HitPoint(a1, a2, b1, b2);
    assert p == Interpolate(a1, a2, ua);
    InterpolationsMeet(a1, a2, b1, b2);
    assert p == Interpolate(b1, b2, ub);
  }

  /** The algebra behind the closed form: segment a at `u_a` is segment b at `u_b`. */
  lemma InterpolationsMeet(a1: Coord, a2: Coord, b1: Coord, b2: Coord)
    requires Denominator(a1, a2, b1, b2) != 0.0
    ensures Interpolate(a1, a2, UaNumerator(a1, a2, b1, b2) / Denominator(a1, a2, b1, b2))
         == Interpolate(b1, b2, UbNumerator(a1, a2, b1, b2) / Denominator(a1, a2, b1, b2))
  {
    MeetX(a1, a2, b1, b2);
    MeetY(a1, a2, b1, b2);
    SameInterpolation(a1, a2, b1, b2, UaNumerator(a1, a2, b1, b2) / Denominator(a1, a2, b1, b2),
                      UbNumerator(a1, a2, b1, b2) / Denominator(a1, a2, b1, b2));
  }

  /** The x coordinates of the two interpolations agree. */
  lemma MeetX(a1: Coord, a2: Coord, b1: Coord, b2: Coord)
    requires Denominator(a1, a2, b1, b2) != 0.0
    ensures var d := Denominator(a1, a2, b1, b2);
      X(a1) + (UaNumerator(a1, a2, b1, b2) / d) * (X(a2) - X(a1))
      == X(b1) + (UbNumerator(a1, a2, b1, b2) / d) * (X(b2) - X(b1))
  {
    var sax, say := X(a2) - X(a1), Y(a2) - Y(a1);
    var sbx, sby := X(b2) - X(b1), Y(b2) - Y(b1);
    var dx, dy := X(a1) - X(b1), Y(a1) - Y(b1);
    var d, na, nb := Denominator(a1, a2, b1, b2), UaNumerator(a1, a2, b1, b2), UbNumerator(a1, a2, b1, b2);
    ClearedX(sax, say, sbx, sby, dx, dy);
    AxisMeets(X(a1), sax, X(b1), sbx, dx, na, nb, d, dx * d + na * sax - nb * sbx);
  }

  /** The y coordinates of the two interpolations agree. */
  lemma MeetY(a1: Coord, a2: Coord, b1: Coord, b2: Coord)
    requires Denominator(a1, a2, b1, b2) != 0.0
    ensures var d := Denominator(a1, a2, b1, b2);
      Y(a1) + (UaNumerator(a1, a2, b1, b2) / d) * (Y(a2) - Y(a1))
      == Y(b1) + (UbNumerator(a1, a2, b1, b2) / d) * (Y(b2) - Y(b1))
  {
    var sax, say := X(a2) - X(a1), Y(a2) - Y(a1);
    var sbx, sby := X(b2) - X(b1), Y(b2) - Y(b1);
    var dx, dy := X(a1) - X(b1), Y(a1) - Y(b1);
    var d, na, nb := Denominator(a1, a2, b1, b2), UaNumerator(a1, a2, b1, b2), UbNumerator(a1, a2, b1, b2);
    ClearedY(sax, say, sbx, sby, dx, dy);
    AxisMeets(Y(a1), say, Y(b1), sby, dy, na, nb, d, dy * d + na * say - nb * sby);
  }

  /** Two interpolations with equal coordinates are the same point. */
  lemma SameInterpolation(a1: Coord, a2: Coord, b1: Coord, b2: Coord, ta: real, tb: real)
    requires X(a1) + ta * (X(a2) - X(a1)) == X(b1) + tb * (X(b2) - X(b1))
    requires Y(a1) + ta * (Y(a2) - Y(a1)) == Y(b1) + tb * (Y(b2) - Y(b1))
    ensures Interpolate(a1, a2, ta) == Interpolate(b1, b2, tb)
  {
    var xa, ya := X(a1) + ta * (X(a2) - X(a1)), Y(a1) + ta * (Y(a2) - Y(a1));
    var xb, yb := X(b1) + tb * (X(b2) - X(b1)), Y(b1) + tb * (Y(b2) - Y(b1));
    assert Interpolate(a1, a2, ta) == Coord(xa, ya);
    assert Interpolate(b1, b2, tb) == Coord(xb, yb);
  }

  /** One coordinate of `InterpolationsMeet`, over plain reals. */
  lemma AxisMeets(p: real, u: real, q: real, v: real, delta: real, na: real, nb: real, d: real, cleared: real)
    requires d != 0.0 && delta == p - q
    requires cleared == delta * d + na * u - nb * v && cleared == 0.0
    ensures p + (na / d) * u == q + (nb / d) * v
  {
    ScaledEquality(p, u, q, v, na, nb, d);
  }

  /** The x-coordinate identity of `InterpolationsMeet`, multiplied out by the denominator. */
  lemma ClearedX(sax: real, say: real, sbx: real, sby: real, dx: real, dy: real)
    ensures dx * (sby * sax - sbx * say) + (sbx * dy - sby * dx) * sax - (sax * dy - say * dx) * sbx == 0.0
  {
    assert dx * (sby * sax - sbx * say) == dx * sby * sax - dx * sbx * say;
    assert (sbx * dy - sby * dx) * sax == sbx * dy * sax - sby * dx * sax;
    assert (sax * dy - say * dx) * sbx == sax * dy * sbx - say * dx * sbx;
  }

  /** The y-coordinate identity of `InterpolationsMeet`, multiplied out by the denominator. */
  lemma ClearedY(sax: real, say: real, sbx: real, sby: real, dx: real, dy: real)
    ensures dy * (sby * sax - sbx * say) + (sbx * dy - sby * dx) * say - (sax * dy - say * dx) * sby == 0.0
  {
    assert dy * (sby * sax - sbx * say) == dy * sby * sax - dy * sbx * say;
    assert (sbx * dy - sby * dx) * say == sbx * dy * say - sby * dx * say;
    assert (sax * dy - say * dx) * sby == sax * dy * sby - say * dx * sby;
  }

  /** `p + (na / d) * u == q + (nb / d) * v` once it holds multiplied by `d`. */
  lemma ScaledEquality(p: real, u: real, q: real, v: real, na: real, nb: real, d: real)
    requires d != 0.0
    requires (p - q) * d + na * u - nb * v == 0.0
    ensures p + (na / d) * u == q + (nb / d) * v
  {
    var ta, tb := na / d, nb / d;
    assert na == ta * d;
    assert nb == tb * d;
    assert ((p + ta * u) - (q + tb * v)) * d == (p - q) * d + na * u - nb * v;
  }

  /** Swapping the two segments negates the denominator and exchanges the two
      parameters, so the same pairs are reported at the same point. */
  lemma HitsSymmetric(a1: Coord, a2: Coord, b1: Coord, b2: Coord)
    ensures Hits(a1, a2, b1, b2) <==> Hits(b1, b2, a1, a2)
    ensures Hits(a1, a2, b1, b2) ==> HitPoint(a1, a2, b1, b2) == HitPoint(b1, b2, a1, a2)
  {
    var d, na, nb := Denominator(a1, a2, b1, b2), UaNumerator(a1, a2, b1, b2), UbNumerator(a1, a2, b1, b2);
    SwappedQuantities(a1, a2, b1, b2);
    if d != 0.0 {
      NegatedQuotient(nb, d);
      NegatedQuotient(na, d);
      assert UaNumerator(b1, b2, a1, a2) / Denominator(b1, b2, a1, a2) == nb / d;
      assert UbNumerator(b1, b2, a1, a2) / Denominator(b1, b2, a1, a2) == na / d;
      InterpolationsMeet(a1, a2, b1, b2);
    }
  }

  /** The three quantities of the swapped pair: the denominator negated, the numerators exchanged and negated. */
  lemma SwappedQuantities(a1: Coord, a2: Coord, b1: Coord, b2: Coord)
    ensures Denominator(b1, b2, a1, a2) == -Denominator(a1, a2, b1, b2)
    ensures UaNumerator(b1, b2, a1, a2) == -UbNumerator(a1, a2, b1, b2)
    ensures UbNumerator(b1, b2, a1, a2) == -UaNumerator(a1, a2, b1, b2)
  {
    var sax, say := X(a2) - X(a1), Y(a2) - Y(a1);
    var sbx, sby := X(b2) - X(b1), Y(b2) - Y(b1);
    var dx, dy := X(a1) - X(b1), Y(a1) - Y(b1);
    var ex, ey := X(b1) - X(a1), Y(b1) - Y(a1);
    assert ex == -dx && ey == -dy;
    assert Denominator(b1, b2, a1, a2) == say * sbx - sax * sby;
    assert UaNumerator(b1, b2, a1, a2) == sax * ey - say * ex;
    assert UbNumerator(b1, b2, a1, a2) == sbx * ey - sby * ex;
    assert UbNumerator(a1, a2, b1, b2) == sax * dy - say * dx;
    assert UaNumerator(a1, a2, b1, b2) == sbx * dy - sby * dx;
  }

  // ---------------------------------------------------------------------------
  // Two whole line strings.
  // ---------------------------------------------------------------------------

  /** Number of segments of a line string: `len(coordinates) - 1`, and none for fewer than two points. */
  function Segments(line: seq<Coord>): nat {
    if |line| > 0 then |line| - 1 else 0
  }

  /** Segment `q.i` of `line1` and segment `q.j` of `line2` exist and are reported. */
  predicate PairHits(line1: seq<Coord>, line2: seq<Coord>, q: Pair) {
    q.i + 1 < |line1| && q.j + 1 < |line2|
    && Hits(line1[q.i], line1[q.i + 1], line2[q.j], line2[q.j + 1])
  }

  /** A segment index of the first line string and one of the second. */
  datatype Pair = Pair(i: nat, j: nat)

  /** Every pair of `ps` is reported. */
  predicate AllHit(line1: seq<Coord>, line2: seq<Coord>, ps: seq<Pair>) {
    forall k :: 0 <= k < |ps| ==> PairHits(line1, line2, ps[k])
  }

  /** Lexicographic order on (outer, inner) loop indices. */
  predicate LexLess(p: Pair, q: Pair) {
    p.i < q.i || (p.i == q.i && p.j < q.j)
  }

  predicate LexSorted(ps: seq<Pair>) {
    forall a, b :: 0 <= a < b < |ps| ==> LexLess(ps[a], ps[b])
  }

  /** The reported pairs `(i, j)` for a fixed segment `i` of line 1 and `j < m`, in loop order. */
  function RowPairs(line1: seq<Coord>, line2: seq<Coord>, i: nat, m: nat): (ps: seq<Pair>)
    requires i + 1 < |line1| && m <= Segments(line2)
    ensures |ps| <= m
    ensures forall k :: 0 <= k < |ps| ==> ps[k].i == i && ps[k].j < m
    ensures AllHit(line1, line2, ps)
  {
    if m == 0 then []
    else
      RowPairs(line1, line2, i, m - 1)
      + (if Hits(line1[i], line1[i + 1], line2[m - 1], line2[m]) then [Pair(i, m - 1)] else [])
  }

  /** The reported pairs whose line-1 segment is below `n`, in loop order. */
  function PairsBefore(line1: seq<Coord>, line2: seq<Coord>, n: nat): (ps: seq<Pair>)
    requires n <= Segments(line1)
    ensures forall k :: 0 <= k < |ps| ==> ps[k].i < n
    ensures AllHit(line1, line2, ps)
  {
    if n == 0 then []
    else PairsBefore(line1, line2, n - 1) + RowPairs(line1, line2, n - 1, Segments(line2))
  }

  /** All reported segment pairs, outer loop over line 1, inner loop over line 2. */
  function HitPairs(line1: seq<Coord>, line2: seq<Coord>): seq<Pair> {
    PairsBefore(line1, line2, Segments(line1))
  }

  /** The point emitted for a reported pair. */
  function PairPoint(line1: seq<Coord>, line2: seq<Coord>, q: Pair): Coord
    requires PairHits(line1, line2, q)
  {
    HitPoint(line1[q.i], line1[q.i + 1], line2[q.j], line2[q.j + 1])
  }

  /** The points emitted for a sequence of reported pairs, one per pair and in the same order. */
  function PointsOf(line1: seq<Coord>, line2: seq<Coord>, ps: seq<Pair>): (r: seq<Coord>)
    requires AllHit(line1, line2, ps)
  {
    seq(|ps|, k requires 0 <= k < |ps| && PairHits(line1, line2, ps[k]) => PairPoint(line1, line2, ps[k]))
  }

  /** What `linestrings_intersect` returns (the coordinates of the emitted Points). */
  function Intersections(line1: seq<Coord>, line2: seq<Coord>): seq<Coord> {
    PointsOf(line1, line2, HitPairs(line1, line2))
  }

  /** The body of the inner loop (lines 18-33) for segment a1-a2 of line 1 and
      segment b1-b2 of line 2: whether a point is appended, and which. */
  method SegmentsIntersect(a1: Coord, a2: Coord, b1: Coord, b2: Coord) returns (hit: bool, p: Coord)
    ensures hit == Hits(a1, a2, b1, b2)
    ensures hit ==> p == HitPoint(a1, a2, b1, b2) && OnSegment(p, a1, a2) && OnSegment(p, b1, b2)
  {
    hit, p := false, Origin;
    var uaT := UaNumerator(a1, a2, b1, b2);
    var ubT := UbNumerator(a1, a2, b1, b2);
    var uB := Denominator(a1, a2, b1, b2);
    if uB != 0.0 {
      var ua := uaT / uB;
      var ub := ubT / uB;
      if 0.0 <= ua && ua <= 1.0 && 0.0 <= ub && ub <= 1.0 {
        hit, p := true, Interpolate(a1, a2, ua);
        HitOnBothSegments(a1, a2, b1, b2);
      }
    }
  }

  /** `linestrings_intersect`: the outer loop over the segments of line 1
      appends, for each, the points found by the inner loop. */
  method LinestringsIntersect(line1: seq<Coord>, line2: seq<Coord>) returns (intersects: seq<Coord>)
    ensures intersects == Intersections(line1, line2)
  {
    intersects := [];
    // `range(0, len - 1)` is empty when the line has fewer than two points.
    for i := 0 to Segments(line1)
      invariant intersects == PointsOf(line1, line2, PairsBefore(line1, line2, i))
    {
      var row := RowIntersections(line1, line2, i);
      PointsOfAppend(line1, line2, PairsBefore(line1, line2, i), RowPairs(line1, line2, i, Segments(line2)));
      intersects := intersects + row;
    }
  }

  /** The inner loop of `linestrings_intersect` for segment `i` of line 1. */
  method RowIntersections(line1: seq<Coord>, line2: seq<Coord>, i: nat) returns (row: seq<Coord>)
    requires i < Segments(line1)
    ensures row == PointsOf(line1, line2, RowPairs(line1, line2, i, Segments(line2)))
  {
    row := [];
    for j := 0 to Segments(line2)
      invariant row == PointsOf(line1, line2, RowPairs(line1, line2, i, j))
    {
      var hit, p := SegmentsIntersect(line1[i], line1[i + 1], line2[j], line2[j + 1]);
      ghost var found: seq<Pair> := if hit then [Pair(i, j)] else [];
      RowPairsStep(line1, line2, i, j);
      PointsOfAppend(line1, line2, RowPairs(line1, line2, i, j), found);
      if hit {
        PointsOfOne(line1, line2, Pair(i, j));
        row := row + [p];
      }
    }
  }

  /** One step of the inner loop: pair `(i, j)` is appended exactly when it is reported. */
  lemma RowPairsStep(line1: seq<Coord>, line2: seq<Coord>, i: nat, j: nat)
    requires i < Segments(line1) && j < Segments(line2)
    ensures RowPairs(line1, line2, i, j + 1)
         == RowPairs(line1, line2, i, j) + if Hits(line1[i], line1[i + 1], line2[j], line2[j + 1]) then [Pair(i, j)] else []
  {
  }

  /** The point of a single reported pair. */
  lemma PointsOfOne(line1: seq<Coord>, line2: seq<Coord>, q: Pair)
    requires PairHits(line1, line2, q)
    ensures AllHit(line1, line2, [q]) && PointsOf(line1, line2, [q]) == [PairPoint(line1, line2, q)]
  {
  }

  /** The points of two runs of pairs are the points of each, concatenated. */
  lemma PointsOfAppend(line1: seq<Coord>, line2: seq<Coord>, xs: seq<Pair>, ys: seq<Pair>)
    requires AllHit(line1, line2, xs) && AllHit(line1, line2, ys)
    ensures AllHit(line1, line2, xs + ys)
    ensures PointsOf(line1, line2, xs + ys) == PointsOf(line1, line2, xs) + PointsOf(line1, line2, ys)
  {
    var zs := xs + ys;
    forall k | 0 <= k < |zs| ensures PairHits(line1, line2, zs[k]) {
      if k < |xs| { assert zs[k] == xs[k]; } else { assert zs[k] == ys[k - |xs|]; }
    }
  }

  // ---------------------------------------------------------------------------
  // Properties of the result.
  // ---------------------------------------------------------------------------

  /** A pair is reported exactly when both segments exist and the closed form accepts it. */
  lemma {:induction false} HitPairsComplete(line1: seq<Coord>, line2: seq<Coord>, i: nat, j: nat)
    ensures Pair(i, j) in HitPairs(line1, line2) <==> PairHits(line1, line2, Pair(i, j))
  {
    if PairHits(line1, line2, Pair(i, j)) {
      RowPairsContains(line1, line2, i, j, Segments(line2));
      PairsBeforeContains(line1, line2, i, j, Segments(line1));
    }
  }

  lemma {:induction false} RowPairsContains(line1: seq<Coord>, line2: seq<Coord>, i: nat, j: nat, m: nat)
    requires i + 1 < |line1| && m <= Segments(line2)
    requires j < m && PairHits(line1, line2, Pair(i, j))
    ensures Pair(i, j) in RowPairs(line1, line2, i, m)
  {
    if j < m - 1 {
      RowPairsContains(line1, line2, i, j, m - 1);
    }
  }

  lemma {:induction false} PairsBeforeContains(line1: seq<Coord>, line2: seq<Coord>, i: nat, j: nat, n: nat)
    requires n <= Segments(line1)
    requires i < n && PairHits(line1, line2, Pair(i, j))
    requires Pair(i, j) in RowPairs(line1, line2, i, Segments(line2))
    ensures Pair(i, j) in PairsBefore(line1, line2, n)
  {
    var front, row := PairsBefore(line1, line2, n - 1), RowPairs(line1, line2, n - 1, Segments(line2));
    assert PairsBefore(line1, line2, n) == front + row;
    if i < n - 1 {
      PairsBeforeContains(line1, line2, i, j, n - 1);
      assert Pair(i, j) in front;
    } else {
      assert Pair(i, j) in row;
    }
  }

  /** A parallel or collinear pair (zero denominator) contributes nothing. */
  lemma ParallelPairSkipped(line1: seq<Coord>, line2: seq<Coord>, i: nat, j: nat)
    requires i + 1 < |line1| && j + 1 < |line2|
    requires Denominator(line1[i], line1[i + 1], line2[j], line2[j + 1]) == 0.0
    ensures Pair(i, j) !in HitPairs(line1, line2)
  {
    HitPairsComplete(line1, line2, i, j);
  }

  /** The reported pairs come in strictly increasing lexicographic (i, j) order. */
  lemma HitPairsOrdered(line1: seq<Coord>, line2: seq<Coord>)
    ensures LexSorted(HitPairs(line1, line2))
  {
    PairsBeforeOrdered(line1, line2, Segments(line1));
  }

  lemma {:induction false} RowPairsOrdered(line1: seq<Coord>, line2: seq<Coord>, i: nat, m: nat)
    requires i + 1 < |line1| && m <= Segments(line2)
    ensures LexSorted(RowPairs(line1, line2, i, m))
  {
    if m > 0 {
      RowPairsOrdered(line1, line2, i, m - 1);
      var prefix := RowPairs(line1, line2, i, m - 1);
      var last := if Hits(line1[i], line1[i + 1], line2[m - 1], line2[m]) then [Pair(i, m - 1)] else [];
      assert forall k :: 0 <= k < |prefix| ==> LexLess(prefix[k], Pair(i, m - 1));
      SortedAppend(prefix, last);
    }
  }

  lemma {:induction false} PairsBeforeOrdered(line1: seq<Coord>, line2: seq<Coord>, n: nat)
    requires n <= Segments(line1)
    ensures LexSorted(PairsBefore(line1, line2, n))
  {
    if n > 0 {
      PairsBeforeOrdered(line1, line2, n - 1);
      RowPairsOrdered(line1, line2, n - 1, Segments(line2));
      var xs, ys := PairsBefore(line1, line2, n - 1), RowPairs(line1, line2, n - 1, Segments(line2));
      forall a, b | 0 <= a < |xs| && 0 <= b < |ys| ensures LexLess(xs[a], ys[b]) {
        assert xs[a].i < n - 1 && ys[b].i == n - 1;
      }
      SortedAppend(xs, ys);
    }
  }

  /** Two sorted runs, every element of the first below every element of the second, stay sorted. */
  lemma SortedAppend(xs: seq<Pair>, ys: seq<Pair>)
    requires LexSorted(xs) && LexSorted(ys)
    requires forall a, b :: 0 <= a < |xs| && 0 <= b < |ys| ==> LexLess(xs[a], ys[b])
    ensures LexSorted(xs + ys)
  {
    var zs := xs + ys;
    forall a, b | 0 <= a < b < |zs| ensures LexLess(zs[a], zs[b]) {
      if b < |xs| {
        assert zs[a] == xs[a] && zs[b] == xs[b];
      } else if a < |xs| {
        assert zs[a] == xs[a] && zs[b] == ys[b - |xs|];
      } else {
        assert zs[a] == ys[a - |xs|] && zs[b] == ys[b - |xs|];
      }
    }
  }

  /** At most one point per segment pair: `(n1 - 1) * (n2 - 1)`. */
  lemma IntersectionsBound(line1: seq<Coord>, line2: seq<Coord>)
    ensures |Intersections(line1, line2)| <= Segments(line1) * Segments(line2)
  {
    PairsBeforeBound(line1, line2, Segments(line1));
  }

  lemma {:induction false} PairsBeforeBound(line1: seq<Coord>, line2: seq<Coord>, n: nat)
    requires n <= Segments(line1)
    ensures |PairsBefore(line1, line2, n)| <= n * Segments(line2)
  {
    if n > 0 {
      var s := Segments(line2);
      PairsBeforeBound(line1, line2, n - 1);
      assert |PairsBefore(line1, line2, n)| <= (n - 1) * s + s;
      MulSucc(n - 1, s);
    }
  }

  /** Two one-segment lines: the single pair (0, 0) is reported or nothing is. */
  lemma SingleSegmentPairs(line1: seq<Coord>, line2: seq<Coord>)
    requires |line1| == 2 && |line2| == 2
    ensures HitPairs(line1, line2) == if Hits(line1[0], line1[1], line2[0], line2[1]) then [Pair(0, 0)] else []
  {
    assert Segments(line1) == 1 && Segments(line2) == 1;
    assert RowPairs(line1, line2, 0, 0) == [];
    assert PairsBefore(line1, line2, 0) == [];
  }

  /** Two parallel one-segment lines do not intersect. */
  lemma ParallelSegmentsNoPoints(line1: seq<Coord>, line2: seq<Coord>)
    requires |line1| == 2 && |line2| == 2
    requires Denominator(line1[0], line1[1], line2[0], line2[1]) == 0.0
    ensures Intersections(line1, line2) == []
  {
    SingleSegmentPairs(line1, line2);
  }

  lemma MulSucc(m: nat, s: nat)
    ensures m * s + s == (m + 1) * s
  {
  }

  /** A line string with fewer than two points has no segment, so nothing is emitted. */
  lemma ShortLineNoIntersections(line1: seq<Coord>, line2: seq<Coord>)
    requires |line1| < 2 || |line2| < 2
    ensures Intersections(line1, line2) == []
  {
    IntersectionsBound(line1, line2);
    assert Segments(line1) * Segments(line2) == 0;
  }

  /** Every emitted point, `k`-th in the result, comes from the `k`-th reported pair
      `(i, j)` and lies both on segment i of line 1 and on segment j of line 2. */
  lemma IntersectionsOnBothLines(line1: seq<Coord>, line2: seq<Coord>, k: nat)
    requires k < |Intersections(line1, line2)|
    ensures var q := HitPairs(line1, line2)[k];
      q.i + 1 < |line1| && q.j + 1 < |line2|
      && OnSegment(Intersections(line1, line2)[k], line1[q.i], line1[q.i + 1])
      && OnSegment(Intersections(line1, line2)[k], line2[q.j], line2[q.j + 1])
  {
    var q := HitPairs(line1, line2)[k];
    HitOnBothSegments(line1[q.i], line1[q.i + 1], line2[q.j], line2[q.j + 1]);
  }

  /** A point is emitted exactly when some segment pair is reported at it. */
  lemma IntersectionsMembership(line1: seq<Coord>, line2: seq<Coord>, p: Coord)
    ensures p in Intersections(line1, line2)
      <==> exists q :: PairHits(line1, line2, q) && p == PairPoint(line1, line2, q)
  {
    var r := Intersections(line1, line2);
    var ps := HitPairs(line1, line2);
    if p in r {
      var k :| 0 <= k < |r| && r[k] == p;
      assert PairHits(line1, line2, ps[k]) && p == PairPoint(line1, line2, ps[k]);
    }
    if q :| PairHits(line1, line2, q) && p == PairPoint(line1, line2, q) {
      HitPairsComplete(line1, line2, q.i, q.j);
      var k :| 0 <= k < |ps| && ps[k] == q;
      assert r[k] == p;
    }
  }

  /** The set of intersection points does not depend on which line is given first. */
  lemma IntersectionsSymmetric(line1: seq<Coord>, line2: seq<Coord>, p: Coord)
    ensures p in Intersections(line1, line2) <==> p in Intersections(line2, line1)
  {
    IntersectionsMembership(line1, line2, p);
    IntersectionsMembership(line2, line1, p);
    if q :| PairHits(line1, line2, q) && p == PairPoint(line1, line2, q) {
      Swapped(line1, line2, q);
    }
    if q :| PairHits(line2, line1, q) && p == PairPoint(line2, line1, q) {
      Swapped(line2, line1, q);
    }
  }

  lemma Swapped(line1: seq<Coord>, line2: seq<Coord>, q: Pair)
    requires PairHits(line1, line2, q)
    ensures PairHits(line2, line1, Pair(q.j, q.i))
    ensures PairPoint(line2, line1, Pair(q.j, q.i)) == PairPoint(line1, line2, q)
  {
    HitsSymmetric(line1[q.i], line1[q.i + 1], line2[q.j], line2[q.j + 1]);
  }
}
