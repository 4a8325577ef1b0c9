/** `pnpoly`: W. R. Franklin's even-odd ray-casting test. The rings of one
    polygon are concatenated into a single vertex list, each ring closed by a
    repetition of its first vertex and separated from the next by a `[0, 0]`
    vertex; a horizontal ray from the test point then toggles `inside` at every
    edge it crosses. The caller passes x = point[1] and y = point[0], so a
    vertex's `[1]` is compared with x and its `[0]` with y, as everywhere else. */
module RayCasting {
  import opened Geometry

  // ---------------------------------------------------------------------------
  // The vertex list `vert`.
  // ---------------------------------------------------------------------------

  /** Every ring has a first vertex; `coord[0]` of an empty ring raises IndexError. */
  predicate RingsNonEmpty(coords: Poly) {
    forall k :: 0 <= k < |coords| ==> |coords[k]| > 0
  }

  /** What the loop appends for one ring: its nodes, its first node again, and `[0, 0]`. */
  function RingBlock(ring: Ring): seq<Coord>
    requires |ring| > 0
  {
    ring + [ring[0], Origin]
  }

  /** `vert` as built from `coords`: the `[0, 0]` sentinel, then one block per ring. */
  function Vertices(coords: Poly): (vert: seq<Coord>)
    requires RingsNonEmpty(coords)
    ensures |vert| > 0 && vert[0] == Origin && vert[|vert| - 1] == Origin
  {
    if coords == [] then [Origin]
    else Vertices(coords[..|coords| - 1]) + RingBlock(coords[|coords| - 1])
  }

  /** `1 + sum(len(ring) + 2)`. */
  function BuiltLength(coords: Poly): nat {
    if coords == [] then 1
    else BuiltLength(coords[..|coords| - 1]) + |coords[|coords| - 1]| + 2
  }

  /** Where the block of ring `k` starts in `vert`. */
  function BlockStart(coords: Poly, k: nat): nat
    requires k <= |coords|
  {
    BuiltLength(coords[..k])
  }

  lemma {:induction false} VerticesLength(coords: Poly)
    requires RingsNonEmpty(coords)
    ensures |Vertices(coords)| == BuiltLength(coords)
  {
    if coords != [] {
      VerticesLength(coords[..|coords| - 1]);
    }
  }

  /** The layout of `vert`: at the start of ring `k`'s block come that ring's nodes,
      then its first node, then the `[0, 0]` separator (`Vertices` itself ensures
      that `vert[0]` is `[0, 0]` too). */
  lemma {:induction false} VerticesLayout(coords: Poly, k: nat, t: nat)
    requires RingsNonEmpty(coords) && k < |coords|
    ensures BlockStart(coords, k) + |coords[k]| + 2 <= |Vertices(coords)|
    ensures t < |coords[k]| ==> Vertices(coords)[BlockStart(coords, k) + t] == coords[k][t]
    ensures Vertices(coords)[BlockStart(coords, k) + |coords[k]|] == coords[k][0]
    ensures Vertices(coords)[BlockStart(coords, k) + |coords[k]| + 1] == Origin
  {
    var n := |coords|;
    var init := coords[..n - 1];
    assert RingsNonEmpty(init);
    VerticesLength(init);
    var front := Vertices(init);
    assert Vertices(coords) == front + RingBlock(coords[n - 1]);
    if k == n - 1 {
      assert coords[..k] == init;
      assert BlockStart(coords, k) == |front|;
    } else {
      assert init[..k] == coords[..k] && init[k] == coords[k];
      assert BlockStart(coords, k) == BlockStart(init, k);
      VerticesLayout(init, k, t);
    }
  }

  // ---------------------------------------------------------------------------
  // The crossing test and the walk over `vert`.
  // ---------------------------------------------------------------------------

  /** The abscissa `(vert[j][1] - vert[i][1]) * (y - vert[i][0]) / (vert[j][0] - vert[i][0]) + vert[i][1]`
      at which the ray's line meets the line through `vi` and `vj`. */
  function CrossingX(vi: Coord, vj: Coord, y: real): real
    requires Y(vi) != Y(vj)
  {
    (X(vj) - X(vi)) * (y - Y(vi)) / (Y(vj) - Y(vi)) + X(vi)
  }

  /** The test on edge (i, j): the ends lie on different sides of `y`, and `x` is
      left of the crossing abscissa. The `and` evaluates the quotient only once the
      first operand holds, and that operand forces `vert[i][0] != vert[j][0]`: the
      division is never by zero. */
  predicate Crosses(vi: Coord, vj: Coord, x: real, y: real)
    ensures Crosses(vi, vj, x, y) ==> Y(vi) != Y(vj)
  {
    ((Y(vi) > y) != (Y(vj) > y)) && x < CrossingX(vi, vj, y)
  }

  /** The cyclic predecessor `j` of index `i`: the last index for `i == 0`, else `i - 1`. */
  function Pred(n: nat, i: nat): nat
    requires i < n
  {
    if i == 0 then n - 1 else i - 1
  }

  /** The number of indices `i < m` whose edge `(i, Pred(i))` the ray crosses. */
  function CrossingsBefore(vert: seq<Coord>, x: real, y: real, m: nat): nat
    requires m <= |vert|
  {
    if m == 0 then 0
    else
      CrossingsBefore(vert, x, y, m - 1)
      + (if Crosses(vert[m - 1], vert[Pred(|vert|, m - 1)], x, y) then 1 else 0)
  }

  /** The number of edges of the closed polygon `vert` that the ray crosses. */
  function CrossingCount(vert: seq<Coord>, x: real, y: real): nat {
    CrossingsBefore(vert, x, y, |vert|)
  }

  /** The even-odd rule: inside when the crossing count is odd. */
  predicate Inside(vert: seq<Coord>, x: real, y: real) {
    CrossingCount(vert, x, y) % 2 == 1
  }

  /** What `pnpoly(x, y, coords)` returns or raises. */
  function RayCast(x: real, y: real, coords: Poly): Result<bool> {
    if RingsNonEmpty(coords) then Ok(Inside(Vertices(coords), x, y)) else Err(IndexError)
  }

  /** `pnpoly`: builds `vert` by appends, then walks it. */
  method Pnpoly(x: real, y: real, coords: Poly) returns (r: Result<bool>)
    ensures r == RayCast(x, y, coords)
  {
    var vert := BuildVertices(coords);
    if vert.Err? {
      return Err(vert.error);
    }
    var inside := WalkVertices(vert.value, x, y);
    r := Ok(inside);
  }

  /** The first half of `pnpoly`: the nested loops appending to `vert`; an empty
      ring raises at `coord[0]` once its (absent) nodes are appended. */
  method BuildVertices(coords: Poly) returns (r: Result<seq<Coord>>)
    ensures RingsNonEmpty(coords) ==> r == Ok(Vertices(coords))
    ensures !RingsNonEmpty(coords) ==> r == Err(IndexError)
  {
    var vert := [Origin];
    for k := 0 to |coords|
      invariant RingsNonEmpty(coords[..k]) && vert == Vertices(coords[..k])
    {
      var coord := coords[k];
      for t := 0 to |coord|
        invariant vert == Vertices(coords[..k]) + coord[..t]
      {
        assert coord[..t + 1] == coord[..t] + [coord[t]];
        vert := vert + [coord[t]];
      }
      if |coord| == 0 {
        assert !RingsNonEmpty(coords);
        return Err(IndexError);
      }
      assert coord[..|coord|] == coord;
      vert := vert + [coord[0]];
      vert := vert + [Origin];
      VerticesSnoc(coords, k);
    }
    assert coords[..|coords|] == coords;
    r := Ok(vert);
  }

  /** Taking one more ring appends its block. */
  lemma VerticesSnoc(coords: Poly, k: nat)
    requires k < |coords| && RingsNonEmpty(coords[..k]) && |coords[k]| > 0
    ensures RingsNonEmpty(coords[..k + 1])
    ensures Vertices(coords[..k + 1]) == Vertices(coords[..k]) + RingBlock(coords[k])
  {
    assert coords[..k + 1][..k] == coords[..k];
  }

  /** The second half of `pnpoly`: the `while` loop over `i` with `j` trailing one
      step behind, starting at the last index. */
  method WalkVertices(vert: seq<Coord>, x: real, y: real) returns (inside: bool)
    ensures inside == Inside(vert, x, y)
  {
    inside := false;
    var i := 0;
    var j := |vert| - 1;
    while i < |vert|
      invariant 0 <= i <= |vert|
      invariant i < |vert| ==> j == Pred(|vert|, i)
      invariant inside == (CrossingsBefore(vert, x, y, i) % 2 == 1)
    {
      if Crosses(vert[i], vert[j], x, y) {
        inside := !inside;
      }
      j := i;
      i := i + 1;
    }
  }

  // ---------------------------------------------------------------------------
  // Properties.
  // ---------------------------------------------------------------------------

  /** With no rings `vert` is the lone sentinel and the result is False. */
  lemma NoRingsOutside(x: real, y: real)
    ensures RayCast(x, y, []) == Ok(false)
  {
    assert Vertices([]) == [Origin];
    assert !Crosses(Origin, Origin, x, y);
    assert CrossingsBefore([Origin], x, y, 1) == 0;
  }

  /** The error case: exactly some ring without a first vertex makes `pnpoly` raise. */
  lemma RayCastFails(x: real, y: real, coords: Poly)
    ensures RayCast(x, y, coords).Err? <==> exists k :: 0 <= k < |coords| && coords[k] == []
  {
  }

  // ---------------------------------------------------------------------------
  // The concatenated list against the classic test ring by ring.
  // ---------------------------------------------------------------------------

  /** Crossed edges `(s[i], s[i - 1])` of the open chain `s`, for `1 <= i < |s|`. */
  function ChainCrossings(s: seq<Coord>, x: real, y: real): nat {
    if |s| <= 1 then 0
    else ChainCrossings(s[..|s| - 1], x, y) + (if Crosses(s[|s| - 1], s[|s| - 2], x, y) then 1 else 0)
  }

  /** Whether an odd number of rings contain the point by the classic test, each ring
      walked on its own: `Inside(ring, x, y)` is `pnpoly` on the bare vertex list of one ring. */
  function OddRings(coords: Poly, x: real, y: real): bool {
    if coords == [] then false
    else OddRings(coords[..|coords| - 1], x, y) != Inside(coords[|coords| - 1], x, y)
  }

  /** The crossing test does not depend on the direction of the edge. */
  lemma CrossesSymmetric(a: Coord, b: Coord, x: real, y: real)
    ensures Crosses(a, b, x, y) == Crosses(b, a, x, y)
  {
    if Y(a) != Y(b) {
      var d := Y(b) - Y(a);
      var u := CrossingX(a, b, y);
      var v := CrossingX(b, a, y);
      assert (X(a) - X(b)) * (y - Y(b)) / (Y(a) - Y(b)) == (X(b) - X(a)) * (y - Y(b)) / d by {
        NegatedQuotient((X(b) - X(a)) * (y - Y(b)), d);
      }
      assert (X(b) - X(a)) * (y - Y(a)) == (X(b) - X(a)) * (y - Y(b)) + (X(b) - X(a)) * d;
      assert u == v;
    }
  }

  /** Walking the whole of `vert` is the edge from the last vertex to the first, then the chain. */
  lemma {:induction false} CrossingsBeforeChain(vert: seq<Coord>, x: real, y: real, m: nat)
    requires 1 <= m <= |vert|
    ensures CrossingsBefore(vert, x, y, m)
         == (if Crosses(vert[0], vert[|vert| - 1], x, y) then 1 else 0) + ChainCrossings(vert[..m], x, y)
  {
    if m > 1 {
      CrossingsBeforeChain(vert, x, y, m - 1);
      assert vert[..m][..m - 1] == vert[..m - 1];
    }
  }

  /** The chain of a concatenation: both chains and the edge joining them. */
  lemma {:induction false} ChainAppend(a: seq<Coord>, b: seq<Coord>, x: real, y: real)
    requires |a| > 0 && |b| > 0
    ensures ChainCrossings(a + b, x, y)
         == ChainCrossings(a, x, y) + (if Crosses(b[0], a[|a| - 1], x, y) then 1 else 0) + ChainCrossings(b, x, y)
  {
    if |b| == 1 {
      assert (a + b)[..|a + b| - 1] == a;
    } else {
      var b' := b[..|b| - 1];
      ChainAppend(a, b', x, y);
      assert (a + b)[..|a + b| - 1] == a + b';
    }
  }

  /** One ring's block adds the ring's own crossings and the edge into and out of
      its first vertex from `[0, 0]` twice, once in each direction. */
  lemma BlockCrossings(front: seq<Coord>, ring: Ring, x: real, y: real)
    requires |front| > 0 && front[|front| - 1] == Origin && |ring| > 0
    ensures ChainCrossings(front + RingBlock(ring), x, y)
         == ChainCrossings(front, x, y) + CrossingCount(ring, x, y)
            + 2 * (if Crosses(ring[0], Origin, x, y) then 1 else 0)
  {
    ChainAppend(front, RingBlock(ring), x, y);
    ChainAppend(ring, [ring[0], Origin], x, y);
    assert [ring[0], Origin][..1] == [ring[0]];
    CrossingsBeforeChain(ring, x, y, |ring|);
    assert ring[..|ring|] == ring;
    CrossesSymmetric(ring[0], Origin, x, y);
  }

  /** The parity of the chain of `vert` is the ring-by-ring even-odd rule. */
  lemma {:induction false} ChainParity(coords: Poly, x: real, y: real)
    requires RingsNonEmpty(coords)
    ensures (ChainCrossings(Vertices(coords), x, y) % 2 == 1) == OddRings(coords, x, y)
  {
    if coords != [] {
      var init := coords[..|coords| - 1];
      assert RingsNonEmpty(init);
      var ring := coords[|coords| - 1];
      ChainParity(init, x, y);
      BlockCrossings(Vertices(init), ring, x, y);
      var a, b, c := ChainCrossings(Vertices(init), x, y), CrossingCount(ring, x, y),
                     if Crosses(ring[0], Origin, x, y) then 1 else 0;
      assert ChainCrossings(Vertices(coords), x, y) == a + b + 2 * c;
      ParityOfSum(a, b, c);
    }
  }

  lemma ParityOfSum(a: nat, b: nat, c: nat)
    ensures ((a + b + 2 * c) % 2 == 1) == ((a % 2 == 1) != (b % 2 == 1))
  {
  }

  /** `pnpoly` on several rings is the even-odd rule over the rings: the point is
      reported inside exactly when an odd number of rings contain it. */
  lemma RayCastByRings(x: real, y: real, coords: Poly)
    requires RingsNonEmpty(coords)
    ensures RayCast(x, y, coords) == Ok(OddRings(coords, x, y))
  {
    var vert := Vertices(coords);
    ChainParity(coords, x, y);
    CrossingsBeforeChain(vert, x, y, |vert|);
    assert vert[..|vert|] == vert;
  }

  /** On a single ring the sentinels change nothing: `pnpoly` is the classic test on that ring. */
  lemma RayCastOneRing(x: real, y: real, ring: Ring)
    requires |ring| > 0
    ensures RayCast(x, y, [ring]) == Ok(Inside(ring, x, y))
  {
    RayCastByRings(x, y, [ring]);
    assert [ring][..0] == [];
  }

  // ---------------------------------------------------------------------------
  // Where a crossed edge lies relative to the point.
  // ---------------------------------------------------------------------------

  /** A point `a + (b - a) * t` with `t` in the unit interval lies between `a` and `b`. */
  lemma ConvexCombination(a: real, b: real, t: real)
    requires 0.0 <= t <= 1.0
    ensures a <= b ==> a <= a + (b - a) * t <= b
    ensures b <= a ==> b <= a + (b - a) * t <= a
  {
    assert a + (b - a) * t == a * (1.0 - t) + b * t;
    if a <= b {
      assert a * t <= b * t;
    } else {
      assert b * t <= a * t;
    }
  }

  /** When `y` lies between the ends of a non-horizontal edge, the line meets the
      edge itself: the crossing abscissa lies between the ends' abscissas. */
  lemma CrossingXBetween(vi: Coord, vj: Coord, y: real)
    requires (Y(vi) > y) != (Y(vj) > y)
    ensures X(vi) <= X(vj) ==> X(vi) <= CrossingX(vi, vj, y) <= X(vj)
    ensures X(vj) <= X(vi) ==> X(vj) <= CrossingX(vi, vj, y) <= X(vi)
  {
    var d, n, w := Y(vj) - Y(vi), y - Y(vi), X(vj) - X(vi);
    assert CrossingX(vi, vj, y) == w * n / d + X(vi);
    if d > 0.0 {
      assert 0.0 <= n <= d;
    } else {
      assert d < 0.0 && d <= n <= 0.0;
    }
    UnitRatio(n, d);
    ScaledQuotient(w, n, d);
    ConvexCombination(X(vi), X(vj), n / d);
  }

  /** `n / d` lies in the unit interval when `n` lies between 0 and `d`. */
  lemma UnitRatio(n: real, d: real)
    requires (0.0 < d && 0.0 <= n <= d) || (d < 0.0 && d <= n <= 0.0)
    ensures 0.0 <= n / d <= 1.0
  {
    NonNegQuotient(n, d);
    NonNegQuotient(d - n, d);
    QuotientSplit(d, n, d);
  }

  /** A quotient of two numbers of the same sign is not negative. */
  lemma NonNegQuotient(n: real, d: real)
    requires (0.0 < d && 0.0 <= n) || (d < 0.0 && n <= 0.0)
    ensures 0.0 <= n / d
  {
    if d > 0.0 {
      assert n / d == n * (1.0 / d);
      assert 1.0 / d > 0.0;
    } else {
      assert n / d == (-n) * (1.0 / (-d));
      assert 1.0 / (-d) > 0.0;
    }
  }

  /** Division by `d` distributes over a difference. */
  lemma QuotientSplit(a: real, b: real, d: real)
    requires d != 0.0
    ensures (a - b) / d == a / d - b / d
  {
    assert (a - b) / d == (a - b) * (1.0 / d);
    assert a / d == a * (1.0 / d) && b / d == b * (1.0 / d);
  }

  lemma ScaledQuotient(w: real, n: real, d: real)
    requires d != 0.0
    ensures w * n / d == w * (n / d)
  {
  }

  /** A crossed edge has one end above `y` and one not above it, and one end to the right of `x`. */
  lemma CrossingBounds(vi: Coord, vj: Coord, x: real, y: real)
    requires Crosses(vi, vj, x, y)
    ensures y < Y(vi) || y < Y(vj)
    ensures Y(vi) <= y || Y(vj) <= y
    ensures x < X(vi) || x < X(vj)
  {
    CrossingXBetween(vi, vj, y);
  }

  /** Seen from a point to the left of both ends, an edge is crossed exactly when it straddles `y`. */
  lemma CrossesFromLeft(vi: Coord, vj: Coord, x: real, y: real)
    requires x < X(vi) && x < X(vj)
    ensures Crosses(vi, vj, x, y) <==> (Y(vi) > y) != (Y(vj) > y)
  {
    if (Y(vi) > y) != (Y(vj) > y) {
      CrossingXBetween(vi, vj, y);
    }
  }

  /** A positive count has a crossed edge behind it. */
  lemma {:induction false} SomeCrossing(vert: seq<Coord>, x: real, y: real, m: nat)
    requires m <= |vert| && CrossingsBefore(vert, x, y, m) > 0
    ensures exists i :: 0 <= i < m && Crosses(vert[i], vert[Pred(|vert|, i)], x, y)
  {
    if !Crosses(vert[m - 1], vert[Pred(|vert|, m - 1)], x, y) {
      SomeCrossing(vert, x, y, m - 1);
    }
  }

  /** From the left of every vertex the count over the first `m` edges is odd exactly
      when the last vertex and vertex `m - 1` lie on different sides of `y`. */
  lemma {:induction false} FarLeftParity(ring: Ring, x: real, y: real, m: nat)
    requires 1 <= m <= |ring|
    requires forall k :: 0 <= k < |ring| ==> x < X(ring[k])
    ensures (CrossingsBefore(ring, x, y, m) % 2 == 1)
        == ((Y(ring[|ring| - 1]) > y) != (Y(ring[m - 1]) > y))
  {
    CrossesFromLeft(ring[m - 1], ring[Pred(|ring|, m - 1)], x, y);
    if m > 1 {
      FarLeftParity(ring, x, y, m - 1);
    }
  }

  /** A point to the left of every vertex is outside: a closed ring straddles any
      horizontal line an even number of times. */
  lemma FarLeftOutside(ring: Ring, x: real, y: real)
    requires forall k :: 0 <= k < |ring| ==> x < X(ring[k])
    ensures !Inside(ring, x, y)
  {
    if |ring| > 0 {
      FarLeftParity(ring, x, y, |ring|);
    }
  }
}
