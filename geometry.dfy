/** Geometry records as the library receives them from a JSON decoder:
    coordinate pairs, rings, polygons and the tagged geometry object.
    Python lists of numbers become `Coord` values over exact reals; the
    string `'type'` field becomes the constructor of `Geometry`. */
module Geometry {

  /** A GeoJSON position `[value0, value1]` (stored as `[longitude, latitude]`). */
  datatype Coord = Coord(c0: real, c1: real)

  /** The library computes in a flipped frame: `value1` is read as "x" ... */
  function X(c: Coord): real { c.c1 }

  /** ... and `value0` as "y". */
  function Y(c: Coord): real { c.c0 }

  /** The `[0, 0]` vertex that the ray-casting test uses as a ring separator. */
  const Origin: Coord := Coord(0.0, 0.0)

  type Ring = seq<Coord>

  /** The coordinates of one Polygon: a sequence of rings, the first one the outer boundary. */
  type Poly = seq<Ring>

  /** A geometry object with its `'type'` tag. */
  datatype Geometry =
    | Polygon(rings: Poly)
    | MultiPolygon(polys: seq<Poly>)

  /** The Python exceptions that malformed input raises inside the library. */
  datatype Error =
    | IndexError  // indexing `[0]` of an empty list
    | ValueError  // `min()` / `max()` of an empty list
    | TypeError   // iterating over a number

  datatype Result<+T> = Ok(value: T) | Err(error: Error)

  /** Negating both operands leaves a quotient unchanged. */
  lemma NegatedQuotient(n: real, d: real)
    requires d != 0.0
    ensures (-n) / (-d) == n / d
  {
  }
}
