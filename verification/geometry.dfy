/**
 * Integer geometry of the tracker: bounding boxes, their centroids and the
 * distance gate. Distances are kept squared so that everything stays exact.
 */
module Geometry {

  /** A pixel position. */
  datatype Point = Point(x: int, y: int)

  /** An axis-aligned box `(left, top, right, bottom)` in pixels. */
  datatype Box = Box(left: int, top: int, right: int, bottom: int)

  /**
   * Halving that truncates toward zero, the effect of `int(s / 2.0)` on an
   * integer sum. Dafny's own `/` rounds down for negative odd sums instead.
   */
  function HalfTowardZero(s: int): (r: int)
    ensures 0 <= s ==> 0 <= r && (2 * r == s || 2 * r == s - 1)
    ensures s < 0 ==> r <= 0 && (2 * r == s || 2 * r == s + 1)
  {
    if 0 <= s then s / 2 else -((-s) / 2)
  }

  /** The centroid of a box: the midpoint of each axis, truncated toward zero. */
  function Centroid(b: Box): (c: Point)
    ensures 2 * c.x - (b.left + b.right) in {-1, 0, 1}
    ensures 2 * c.y - (b.top + b.bottom) in {-1, 0, 1}
    ensures (b.left + b.right) % 2 == 0 ==> 2 * c.x == b.left + b.right
    ensures (b.top + b.bottom) % 2 == 0 ==> 2 * c.y == b.top + b.bottom
  {
    Point(HalfTowardZero(b.left + b.right), HalfTowardZero(b.top + b.bottom))
  }

  /** Squared Euclidean distance between two points. */
  function Dist2(p: Point, q: Point): (d: int)
    ensures 0 <= d
    ensures d == 0 <==> p == q
  {
    (p.x - q.x) * (p.x - q.x) + (p.y - q.y) * (p.y - q.y)
  }

  /**
   * The matching gate: a pair is close enough when its distance is at most
   * the radius `maxDistance`, which may be any number. A negative radius
   * admits nothing.
   */
  predicate Within(d2: int, maxDistance: real) {
    0.0 <= maxDistance && d2 as real <= maxDistance * maxDistance
  }

  /**
   * `Within` on the squared distance agrees with comparing the (possibly
   * irrational) Euclidean distance `dist` against the radius.
   */
  lemma WithinIsDistanceGate(dist: real, d2: int, maxDistance: real)
    requires 0.0 <= dist && dist * dist == d2 as real
    ensures Within(d2, maxDistance) <==> 0.0 <= maxDistance && dist <= maxDistance
  {
    if 0.0 <= maxDistance {
      if dist <= maxDistance {
        SquareMonotone(dist, maxDistance);
      } else {
        SquareStrictlyMonotone(maxDistance, dist);
      }
    }
  }

  lemma SquareMonotone(a: real, b: real)
    requires 0.0 <= a <= b
    ensures a * a <= b * b
  {
    assert a * a <= a * b;
    assert a * b <= b * b;
  }

  lemma SquareStrictlyMonotone(a: real, b: real)
    requires 0.0 <= a < b
    ensures a * a < b * b
  {
    var d := b - a;
    assert b * b == a * a + 2.0 * a * d + d * d;
    assert 0.0 < d * d;
    assert 0.0 <= a * d;
  }
}
