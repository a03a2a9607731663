/** Integer points and the scalar cross product shared by the hull builder
    and the point classifier. Every coordinate the application produces is an
    integer (a canvas click, a parsed CSV field or an edited dialog value), so
    points are modelled as pairs of unbounded integers. */
module Geometry {

  datatype Point = Point(x: int, y: int)

  /** Twice the signed area of the triangle o, a, b: the z component of
      (a - o) x (b - o). Positive for a counter-clockwise (left) turn. */
  function Cross(o: Point, a: Point, b: Point): int {
    (a.x - o.x) * (b.y - o.y) - (a.y - o.y) * (b.x - o.x)
  }

  /** Squared Euclidean distance from o to p. */
  function Dist2(o: Point, p: Point): int {
    (p.x - o.x) * (p.x - o.x) + (p.y - o.y) * (p.y - o.y)
  }

  /** Swapping the two outer arguments flips the sign of the turn. */
  lemma CrossSwap(o: Point, a: Point, b: Point)
    ensures Cross(o, a, b) == -Cross(o, b, a)
  {
  }

  /** The turn is unchanged when its three points are rotated. */
  lemma CrossRotate(o: Point, a: Point, b: Point)
    ensures Cross(o, a, b) == Cross(a, b, o)
  {
    var ux, uy, vx, vy := a.x - o.x, a.y - o.y, b.x - o.x, b.y - o.y;
    calc {
      Cross(a, b, o);
      (vx - ux) * (-uy) - (vy - uy) * (-ux);
      { assert (vx - ux) * (-uy) == ux * uy - vx * uy; }
      { assert (vy - uy) * (-ux) == ux * uy - ux * vy; }
      ux * vy - uy * vx;
      Cross(o, a, b);
    }
  }

  /** Reversing a segment flips the side every point is on. */
  lemma CrossReverse(a: Point, b: Point, q: Point)
    ensures Cross(b, a, q) == -Cross(a, b, q)
  {
    var ux, uy, vx, vy := b.x - a.x, b.y - a.y, q.x - a.x, q.y - a.y;
    calc {
      Cross(b, a, q);
      (-ux) * (vy - uy) - (-uy) * (vx - ux);
      { assert (-ux) * (vy - uy) == ux * uy - ux * vy; }
      { assert (-uy) * (vx - ux) == ux * uy - uy * vx; }
      -(ux * vy - uy * vx);
      -Cross(a, b, q);
    }
  }

  /** Three points of which two coincide make no turn at all. */
  lemma CrossDegenerate(o: Point, a: Point, b: Point)
    requires o == a || o == b || a == b
    ensures Cross(o, a, b) == 0
  {
  }

  /** The squared distance is zero exactly at o itself. */
  lemma Dist2Zero(o: Point, p: Point)
    ensures Dist2(o, p) >= 0
    ensures Dist2(o, p) == 0 <==> p == o
  {
    var dx, dy := p.x - o.x, p.y - o.y;
    if dx != 0 {
      assert dx * dx > 0;
    }
    if dy != 0 {
      assert dy * dy > 0;
    }
  }
}
