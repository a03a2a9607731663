/** Graham's scan over integer points (convex_hull.py).

    The source sorts by the key (atan2(dy, dx), dx*dx + dy*dy) where (dx, dy)
    is a point's offset from the lowest point. Every point lies in the closed
    upper half-plane of the lowest point, where the angle order is exactly the
    sign of a cross product, so the model compares points with integer
    arithmetic only. */
module Hull {
  import opened Geometry

  // ---------------------------------------------------------------------
  // Start point
  // ---------------------------------------------------------------------

  /** (a.y, a.x) <= (b.y, b.x) lexicographically: the key the source's
      `min` uses to choose the start point. */
  predicate LowerLeft(a: Point, b: Point) {
    a.y < b.y || (a.y == b.y && a.x <= b.x)
  }

  /** The lowest point, leftmost among the lowest. */
  function Lowest(points: seq<Point>): (s: Point)
    requires |points| > 0
    ensures s in points
    ensures forall p :: p in points ==> LowerLeft(s, p)
  {
    if |points| == 1 then points[0]
    else
      var rest := Lowest(points[1..]);
      assert forall p :: p in points ==> p == points[0] || p in points[1..];
      if LowerLeft(points[0], rest) then points[0] else rest
  }

  /** p lies on or above the horizontal through s, and not to the left of s
      when level with it: where every input point sits relative to the start. */
  predicate Above(s: Point, p: Point) {
    p.y > s.y || (p.y == s.y && p.x >= s.x)
  }

  predicate AllAbove(s: Point, ps: seq<Point>) {
    forall p :: p in ps ==> Above(s, p)
  }

  /** Only one point is the lowest-leftmost one, and everything lies above it. */
  lemma LowestIsStart(points: seq<Point>, s: Point)
    requires s in points
    requires forall p :: p in points ==> LowerLeft(s, p)
    ensures s == Lowest(points)
    ensures AllAbove(s, points)
  {
    var m := Lowest(points);
    assert LowerLeft(s, m) && LowerLeft(m, s);
  }

  // ---------------------------------------------------------------------
  // Angle order around the start point
  // ---------------------------------------------------------------------

  /** key(p) < key(q) for the sort key (angle, squared distance) around s.
      The start itself has key (0, 0), below every other key; otherwise a
      smaller polar angle is a positive turn s, p, q, and equal angles
      (a zero turn) are ordered by distance from s. */
  predicate AngleLess(s: Point, p: Point, q: Point)
    ensures AngleLess(s, p, q) ==> p != q && q != s
  {
    if p == s then q != s
    else if q == s then false
    else Cross(s, p, q) > 0 || (Cross(s, p, q) == 0 && Dist2(s, p) < Dist2(s, q))
  }

  /** No later element has a smaller key than an earlier one. */
  predicate SortedByAngle(s: Point, ps: seq<Point>) {
    forall i, j :: 0 <= i < j < |ps| ==> !AngleLess(s, ps[j], ps[i])
  }

  // ---------------------------------------------------------------------
  // The source's key, (angle, squared distance), as a reference order
  // ---------------------------------------------------------------------

  /** A stand-in for atan2(dy, dx) on the closed upper half-plane of s: it
      grows strictly with the angle, from 0 in the direction of +x through 1
      at +y to 2 at -x, and is 0 at s itself, as atan2(0, 0) is. */
  function PseudoAngle(s: Point, p: Point): (a: real)
    requires Above(s, p)
    ensures 0.0 <= a < 2.0
  {
    var dx, dy := p.x - s.x, p.y - s.y;
    if dx == 0 && dy == 0 then 0.0
    else if dx >= 0 then
      FracUnit(dy, dx + dy);
      (dy as real) / ((dx + dy) as real)
    else
      FracUnit(-dx, dy - dx);
      1.0 + ((-dx) as real) / ((dy - dx) as real)
  }

  /** The source's comparison of keys (angle, squared distance). */
  predicate KeyLess(s: Point, p: Point, q: Point)
    requires Above(s, p) && Above(s, q)
  {
    PseudoAngle(s, p) < PseudoAngle(s, q)
    || (PseudoAngle(s, p) == PseudoAngle(s, q) && Dist2(s, p) < Dist2(s, q))
  }

  /** The integer comparator orders points exactly as the source's key does. */
  lemma AngleLessIsKeyOrder(s: Point, p: Point, q: Point)
    requires Above(s, p) && Above(s, q)
    ensures AngleLess(s, p, q) <==> KeyLess(s, p, q)
  {
    Dist2Zero(s, p);
    Dist2Zero(s, q);
    if p != s && q != s {
      PseudoAngleOrder(s, p, q);
    }
  }

  /** Away from s, a larger pseudo-angle is a positive turn and an equal one
      is a zero turn. */
  lemma PseudoAngleOrder(s: Point, p: Point, q: Point)
    requires StrictlyAbove(s, p) && StrictlyAbove(s, q)
    ensures PseudoAngle(s, p) < PseudoAngle(s, q) <==> Cross(s, p, q) > 0
    ensures PseudoAngle(s, p) == PseudoAngle(s, q) <==> Cross(s, p, q) == 0
  {
    var px, qx := p.x - s.x, q.x - s.x;
    if px >= 0 && qx >= 0 {
      SameQuadrantOrder(s, p, q, false);
    } else if px < 0 && qx < 0 {
      SameQuadrantOrder(s, p, q, true);
    } else if px >= 0 {
      AcrossQuadrants(s, p, q);
    } else {
      AcrossQuadrants(s, q, p);
      CrossSwap(s, p, q);
    }
  }

  /** Both offsets on the same side of the vertical through s: the
      pseudo-angles are fractions compared by cross-multiplying. */
  lemma SameQuadrantOrder(s: Point, p: Point, q: Point, left: bool)
    requires StrictlyAbove(s, p) && StrictlyAbove(s, q)
    requires if left then p.x < s.x && q.x < s.x else p.x >= s.x && q.x >= s.x
    ensures PseudoAngle(s, p) < PseudoAngle(s, q) <==> Cross(s, p, q) > 0
    ensures PseudoAngle(s, p) == PseudoAngle(s, q) <==> Cross(s, p, q) == 0
  {
    var px, py, qx, qy := p.x - s.x, p.y - s.y, q.x - s.x, q.y - s.y;
    var c := Cross(s, p, q);
    assert c == px * qy - py * qx;
    if left {
      LeftCrossMultiplied(px, py, qx, qy);
      FracOrder(-px, py - px, -qx, qy - qx, c);
    } else {
      RightCrossMultiplied(px, py, qx, qy);
      FracOrder(py, px + py, qy, qx + qy, c);
    }
  }

  lemma RightCrossMultiplied(px: int, py: int, qx: int, qy: int)
    ensures py * (qx + qy) - qy * (px + py) == -(px * qy - py * qx)
  {
    assert py * (qx + qy) == py * qx + py * qy;
    assert qy * (px + py) == qy * px + qy * py;
  }

  lemma LeftCrossMultiplied(px: int, py: int, qx: int, qy: int)
    ensures (-px) * (qy - qx) - (-qx) * (py - px) == -(px * qy - py * qx)
  {
    assert (-px) * (qy - qx) == px * qx - px * qy;
    assert (-qx) * (py - px) == px * qx - qx * py;
  }

  /** a/b below c/d exactly when a*d - c*b, written out as -t, is negative. */
  lemma FracOrder(a: int, b: int, c: int, d: int, t: int)
    requires b > 0 && d > 0 && a * d - c * b == -t
    ensures (a as real) / (b as real) < (c as real) / (d as real) <==> t > 0
    ensures (a as real) / (b as real) == (c as real) / (d as real) <==> t == 0
  {
    FracCompare(a, b, c, d);
  }

  /** An offset right of the vertical through s has a smaller pseudo-angle
      than one left of it, and turns positively to it. */
  lemma AcrossQuadrants(s: Point, p: Point, q: Point)
    requires StrictlyAbove(s, p) && StrictlyAbove(s, q)
    requires p.x >= s.x && q.x < s.x
    ensures PseudoAngle(s, p) < PseudoAngle(s, q) && Cross(s, p, q) > 0
  {
    var px, py, qx, qy := p.x - s.x, p.y - s.y, q.x - s.x, q.y - s.y;
    assert Cross(s, p, q) == px * qy - py * qx;
    HalfPlaneTurn(px, py, qx, qy);
    FracUnit(py, px + py);
    FracUnit(-qx, qy - qx);
  }

  /** A direction in the first quadrant turns positively to one in the second. */
  lemma HalfPlaneTurn(px: int, py: int, qx: int, qy: int)
    requires px >= 0 && py >= 0 && (px > 0 || py > 0)
    requires qx < 0 && qy > 0
    ensures px * qy - py * qx > 0
  {
    MulSigns(-qx, py);
    if px > 0 {
      MulSigns(px, qy);
    }
  }

  /** A fraction of a positive whole lies in the unit interval. */
  lemma FracUnit(a: int, b: int)
    requires 0 <= a <= b && b > 0
    ensures 0.0 <= (a as real) / (b as real) <= 1.0
    ensures a > 0 ==> (a as real) / (b as real) > 0.0
    ensures a < b ==> (a as real) / (b as real) < 1.0
  {
  }

  /** Comparing two fractions with positive denominators by cross-multiplying. */
  lemma FracCompare(a: int, b: int, c: int, d: int)
    requires b > 0 && d > 0
    ensures (a as real) / (b as real) < (c as real) / (d as real) <==> a * d < c * b
    ensures (a as real) / (b as real) == (c as real) / (d as real) <==> a * d == c * b
  {
    var x, y := (a as real) / (b as real), (c as real) / (d as real);
    var bd := (b * d) as real;
    assert x * (b as real) == a as real;
    assert y * (d as real) == c as real;
    assert x * bd == (a * d) as real;
    assert y * bd == (c * b) as real;
    assert bd > 0.0;
  }

  /** Two vector identities of the plane: for offsets P, Q, R from s,
      (P x R) Q == (Q x R) P + (P x Q) R, read componentwise. */
  lemma CrossIdentity(s: Point, p: Point, q: Point, r: Point)
    ensures Cross(s, p, r) * (q.y - s.y) == Cross(s, q, r) * (p.y - s.y) + Cross(s, p, q) * (r.y - s.y)
    ensures Cross(s, p, r) * (q.x - s.x) == Cross(s, q, r) * (p.x - s.x) + Cross(s, p, q) * (r.x - s.x)
  {
    var px, py, qx, qy, rx, ry := p.x - s.x, p.y - s.y, q.x - s.x, q.y - s.y, r.x - s.x, r.y - s.y;
    PlaneIdentity(px, py, qx, qy, rx, ry);
    PlaneIdentity(py, px, qy, qx, ry, rx);
  }

  /** One component of the identity above, on plain integers. */
  lemma PlaneIdentity(px: int, py: int, qx: int, qy: int, rx: int, ry: int)
    ensures (px * ry - py * rx) * qy == (qx * ry - qy * rx) * py + (px * qy - py * qx) * ry
  {
    assert (px * ry - py * rx) * qy == px * ry * qy - py * rx * qy;
    assert (qx * ry - qy * rx) * py == qx * ry * py - qy * rx * py;
    assert (px * qy - py * qx) * ry == px * qy * ry - py * qx * ry;
  }

  lemma MulSigns(a: int, b: int)
    ensures a > 0 && b > 0 ==> a * b > 0
    ensures a > 0 && b < 0 ==> a * b < 0
    ensures a * b == 0 <==> a == 0 || b == 0
  {
  }

  /** Strictly above s: in the half-plane and distinct from s. */
  predicate StrictlyAbove(s: Point, p: Point) {
    Above(s, p) && p != s
  }

  /** Two offsets in the half-open upper half-plane with a zero turn point
      the same way, so they make the same turn with any third point. */
  lemma SameDirection(s: Point, p: Point, q: Point, r: Point)
    requires StrictlyAbove(s, p) && StrictlyAbove(s, q)
    requires Cross(s, p, q) == 0
    ensures Cross(s, p, r) > 0 <==> Cross(s, q, r) > 0
    ensures Cross(s, p, r) == 0 <==> Cross(s, q, r) == 0
  {
    CrossIdentity(s, p, q, r);
    var px, py, qx, qy := p.x - s.x, p.y - s.y, q.x - s.x, q.y - s.y;
    assert Cross(s, p, q) == px * qy - py * qx;
    if qy > 0 {
      if py == 0 {
        MulSigns(px, qy);
        assert false;
      }
      assert Cross(s, p, r) * qy == Cross(s, q, r) * py;
      MulSigns(Cross(s, p, r), qy);
      MulSigns(Cross(s, q, r), py);
      MulSigns(-Cross(s, p, r), qy);
      MulSigns(-Cross(s, q, r), py);
    } else {
      assert qy == 0 && qx > 0;
      MulSigns(py, qx);
      assert py == 0 && px > 0;
      assert Cross(s, p, r) * qx == Cross(s, q, r) * px;
      MulSigns(Cross(s, p, r), qx);
      MulSigns(Cross(s, q, r), px);
      MulSigns(-Cross(s, p, r), qx);
      MulSigns(-Cross(s, q, r), px);
    }
  }

  /** Positive turns compose: a smaller angle than a smaller angle is smaller. */
  lemma TurnsCompose(s: Point, p: Point, q: Point, r: Point)
    requires StrictlyAbove(s, p) && StrictlyAbove(s, q) && StrictlyAbove(s, r)
    requires Cross(s, p, q) > 0 && Cross(s, q, r) > 0
    ensures Cross(s, p, r) > 0
  {
    CrossIdentity(s, p, q, r);
    var px, py, qx, qy, rx, ry := p.x - s.x, p.y - s.y, q.x - s.x, q.y - s.y, r.x - s.x, r.y - s.y;
    assert Cross(s, p, q) == px * qy - py * qx;
    assert Cross(s, q, r) == qx * ry - qy * rx;
    if qy == 0 {
      MulSigns(py, qx);
      assert false;
    }
    var a, b := Cross(s, q, r) * py, Cross(s, p, q) * ry;
    MulSigns(Cross(s, q, r), py);
    MulSigns(Cross(s, p, q), ry);
    if py == 0 && ry == 0 {
      MulSigns(qy, rx);
      assert false;
    }
    assert a + b > 0;
    MulSigns(Cross(s, p, r), qy);
  }

  /** AngleLess is a strict order on the half-plane above the start. */
  lemma AngleLessTransitive(s: Point, p: Point, q: Point, r: Point)
    requires Above(s, p) && Above(s, q) && Above(s, r)
    requires AngleLess(s, p, q) && AngleLess(s, q, r)
    ensures AngleLess(s, p, r)
  {
    if p != s {
      assert q != s && r != s;
      var cpq, cqr := Cross(s, p, q), Cross(s, q, r);
      if cpq == 0 {
        SameDirection(s, p, q, r);
      } else if cqr == 0 {
        SameDirection(s, q, r, p);
        CrossSwap(s, p, q);
        CrossSwap(s, p, r);
        CrossSwap(s, q, p);
        CrossSwap(s, r, p);
      } else {
        TurnsCompose(s, p, q, r);
      }
    }
  }

  /** Distinct points always compare: equal keys mean equal points, so the
      order of the sorted sequence does not depend on the sort's stability. */
  lemma AngleLessTotal(s: Point, p: Point, q: Point)
    requires Above(s, p) && Above(s, q)
    requires p != q
    ensures AngleLess(s, p, q) || AngleLess(s, q, p)
  {
    if p != s && q != s && Cross(s, p, q) == 0 && Dist2(s, p) == Dist2(s, q) {
      SameDirectionEqualLength(s, p, q);
    }
    CrossSwap(s, p, q);
  }

  lemma SameDirectionEqualLength(s: Point, p: Point, q: Point)
    requires StrictlyAbove(s, p) && StrictlyAbove(s, q)
    requires Cross(s, p, q) == 0 && Dist2(s, p) == Dist2(s, q)
    ensures p == q
  {
    var px, py, qx, qy := p.x - s.x, p.y - s.y, q.x - s.x, q.y - s.y;
    assert px * qy == py * qx;
    var n := qx * qx + qy * qy;
    assert px * px + py * py == n;
    if qy == 0 {
      MulSigns(py, qx);
      assert py == 0;
      SquaresEqual(px, qx);
    } else {
      if py == 0 {
        MulSigns(px, qy);
        assert false;
      }
      ParallelNorms(px, py, qx, qy);
      assert qy * qy * n == py * py * n;
      MulSigns(qy, qy);
      assert n > 0;
      CancelFactor(qy * qy, py * py, n);
      SquaresEqual(py, qy);
      assert (px - qx) * qy == px * qy - qx * qy;
      MulSigns(px - qx, qy);
    }
  }

  /** Parallel offsets have norms in the ratio of their squared y parts. */
  lemma ParallelNorms(px: int, py: int, qx: int, qy: int)
    requires px * qy == py * qx
    ensures qy * qy * (px * px + py * py) == py * py * (qx * qx + qy * qy)
  {
    calc {
      qy * qy * (px * px + py * py);
      (px * qy) * (px * qy) + (py * qy) * (py * qy);
      (py * qx) * (py * qx) + (py * qy) * (py * qy);
      py * py * (qx * qx + qy * qy);
    }
  }

  lemma CancelFactor(a: int, b: int, n: int)
    requires a * n == b * n && n > 0
    ensures a == b
  {
    assert (a - b) * n == a * n - b * n;
    MulSigns(a - b, n);
    MulSigns(b - a, n);
    assert (b - a) * n == b * n - a * n;
  }

  lemma SquaresEqual(a: int, b: int)
    requires a * a == b * b
    requires a >= 0 && b >= 0
    ensures a == b
  {
    if a < b {
      MulMonotone(a, b);
    } else if b < a {
      MulMonotone(b, a);
    }
  }

  lemma MulMonotone(a: int, b: int)
    requires 0 <= a < b
    ensures a * a < b * b
  {
    assert a * a <= a * b;
    assert a * b < b * b;
  }

  // ---------------------------------------------------------------------
  // The sort: a stable insertion sort under AngleLess
  // ---------------------------------------------------------------------

  /** Inserts p into a sorted sequence after every element whose key is not
      larger, as a stable sort places a later input element. */
  function Insert(s: Point, p: Point, ps: seq<Point>): (r: seq<Point>)
    ensures multiset(r) == multiset(ps) + multiset{p}
    ensures |r| == |ps| + 1
  {
    if ps == [] then [p]
    else if AngleLess(s, p, ps[0]) then [p] + ps
    else
      assert ps == [ps[0]] + ps[1..];
      [ps[0]] + Insert(s, p, ps[1..])
  }

  /** The points ordered by polar angle around s, nearer points first on a tie. */
  function AngleSort(s: Point, ps: seq<Point>): (r: seq<Point>)
    ensures multiset(r) == multiset(ps)
    ensures |r| == |ps|
  {
    if ps == [] then []
    else
      assert ps == ps[..|ps| - 1] + [ps[|ps| - 1]];
      Insert(s, ps[|ps| - 1], AngleSort(s, ps[..|ps| - 1]))
  }

  lemma {:induction false} InsertSorted(s: Point, p: Point, ps: seq<Point>)
    requires Above(s, p) && AllAbove(s, ps)
    requires SortedByAngle(s, ps)
    ensures SortedByAngle(s, Insert(s, p, ps))
  {
    if ps == [] {
    } else if AngleLess(s, p, ps[0]) {
      InsertFrontSorted(s, p, ps);
    } else {
      var tail := ps[1..];
      assert forall x :: x in tail ==> x in ps;
      InsertSorted(s, p, tail);
      InsertBehindSorted(s, p, ps);
    }
  }

  /** p goes in front when it sorts before the first element. */
  lemma InsertFrontSorted(s: Point, p: Point, ps: seq<Point>)
    requires Above(s, p) && AllAbove(s, ps)
    requires SortedByAngle(s, ps) && |ps| > 0 && AngleLess(s, p, ps[0])
    ensures SortedByAngle(s, [p] + ps)
  {
    var r := [p] + ps;
    forall i, j | 0 <= i < j < |r|
      ensures !AngleLess(s, r[j], r[i])
    {
      if i == 0 {
        assert r[j] == ps[j - 1];
        if AngleLess(s, ps[j - 1], p) {
          AngleLessTransitive(s, ps[j - 1], p, ps[0]);
        }
      } else {
        assert r[i] == ps[i - 1] && r[j] == ps[j - 1];
      }
    }
  }

  /** Otherwise the first element stays in front of the rest with p inserted. */
  lemma InsertBehindSorted(s: Point, p: Point, ps: seq<Point>)
    requires |ps| > 0 && !AngleLess(s, p, ps[0])
    requires SortedByAngle(s, ps) && SortedByAngle(s, Insert(s, p, ps[1..]))
    ensures SortedByAngle(s, [ps[0]] + Insert(s, p, ps[1..]))
  {
    var t := Insert(s, p, ps[1..]);
    forall x | x in t
      ensures !AngleLess(s, x, ps[0])
    {
      assert x in multiset(t);
      if x != p {
        HeadFirst(s, ps, x);
      }
    }
    ConsSorted(s, ps[0], t);
  }

  /** A sorted sequence stays sorted behind a head no element sorts before. */
  lemma ConsSorted(s: Point, h: Point, t: seq<Point>)
    requires SortedByAngle(s, t)
    requires forall x :: x in t ==> !AngleLess(s, x, h)
    ensures SortedByAngle(s, [h] + t)
  {
    var r := [h] + t;
    forall i, j | 0 <= i < j < |r|
      ensures !AngleLess(s, r[j], r[i])
    {
      assert r[j] == t[j - 1];
      if i > 0 {
        assert r[i] == t[i - 1];
      }
    }
  }

  /** No later element of a sorted sequence sorts before its first one. */
  lemma HeadFirst(s: Point, ps: seq<Point>, x: Point)
    requires SortedByAngle(s, ps) && |ps| > 0 && x in multiset(ps[1..])
    ensures !AngleLess(s, x, ps[0])
  {
    var k :| 0 <= k < |ps[1..]| && ps[1..][k] == x;
    assert ps[k + 1] == x;
  }

  lemma {:induction false} AngleSortSorted(s: Point, ps: seq<Point>)
    requires AllAbove(s, ps)
    ensures SortedByAngle(s, AngleSort(s, ps))
  {
    if ps != [] {
      var init := ps[..|ps| - 1];
      assert forall x :: x in init ==> x in ps;
      AngleSortSorted(s, init);
      var sorted := AngleSort(s, init);
      assert forall x :: x in sorted ==> x in multiset(init);
      InsertSorted(s, ps[|ps| - 1], sorted);
    }
  }

  /** Sorting by angle around the lowest point puts that point first. */
  lemma {:induction false} SortedStartsAtStart(s: Point, ps: seq<Point>)
    requires s in ps
    requires SortedByAngle(s, ps)
    ensures ps[0] == s
  {
    var m :| 0 <= m < |ps| && ps[m] == s;
    if m > 0 {
      assert !AngleLess(s, ps[m], ps[0]);
    }
  }

  /** Sorting a sequence already in key order leaves it unchanged. */
  lemma {:induction false} SortedFixed(s: Point, ps: seq<Point>)
    requires SortedByAngle(s, ps)
    ensures AngleSort(s, ps) == ps
  {
    if ps != [] {
      var init := ps[..|ps| - 1];
      SortedInit(s, ps);
      SortedFixed(s, init);
      LastBehind(s, ps);
    }
  }

  /** A last element with no smaller key than any other is inserted last. */
  lemma LastBehind(s: Point, ps: seq<Point>)
    requires ps != []
    requires forall i :: 0 <= i < |ps| - 1 ==> !AngleLess(s, ps[|ps| - 1], ps[i])
    ensures Insert(s, ps[|ps| - 1], ps[..|ps| - 1]) == ps
  {
    var init := ps[..|ps| - 1];
    assert forall i :: 0 <= i < |init| ==> init[i] == ps[i];
    InsertLast(s, ps[|ps| - 1], init);
    assert ps == init + [ps[|ps| - 1]];
  }

  /** Dropping the last element keeps a sequence in key order, and the last
      element has no smaller key than any other. */
  lemma SortedInit(s: Point, ps: seq<Point>)
    requires ps != [] && SortedByAngle(s, ps)
    ensures SortedByAngle(s, ps[..|ps| - 1])
    ensures forall i :: 0 <= i < |ps| - 1 ==> !AngleLess(s, ps[|ps| - 1], ps[i])
  {
    var init := ps[..|ps| - 1];
    assert forall i :: 0 <= i < |init| ==> init[i] == ps[i];
  }

  /** Sorting twice sorts once: the sort is idempotent. */
  lemma SortIdempotent(s: Point, ps: seq<Point>)
    requires AllAbove(s, ps)
    ensures AngleSort(s, AngleSort(s, ps)) == AngleSort(s, ps)
  {
    AngleSortSorted(s, ps);
    SortedFixed(s, AngleSort(s, ps));
  }

  /** Inserting a point that no element's key exceeds appends it. */
  lemma {:induction false} InsertLast(s: Point, p: Point, ps: seq<Point>)
    requires forall i :: 0 <= i < |ps| ==> !AngleLess(s, p, ps[i])
    ensures Insert(s, p, ps) == ps + [p]
  {
    if ps != [] {
      InsertLast(s, p, ps[1..]);
      assert ps == [ps[0]] + ps[1..];
    }
  }

  // ---------------------------------------------------------------------
  // The stack pass
  // ---------------------------------------------------------------------

  /** Every three consecutive points make a strict left turn. */
  predicate LeftTurns(h: seq<Point>) {
    forall i :: 0 <= i < |h| - 2 ==> Cross(h[i], h[i + 1], h[i + 2]) > 0
  }

  /** All points lie on one line. */
  predicate Collinear(ps: seq<Point>) {
    forall a, b, c :: a in ps && b in ps && c in ps ==> Cross(a, b, c) == 0
  }

  /** a is obtained from b by deleting elements, keeping the order. */
  predicate Subsequence(a: seq<Point>, b: seq<Point>)
    decreases |b|
  {
    if a == [] then true
    else if b == [] then false
    else
      || (a[|a| - 1] == b[|b| - 1] && Subsequence(a[..|a| - 1], b[..|b| - 1]))
      || Subsequence(a, b[..|b| - 1])
  }

  lemma SubsequencePush(a: seq<Point>, b: seq<Point>, x: Point)
    requires Subsequence(a, b)
    ensures Subsequence(a + [x], b + [x])
  {
    assert (a + [x])[..|a|] == a;
    assert (b + [x])[..|b|] == b;
  }

  lemma {:induction false} SubsequenceDropLast(a: seq<Point>, b: seq<Point>)
    requires |a| > 0 && Subsequence(a, b)
    ensures Subsequence(a[..|a| - 1], b)
    decreases |b|
  {
    var a' := a[..|a| - 1];
    if a' != [] {
      var b' := b[..|b| - 1];
      if a[|a| - 1] == b[|b| - 1] && Subsequence(a', b') {
        assert Subsequence(a', b');
      } else {
        SubsequenceDropLast(a, b');
      }
    }
  }

  lemma {:induction false} SubsequenceContained(a: seq<Point>, b: seq<Point>)
    requires Subsequence(a, b)
    ensures |a| <= |b|
    ensures forall x :: x in a ==> x in b
    decreases |b|
  {
    if a != [] {
      var b' := b[..|b| - 1];
      assert forall x :: x in b' ==> x in b;
      if a[|a| - 1] == b[|b| - 1] && Subsequence(a[..|a| - 1], b') {
        SubsequenceContained(a[..|a| - 1], b');
        assert a == a[..|a| - 1] + [a[|a| - 1]];
      } else {
        SubsequenceContained(a, b');
      }
    }
  }

  lemma {:induction false} SubsequenceTruncate(a: seq<Point>, b: seq<Point>, n: nat)
    requires n <= |a| && Subsequence(a, b)
    ensures Subsequence(a[..n], b)
    decreases |a| - n
  {
    if n < |a| {
      SubsequenceDropLast(a, b);
      SubsequenceTruncate(a[..|a| - 1], b, n);
      assert a[..|a| - 1][..n] == a[..n];
    } else {
      assert a[..n] == a;
    }
  }

  /** The stack after the pops for p: drop the top while the top two entries
      and p fail to make a strict left turn, never dropping the bottom entry. */
  function Popped(stack: seq<Point>, p: Point): (h: seq<Point>)
    ensures |h| <= |stack| && h == stack[..|h|]
    ensures |stack| > 0 ==> |h| > 0
    ensures |h| <= 1 || Cross(h[|h| - 2], h[|h| - 1], p) > 0
    decreases |stack|
  {
    if |stack| > 1 && Cross(stack[|stack| - 2], stack[|stack| - 1], p) <= 0 then
      var h := Popped(stack[..|stack| - 1], p);
      assert stack[..|stack| - 1][..|h|] == stack[..|h|];
      h
    else stack
  }

  /** The inner loop of the stack pass, as the source runs it: every entry it
      removes made no strict left turn with the entry below it and p. */
  method PopNonLeft(stack: seq<Point>, p: Point) returns (h: seq<Point>)
    ensures h == Popped(stack, p)
    ensures |h| <= |stack| && h == stack[..|h|]
    ensures |stack| > 0 ==> |h| > 0
    ensures |h| <= 1 || Cross(h[|h| - 2], h[|h| - 1], p) > 0
    ensures forall j {:trigger stack[j]} :: |h| <= j < |stack| ==> 1 <= j && Cross(stack[j - 1], stack[j], p) <= 0
  {
    h := stack;
    while |h| > 1 && Cross(h[|h| - 2], h[|h| - 1], p) <= 0
      invariant |h| <= |stack| && h == stack[..|h|]
      invariant |stack| > 0 ==> |h| > 0
      invariant forall j {:trigger stack[j]} :: |h| <= j < |stack| ==> 1 <= j && Cross(stack[j - 1], stack[j], p) <= 0
      invariant Popped(h, p) == Popped(stack, p)
      decreases |h|
    {
      assert Popped(h, p) == Popped(h[..|h| - 1], p);
      h := h[..|h| - 1];
    }
  }

  /** What the stack holds after the first k points of the angle order have
      been processed. */
  predicate ScanInvariant(sorted: seq<Point>, k: nat, hull: seq<Point>)
    requires k <= |sorted|
  {
    && (if k < 2 then k else 2) <= |hull| <= k
    && LeftTurns(hull)
    && Subsequence(hull, sorted[..k])
    && (k > 0 ==> hull[0] == sorted[0] && hull[|hull| - 1] == sorted[k - 1])
    && (Collinear(sorted) && k >= 2 ==> hull == [sorted[0], sorted[k - 1]])
  }

  /** The stack after every point of sorted has been pushed, each one after
      the pops it causes: the stack pass as a function of its input. */
  function ScanOf(sorted: seq<Point>): (hull: seq<Point>)
    ensures |hull| <= |sorted|
    ensures |sorted| > 0 ==> |hull| > 0 && hull[|hull| - 1] == sorted[|sorted| - 1]
  {
    if sorted == [] then []
    else
      var p := sorted[|sorted| - 1];
      Popped(ScanOf(sorted[..|sorted| - 1]), p) + [p]
  }

  /** The stack pass of Graham's scan over points already in angle order:
      before pushing each point, pop while the top two entries and the point
      fail to make a strict left turn. */
  method Scan(sorted: seq<Point>) returns (hull: seq<Point>)
    ensures hull == ScanOf(sorted)
    ensures |hull| >= if |sorted| < 2 then |sorted| else 2
    ensures LeftTurns(hull)
    ensures Subsequence(hull, sorted)
    ensures |sorted| > 0 ==> hull[0] == sorted[0] && hull[|hull| - 1] == sorted[|sorted| - 1]
    ensures Collinear(sorted) && |sorted| >= 2 ==> hull == [sorted[0], sorted[|sorted| - 1]]
  {
    hull := [];
    var k := 0;
    while k < |sorted|
      invariant 0 <= k <= |sorted|
      invariant hull == ScanOf(sorted[..k])
    {
      var p := sorted[k];
      var h := PopNonLeft(hull, p);
      ScanOfPush(sorted, k);
      hull := h + [p];
      k := k + 1;
    }
    assert sorted[..k] == sorted;
    ScanOfInvariant(sorted, k);
    ScanDone(sorted, hull);
  }

  /** The stack after the first k points of the angle order satisfies the
      scan invariant. */
  lemma {:induction false} ScanOfInvariant(sorted: seq<Point>, k: nat)
    requires k <= |sorted|
    ensures ScanInvariant(sorted, k, ScanOf(sorted[..k]))
  {
    if k == 0 {
      assert sorted[..0] == [];
    } else {
      ScanOfInvariant(sorted, k - 1);
      ScanOfStep(sorted, k - 1);
    }
  }

  /** One more point of the angle order keeps the scan invariant. */
  lemma ScanOfStep(sorted: seq<Point>, k: nat)
    requires k < |sorted| && ScanInvariant(sorted, k, ScanOf(sorted[..k]))
    ensures ScanInvariant(sorted, k + 1, ScanOf(sorted[..k + 1]))
  {
    ScanAdvance(sorted, k, ScanOf(sorted[..k]));
    ScanOfPush(sorted, k);
  }

  /** Popping for the next point and pushing it keeps the scan invariant. */
  lemma ScanAdvance(sorted: seq<Point>, k: nat, hull: seq<Point>)
    requires k < |sorted| && ScanInvariant(sorted, k, hull)
    ensures ScanInvariant(sorted, k + 1, Popped(hull, sorted[k]) + [sorted[k]])
  {
    ScanStep(sorted, k, hull, Popped(hull, sorted[k]));
  }

  /** The invariant after the last point gives the stack pass's result. */
  lemma ScanDone(sorted: seq<Point>, hull: seq<Point>)
    requires ScanInvariant(sorted, |sorted|, hull)
    ensures |hull| >= if |sorted| < 2 then |sorted| else 2
    ensures LeftTurns(hull)
    ensures Subsequence(hull, sorted)
    ensures |sorted| > 0 ==> hull[0] == sorted[0] && hull[|hull| - 1] == sorted[|sorted| - 1]
    ensures Collinear(sorted) && |sorted| >= 2 ==> hull == [sorted[0], sorted[|sorted| - 1]]
  {
    assert sorted[..|sorted|] == sorted;
  }

  /** Processing one more point of the angle order pops for it and pushes it. */
  lemma ScanOfPush(sorted: seq<Point>, k: nat)
    requires k < |sorted|
    ensures ScanOf(sorted[..k + 1]) == Popped(ScanOf(sorted[..k]), sorted[k]) + [sorted[k]]
  {
    assert sorted[..k + 1][..k] == sorted[..k];
  }

  /** Pushing the next point after the pops keeps the scan invariant. */
  lemma ScanStep(sorted: seq<Point>, k: nat, hull: seq<Point>, h: seq<Point>)
    requires k < |sorted| && ScanInvariant(sorted, k, hull)
    requires |h| <= |hull| && h == hull[..|h|]
    requires |hull| > 0 ==> |h| > 0
    requires |h| <= 1 || Cross(h[|h| - 2], h[|h| - 1], sorted[k]) > 0
    ensures ScanInvariant(sorted, k + 1, h + [sorted[k]])
  {
    var p := sorted[k];
    var h' := h + [p];
    assert (if k + 1 < 2 then k + 1 else 2) <= |h'| <= k + 1;
    SubsequenceTruncate(hull, sorted[..k], |h|);
    SubsequencePush(h, sorted[..k], p);
    assert sorted[..k + 1] == sorted[..k] + [p];
    LeftTurnsPrefix(hull, |h|);
    LeftTurnsPush(h, p);
    assert k + 1 > 0 ==> h'[0] == sorted[0] && h'[|h'| - 1] == sorted[k];
    if k >= 2 {
      CollinearPops(sorted, k, hull, h);
    }
  }

  lemma LeftTurnsPrefix(h: seq<Point>, n: nat)
    requires n <= |h| && LeftTurns(h)
    ensures LeftTurns(h[..n])
  {
    forall i | 0 <= i < n - 2
      ensures Cross(h[..n][i], h[..n][i + 1], h[..n][i + 2]) > 0
    {
      assert h[..n][i] == h[i] && h[..n][i + 1] == h[i + 1] && h[..n][i + 2] == h[i + 2];
    }
  }

  lemma LeftTurnsPush(h: seq<Point>, p: Point)
    requires LeftTurns(h)
    requires |h| <= 1 || Cross(h[|h| - 2], h[|h| - 1], p) > 0
    ensures LeftTurns(h + [p])
  {
    var h' := h + [p];
    forall i | 0 <= i < |h'| - 2
      ensures Cross(h'[i], h'[i + 1], h'[i + 2]) > 0
    {
      if i + 2 < |h| {
        assert h'[i] == h[i] && h'[i + 1] == h[i + 1] && h'[i + 2] == h[i + 2];
      }
    }
  }

  /** On collinear input the two-entry stack always loses its top. */
  lemma CollinearPops(sorted: seq<Point>, k: nat, hull: seq<Point>, h: seq<Point>)
    requires 2 <= k < |sorted|
    requires Collinear(sorted) ==> hull == [sorted[0], sorted[k - 1]]
    requires |h| <= |hull| && h == hull[..|h|] && |h| > 0
    requires |h| <= 1 || Cross(h[|h| - 2], h[|h| - 1], sorted[k]) > 0
    ensures Collinear(sorted) ==> h == [sorted[0]]
  {
    if Collinear(sorted) {
      assert Cross(sorted[0], sorted[k - 1], sorted[k]) == 0;
    }
  }

  /** What convex_hull returns for three or more points: a hull that starts
      at the lowest point, ends at the last point of the angle order, turns
      strictly left at every inner vertex and keeps the angle order of the
      input points it retains. */
  predicate IsScanHull(points: seq<Point>, hull: seq<Point>)
    requires |points| > 0
  {
    var s := Lowest(points);
    var sorted := AngleSort(s, points);
    && 2 <= |hull| <= |points|
    && (forall v :: v in hull ==> v in points)
    && hull[0] == s
    && hull[|hull| - 1] == sorted[|sorted| - 1]
    && LeftTurns(hull)
    && Subsequence(hull, sorted)
    && (Collinear(points) ==> hull == [s, sorted[|sorted| - 1]])
  }

  /** The result of convex_hull as a function of its input: fewer than three
      points unchanged, otherwise the stack pass over the angle order. */
  function HullOf(points: seq<Point>): (hull: seq<Point>)
    ensures |hull| <= |points|
  {
    if |points| < 3 then points else ScanOf(AngleSort(Lowest(points), points))
  }

  /** Graham's scan: fewer than three points come back unchanged. */
  method ConvexHull(points: seq<Point>) returns (hull: seq<Point>)
    ensures hull == HullOf(points)
    ensures |points| < 3 ==> hull == points
    ensures |points| >= 3 ==> IsScanHull(points, hull)
  {
    if |points| < 3 {
      return points;
    }
    var sorted := AngleSort(Lowest(points), points);
    hull := Scan(sorted);
    ScanHull(points, hull);
  }

  /** The stack pass over the angle order of three or more points gives a
      hull of those points. */
  lemma ScanHull(points: seq<Point>, hull: seq<Point>)
    requires |points| >= 3
    requires var sorted := AngleSort(Lowest(points), points);
      && |hull| >= 2
      && LeftTurns(hull)
      && Subsequence(hull, sorted)
      && hull[0] == sorted[0] && hull[|hull| - 1] == sorted[|sorted| - 1]
      && (Collinear(sorted) ==> hull == [sorted[0], sorted[|sorted| - 1]])
    ensures IsScanHull(points, hull)
  {
    var s := Lowest(points);
    var sorted := AngleSort(s, points);
    StartSortsFirst(points);
    SameMembers(sorted, points);
    SubsequenceContained(hull, sorted);
  }

  /** The angle order around the lowest point starts with that point. */
  lemma StartSortsFirst(points: seq<Point>)
    requires |points| > 0
    ensures AngleSort(Lowest(points), points)[0] == Lowest(points)
  {
    var s := Lowest(points);
    LowestIsStart(points, s);
    var sorted := AngleSort(s, points);
    AngleSortSorted(s, points);
    assert s in multiset(sorted);
    SortedStartsAtStart(s, sorted);
  }

  /** Sequences with the same multiset have the same members. */
  lemma SameMembers(a: seq<Point>, b: seq<Point>)
    requires multiset(a) == multiset(b)
    ensures forall x :: x in a <==> x in b
    ensures Collinear(a) <==> Collinear(b)
  {
    assert forall x :: x in a <==> x in multiset(a);
    assert forall x :: x in b <==> x in multiset(b);
  }

  /** A square: all four corners are fence vertices, in counter-clockwise
      order from the lowest-leftmost corner. */
  lemma SquareHull()
    ensures HullOf([Point(0, 0), Point(4, 0), Point(4, 4), Point(0, 4)])
      == [Point(0, 0), Point(4, 0), Point(4, 4), Point(0, 4)]
  {
    var square := [Point(0, 0), Point(4, 0), Point(4, 4), Point(0, 4)];
    LowestIsStart(square, Point(0, 0));
    SquareSorted();
    SquareScan();
  }

  /** The square's corners, listed from the start counter-clockwise, are
      already in key order. */
  lemma SquareSorted()
    ensures AngleSort(Point(0, 0), [Point(0, 0), Point(4, 0), Point(4, 4), Point(0, 4)])
      == [Point(0, 0), Point(4, 0), Point(4, 4), Point(0, 4)]
  {
    var square := [Point(0, 0), Point(4, 0), Point(4, 4), Point(0, 4)];
    SquareInOrder();
    SortedFixed(Point(0, 0), square);
  }

  lemma SquareInOrder()
    ensures SortedByAngle(Point(0, 0), [Point(0, 0), Point(4, 0), Point(4, 4), Point(0, 4)])
  {
    var square := [Point(0, 0), Point(4, 0), Point(4, 4), Point(0, 4)];
    SquareTurns();
    forall i, j | 0 <= i < j < |square|
      ensures !AngleLess(Point(0, 0), square[j], square[i])
    {
    }
  }

  lemma SquareTurns()
    ensures var a, b, c, d := Point(0, 0), Point(4, 0), Point(4, 4), Point(0, 4);
      && !AngleLess(a, b, a) && !AngleLess(a, c, a) && !AngleLess(a, d, a)
      && !AngleLess(a, c, b) && !AngleLess(a, d, b) && !AngleLess(a, d, c)
  {
  }

  /** The stack pass over the square pops nothing: every turn is left. */
  lemma SquareScan()
    ensures ScanOf([Point(0, 0), Point(4, 0), Point(4, 4), Point(0, 4)])
      == [Point(0, 0), Point(4, 0), Point(4, 4), Point(0, 4)]
  {
    var a, b, c, d := Point(0, 0), Point(4, 0), Point(4, 4), Point(0, 4);
    SquareScanPrefix();
    assert [a, b, c, d][..3] == [a, b, c];
    assert Popped([a, b, c], d) == [a, b, c];
  }

  /** Three coincident points: the scan pops the middle copy, so the fence
      is the point twice. */
  lemma CoincidentHull(a: Point)
    ensures HullOf([a, a, a]) == [a, a]
  {
    assert Lowest([a, a, a]) == a;
    CoincidentSorted(a);
    CoincidentScan(a);
  }

  lemma CoincidentSorted(a: Point)
    ensures AngleSort(a, [a, a, a]) == [a, a, a]
  {
    assert SortedByAngle(a, [a, a, a]);
    SortedFixed(a, [a, a, a]);
  }

  lemma CoincidentScan(a: Point)
    ensures ScanOf([a, a, a]) == [a, a]
  {
    assert [a, a, a][..2] == [a, a] && [a, a][..1] == [a];
    assert ScanOf([a]) == [a];
    assert ScanOf([a, a]) == [a, a];
    assert Popped([a, a], a) == [a];
  }

  lemma SquareScanPrefix()
    ensures ScanOf([Point(0, 0), Point(4, 0), Point(4, 4)])
      == [Point(0, 0), Point(4, 0), Point(4, 4)]
  {
    var a, b, c := Point(0, 0), Point(4, 0), Point(4, 4);
    assert [a, b, c][..2] == [a, b] && [a, b][..1] == [a];
    assert ScanOf([a]) == [a];
    assert ScanOf([a, b]) == [a, b];
  }
}
