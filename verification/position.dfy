/** The point classifier of position.py: an edge-by-edge "left of every
    edge" test. It walks the edges (i, (i + 1) mod n) in order and stops at
    the first edge that has the query strictly to its right (outside, -1) or
    collinear with it and inside the edge's bounding box (boundary, 0); a
    query no edge stops at is inside (1). This is a containment test only for
    counter-clockwise convex polygons, and the model follows it as written. */
module Position {
  import opened Geometry
  import opened Options

  const Outside: int := -1
  const Boundary: int := 0
  const Inside: int := 1

  function Min(a: int, b: int): int { if a <= b then a else b }
  function Max(a: int, b: int): int { if a <= b then b else a }

  /** q lies in the axis-aligned bounding box of the segment a b. */
  predicate InBox(a: Point, b: Point, q: Point) {
    Min(a.x, b.x) <= q.x <= Max(a.x, b.x) && Min(a.y, b.y) <= q.y <= Max(a.y, b.y)
  }

  /** The start and end vertex of edge i, wrapping around at the end. */
  function EdgeStart(polygon: seq<Point>, i: nat): Point
    requires i < |polygon|
  {
    polygon[i]
  }

  function EdgeEnd(polygon: seq<Point>, i: nat): Point
    requires i < |polygon|
  {
    polygon[(i + 1) % |polygon|]
  }

  /** The query is strictly to the right of edge i. */
  predicate RightOfEdge(polygon: seq<Point>, q: Point, i: nat)
    requires i < |polygon|
  {
    Cross(EdgeStart(polygon, i), EdgeEnd(polygon, i), q) < 0
  }

  /** The query is collinear with edge i and inside its bounding box. */
  predicate OnEdge(polygon: seq<Point>, q: Point, i: nat)
    requires i < |polygon|
  {
    Cross(EdgeStart(polygon, i), EdgeEnd(polygon, i), q) == 0
    && InBox(EdgeStart(polygon, i), EdgeEnd(polygon, i), q)
  }

  /** Edge i ends the walk. */
  predicate Decides(polygon: seq<Point>, q: Point, i: nat)
    requires i < |polygon|
  {
    RightOfEdge(polygon, q, i) || OnEdge(polygon, q, i)
  }

  /** The loop of point_position from edge i on. */
  function Walk(polygon: seq<Point>, q: Point, i: nat): (r: int)
    requires i <= |polygon|
    ensures r == Outside || r == Boundary || r == Inside
    decreases |polygon| - i
  {
    if i == |polygon| then Inside
    else if RightOfEdge(polygon, q, i) then Outside
    else if OnEdge(polygon, q, i) then Boundary
    else Walk(polygon, q, i + 1)
  }

  /** point_position: polygons with fewer than three vertices are rejected
      as outside before any edge is examined. */
  function PointPosition(polygon: seq<Point>, q: Point): (r: int)
    ensures r == Outside || r == Boundary || r == Inside
    ensures |polygon| < 3 ==> r == Outside
  {
    if |polygon| < 3 then Outside else Walk(polygon, q, 0)
  }

  // ---------------------------------------------------------------------
  // The first deciding edge
  // ---------------------------------------------------------------------

  /** No edge before i decides. */
  predicate UndecidedBefore(polygon: seq<Point>, q: Point, i: nat)
    requires i <= |polygon|
  {
    forall j :: 0 <= j < i ==> !Decides(polygon, q, j)
  }

  /** The index of the first edge at or after i that decides, or the
      number of edges when none does. */
  function FirstDecider(polygon: seq<Point>, q: Point, i: nat): (e: nat)
    requires i <= |polygon|
    ensures i <= e <= |polygon|
    ensures e < |polygon| ==> Decides(polygon, q, e)
    ensures forall j :: i <= j < e ==> !Decides(polygon, q, j)
    decreases |polygon| - i
  {
    if i == |polygon| || Decides(polygon, q, i) then i else FirstDecider(polygon, q, i + 1)
  }

  /** The walk from edge i stops at the first deciding edge. */
  lemma {:induction false} WalkStopsAtFirstDecider(polygon: seq<Point>, q: Point, i: nat)
    requires i <= |polygon|
    ensures var e := FirstDecider(polygon, q, i);
      Walk(polygon, q, i) == if e == |polygon| then Inside
        else if RightOfEdge(polygon, q, e) then Outside
        else Boundary
    decreases |polygon| - i
  {
    if i < |polygon| && !Decides(polygon, q, i) {
      WalkStopsAtFirstDecider(polygon, q, i + 1);
    }
  }

  /** The result is decided by the first edge, in index order, that has the
      query strictly to its right (outside) or collinear within its box
      (boundary); inside exactly when no edge decides. */
  lemma FirstDecidingEdge(polygon: seq<Point>, q: Point)
    requires |polygon| >= 3
    ensures PointPosition(polygon, q) == Inside <==> UndecidedBefore(polygon, q, |polygon|)
    ensures PointPosition(polygon, q) == Outside <==>
      exists e :: 0 <= e < |polygon| && RightOfEdge(polygon, q, e) && UndecidedBefore(polygon, q, e)
    ensures PointPosition(polygon, q) == Boundary <==>
      exists e :: 0 <= e < |polygon| && OnEdge(polygon, q, e) && UndecidedBefore(polygon, q, e)
  {
    var n := |polygon|;
    var e := FirstDecider(polygon, q, 0);
    WalkStopsAtFirstDecider(polygon, q, 0);
    assert UndecidedBefore(polygon, q, e);
    // Any edge that decides with no earlier decider is the first decider.
    assert forall e' :: 0 <= e' < n && Decides(polygon, q, e') && UndecidedBefore(polygon, q, e') ==> e' == e;
    if e < n {
      assert !UndecidedBefore(polygon, q, n) by {
        assert Decides(polygon, q, e);
      }
    }
  }

  /** The first vertex is always on the boundary: the first edge starts there. */
  lemma FirstVertexIsBoundary(polygon: seq<Point>)
    requires |polygon| >= 3
    ensures PointPosition(polygon, polygon[0]) == Boundary
  {
  }

  // ---------------------------------------------------------------------
  // Closing the polygon
  // ---------------------------------------------------------------------

  lemma ModSmall(a: nat, m: nat)
    requires a < m
    ensures a % m == a
  {
  }

  lemma ModSelf(m: nat)
    requires m > 0
    ensures m % m == 0
  {
  }

  /** Every edge of the polygon is also an edge of its closed copy. */
  lemma ClosedEdge(polygon: seq<Point>, i: nat)
    requires i < |polygon|
    ensures EdgeStart(polygon + [polygon[0]], i) == EdgeStart(polygon, i)
    ensures EdgeEnd(polygon + [polygon[0]], i) == EdgeEnd(polygon, i)
  {
    var n := |polygon|;
    ModSmall(i + 1, n + 1);
    if i + 1 < n {
      ModSmall(i + 1, n);
    } else {
      ModSelf(n);
    }
  }

  /** The extra edge of the closed copy runs from the first vertex to itself. */
  lemma ClosingEdge(polygon: seq<Point>)
    requires |polygon| >= 1
    ensures EdgeStart(polygon + [polygon[0]], |polygon|) == polygon[0]
    ensures EdgeEnd(polygon + [polygon[0]], |polygon|) == polygon[0]
  {
    ModSelf(|polygon| + 1);
  }

  lemma {:induction false} WalkClosed(polygon: seq<Point>, q: Point, i: nat)
    requires |polygon| >= 1 && i <= |polygon|
    requires q != polygon[0]
    ensures Walk(polygon + [polygon[0]], q, i) == Walk(polygon, q, i)
    decreases |polygon| - i
  {
    var n := |polygon|;
    if i == n {
      ClosingEdge(polygon);
      assert !InBox(polygon[0], polygon[0], q);
    } else {
      ClosedEdge(polygon, i);
      WalkClosed(polygon, q, i + 1);
    }
  }

  /** Repeating the first vertex at the end, as the caller does before
      classifying, adds only the degenerate edge from that vertex to itself,
      and never changes the result of a polygon with three or more vertices. */
  lemma ClosingKeepsPosition(polygon: seq<Point>, q: Point)
    requires |polygon| >= 3
    ensures PointPosition(polygon + [polygon[0]], q) == PointPosition(polygon, q)
  {
    var closed := polygon + [polygon[0]];
    if q == polygon[0] {
      FirstVertexIsBoundary(polygon);
      FirstVertexIsBoundary(closed);
    } else {
      WalkClosed(polygon, q, 0);
    }
  }

  // ---------------------------------------------------------------------
  // The two-vertex hull closed to [a, b, a]
  // ---------------------------------------------------------------------

  /** A segment closed to a triangle [a, b, a] has no interior, yet a query
      on the line ab beyond the segment passes every edge and is reported
      inside; a query on the segment is boundary and any other point is
      outside. */
  lemma SegmentPosition(a: Point, b: Point, q: Point)
    ensures Cross(a, b, q) == 0 && !InBox(a, b, q) ==> PointPosition([a, b, a], q) == Inside
    ensures Cross(a, b, q) == 0 && InBox(a, b, q) ==> PointPosition([a, b, a], q) == Boundary
    ensures Cross(a, b, q) != 0 ==> PointPosition([a, b, a], q) == Outside
  {
    var poly := [a, b, a];
    assert EdgeStart(poly, 0) == a && EdgeEnd(poly, 0) == b;
    assert EdgeStart(poly, 1) == b && EdgeEnd(poly, 1) == a;
    assert EdgeStart(poly, 2) == a && EdgeEnd(poly, 2) == a;
    CrossReverse(a, b, q);
    var c := Cross(a, b, q);
    if c == 0 && !InBox(a, b, q) {
      assert !Decides(poly, q, 0);
      assert !Decides(poly, q, 1);
      assert !Decides(poly, q, 2);
      assert Walk(poly, q, 2) == Walk(poly, q, 3) == Inside;
      assert Walk(poly, q, 0) == Walk(poly, q, 1) == Walk(poly, q, 2);
    } else if c < 0 {
      assert RightOfEdge(poly, q, 0);
    } else if c > 0 {
      assert !Decides(poly, q, 0);
      assert RightOfEdge(poly, q, 1);
      assert Walk(poly, q, 1) == Outside;
      assert Walk(poly, q, 0) == Walk(poly, q, 1);
    }
  }

  /** The closed fence of coincident obstacles, [a, a, a]: a itself is on the
      boundary and every other point is inside. */
  lemma CoincidentPosition(a: Point, q: Point)
    ensures q == a ==> PointPosition([a, a, a], q) == Boundary
    ensures q != a ==> PointPosition([a, a, a], q) == Inside
  {
    CrossDegenerate(a, a, q);
    assert InBox(a, a, q) <==> q == a;
    SegmentPosition(a, a, q);
  }

  // ---------------------------------------------------------------------
  // The epsilon tests on integer coordinates
  // ---------------------------------------------------------------------

  /** The tolerance of point_position. */
  const Eps: real := 0.000000001

  function AbsReal(r: real): real { if r < 0.0 then -r else r }

  /** The edge test of the source with its tolerance, evaluated on exact
      reals: outside when the cross product is below -eps, boundary when its
      magnitude is below eps and the query lies in the eps-padded box, and
      undecided (None) otherwise. */
  function EpsEdgeVerdict(a: Point, b: Point, q: Point): (r: Option<int>)
  {
    var cross := Cross(a, b, q) as real;
    if cross < -Eps then Some(Outside)
    else if AbsReal(cross) < Eps
      && (Min(a.x, b.x) as real) - Eps <= q.x as real <= (Max(a.x, b.x) as real) + Eps
      && (Min(a.y, b.y) as real) - Eps <= q.y as real <= (Max(a.y, b.y) as real) + Eps
    then Some(Boundary)
    else None
  }

  /** With integer coordinates every tolerance test is an exact test: the
      cross product is an integer, so it is below -eps exactly when it is
      negative and within eps of zero exactly when it is zero, and an integer
      within eps of an integer interval lies in the interval. */
  lemma EpsTestsAreExact(a: Point, b: Point, q: Point)
    ensures EpsEdgeVerdict(a, b, q) == Some(Outside) <==> Cross(a, b, q) < 0
    ensures EpsEdgeVerdict(a, b, q) == Some(Boundary) <==> Cross(a, b, q) == 0 && InBox(a, b, q)
    ensures EpsEdgeVerdict(a, b, q) == None <==> Cross(a, b, q) > 0 || (Cross(a, b, q) == 0 && !InBox(a, b, q))
  {
    IntWithinEps(Min(a.x, b.x), q.x, Max(a.x, b.x));
    IntWithinEps(Min(a.y, b.y), q.y, Max(a.y, b.y));
  }

  lemma IntWithinEps(lo: int, v: int, hi: int)
    ensures ((lo as real) - Eps <= v as real <= (hi as real) + Eps) <==> lo <= v <= hi
  {
  }
}
