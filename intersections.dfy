/// Intersections: classification of how two segments meet, the dot-product
/// segment test and the crossing-parity point-in-polygon test.
module Intersections {
  import opened UnityMath
  import opened NavMath
  import Options

  datatype IntersectionType =
    XIntersection | TIntersectionL | TIntersectionR | VIntersection |
    XOverlap | TOverlapL | TOverlapR | VOverlap | None

  /// The tolerance of GetIntersectionType.
  const IntersectionEpsilon: real := 0.0001

  /// Both segments lie on one line, up to the tolerance on the signed areas.
  predicate Colinear(p1: Vector2, p2: Vector2, q1: Vector2, q2: Vector2) {
    Abs(GetSignedTriangleArea(p1, q1, q2)) < IntersectionEpsilon &&
    Abs(GetSignedTriangleArea(q1, p1, p2)) < IntersectionEpsilon
  }

  /// Where the lines cross: t along p1 -> p2 and u along q1 -> q2.
  function CrossingParameters(p1: Vector2, p2: Vector2, q1: Vector2, q2: Vector2): (Single, Single) {
    var p1q1q2 := GetSignedTriangleArea(p1, q1, q2);
    var p2q1q2 := GetSignedTriangleArea(p2, q1, q2);
    var q1p1p2 := GetSignedTriangleArea(q1, p1, p2);
    var q2p1p2 := GetSignedTriangleArea(q2, p1, p2);
    (Divide(p1q1q2, p1q1q2 - p2q1q2), Divide(q1p1p2, q1p1p2 - q2p1p2))
  }

  predicate InUnitRange(f: Single) {
    AtLeast(f, 0.0) && AtMost(f, 1.0)
  }

  /// An endpoint of one segment coincides, by Unity's vector equality, with
  /// one of the other's, in one of the three combinations the source checks.
  predicate SharedEndpoint(p1: Vector2, p2: Vector2, q1: Vector2, q2: Vector2) {
    ApproxEqual(p2, q2) || ApproxEqual(p2, q1) || ApproxEqual(q2, p1)
  }

  /// The outcomes of the collinear branch.
  predicate ColinearOutcome(r: (IntersectionType, seq<Vector2>), p1: Vector2, q1: Vector2) {
    ((r.0 == VOverlap || r.0 == XOverlap) && r.1 == [p1, q1]) ||
    (r.0 == TOverlapL && r.1 == [p1]) ||
    (r.0 == TOverlapR && r.1 == [q1]) ||
    (r.0 == None && r.1 == [])
  }

  /// The parameters of the collinear branch: where q1 falls along p1 -> p2
  /// and where p1 falls along q1 -> q2.
  function OverlapParameters(p1: Vector2, p2: Vector2, q1: Vector2, q2: Vector2): (Single, Single) {
    var r := Sub(p2, p1);
    var s := Sub(q2, q1);
    (Divide(Dot(Sub(q1, p1), r), Dot(r, r)), Divide(Dot(Sub(p1, q1), s), Dot(s, s)))
  }

  /// The collinear branch of GetIntersectionType.
  function OverlapType(t0: Single, t1: Single, p1: Vector2, q1: Vector2): (r: (IntersectionType, seq<Vector2>))
    ensures ColinearOutcome(r, p1, q1)
    ensures r.0 == VOverlap <==> AbsLess(t0, IntersectionEpsilon) && AbsLess(t1, IntersectionEpsilon)
  {
    if AbsLess(t0, IntersectionEpsilon) && AbsLess(t1, IntersectionEpsilon) then
      (VOverlap, [p1, q1])
    else if Greater(t0, 0.0) && Less(t0, 1.0) && Greater(t1, 0.0) && Less(t1, 1.0) then
      (XOverlap, [p1, q1])
    else if (Less(t0, 0.0) || AtLeast(t0, 1.0)) && Greater(t1, 0.0) && Less(t1, 1.0) then
      (TOverlapL, [p1])
    else if (Less(t1, 0.0) || AtLeast(t1, 1.0)) && Greater(t0, 0.0) && Less(t0, 1.0) then
      (TOverlapR, [q1])
    else
      (None, [])
  }

  /// The kind of a crossing found inside both segments.
  function CrossingKind(t: Single, u: Single): (k: IntersectionType)
    ensures k in {XIntersection, TIntersectionL, TIntersectionR, VIntersection}
    ensures k == VIntersection <==> AbsLess(t, IntersectionEpsilon) && AbsLess(u, IntersectionEpsilon)
  {
    if AbsLess(t, IntersectionEpsilon) && AbsLess(u, IntersectionEpsilon) then VIntersection
    else if t == Finite(0.0) && Greater(u, 0.0) && Less(u, 1.0) then TIntersectionL
    else if AbsLess(u, IntersectionEpsilon) && Greater(t, 0.0) && Less(t, 1.0) then TIntersectionR
    else XIntersection
  }

  /// The point at parameter u along q1 -> q2.
  function CrossingPoint(u: real, q1: Vector2, q2: Vector2): Vector2 {
    Add(Scale(1.0 - u, q1), Scale(u, q2))
  }

  /// The crossing branch of GetIntersectionType, given the parameters of the
  /// crossing and whether the segments share an endpoint.
  function CrossingType(t: Single, u: Single, shared: bool, q1: Vector2, q2: Vector2): (r: (IntersectionType, seq<Vector2>))
    ensures |r.1| <= 1
    ensures |r.1| == 1 <==> InUnitRange(t) && InUnitRange(u)
    ensures |r.1| == 1 ==> u.Finite? && r.1[0] == CrossingPoint(u.value, q1, q2)
    ensures r.0 in {XIntersection, TIntersectionL, TIntersectionR, VIntersection, None}
    ensures |r.1| == 1 ==> (r.0 == None <==> shared)
    ensures r.1 == [] ==> r.0 == None
  {
    if InUnitRange(t) && InUnitRange(u) then
      (if shared then None else CrossingKind(t, u), [CrossingPoint(u.value, q1, q2)])
    else
      (None, [])
  }

  /// GetIntersectionType: the kind of meeting and the points reported.
  function GetIntersectionType(p1: Vector2, p2: Vector2, q1: Vector2, q2: Vector2): (r: (IntersectionType, seq<Vector2>))
    ensures Colinear(p1, p2, q1, q2) ==> ColinearOutcome(r, p1, q1)
    ensures !Colinear(p1, p2, q1, q2) ==>
      var (t, u) := CrossingParameters(p1, p2, q1, q2);
      (|r.1| == 1 <==> InUnitRange(t) && InUnitRange(u)) && |r.1| <= 1
    ensures !Colinear(p1, p2, q1, q2) && |r.1| == 1 ==>
      (r.0 == None <==> SharedEndpoint(p1, p2, q1, q2)) && r.0 != XOverlap && r.0 != TOverlapL &&
      r.0 != TOverlapR && r.0 != VOverlap
    ensures r.1 == [] ==> r.0 == None
  {
    if Colinear(p1, p2, q1, q2) then
      var (t0, t1) := OverlapParameters(p1, p2, q1, q2);
      OverlapType(t0, t1, p1, q1)
    else
      var (t, u) := CrossingParameters(p1, p2, q1, q2);
      CrossingType(t, u, SharedEndpoint(p1, p2, q1, q2), q1, q2)
  }

  /// The signed area is affine in its first point.
  lemma SignedAreaAffine(q1: Vector2, q2: Vector2, u: real, p1: Vector2, p2: Vector2)
    ensures GetSignedTriangleArea(Add(Scale(1.0 - u, q1), Scale(u, q2)), p1, p2)
         == (1.0 - u) * GetSignedTriangleArea(q1, p1, p2) + u * GetSignedTriangleArea(q2, p1, p2)
  {
  }

  /// The point reported for crossing segments lies on the line through p1 and
  /// p2, and on the segment q1 -> q2.
  lemma CrossingPointOnBoth(p1: Vector2, p2: Vector2, q1: Vector2, q2: Vector2)
    requires !Colinear(p1, p2, q1, q2)
    requires |GetIntersectionType(p1, p2, q1, q2).1| == 1
    ensures var x := GetIntersectionType(p1, p2, q1, q2).1[0];
      GetSignedTriangleArea(x, p1, p2) == 0.0 &&
      exists u :: 0.0 <= u <= 1.0 && x == CrossingPoint(u, q1, q2)
  {
    var u := CrossingParameters(p1, p2, q1, q2).1;
    var a, b := GetSignedTriangleArea(q1, p1, p2), GetSignedTriangleArea(q2, p1, p2);
    assert u.Finite? && a - b != 0.0 && u.value == a / (a - b);
    SignedAreaAffine(q1, q2, u.value, p1, p2);
    InterpolatedRoot(a, b, u.value);
  }

  /// The interpolation of a and b at a / (a - b) is zero.
  lemma InterpolatedRoot(a: real, b: real, u: real)
    requires a - b != 0.0 && u == a / (a - b)
    ensures (1.0 - u) * a + u * b == 0.0
  {
    assert (1.0 - u) * a + u * b == a - u * (a - b);
    assert u * (a - b) == a;
  }

  /// Segments that cross at the middle of both, with no shared endpoint,
  /// form an X.
  lemma MiddleCrossing(p1: Vector2, p2: Vector2, q1: Vector2, q2: Vector2)
    requires !Colinear(p1, p2, q1, q2) && !SharedEndpoint(p1, p2, q1, q2)
    requires CrossingParameters(p1, p2, q1, q2) == (Finite(0.5), Finite(0.5))
    ensures GetIntersectionType(p1, p2, q1, q2) == (XIntersection, [CrossingPoint(0.5, q1, q2)])
  {
    assert InUnitRange(Finite(0.5));
  }

  /// Two segments leaving the same point, whatever their directions, are a
  /// V-shaped overlap reported at that point twice.
  lemma SharedStartOverlap(p1: Vector2, p2: Vector2, q2: Vector2)
    requires Dot(Sub(p2, p1), Sub(p2, p1)) != 0.0 && Dot(Sub(q2, p1), Sub(q2, p1)) != 0.0
    ensures GetIntersectionType(p1, p2, p1, q2) == (VOverlap, [p1, p1])
  {
    SignedAreaDegenerate(p1, q2);
    SignedAreaDegenerate(p1, p2);
    assert Colinear(p1, p2, p1, q2);
    assert Sub(p1, p1) == Zero;
    assert OverlapParameters(p1, p2, p1, q2) == (Finite(0.0), Finite(0.0));
  }

  /// IsPointsOnDifferentSides as written: the normal is built in the x-z
  /// plane, as (-dir.z, dir.y, dir.x).
  predicate IsPointsOnDifferentSides(p1: Vector3, p2: Vector3, p3: Vector3, p4: Vector3) {
    var dir := Vector3(p2.x - p1.x, p2.y - p1.y, p2.z - p1.z);
    var normal := Vector3(-dir.z, dir.y, dir.x);
    var dot1 := normal.x * (p3.x - p1.x) + normal.y * (p3.y - p1.y) + normal.z * (p3.z - p1.z);
    var dot2 := normal.x * (p4.x - p1.x) + normal.y * (p4.y - p1.y) + normal.z * (p4.z - p1.z);
    dot1 * dot2 < 0.0
  }

  predicate AreLineSegmentsIntersectingDotProduct(p1: Vector3, p2: Vector3, p3: Vector3, p4: Vector3) {
    IsPointsOnDifferentSides(p1, p2, p3, p4) && IsPointsOnDifferentSides(p3, p4, p1, p2)
  }

  lemma DotProductTestSymmetric(p1: Vector3, p2: Vector3, p3: Vector3, p4: Vector3)
    ensures AreLineSegmentsIntersectingDotProduct(p1, p2, p3, p4) == AreLineSegmentsIntersectingDotProduct(p3, p4, p1, p2)
  {
  }

  /// For points of the plane (z = 0) the side test only compares heights:
  /// p3 and p4 are on different sides of the horizontal through p1, and the
  /// line is not horizontal.
  lemma PlanarSideTest(p1: Vector2, p2: Vector2, p3: Vector2, p4: Vector2)
    ensures IsPointsOnDifferentSides(ToVector3(p1), ToVector3(p2), ToVector3(p3), ToVector3(p4))
        <==> (p2.y - p1.y) * (p2.y - p1.y) * ((p3.y - p1.y) * (p4.y - p1.y)) < 0.0
  {
    var dy := p2.y - p1.y;
    assert (dy * (p3.y - p1.y)) * (dy * (p4.y - p1.y)) == dy * dy * ((p3.y - p1.y) * (p4.y - p1.y));
  }

  /// The test segment of IsPointInPolygon crosses the polygon's i-th side.
  predicate CrossesSide(polygon: seq<Vector2>, i: nat, from: Vector2, to: Vector2)
    requires i < |polygon|
  {
    AreLineSegmentsIntersectingDotProduct(ToVector3(from), ToVector3(to),
      ToVector3(polygon[i]), ToVector3(polygon[ClampListIndex(i + 1, |polygon|)]))
  }

  /// How many of the first n sides the test segment crosses.
  function Crossings(polygon: seq<Vector2>, n: nat, from: Vector2, to: Vector2): (c: nat)
    requires n <= |polygon|
    ensures c <= n
  {
    if n == 0 then 0
    else Crossings(polygon, n - 1, from, to) + (if CrossesSide(polygon, n - 1, from, to) then 1 else 0)
  }

  /// The vertex the first loop of IsPointInPolygon settles on: the first one
  /// with the greatest x.
  function Rightmost(polygon: seq<Vector2>): (v: Vector2)
    requires |polygon| > 0
    ensures v in polygon
    ensures forall j :: 0 <= j < |polygon| ==> polygon[j].x <= v.x
  {
    if |polygon| == 1 then polygon[0]
    else
      var m := Rightmost(polygon[..|polygon| - 1]);
      if polygon[|polygon| - 1].x > m.x then polygon[|polygon| - 1] else m
  }

  /// Where in the polygon the vertex Rightmost picks sits.
  function RightmostIndex(polygon: seq<Vector2>): (k: nat)
    requires |polygon| > 0
    ensures k < |polygon|
  {
    if |polygon| == 1 then 0
    else
      var n := |polygon| - 1;
      var m := RightmostIndex(polygon[..n]);
      if polygon[n].x > polygon[m].x then n else m
  }

  /// Rightmost picks the first vertex of greatest x: none before it is as
  /// far right.
  lemma {:induction false} RightmostIsFirst(polygon: seq<Vector2>)
    requires |polygon| > 0
    ensures var k := RightmostIndex(polygon);
      polygon[k] == Rightmost(polygon) && forall j :: 0 <= j < k ==> polygon[j].x < polygon[k].x
  {
    if |polygon| > 1 {
      var n := |polygon| - 1;
      var init := polygon[..n];
      RightmostIsFirst(init);
      var m := RightmostIndex(init);
      assert init[m] == polygon[m];
      assert forall j :: 0 <= j < m ==> init[j] == polygon[j];
    }
  }

  /// The result IsPointInPolygon computes; None where the source fails on
  /// polygonPoints[0].
  function PointInPolygon(polygon: seq<Vector2>, point: Vector2): (r: Options.Option<bool>)
    ensures r.None? <==> |polygon| == 0
  {
    if |polygon| == 0 then Options.None
    else
      var outside := Add(Rightmost(polygon), Vector2(10.0, 0.0));
      Options.Some(Crossings(polygon, |polygon|, point, outside) % 2 == 1)
  }

  /// IsPointInPolygon's first loop: the scan for the vertex of greatest x,
  /// keeping the first of equals.
  method MaxXPosVertex(polygon: seq<Vector2>) returns (maxXPosVertex: Vector2)
    requires |polygon| > 0
    ensures maxXPosVertex == Rightmost(polygon)
  {
    maxXPosVertex := polygon[0];
    var i := 1;
    while i < |polygon|
      invariant 1 <= i <= |polygon| && maxXPosVertex == Rightmost(polygon[..i])
    {
      assert polygon[..i + 1][..i] == polygon[..i];
      if polygon[i].x > maxXPosVertex.x {
        maxXPosVertex := polygon[i];
      }
      i := i + 1;
    }
    assert polygon[..i] == polygon;
  }

  /// IsPointInPolygon: the rightmost vertex, then the crossing count along
  /// the segment to a point 10 further right, then its parity.
  method IsPointInPolygon(polygon: seq<Vector2>, point: Vector2) returns (r: Options.Option<bool>)
    ensures r == PointInPolygon(polygon, point)
  {
    if |polygon| == 0 {
      return Options.None;
    }
    var maxXPosVertex := MaxXPosVertex(polygon);
    var pointOutside := Add(maxXPosVertex, Vector2(10.0, 0.0));
    var numberOfIntersections := 0;
    var i := 0;
    while i < |polygon|
      invariant 0 <= i <= |polygon|
      invariant numberOfIntersections == Crossings(polygon, i, point, pointOutside)
    {
      numberOfIntersections := numberOfIntersections + if CrossesSide(polygon, i, point, pointOutside) then 1 else 0;
      i := i + 1;
    }
    var isInside := true;
    if numberOfIntersections == 0 || numberOfIntersections % 2 == 0 {
      isInside := false;
    }
    return Options.Some(isInside);
  }

  /// A probe segment at one height crosses no side under the x-z normal.
  lemma {:induction false} LevelProbeCrossesNothing(polygon: seq<Vector2>, n: nat, from: Vector2, to: Vector2)
    requires n <= |polygon| && from.y == to.y
    ensures Crossings(polygon, n, from, to) == 0
  {
    if n > 0 {
      LevelProbeCrossesNothing(polygon, n - 1, from, to);
      PlanarSideTest(from, to, polygon[n - 1], polygon[ClampListIndex(n, |polygon|)]);
    }
  }

  /// As written, a point level with the rightmost vertex is never inside.
  lemma LevelPointIsOutside(polygon: seq<Vector2>, point: Vector2)
    requires |polygon| > 0 && point.y == Rightmost(polygon).y
    ensures PointInPolygon(polygon, point) == Options.Some(false)
  {
    LevelProbeCrossesNothing(polygon, |polygon|, point, Add(Rightmost(polygon), Vector2(10.0, 0.0)));
  }

  /// The side test in the plane, with the normal (-dir.y, dir.x): p3 and p4
  /// lie strictly on opposite sides of the line through p1 and p2.
  predicate OnDifferentSidesPlanar(p1: Vector2, p2: Vector2, p3: Vector2, p4: Vector2) {
    var dir := Sub(p2, p1);
    var normal := Vector2(-dir.y, dir.x);
    Dot(normal, Sub(p3, p1)) * Dot(normal, Sub(p4, p1)) < 0.0
  }

  predicate AreSegmentsCrossingPlanar(p1: Vector2, p2: Vector2, p3: Vector2, p4: Vector2) {
    OnDifferentSidesPlanar(p1, p2, p3, p4) && OnDifferentSidesPlanar(p3, p4, p1, p2)
  }

  /// The planar test is the orientation criterion for a proper crossing:
  /// each segment's endpoints turn opposite ways around the other.
  lemma PlanarCrossingIsOrientation(p1: Vector2, p2: Vector2, p3: Vector2, p4: Vector2)
    ensures AreSegmentsCrossingPlanar(p1, p2, p3, p4) <==>
      GetSignedTriangleArea(p1, p2, p3) * GetSignedTriangleArea(p1, p2, p4) < 0.0 &&
      GetSignedTriangleArea(p3, p4, p1) * GetSignedTriangleArea(p3, p4, p2) < 0.0
    ensures AreSegmentsCrossingPlanar(p1, p2, p3, p4) == AreSegmentsCrossingPlanar(p3, p4, p1, p2)
  {
    PlanarNormalIsArea(p1, p2, p3);
    PlanarNormalIsArea(p1, p2, p4);
    PlanarNormalIsArea(p3, p4, p1);
    PlanarNormalIsArea(p3, p4, p2);
  }

  lemma PlanarNormalIsArea(a: Vector2, b: Vector2, c: Vector2)
    ensures Dot(Vector2(-Sub(b, a).y, Sub(b, a).x), Sub(c, a)) == GetSignedTriangleArea(a, b, c)
  {
  }

  /// With the planar test a level probe does see a vertical side that
  /// straddles it.
  lemma LevelProbeCrossesPlanar(y: real, x0: real, x1: real, xs: real, below: real, above: real)
    requires x0 < xs < x1 && below < y < above
    ensures AreSegmentsCrossingPlanar(Vector2(x0, y), Vector2(x1, y), Vector2(xs, below), Vector2(xs, above))
  {
    PlanarCrossingIsOrientation(Vector2(x0, y), Vector2(x1, y), Vector2(xs, below), Vector2(xs, above));
    var d, e, f, g := x1 - x0, y - below, above - y, xs - x0;
    assert GetSignedTriangleArea(Vector2(x0, y), Vector2(x1, y), Vector2(xs, below)) == -(d * e);
    assert GetSignedTriangleArea(Vector2(x0, y), Vector2(x1, y), Vector2(xs, above)) == d * f;
    assert d * e > 0.0 && d * f > 0.0;
    assert -(d * e) * (d * f) < 0.0;
    var h := x1 - xs;
    var k := above - below;
    assert GetSignedTriangleArea(Vector2(xs, below), Vector2(xs, above), Vector2(x0, y)) == k * g;
    assert GetSignedTriangleArea(Vector2(xs, below), Vector2(xs, above), Vector2(x1, y)) == -(k * h);
    assert k * g > 0.0 && k * h > 0.0;
    assert (k * g) * -(k * h) < 0.0;
  }

  /// The test segment crosses the polygon's i-th side, by the planar test.
  predicate CrossesSidePlanar(polygon: seq<Vector2>, i: nat, from: Vector2, to: Vector2)
    requires i < |polygon|
  {
    AreSegmentsCrossingPlanar(from, to, polygon[i], polygon[ClampListIndex(i + 1, |polygon|)])
  }

  /// How many of the first n sides the test segment crosses, by the planar
  /// test.
  function CrossingsPlanar(polygon: seq<Vector2>, n: nat, from: Vector2, to: Vector2): (c: nat)
    requires n <= |polygon|
    ensures c <= n
  {
    if n == 0 then 0
    else CrossingsPlanar(polygon, n - 1, from, to) + (if CrossesSidePlanar(polygon, n - 1, from, to) then 1 else 0)
  }

  /// IsPointInPolygon as intended: the same probe and parity, with the
  /// planar side test.
  function PointInPolygonPlanar(polygon: seq<Vector2>, point: Vector2): (r: Options.Option<bool>)
    ensures r.None? <==> |polygon| == 0
  {
    if |polygon| == 0 then Options.None
    else
      var outside := Add(Rightmost(polygon), Vector2(10.0, 0.0));
      Options.Some(CrossingsPlanar(polygon, |polygon|, point, outside) % 2 == 1)
  }

  /// The axis-aligned rectangle [x0, x1] x [y0, y1], counter-clockwise from
  /// its lower left corner.
  function Rectangle(x0: real, x1: real, y0: real, y1: real): seq<Vector2> {
    [Vector2(x0, y0), Vector2(x1, y0), Vector2(x1, y1), Vector2(x0, y1)]
  }

  /// The rightmost vertex of a rectangle is the first one on the right
  /// side: its lower right corner.
  lemma RectangleRightmost(x0: real, x1: real, y0: real, y1: real)
    requires x0 < x1
    ensures Rightmost(Rectangle(x0, x1, y0, y1)) == Vector2(x1, y0)
  {
    var r := Rectangle(x0, x1, y0, y1);
    var a, b, c := r[..1], r[..2], r[..3];
    assert b[..1] == a && c[..2] == b && r[..3] == c;
    assert Rightmost(a) == Vector2(x0, y0);
    assert Rightmost(b) == Vector2(x1, y0);
    assert Rightmost(c) == Vector2(x1, y0);
  }

  /// As written, IsPointInPolygon finds no point strictly inside a
  /// rectangle inside it: the probe ends level with the lower side, and
  /// the x-z side test then sees no crossing.
  lemma RectangleInsideAsWritten(x0: real, x1: real, y0: real, y1: real, x: real, y: real)
    requires x0 < x < x1 && y0 < y < y1
    ensures PointInPolygon(Rectangle(x0, x1, y0, y1), Vector2(x, y)) == Options.Some(false)
  {
    var r, p := Rectangle(x0, x1, y0, y1), Vector2(x, y);
    RectangleRightmost(x0, x1, y0, y1);
    var t := Vector2(x1 + 10.0, y0);
    assert Add(Rightmost(r), Vector2(10.0, 0.0)) == t;
    PlanarSideTest(r[0], r[1], p, t);
    PlanarSideTest(r[1], r[2], p, t);
    PlanarSideTest(r[2], r[3], p, t);
    PlanarSideTest(r[3], r[0], p, t);
    assert (y - y1) * (y0 - y1) > 0.0;
    SquarePositive(y0 - y1);
    assert (y0 - y1) * (y0 - y1) * ((y - y1) * (y0 - y1)) >= 0.0;
    assert ClampListIndex(4, 4) == 0;
    assert !CrossesSide(r, 0, p, t) && !CrossesSide(r, 1, p, t) && !CrossesSide(r, 2, p, t) && !CrossesSide(r, 3, p, t);
    assert Crossings(r, 1, p, t) == 0 && Crossings(r, 2, p, t) == 0 && Crossings(r, 3, p, t) == 0;
    assert Crossings(r, 4, p, t) == 0;
  }

  /// The probe from inside a rectangle to the right of its lower right
  /// corner ends on the line of the lower side, so it does not cross it.
  lemma LowerSideNotCrossed(x0: real, x1: real, y0: real, x: real, y: real)
    ensures !AreSegmentsCrossingPlanar(Vector2(x, y), Vector2(x1 + 10.0, y0), Vector2(x0, y0), Vector2(x1, y0))
  {
    var p, t, a, b := Vector2(x, y), Vector2(x1 + 10.0, y0), Vector2(x0, y0), Vector2(x1, y0);
    PlanarCrossingIsOrientation(p, t, a, b);
    assert GetSignedTriangleArea(a, b, t) == 0.0;
  }

  /// The right side and the probe separate each other's ends.
  lemma RightSideCrossed(x1: real, y0: real, y1: real, x: real, y: real)
    requires x < x1 && y0 < y < y1
    ensures AreSegmentsCrossingPlanar(Vector2(x, y), Vector2(x1 + 10.0, y0), Vector2(x1, y0), Vector2(x1, y1))
  {
    var p, t, a, b := Vector2(x, y), Vector2(x1 + 10.0, y0), Vector2(x1, y0), Vector2(x1, y1);
    PlanarCrossingIsOrientation(p, t, a, b);
    var h, w := y1 - y0, x1 - x;
    assert GetSignedTriangleArea(a, b, p) == h * w && h * w > 0.0;
    assert GetSignedTriangleArea(a, b, t) == -(h * 10.0) && h * 10.0 > 0.0;
    assert (h * w) * -(h * 10.0) < 0.0;
    var d, e := y0 - y, x1 + 10.0 - x;
    assert GetSignedTriangleArea(p, t, a) == 10.0 * d;
    assert d < 0.0 && e > 0.0 && w > 0.0;
    assert e * (y1 - y) > 0.0 && d * w < 0.0;
    assert GetSignedTriangleArea(p, t, b) == e * (y1 - y) - d * w;
    assert (10.0 * d) * (e * (y1 - y) - d * w) < 0.0;
  }

  /// Both ends of the probe are below the upper side.
  lemma UpperSideNotCrossed(x0: real, x1: real, y0: real, y1: real, x: real, y: real)
    requires x0 < x1 && y0 < y < y1
    ensures !AreSegmentsCrossingPlanar(Vector2(x, y), Vector2(x1 + 10.0, y0), Vector2(x1, y1), Vector2(x0, y1))
  {
    var p, t, a, b := Vector2(x, y), Vector2(x1 + 10.0, y0), Vector2(x1, y1), Vector2(x0, y1);
    PlanarCrossingIsOrientation(p, t, a, b);
    var u, v, w := x0 - x1, y - y1, y0 - y1;
    assert GetSignedTriangleArea(a, b, p) == u * v && u * v > 0.0;
    assert GetSignedTriangleArea(a, b, t) == u * w && u * w > 0.0;
    assert (u * v) * (u * w) > 0.0;
  }

  /// Both ends of the probe are right of the left side.
  lemma LeftSideNotCrossed(x0: real, x1: real, y0: real, y1: real, x: real, y: real)
    requires x0 < x < x1 && y0 < y1
    ensures !AreSegmentsCrossingPlanar(Vector2(x, y), Vector2(x1 + 10.0, y0), Vector2(x0, y1), Vector2(x0, y0))
  {
    var p, t, a, b := Vector2(x, y), Vector2(x1 + 10.0, y0), Vector2(x0, y1), Vector2(x0, y0);
    PlanarCrossingIsOrientation(p, t, a, b);
    var h, u, v := y1 - y0, x - x0, x1 + 10.0 - x0;
    assert GetSignedTriangleArea(a, b, p) == h * u && h * u > 0.0;
    assert GetSignedTriangleArea(a, b, t) == h * v && h * v > 0.0;
    assert (h * u) * (h * v) > 0.0;
  }

  /// With the planar test the probe from a point strictly inside a
  /// rectangle crosses its right side and no other, so the point is inside.
  lemma RectangleInsidePlanar(x0: real, x1: real, y0: real, y1: real, x: real, y: real)
    requires x0 < x < x1 && y0 < y < y1
    ensures PointInPolygonPlanar(Rectangle(x0, x1, y0, y1), Vector2(x, y)) == Options.Some(true)
  {
    var r, p := Rectangle(x0, x1, y0, y1), Vector2(x, y);
    RectangleRightmost(x0, x1, y0, y1);
    var t := Vector2(x1 + 10.0, y0);
    assert Add(Rightmost(r), Vector2(10.0, 0.0)) == t;
    LowerSideNotCrossed(x0, x1, y0, x, y);
    RightSideCrossed(x1, y0, y1, x, y);
    UpperSideNotCrossed(x0, x1, y0, y1, x, y);
    LeftSideNotCrossed(x0, x1, y0, y1, x, y);
    assert ClampListIndex(4, 4) == 0;
    assert !CrossesSidePlanar(r, 0, p, t) && CrossesSidePlanar(r, 1, p, t);
    assert !CrossesSidePlanar(r, 2, p, t) && !CrossesSidePlanar(r, 3, p, t);
    assert CrossingsPlanar(r, 1, p, t) == 0 && CrossingsPlanar(r, 2, p, t) == 1 && CrossingsPlanar(r, 3, p, t) == 1;
    assert CrossingsPlanar(r, 4, p, t) == 1;
  }
}
