/// Static helpers of the NavMath class: point ordering, index wrapping,
/// signed areas, determinants and float comparison.
module NavMath {
  import opened UnityMath

  datatype PointSortingMode = DescendingXY | DescendingYX | IncreasingXY | IncreasingYX | NoSorting

  /// ComparePoints: lexicographic comparison of two points by the signs of
  /// their coordinate differences; the descending modes negate, NoSorting is 0.
  function ComparePoints(p1: Vector2, p2: Vector2, mode: PointSortingMode): (r: int)
    ensures -1 <= r <= 1
    ensures mode == NoSorting ==> r == 0
  {
    var res1 := Sign(p1.x - p2.x);
    var res2 := Sign(p1.y - p2.y);
    match mode
    case DescendingXY => if res1 == 0 then -res2 else -res1
    case DescendingYX => if res2 == 0 then -res1 else -res2
    case IncreasingXY => if res1 == 0 then res2 else res1
    case IncreasingYX => if res2 == 0 then res1 else res2
    case NoSorting => 0
  }

  /// Strict lexicographic order, x first: the meaning of IncreasingXY.
  ghost predicate LessXY(p: Vector2, q: Vector2) {
    p.x < q.x || (p.x == q.x && p.y < q.y)
  }

  /// Strict lexicographic order, y first: the meaning of IncreasingYX.
  ghost predicate LessYX(p: Vector2, q: Vector2) {
    p.y < q.y || (p.y == q.y && p.x < q.x)
  }

  lemma ComparePointsLexicographic(p: Vector2, q: Vector2)
    ensures ComparePoints(p, q, IncreasingXY) < 0 <==> LessXY(p, q)
    ensures ComparePoints(p, q, IncreasingXY) > 0 <==> LessXY(q, p)
    ensures ComparePoints(p, q, IncreasingYX) < 0 <==> LessYX(p, q)
    ensures ComparePoints(p, q, IncreasingYX) > 0 <==> LessYX(q, p)
  {
  }

  /// Every mode but NoSorting calls two points equal exactly when they are.
  lemma ComparePointsZero(p: Vector2, q: Vector2, mode: PointSortingMode)
    requires mode != NoSorting
    ensures ComparePoints(p, q, mode) == 0 <==> p == q
  {
  }

  lemma ComparePointsAntisymmetric(p: Vector2, q: Vector2, mode: PointSortingMode)
    ensures ComparePoints(p, q, mode) == -ComparePoints(q, p, mode)
  {
  }

  lemma DescendingNegatesIncreasing(p: Vector2, q: Vector2)
    ensures ComparePoints(p, q, DescendingXY) == -ComparePoints(p, q, IncreasingXY)
    ensures ComparePoints(p, q, DescendingYX) == -ComparePoints(p, q, IncreasingYX)
  {
  }

  lemma ComparePointsTransitive(p: Vector2, q: Vector2, s: Vector2, mode: PointSortingMode)
    requires ComparePoints(p, q, mode) <= 0 && ComparePoints(q, s, mode) <= 0
    ensures ComparePoints(p, s, mode) <= 0
  {
  }

  /// The pair ordered as the mode asks: the swap performed by the
  /// LineSegment2D constructor, and what SortPoints evidently means to do.
  function SortedPair(p1: Vector2, p2: Vector2, mode: PointSortingMode): (r: (Vector2, Vector2))
    ensures r == (p1, p2) || r == (p2, p1)
    ensures ComparePoints(r.0, r.1, mode) <= 0
    ensures mode == NoSorting ==> r == (p1, p2)
    ensures ComparePoints(p1, p2, mode) <= 0 ==> r == (p1, p2)
  {
    var res1 := Sign(p1.x - p2.x);
    var res2 := Sign(p1.y - p2.y);
    var swap := match mode
      case DescendingXY => res1 == -1 || (res1 == 0 && res2 < 0)
      case DescendingYX => res2 == -1 || (res2 == 0 && res1 < 0)
      case IncreasingXY => res1 == 1 || (res1 == 0 && res2 > 0)
      case IncreasingYX => res2 == 1 || (res2 == 0 && res1 > 0)
      case NoSorting => false;
    if swap then (p2, p1) else (p1, p2)
  }

  /// The order of the arguments does not matter to the sorted pair.
  lemma SortedPairSymmetric(p: Vector2, q: Vector2, mode: PointSortingMode)
    requires mode != NoSorting
    ensures SortedPair(p, q, mode) == SortedPair(q, p, mode)
  {
  }

  /// SortPoints as written: the swaps act on the by-value copies, so the
  /// caller's two points are what it passed in.
  function SortPoints(p1: Vector2, p2: Vector2, mode: PointSortingMode): (caller: (Vector2, Vector2))
    ensures caller == (p1, p2)
  {
    var local := SortedPair(p1, p2, mode);
    (p1, p2)
  }

  /// The caller of SortPoints can still hold an unsorted pair.
  lemma SortPointsDoesNotSort()
    ensures ComparePoints(SortPoints(Vector2(1.0, 0.0), Zero, IncreasingXY).0,
                          SortPoints(Vector2(1.0, 0.0), Zero, IncreasingXY).1, IncreasingXY) == 1
    ensures ComparePoints(SortedPair(Vector2(1.0, 0.0), Zero, IncreasingXY).0,
                          SortedPair(Vector2(1.0, 0.0), Zero, IncreasingXY).1, IncreasingXY) == -1
  {
  }

  /// ClampListIndex: wraps an index one list length out of range back into it.
  function ClampListIndex(index: int, listSize: int): (r: int)
    ensures listSize > 0 && -listSize <= index < 2 * listSize ==> 0 <= r < listSize
    ensures 0 <= index < listSize ==> r == index
    ensures r == index || r == index - listSize || r == index + listSize
    ensures listSize > 0 && -listSize <= index < 2 * listSize ==> r == index % listSize
  {
    if index >= listSize then index - listSize
    else if index < 0 then listSize + index
    else index
  }

  function GetSignedTriangleArea(a: Vector2, b: Vector2, c: Vector2): real {
    (b.x - a.x) * (c.y - a.y) - (b.y - a.y) * (c.x - a.x)
  }

  lemma SignedAreaSwap(a: Vector2, b: Vector2, c: Vector2)
    ensures GetSignedTriangleArea(a, c, b) == -GetSignedTriangleArea(a, b, c)
    ensures GetSignedTriangleArea(b, c, a) == GetSignedTriangleArea(a, b, c)
  {
  }

  lemma SignedAreaDegenerate(a: Vector2, b: Vector2)
    ensures GetSignedTriangleArea(a, a, b) == 0.0
    ensures GetSignedTriangleArea(a, b, a) == 0.0
    ensures GetSignedTriangleArea(a, b, b) == 0.0
  {
  }

  /// Det2 of the matrix with columns (x1, y1) and (x2, y2).
  function Det2(x1: real, x2: real, y1: real, y2: real): real {
    x1 * y2 - y1 * x2
  }

  /// The vector overload of Det2.
  function Det2Vectors(a: Vector2, b: Vector2): real {
    a.x * b.y - a.y * b.x
  }

  lemma Det2Antisymmetric(a: Vector2, b: Vector2)
    ensures Det2Vectors(a, b) == -Det2Vectors(b, a)
    ensures Det2Vectors(a, b) == Det2(a.x, b.x, a.y, b.y)
    ensures Det2(a.x, b.x, a.y, b.y) == -Det2(b.x, a.x, b.y, a.y)
    ensures Det2Vectors(a, a) == 0.0
  {
  }

  /// The signed area is the determinant of the two edge vectors from a.
  lemma SignedAreaIsDet2(a: Vector2, b: Vector2, c: Vector2)
    ensures GetSignedTriangleArea(a, b, c) == Det2Vectors(Sub(b, a), Sub(c, a))
  {
  }

  const Epsilon: real := 0.00001

  /// AreFloatsEqual: the difference lies strictly inside (-EPSILON, EPSILON).
  predicate AreFloatsEqual(a: real, b: real) {
    var diff := a - b;
    diff < Epsilon && diff > -Epsilon
  }

  lemma AreFloatsEqualMeaning(a: real, b: real)
    ensures AreFloatsEqual(a, b) <==> Abs(a - b) < Epsilon
    ensures AreFloatsEqual(a, b) == AreFloatsEqual(b, a)
    ensures AreFloatsEqual(a, a)
    ensures AreFloatsEqual(a, b) ==> !AreFloatsEqual(a, b + 2.0 * Epsilon)
  {
  }
}

/// NavMath.PointsToSegmentList, kept apart from the rest of NavMath because
/// LineSegment2D itself depends on NavMath's point ordering.
module NavMathSegments {
  import opened UnityMath
  import opened NavMath
  import opened LineSegments
  import opened Options
  import opened Collections

  /// The endpoints, as the IncreasingXY constructor orders them, of the k-th
  /// side of the closed polygon through points.
  function SegmentEnds(points: seq<Vector2>, k: nat): (Vector2, Vector2)
    requires k < |points|
  {
    SortedPair(points[k], points[(k + 1) % |points|], IncreasingXY)
  }

  /// One IncreasingXY segment per side of the closed polygon, the closing side
  /// last; the sorting mode argument is ignored. The source indexes points[^1],
  /// which throws on an empty list: None.
  method PointsToSegmentList(points: seq<Vector2>, sortingMode: PointSortingMode)
    returns (r: Option<seq<LineSegment2D>>)
    ensures r.None? <==> |points| == 0
    ensures r.Some? ==> |r.value| == |points| && Distinct(r.value)
    ensures r.Some? ==> forall k :: 0 <= k < |points| ==>
      (r.value[k].P1, r.value[k].P2) == SegmentEnds(points, k) && r.value[k].SortingMode == IncreasingXY
    ensures r.Some? ==> forall k :: 0 <= k < |points| ==> fresh(r.value[k])
  {
    if |points| == 0 {
      return None;
    }
    var n := |points|;
    var segments: seq<LineSegment2D> := [];
    var i := 0;
    while i < n - 1
      invariant 0 <= i <= n - 1
      invariant |segments| == i && Distinct(segments)
      invariant forall k :: 0 <= k < i ==>
        (segments[k].P1, segments[k].P2) == SegmentEnds(points, k) && segments[k].SortingMode == IncreasingXY
      invariant forall k :: 0 <= k < i ==> fresh(segments[k])
    {
      assert (i + 1) % n == i + 1;
      var s := new LineSegment2D(points[i], points[i + 1], IncreasingXY);
      segments := segments + [s];
      i := i + 1;
    }
    assert (n - 1 + 1) % n == 0;
    var closing := new LineSegment2D(points[n - 1], points[0], IncreasingXY);
    segments := segments + [closing];
    return Some(segments);
  }
}
