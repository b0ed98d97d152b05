/// LineSegment2D: a segment whose endpoints the constructor orders by a
/// PointSortingMode, with the orientation test, the sweep-line comparison,
/// the point-on-segment test and segment intersection.
module LineSegments {
  import opened UnityMath
  import opened NavMath
  import opened Lines
  import opened Options

  datatype Orientation = Colinear | Clockwise | Counterclockwise

  /// The orientation determinant of the turn p -> q -> r.
  function OrientationValue(p: Vector2, q: Vector2, r: Vector2): real {
    (q.y - p.y) * (r.x - q.x) - (q.x - p.x) * (r.y - q.y)
  }

  /// GetOrientation: Colinear exactly when the determinant is zero, else by its sign.
  function GetOrientation(p: Vector2, q: Vector2, r: Vector2): (o: Orientation)
    ensures o == Colinear <==> OrientationValue(p, q, r) == 0.0
    ensures o == Clockwise <==> OrientationValue(p, q, r) > 0.0
  {
    var val := OrientationValue(p, q, r);
    if val == 0.0 then Colinear
    else if val > 0.0 then Clockwise
    else Counterclockwise
  }

  /// Swapping the last two points reverses the turn.
  lemma OrientationSwap(p: Vector2, q: Vector2, r: Vector2)
    ensures OrientationValue(p, r, q) == -OrientationValue(p, q, r)
    ensures GetOrientation(p, q, r) == Colinear <==> GetOrientation(p, r, q) == Colinear
    ensures GetOrientation(p, q, r) == Clockwise <==> GetOrientation(p, r, q) == Counterclockwise
  {
  }

  /// The orientation determinant is the negated signed area of the triangle.
  lemma OrientationIsSignedArea(p: Vector2, q: Vector2, r: Vector2)
    ensures OrientationValue(p, q, r) == -GetSignedTriangleArea(p, q, r)
  {
  }

  /// The margin of LineSegment2D's exclusive containment test.
  const ContainsEpsilon: real := 0.0000001

  /// The point s of the way from p1 to p2.
  function PointAt(p1: Vector2, p2: Vector2, s: real): Vector2 {
    Add(p1, Scale(s, Sub(p2, p1)))
  }

  /// Where the projection of target onto the segment's line falls, in units
  /// of the segment measured from p1. None where Vector2.Normalize turns the
  /// direction into the zero vector (length at most kEpsilon), which makes the
  /// source's parameter NaN.
  function Parameter(p1: Vector2, p2: Vector2, target: Vector2): (t: Option<real>)
    requires TryJoin(p1, p2).0
    ensures t.Some? <==> SqrMagnitude(Sub(p2, p1)) > VectorEpsilon * VectorEpsilon
  {
    var line := TryJoin(p1, p2).1;
    var projected := Project(line, target);
    var d := Sub(p2, p1);
    if SqrMagnitude(d) > VectorEpsilon * VectorEpsilon then
      Some(Dot(d, Sub(projected, p1)) / Dot(d, d))
    else
      None
  }

  /// A point of the segment's line s of the way from p1 has parameter s.
  lemma ParameterOfPointAt(p1: Vector2, p2: Vector2, s: real)
    requires TryJoin(p1, p2).0
    requires SqrMagnitude(Sub(p2, p1)) > VectorEpsilon * VectorEpsilon
    ensures Parameter(p1, p2, PointAt(p1, p2, s)) == Some(s)
  {
    var line := TryJoin(p1, p2).1;
    var d := Sub(p2, p1);
    var q := PointAt(p1, p2, s);
    PointAtOnLine(p1, p2, s);
    ProjectFixesPointsOnLine(line, q);
    assert Sub(q, p1) == Scale(s, d);
    ScaledRatio(d, s);
  }

  lemma PointAtOnLine(p1: Vector2, p2: Vector2, s: real)
    ensures Residual(TryJoin(p1, p2).1, PointAt(p1, p2, s)) == 0.0
  {
    var dx, dy := p2.x - p1.x, p2.y - p1.y;
    var qx, qy := p1.x + s * dx, p1.y + s * dy;
    assert PointAt(p1, p2, s) == Vector2(qx, qy);
    assert -dy * qx + dx * qy == -dy * p1.x + dx * p1.y;
  }

  lemma ScaledRatio(d: Vector2, s: real)
    requires Dot(d, d) != 0.0
    ensures Dot(d, Scale(s, d)) / Dot(d, d) == s
  {
    assert Dot(d, Scale(s, d)) == s * Dot(d, d);
  }

  /// The containment test shared by LineSegment2D.Contains and
  /// PolygonLineSegment2D.Contains, which differ only in the exclusive margin.
  predicate ContainsWith(p1: Vector2, p2: Vector2, target: Vector2, inclusive: bool, margin: real) {
    TryJoin(p1, p2).0 &&
    var t := Parameter(p1, p2, target);
    t.Some? && (if inclusive then 0.0 <= t.value <= 1.0 else margin < t.value < 1.0 - margin)
  }

  /// Every point of a long enough segment is contained inclusively, and
  /// every point strictly inside the margins exclusively.
  lemma ContainsPointAt(p1: Vector2, p2: Vector2, s: real, margin: real)
    requires TryJoin(p1, p2).0
    requires SqrMagnitude(Sub(p2, p1)) > VectorEpsilon * VectorEpsilon
    ensures ContainsWith(p1, p2, PointAt(p1, p2, s), true, margin) <==> 0.0 <= s <= 1.0
    ensures ContainsWith(p1, p2, PointAt(p1, p2, s), false, margin) <==> margin < s < 1.0 - margin
  {
    ParameterOfPointAt(p1, p2, s);
  }

  /// Two endpoints closer than float.Epsilon on both axes.
  predicate Near(p: Vector2, q: Vector2) {
    Abs(p.x - q.x) < FloatEpsilon && Abs(p.y - q.y) < FloatEpsilon
  }

  /// The segments share an endpoint, up to float.Epsilon.
  predicate Touching(p1: Vector2, p2: Vector2, q1: Vector2, q2: Vector2) {
    Near(p1, q2) || Near(p2, q1) || Near(p1, q1) || Near(p2, q2)
  }

  /// The intersection shared by both TryIntersect overloads: the meet point
  /// of the two lines, reported when both segments contain it.
  function TryIntersectWith(p1: Vector2, p2: Vector2, q1: Vector2, q2: Vector2,
                            inclusive: bool, margin: real): (r: (bool, Vector2))
    ensures Touching(p1, p2, q1, q2) ==> r == (false, Zero)
    ensures !TryJoin(p1, p2).0 || !TryJoin(q1, q2).0 ==> r == (false, Zero)
    ensures TryJoin(p1, p2).0 && TryJoin(q1, q2).0 && MeetDet(TryJoin(p1, p2).1, TryJoin(q1, q2).1) == 0.0
            ==> r == (false, Zero)
    ensures r.0 ==> ContainsWith(p1, p2, r.1, inclusive, margin) && ContainsWith(q1, q2, r.1, inclusive, margin)
    ensures r.0 ==> Residual(TryJoin(p1, p2).1, r.1) == 0.0 && Residual(TryJoin(q1, q2).1, r.1) == 0.0
  {
    if Touching(p1, p2, q1, q2) then (false, Zero)
    else
      var j1 := TryJoin(p1, p2);
      var j2 := TryJoin(q1, q2);
      if j1.0 && j2.0 then
        var m := TryMeet(j1.1, j2.1);
        if m.0 then
          (ContainsWith(p1, p2, m.1, inclusive, margin) && ContainsWith(q1, q2, m.1, inclusive, margin), m.1)
        else
          (false, m.1)
      else
        (false, Zero)
  }

  /// Completeness: two long, non-parallel, non-touching segments that cross
  /// at a point inside both are reported as intersecting at that point.
  lemma CrossingFound(p1: Vector2, p2: Vector2, q1: Vector2, q2: Vector2, s: real, u: real,
                      inclusive: bool, margin: real)
    requires TryJoin(p1, p2).0 && TryJoin(q1, q2).0
    requires SqrMagnitude(Sub(p2, p1)) > VectorEpsilon * VectorEpsilon
    requires SqrMagnitude(Sub(q2, q1)) > VectorEpsilon * VectorEpsilon
    requires MeetDet(TryJoin(p1, p2).1, TryJoin(q1, q2).1) != 0.0
    requires !Touching(p1, p2, q1, q2)
    requires PointAt(p1, p2, s) == PointAt(q1, q2, u)
    requires inclusive ==> 0.0 <= s <= 1.0 && 0.0 <= u <= 1.0
    requires !inclusive ==> margin < s < 1.0 - margin && margin < u < 1.0 - margin
    ensures TryIntersectWith(p1, p2, q1, q2, inclusive, margin) == (true, PointAt(p1, p2, s))
  {
    var x := PointAt(p1, p2, s);
    PointAtOnLine(p1, p2, s);
    PointAtOnLine(q1, q2, u);
    MeetUnique(TryJoin(p1, p2).1, TryJoin(q1, q2).1, x);
    ContainsPointAt(p1, p2, s, margin);
    ContainsPointAt(q1, q2, u, margin);
  }

  class LineSegment2D {
    const P1: Vector2
    const P2: Vector2
    const SortingMode: PointSortingMode

    /// The constructor stores the endpoints and orders them by the mode.
    constructor (p1: Vector2, p2: Vector2, sortingMode: PointSortingMode)
      ensures (P1, P2) == SortedPair(p1, p2, sortingMode)
      ensures SortingMode == sortingMode
    {
      var sorted := SortedPair(p1, p2, sortingMode);
      P1 := sorted.0;
      P2 := sorted.1;
      SortingMode := sortingMode;
    }

    /// CompareTo: the sweep-line order. Zero only for the segment itself.
    function CompareTo(other: LineSegment2D): (r: int)
      ensures r == 0 <==> this == other
      ensures -1 <= r <= 1
    {
      if this == other then 0
      else if P1.x < other.P1.x then -other.CompareNotLeft(this)
      else CompareNotLeft(other)
    }

    /// The part of CompareTo for a segment that does not start left of the
    /// other; without a decision it falls back to -1.
    function CompareNotLeft(other: LineSegment2D): (r: int)
      requires P1.x >= other.P1.x
      ensures r == -1 || r == 1
    {
      if P1.x == other.P1.x then
        var res := ComparePoints(P1, other.P1, IncreasingXY);
        if res != 0 then res
        else
          match GetOrientation(other.P1, other.P2, P2)
          case Clockwise => -1
          case Counterclockwise => 1
          case Colinear =>
            var res2 := ComparePoints(P2, other.P2, IncreasingXY);
            if res2 != 0 then res2 else -1
      else
        match GetOrientation(other.P1, other.P2, P1)
        case Clockwise => -1
        case Counterclockwise => 1
        case Colinear => -1
    }

    /// LineSegment2D.Contains: exclusive tests keep 1e-7 away from the ends.
    predicate Contains(target: Vector2, inclusive: bool) {
      ContainsWith(P1, P2, target, inclusive, ContainsEpsilon)
    }

    /// LineSegment2D.TryIntersect.
    function TryIntersect(other: LineSegment2D, inclusive: bool): (r: (bool, Vector2))
      ensures Touching(P1, P2, other.P1, other.P2) ==> !r.0
      ensures r.0 ==> Contains(r.1, inclusive) && other.Contains(r.1, inclusive)
    {
      TryIntersectWith(P1, P2, other.P1, other.P2, inclusive, ContainsEpsilon)
    }
  }

  /// CompareTo is antisymmetric on segments that differ in an endpoint.
  lemma CompareToAntisymmetric(a: LineSegment2D, b: LineSegment2D)
    requires a.P1 != b.P1 || a.P2 != b.P2
    ensures a.CompareTo(b) == -b.CompareTo(a)
  {
    ComparePointsAntisymmetric(a.P1, b.P1, IncreasingXY);
    ComparePointsAntisymmetric(a.P2, b.P2, IncreasingXY);
    if a.P1 == b.P1 {
      OrientationSwap(a.P1, a.P2, b.P2);
    }
  }

  /// Two distinct segments with the same endpoints each compare below the other.
  lemma CompareToSameEnds(a: LineSegment2D, b: LineSegment2D)
    requires a != b && a.P1 == b.P1 && a.P2 == b.P2
    ensures a.CompareTo(b) == -1 && b.CompareTo(a) == -1
  {
  }
}
