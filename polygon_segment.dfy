/// PolygonLineSegment2D: the segment type of the self-intersection sweep. It
/// is a LineSegment2D whose containment test and intersection keep
/// float.Epsilon, instead of 1e-7, away from the ends in the exclusive case.
module PolygonSegments {
  import opened UnityMath
  import opened Lines
  import opened LineSegments

  /// PolygonLineSegment2D.Contains.
  predicate Contains(s: LineSegment2D, target: Vector2, inclusive: bool) {
    ContainsWith(s.P1, s.P2, target, inclusive, FloatEpsilon)
  }

  /// PolygonLineSegment2D.TryIntersect on endpoint values.
  function TryIntersectEnds(p1: Vector2, p2: Vector2, q1: Vector2, q2: Vector2, inclusive: bool): (r: (bool, Vector2))
    ensures Touching(p1, p2, q1, q2) ==> !r.0
    ensures !TryJoin(p1, p2).0 || !TryJoin(q1, q2).0 ==> !r.0
    ensures r.0 ==> ContainsWith(p1, p2, r.1, inclusive, FloatEpsilon) && ContainsWith(q1, q2, r.1, inclusive, FloatEpsilon)
    ensures r.0 ==> Residual(TryJoin(p1, p2).1, r.1) == 0.0 && Residual(TryJoin(q1, q2).1, r.1) == 0.0
  {
    TryIntersectWith(p1, p2, q1, q2, inclusive, FloatEpsilon)
  }

  /// PolygonLineSegment2D.TryIntersect.
  function TryIntersect(s: LineSegment2D, other: LineSegment2D, inclusive: bool): (r: (bool, Vector2))
    ensures Touching(s.P1, s.P2, other.P1, other.P2) ==> !r.0
    ensures r.0 ==> Contains(s, r.1, inclusive) && Contains(other, r.1, inclusive)
  {
    TryIntersectEnds(s.P1, s.P2, other.P1, other.P2, inclusive)
  }
}
