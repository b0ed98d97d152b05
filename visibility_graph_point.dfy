/// VisibilityGraphPoint: a point with the segments that meet at it, split by
/// the side of the line from an origin through the point on which each
/// segment's far end lies.
module VisibilityGraphPoints {
  import opened UnityMath
  import opened NavMath
  import opened LineSegments
  import opened Collections

  datatype VisibilityGraphPoint = VisibilityGraphPoint(point: Vector2, adjacentSegments: seq<LineSegment2D>)

  /// _isLeft: c lies strictly to the left of the line from a through b.
  predicate IsLeft(a: Vector2, b: Vector2, c: Vector2) {
    (b.x - a.x) * (c.y - a.y) - (b.y - a.y) * (c.x - a.x) > 0.0
  }

  /// _isLeft is the signed-area test, strict: collinear points are not left.
  lemma IsLeftIsPositiveArea(a: Vector2, b: Vector2, c: Vector2)
    ensures IsLeft(a, b, c) <==> GetSignedTriangleArea(a, b, c) > 0.0
    ensures !IsLeft(a, b, b) && !IsLeft(a, a, c)
  {
  }

  /// The end of a segment that is not at the point; Unity's `==` decides.
  function OtherEnd(segment: LineSegment2D, point: Vector2): (e: Vector2)
    ensures e == segment.P1 || e == segment.P2
    ensures ApproxEqual(segment.P1, point) ==> e == segment.P2
    ensures !ApproxEqual(segment.P1, point) ==> e == segment.P1
  {
    if ApproxEqual(segment.P1, point) then segment.P2 else segment.P1
  }

  predicate CounterClockwiseOf(origin: Vector2, point: Vector2, segment: LineSegment2D) {
    IsLeft(origin, point, OtherEnd(segment, point))
  }

  /// The `Where(x => !_isLeft(...))` filter on a list of segments.
  function ClockwiseFilter(segments: seq<LineSegment2D>, origin: Vector2, point: Vector2): (r: seq<LineSegment2D>)
    ensures |r| <= |segments|
    ensures forall k :: 0 <= k < |r| ==> r[k] in segments && !CounterClockwiseOf(origin, point, r[k])
  {
    if segments == [] then []
    else
      var rest := ClockwiseFilter(segments[1..], origin, point);
      if !CounterClockwiseOf(origin, point, segments[0]) then [segments[0]] + rest else rest
  }

  /// The `Where(x => _isLeft(...))` filter on a list of segments.
  function CounterClockwiseFilter(segments: seq<LineSegment2D>, origin: Vector2, point: Vector2): (r: seq<LineSegment2D>)
    ensures |r| <= |segments|
    ensures forall k :: 0 <= k < |r| ==> r[k] in segments && CounterClockwiseOf(origin, point, r[k])
  {
    if segments == [] then []
    else
      var rest := CounterClockwiseFilter(segments[1..], origin, point);
      if CounterClockwiseOf(origin, point, segments[0]) then [segments[0]] + rest else rest
  }

  function GetClockwiseAdjacentSegments(p: VisibilityGraphPoint, origin: Vector2): seq<LineSegment2D> {
    ClockwiseFilter(p.adjacentSegments, origin, p.point)
  }

  function GetCounterClockwiseAdjacentSegments(p: VisibilityGraphPoint, origin: Vector2): seq<LineSegment2D> {
    CounterClockwiseFilter(p.adjacentSegments, origin, p.point)
  }

  /// Together the two results hold every adjacent segment exactly as often
  /// as the list does.
  lemma {:induction false} FiltersPartition(segments: seq<LineSegment2D>, origin: Vector2, point: Vector2)
    ensures multiset(ClockwiseFilter(segments, origin, point)) + multiset(CounterClockwiseFilter(segments, origin, point))
         == multiset(segments)
  {
    if segments != [] {
      var rest := segments[1..];
      FiltersPartition(rest, origin, point);
      assert segments == [segments[0]] + rest;
      if CounterClockwiseOf(origin, point, segments[0]) {
        assert CounterClockwiseFilter(segments, origin, point) == [segments[0]] + CounterClockwiseFilter(rest, origin, point);
        assert ClockwiseFilter(segments, origin, point) == ClockwiseFilter(rest, origin, point);
      } else {
        assert ClockwiseFilter(segments, origin, point) == [segments[0]] + ClockwiseFilter(rest, origin, point);
        assert CounterClockwiseFilter(segments, origin, point) == CounterClockwiseFilter(rest, origin, point);
      }
    }
  }

  /// A segment of the list is in the clockwise result exactly when its far
  /// end is not strictly left, and in the counter-clockwise result otherwise.
  lemma {:induction false} FilterMembership(segments: seq<LineSegment2D>, origin: Vector2, point: Vector2, s: LineSegment2D)
    ensures s in ClockwiseFilter(segments, origin, point) <==> s in segments && !CounterClockwiseOf(origin, point, s)
    ensures s in CounterClockwiseFilter(segments, origin, point) <==> s in segments && CounterClockwiseOf(origin, point, s)
  {
    if segments != [] {
      FilterMembership(segments[1..], origin, point, s);
      assert segments == [segments[0]] + segments[1..];
    }
  }

  /// Both filters keep the list's order.
  lemma {:induction false} FiltersKeepOrder(segments: seq<LineSegment2D>, origin: Vector2, point: Vector2)
    ensures Subsequence(ClockwiseFilter(segments, origin, point), segments)
    ensures Subsequence(CounterClockwiseFilter(segments, origin, point), segments)
  {
    if segments != [] {
      FiltersKeepOrder(segments[1..], origin, point);
      var cw, ccw := ClockwiseFilter(segments, origin, point), CounterClockwiseFilter(segments, origin, point);
      if CounterClockwiseOf(origin, point, segments[0]) {
        assert ccw[1..] == CounterClockwiseFilter(segments[1..], origin, point);
      } else {
        assert cw[1..] == ClockwiseFilter(segments[1..], origin, point);
      }
    }
  }

  /// The clockwise result of a point, in the point's own terms.
  lemma ClockwiseSegments(p: VisibilityGraphPoint, origin: Vector2, s: LineSegment2D)
    ensures s in GetClockwiseAdjacentSegments(p, origin) <==>
      s in p.adjacentSegments && GetSignedTriangleArea(origin, p.point, OtherEnd(s, p.point)) <= 0.0
    ensures s in GetCounterClockwiseAdjacentSegments(p, origin) <==>
      s in p.adjacentSegments && GetSignedTriangleArea(origin, p.point, OtherEnd(s, p.point)) > 0.0
  {
    FilterMembership(p.adjacentSegments, origin, p.point, s);
  }
}
