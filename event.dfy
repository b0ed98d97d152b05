/// Event: the start or the end of a segment, ordered by its point.
module Events {
  import opened UnityMath
  import opened NavMath
  import opened LineSegments

  datatype EventType = SegmentStart | SegmentEnd

  datatype Event = Event(segment: LineSegment2D, eventType: EventType, sortingMode: PointSortingMode)

  /// Point: the start event sits at P1, the end event at P2.
  function Point(e: Event): (p: Vector2)
    ensures p == e.segment.P1 || p == e.segment.P2
    ensures e.eventType == SegmentStart ==> p == e.segment.P1
    ensures e.eventType == SegmentEnd ==> p == e.segment.P2
  {
    match e.eventType
    case SegmentStart => e.segment.P1
    case SegmentEnd => e.segment.P2
  }

  /// CompareTo: the events' points under this event's sorting mode.
  function CompareTo(e: Event, other: Event): (r: int)
    ensures -1 <= r <= 1
    ensures e.sortingMode != NoSorting ==> (r == 0 <==> Point(e) == Point(other))
  {
    if e.sortingMode != NoSorting then
      ComparePointsZero(Point(e), Point(other), e.sortingMode);
      ComparePoints(Point(e), Point(other), e.sortingMode)
    else
      ComparePoints(Point(e), Point(other), e.sortingMode)
  }

  /// For a segment ordered by the same mode as its events (as the
  /// constructor leaves it), the start never follows the end; when its
  /// endpoints coincide the two compare equal.
  lemma StartNotAfterEnd(s: LineSegment2D, p1: Vector2, p2: Vector2, mode: PointSortingMode)
    requires (s.P1, s.P2) == SortedPair(p1, p2, mode)
    ensures CompareTo(Event(s, SegmentStart, mode), Event(s, SegmentEnd, mode)) <= 0
    ensures s.P1 == s.P2 ==> CompareTo(Event(s, SegmentStart, mode), Event(s, SegmentEnd, mode)) == 0
  {
  }
}
