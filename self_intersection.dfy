/// PolygonSelfIntersectionCheck.HasIntersections: a sweep over the start and
/// end events of a polygon's sides, testing each side against its neighbours
/// in a sweep line ordered by LineSegment2D.CompareTo.
module SelfIntersection {
  import opened UnityMath
  import opened NavMath
  import opened LineSegments
  import opened PolygonSegments
  import opened Events
  import opened NavMathSegments
  import opened Options
  import opened Collections

  /// Array.BinarySearch as SortedList uses it: the index of an element the
  /// comparer calls equal, else the complement of the insertion point.
  method BinarySearch(keys: seq<LineSegment2D>, key: LineSegment2D) returns (i: int)
    ensures i >= 0 ==> i < |keys| && keys[i] == key
    ensures i < 0 ==> -i - 1 <= |keys|
  {
    var lo, hi := 0, |keys| - 1;
    while lo <= hi
      invariant 0 <= lo <= hi + 1 <= |keys|
      decreases hi - lo
    {
      var mid := lo + (hi - lo) / 2;
      var order := keys[mid].CompareTo(key);
      if order == 0 {
        return mid;
      }
      if order < 0 {
        lo := mid + 1;
      } else {
        hi := mid - 1;
      }
    }
    return -lo - 1;
  }

  /// SortedList.IndexOfValue: the first position holding this very object, or -1.
  function IndexOfValue(s: seq<LineSegment2D>, x: LineSegment2D): (i: int)
    ensures -1 <= i < |s|
    ensures i >= 0 ==> s[i] == x && x !in s[..i]
    ensures i == -1 <==> x !in s
  {
    if |s| == 0 then -1
    else if s[0] == x then 0
    else
      var j := IndexOfValue(s[1..], x);
      assert s == [s[0]] + s[1..];
      if j == -1 then -1
      else
        assert s[..j + 1] == [s[0]] + s[1..][..j];
        j + 1
  }

  /// The point of the k-th enqueued event: events 2i and 2i+1 are the start
  /// and the end of side i.
  function EventPoint(points: seq<Vector2>, k: nat): Vector2
    requires k < 2 * |points|
  {
    if k % 2 == 0 then SegmentEnds(points, k / 2).0 else SegmentEnds(points, k / 2).1
  }

  /// What the priority queue guarantees: every enqueued event comes out once,
  /// in an order in which no event's point is greater than the next one's.
  /// Which of two equal events comes first is left open.
  ghost predicate ValidDequeueOrder(points: seq<Vector2>, order: seq<nat>) {
    |order| == 2 * |points| &&
    (forall i :: 0 <= i < |order| ==> order[i] < 2 * |points|) &&
    (forall i, j :: 0 <= i < j < |order| ==> order[i] != order[j]) &&
    (forall i :: 0 <= i < |order| - 1 ==>
       ComparePoints(EventPoint(points, order[i]), EventPoint(points, order[i + 1]), IncreasingXY) <= 0)
  }

  /// Sides a and b of the polygon cross strictly, as PolygonLineSegment2D.TryIntersect decides.
  ghost predicate StrictCrossing(points: seq<Vector2>, a: nat, b: nat)
    requires a < |points| && b < |points|
  {
    TryIntersectEnds(SegmentEnds(points, a).0, SegmentEnds(points, a).1,
                     SegmentEnds(points, b).0, SegmentEnds(points, b).1, false).0
  }

  /// The sweep line holds distinct sides whose start events have been handled.
  ghost predicate SweepInvariant(sweep: seq<LineSegment2D>, segments: seq<LineSegment2D>, started: set<nat>) {
    Distinct(sweep) &&
    (forall a :: a in started ==> a < |segments|) &&
    (forall m :: 0 <= m < |sweep| ==> StartedSide(sweep[m], segments, started))
  }

  ghost predicate StartedSide(s: LineSegment2D, segments: seq<LineSegment2D>, started: set<nat>) {
    exists a :: a in started && a < |segments| && s == segments[a]
  }

  lemma InsertKeepsInvariant(sweep: seq<LineSegment2D>, pos: int, segments: seq<LineSegment2D>,
                             started: set<nat>, a: nat)
    requires SweepInvariant(sweep, segments, started)
    requires 0 <= pos <= |sweep| && a < |segments| && segments[a] !in sweep
    ensures SweepInvariant(sweep[..pos] + [segments[a]] + sweep[pos..], segments, started + {a})
  {
    var s' := sweep[..pos] + [segments[a]] + sweep[pos..];
    forall m | 0 <= m < |s'|
      ensures StartedSide(s'[m], segments, started + {a})
    {
      if m < pos {
        assert s'[m] == sweep[m];
      } else if m > pos {
        assert s'[m] == sweep[m - 1];
      } else {
        assert s'[m] == segments[a];
        assert a in started + {a};
      }
    }
    forall x, y | 0 <= x < y < |s'|
      ensures s'[x] != s'[y]
    {
      if x < pos && y < pos {
        assert s'[x] == sweep[x] && s'[y] == sweep[y];
      } else if x < pos && y == pos {
        assert s'[x] == sweep[x];
      } else if x < pos {
        assert s'[x] == sweep[x] && s'[y] == sweep[y - 1];
      } else if x == pos {
        assert s'[y] == sweep[y - 1];
      } else {
        assert s'[x] == sweep[x - 1] && s'[y] == sweep[y - 1];
      }
    }
  }

  lemma RemoveKeepsInvariant(sweep: seq<LineSegment2D>, i: int, segments: seq<LineSegment2D>, started: set<nat>)
    requires SweepInvariant(sweep, segments, started) && 0 <= i < |sweep|
    ensures SweepInvariant(sweep[..i] + sweep[i + 1..], segments, started)
  {
    var s' := sweep[..i] + sweep[i + 1..];
    assert |s'| == |sweep| - 1;
    forall m | 0 <= m < |s'|
      ensures StartedSide(s'[m], segments, started)
    {
      if m < i {
        assert s'[m] == sweep[m];
      } else {
        assert s'[m] == sweep[m + 1];
      }
    }
    forall x, y | 0 <= x < y < |s'|
      ensures s'[x] != s'[y]
    {
      if y < i {
        assert s'[x] == sweep[x] && s'[y] == sweep[y];
      } else if x < i {
        assert s'[x] == sweep[x] && s'[y] == sweep[y + 1];
      } else {
        assert s'[x] == sweep[x + 1] && s'[y] == sweep[y + 1];
      }
    }
    assert Distinct(s');
  }

  /// A crossing found between two different entries of the sweep line is a
  /// crossing of two different sides of the polygon.
  lemma NeighboursCross(points: seq<Vector2>, segments: seq<LineSegment2D>, sweep: seq<LineSegment2D>,
                        started: set<nat>, x: int, y: int)
    requires |segments| == |points|
    requires forall k :: 0 <= k < |points| ==> (segments[k].P1, segments[k].P2) == SegmentEnds(points, k)
    requires SweepInvariant(sweep, segments, started)
    requires 0 <= x < |sweep| && 0 <= y < |sweep| && x != y
    requires PolygonSegments.TryIntersect(sweep[x], sweep[y], false).0
    ensures exists a, b :: 0 <= a < |points| && 0 <= b < |points| && a != b && StrictCrossing(points, a, b)
  {
    var a :| a in started && sweep[x] == segments[a];
    var b :| b in started && sweep[y] == segments[b];
    assert sweep[x] != sweep[y];
    assert StrictCrossing(points, a, b);
  }

  /// The facts PointsToSegmentList establishes about the sides.
  ghost predicate SidesOf(points: seq<Vector2>, segments: seq<LineSegment2D>) {
    |segments| == |points| && Distinct(segments) &&
    forall k :: 0 <= k < |points| ==> (segments[k].P1, segments[k].P2) == SegmentEnds(points, k)
  }

  /// Some pair of different sides crosses strictly.
  ghost predicate SomeCrossing(points: seq<Vector2>) {
    exists a, b :: 0 <= a < |points| && 0 <= b < |points| && a != b && StrictCrossing(points, a, b)
  }

  /// A start event: insert the side where the binary search puts it, then
  /// test it strictly against its predecessor and its successor.
  method HandleStart(points: seq<Vector2>, segments: seq<LineSegment2D>, sweep: seq<LineSegment2D>,
                     ghost started: set<nat>, a: nat)
    returns (sweep': seq<LineSegment2D>, ghost started': set<nat>, hit: bool)
    requires SidesOf(points, segments) && SweepInvariant(sweep, segments, started)
    requires a < |segments| && a !in started
    ensures SweepInvariant(sweep', segments, started') && started' == started + {a}
    ensures |sweep'| == |sweep| + 1
    ensures hit ==> SomeCrossing(points)
  {
    var segment := segments[a];
    forall m | 0 <= m < |sweep|
      ensures sweep[m] != segment
    {
      assert StartedSide(sweep[m], segments, started);
      var a' :| a' in started && a' < |segments| && sweep[m] == segments[a'];
      assert a' != a;
    }
    var found := BinarySearch(sweep, segment);
    if found >= 0 {
      assert false;
    }
    var pos := -found - 1;
    InsertKeepsInvariant(sweep, pos, segments, started, a);
    sweep' := sweep[..pos] + [segment] + sweep[pos..];
    started' := started + {a};
    hit := false;
    var i := IndexOfValue(sweep', segment);
    if i > 0 && PolygonSegments.TryIntersect(segment, sweep'[i - 1], false).0 {
      NeighboursCross(points, segments, sweep', started', i, i - 1);
      hit := true;
    } else if i < |sweep'| - 1 && PolygonSegments.TryIntersect(segment, sweep'[i + 1], false).0 {
      NeighboursCross(points, segments, sweep', started', i, i + 1);
      hit := true;
    }
  }

  /// An end event: test the side's two neighbours against each other, then
  /// remove the side if the binary search finds it.
  method HandleEnd(points: seq<Vector2>, segments: seq<LineSegment2D>, sweep: seq<LineSegment2D>,
                   ghost started: set<nat>, segment: LineSegment2D)
    returns (sweep': seq<LineSegment2D>, hit: bool)
    requires SidesOf(points, segments) && SweepInvariant(sweep, segments, started)
    ensures !hit ==> SweepInvariant(sweep', segments, started)
    ensures !hit ==> sweep' == sweep || (|sweep'| == |sweep| - 1 && segment in sweep && segment !in sweep')
    ensures hit ==> SomeCrossing(points)
  {
    sweep' := sweep;
    var j := IndexOfValue(sweep, segment);
    if j > 0 && j < |sweep| - 1 && PolygonSegments.TryIntersect(sweep[j - 1], sweep[j + 1], false).0 {
      NeighboursCross(points, segments, sweep, started, j - 1, j + 1);
      return sweep, true;
    }
    hit := false;
    var found := BinarySearch(sweep, segment);
    if found >= 0 {
      RemoveKeepsInvariant(sweep, found, segments, started);
      sweep' := sweep[..found] + sweep[found + 1..];
      forall m | 0 <= m < |sweep'|
        ensures sweep'[m] != segment
      {
        if m < found {
          assert sweep'[m] == sweep[m];
        } else {
          assert sweep'[m] == sweep[m + 1];
        }
      }
    }
  }

  /// HasIntersections: true only when two different sides cross strictly;
  /// false once every event has been handled. An empty point list fails, as
  /// the source's points[^1] does. The dequeue order stands for the
  /// priority queue's choice among equal events.
  method HasIntersections(points: seq<Vector2>, dequeueOrder: seq<nat>) returns (r: Option<bool>)
    requires ValidDequeueOrder(points, dequeueOrder)
    ensures r.None? <==> |points| == 0
    ensures r == Some(true) ==> SomeCrossing(points)
  {
    var list := PointsToSegmentList(points, IncreasingXY);
    if list.None? {
      return None;
    }
    var segments := list.value;
    var n := |segments|;
    var events: seq<Event> := [];
    var e := 0;
    while e < n
      invariant 0 <= e <= n && |events| == 2 * e
      invariant forall k :: 0 <= k < 2 * e ==>
        events[k] == Event(segments[k / 2], if k % 2 == 0 then SegmentStart else SegmentEnd, IncreasingXY)
    {
      events := events + [Event(segments[e], SegmentStart, IncreasingXY), Event(segments[e], SegmentEnd, IncreasingXY)];
      e := e + 1;
    }
    var sweepline: seq<LineSegment2D> := [];
    ghost var started: set<nat> := {};
    var k := 0;
    while k < |dequeueOrder|
      invariant 0 <= k <= |dequeueOrder|
      invariant SweepInvariant(sweepline, segments, started)
      invariant forall a :: a in started ==> 2 * a in dequeueOrder[..k]
    {
      var q := dequeueOrder[k];
      var current := events[q];
      var hit: bool;
      if current.eventType == SegmentStart {
        ghost var a := q / 2;
        assert q == 2 * a && q !in dequeueOrder[..k];
        sweepline, started, hit := HandleStart(points, segments, sweepline, started, q / 2);
      } else {
        sweepline, hit := HandleEnd(points, segments, sweepline, started, current.segment);
      }
      if hit {
        return Some(true);
      }
      assert dequeueOrder[..k + 1] == dequeueOrder[..k] + [q];
      k := k + 1;
    }
    return Some(false);
  }
}
