/// LocalMinimaList: walks a shape's outline from its lowest point, tags
/// every edge with the side of the interior it bounds, and groups the edges
/// into pairs of left and right bounds.
module LocalMinima {
  import opened UnityMath
  import opened NavMath
  import opened Options
  import opened Collections
  import opened Shapes

  /// LocalMinimaLineSegment2D: a segment sorted by its mode, with the
  /// IsLeftToInterior flag its creator sets. Nothing changes a segment after
  /// it is built and nothing compares segments by identity, so a segment is
  /// a value here.
  datatype LocalMinimaSegment = LocalMinimaSegment(P1: Vector2, P2: Vector2, IsLeftToInterior: bool)

  /// The constructor with the object initializer `{IsLeftToInterior = isLeft}`.
  function NewSegment(p1: Vector2, p2: Vector2, sortingMode: PointSortingMode, isLeft: bool): (s: LocalMinimaSegment)
    ensures (s.P1, s.P2) == SortedPair(p1, p2, sortingMode) && s.IsLeftToInterior == isLeft
  {
    var sorted := SortedPair(p1, p2, sortingMode);
    LocalMinimaSegment(sorted.0, sorted.1, isLeft)
  }

  /// p comes before q in the search for the minimum: lower, or as low and
  /// further left.
  predicate Below(p: Vector2, q: Vector2) {
    p.y < q.y || (p.y == q.y && p.x < q.x)
  }

  /// The first loop: the lowest point, ties going to the leftmost.
  method FindMinimum(points: seq<Vector2>) returns (min: Vector2)
    requires |points| > 0
    ensures min in points
    ensures forall i :: 0 <= i < |points| ==> !Below(points[i], min)
  {
    min := points[0];
    for i := 1 to |points|
      invariant min in points[..i]
      invariant forall k :: 0 <= k < i ==> !Below(points[k], min)
    {
      if points[i].y < min.y {
        min := points[i];
      } else if points[i].y == min.y {
        min := if points[i].x < min.x then points[i] else min;
      }
    }
  }

  /// Only one point satisfies FindMinimum's postcondition.
  lemma MinimumUnique(points: seq<Vector2>, a: Vector2, b: Vector2)
    requires a in points && b in points
    requires forall i :: 0 <= i < |points| ==> !Below(points[i], a) && !Below(points[i], b)
    ensures a == b
  {
    var i :| 0 <= i < |points| && points[i] == a;
    var j :| 0 <= j < |points| && points[j] == b;
    assert !Below(points[i], b) && !Below(points[j], a);
  }

  /// List.IndexOf: the first position holding x.
  function IndexOf<T(==)>(s: seq<T>, x: T): (i: nat)
    requires x in s
    ensures i < |s| && s[i] == x && forall j :: 0 <= j < i ==> s[j] != x
  {
    if s[0] == x then 0 else 1 + IndexOf(s[1..], x)
  }

  /// An index past the end wrapped once back to the start.
  function Wrap(i: nat, n: nat): (r: nat)
    requires i < 2 * n
    ensures r < n && (r == i || r == i - n)
  {
    if i < n then i else i - n
  }

  /// The update of isLeft on the step from a point at height py to one at ny.
  function StepFlag(isLeft: bool, py: real, ny: real): bool {
    if py > ny && isLeft then false
    else if py < ny && !isLeft then true
    else isLeft
  }

  /// The tag of the k-th edge of the walk that starts at index.
  function Tag(points: seq<Vector2>, index: nat, k: nat): bool
    requires index < |points| && k < |points|
  {
    var n := |points|;
    var before := if k == 0 then true else Tag(points, index, k - 1);
    StepFlag(before, points[Wrap(index + k, n)].y, points[Wrap(index + k + 1, n)].y)
  }

  /// The k-th step of the walk goes down or up.
  predicate Descends(points: seq<Vector2>, index: nat, k: nat)
    requires index < |points| && k < |points|
  {
    points[Wrap(index + k, |points|)].y > points[Wrap(index + k + 1, |points|)].y
  }

  predicate Ascends(points: seq<Vector2>, index: nat, k: nat)
    requires index < |points| && k < |points|
  {
    points[Wrap(index + k, |points|)].y < points[Wrap(index + k + 1, |points|)].y
  }

  /// The flag is the direction of the last step that changes height: an edge
  /// is tagged right exactly when some earlier or equal step descends and no
  /// step since then ascends.
  lemma {:induction false} TagIsLastDirection(points: seq<Vector2>, index: nat, k: nat)
    requires index < |points| && k < |points|
    ensures !Tag(points, index, k) <==>
      exists j :: 0 <= j <= k && Descends(points, index, j) &&
        forall i :: j < i <= k ==> !Ascends(points, index, i)
  {
    if Descends(points, index, k) {
    } else if Ascends(points, index, k) {
    } else if k > 0 {
      TagIsLastDirection(points, index, k - 1);
      if !Tag(points, index, k) {
        var j :| 0 <= j <= k - 1 && Descends(points, index, j) &&
          forall i :: j < i <= k - 1 ==> !Ascends(points, index, i);
        assert forall i :: j < i <= k ==> !Ascends(points, index, i);
      }
      if exists j :: 0 <= j <= k && Descends(points, index, j) &&
           forall i :: j < i <= k ==> !Ascends(points, index, i) {
        var j :| 0 <= j <= k && Descends(points, index, j) &&
          forall i :: j < i <= k ==> !Ascends(points, index, i);
        assert j <= k - 1;
      }
    }
  }

  /// The first n edges of the walk from index, as the do-while loop builds them.
  ghost predicate Built(points: seq<Vector2>, index: nat, segments: seq<LocalMinimaSegment>)
    requires index < |points|
  {
    var n := |points|;
    |segments| <= n &&
    forall k :: 0 <= k < |segments| ==>
      segments[k] == NewSegment(points[Wrap(index + k, n)], points[Wrap(index + k + 1, n)], IncreasingYX,
                                Tag(points, index, k))
  }

  lemma BuiltStep(points: seq<Vector2>, index: nat, segments: seq<LocalMinimaSegment>, segment: LocalMinimaSegment)
    requires index < |points| && Built(points, index, segments) && |segments| < |points|
    requires segment == NewSegment(points[Wrap(index + |segments|, |points|)],
                                   points[Wrap(index + |segments| + 1, |points|)], IncreasingYX,
                                   Tag(points, index, |segments|))
    ensures Built(points, index, segments + [segment])
  {
  }

  /// The do-while loop: one edge per point, from the minimum's index round
  /// the outline, each sorted by IncreasingYX and tagged.
  method BuildSegments(points: seq<Vector2>, index: nat) returns (segments: seq<LocalMinimaSegment>)
    requires index < |points|
    ensures |segments| == |points| && Built(points, index, segments)
  {
    var n := |points|;
    segments := [];
    var previous := points[index];
    var isLeft := true;
    var iter := index;
    while |segments| == 0 || iter != index
      invariant Built(points, index, segments)
      invariant iter == Wrap(index + |segments|, n)
      invariant |segments| > 0 && iter == index ==> |segments| == n
      invariant previous == points[iter]
      invariant isLeft == (|segments| == 0 || Tag(points, index, |segments| - 1))
      decreases n - |segments|
    {
      ghost var k := |segments|;
      var iter2 := if iter + 1 < n then iter + 1 else 0;
      assert iter2 == Wrap(index + k + 1, n);
      if previous.y > points[iter2].y && isLeft {
        isLeft := false;
      } else if previous.y < points[iter2].y && !isLeft {
        isLeft := true;
      }
      assert isLeft == Tag(points, index, k);
      var segment := NewSegment(points[iter], points[iter2], IncreasingYX, isLeft);
      BuiltStep(points, index, segments, segment);
      segments := segments + [segment];
      previous := points[iter2];
      if iter == n - 1 {
        iter := 0;
      } else {
        iter := iter + 1;
      }
    }
  }

  /// One bound pair: the left-tagged edges and the others.
  type BoundPair = (seq<LocalMinimaSegment>, seq<LocalMinimaSegment>)

  /// The test of the inner foreach: the event continues this pair's chain on
  /// the edge's side, or starts where the other side's chain starts.
  predicate Matches(pair: BoundPair, segment: LocalMinimaSegment) {
    var point := segment.P1;
    if segment.IsLeftToInterior then
      (|pair.0| > 0 && ApproxEqual(pair.0[|pair.0| - 1].P2, point)) ||
      (|pair.1| > 0 && ApproxEqual(pair.1[0].P1, point))
    else
      (|pair.1| > 0 && ApproxEqual(pair.1[|pair.1| - 1].P2, point)) ||
      (|pair.0| > 0 && ApproxEqual(pair.0[0].P1, point))
  }

  /// The j-th pair is the first one the edge matches.
  predicate FirstMatch(list: seq<BoundPair>, segment: LocalMinimaSegment, j: nat) {
    j < |list| && Matches(list[j], segment) && forall i :: 0 <= i < j ==> !Matches(list[i], segment)
  }

  /// The foreach with break: the first pair the edge matches.
  method FindPair(list: seq<BoundPair>, segment: LocalMinimaSegment) returns (found: bool, j: nat)
    ensures found ==> FirstMatch(list, segment, j)
    ensures !found ==> forall i :: 0 <= i < |list| ==> !Matches(list[i], segment)
  {
    j := 0;
    while j < |list|
      invariant j <= |list|
      invariant forall i :: 0 <= i < j ==> !Matches(list[i], segment)
    {
      if Matches(list[j], segment) {
        return true, j;
      }
      j := j + 1;
    }
    return false, 0;
  }

  /// Every left-tagged edge is in a first list and every other in a second.
  ghost predicate SidesTagged(list: seq<BoundPair>) {
    forall j :: 0 <= j < |list| ==>
      (forall s :: s in list[j].0 ==> s.IsLeftToInterior) &&
      (forall s :: s in list[j].1 ==> !s.IsLeftToInterior)
  }

  /// The edges one pair holds, counted with multiplicity.
  ghost function Parts(pair: BoundPair): multiset<LocalMinimaSegment> {
    multiset(pair.0) + multiset(pair.1)
  }

  /// All the edges the pairs hold, counted with multiplicity.
  ghost function Held(list: seq<BoundPair>): multiset<LocalMinimaSegment> {
    if list == [] then multiset{} else Held(list[..|list| - 1]) + Parts(list[|list| - 1])
  }

  lemma {:induction false} HeldAppend(list: seq<BoundPair>, pair: BoundPair)
    ensures Held(list + [pair]) == Held(list) + Parts(pair)
  {
    assert (list + [pair])[..|list|] == list;
  }

  /// Replacing one pair changes the held edges by the difference.
  lemma {:induction false} HeldUpdate(list: seq<BoundPair>, j: nat, pair: BoundPair)
    requires j < |list|
    ensures Held(list[j := pair]) + Parts(list[j]) == Held(list) + Parts(pair)
    decreases |list|
  {
    var n := |list|;
    var list' := list[j := pair];
    var front, front' := list[..n - 1], list'[..n - 1];
    assert Held(list) == Held(front) + Parts(list[n - 1]);
    if j < n - 1 {
      assert front' == front[j := pair];
      assert list'[n - 1] == list[n - 1];
      assert Held(list') == Held(front') + Parts(list[n - 1]);
      HeldUpdate(front, j, pair);
      assert front[j] == list[j];
      var a, b, l, p, q := Held(front'), Held(front), Parts(list[n - 1]), Parts(pair), Parts(list[j]);
      assert a + q == b + p;
      assert forall x :: (a + l + q)[x] == (b + l + p)[x] by {
        forall x ensures (a + l + q)[x] == (b + l + p)[x] {
          assert (a + q)[x] == (b + p)[x];
        }
      }
      assert a + l + q == b + l + p;
    } else {
      assert front' == front;
      assert Held(list') == Held(front) + Parts(pair);
    }
  }

  /// The pair with the edge appended on its own side.
  function Extend(pair: BoundPair, segment: LocalMinimaSegment): (p: BoundPair)
    ensures segment.IsLeftToInterior ==> p == (pair.0 + [segment], pair.1)
    ensures !segment.IsLeftToInterior ==> p == (pair.0, pair.1 + [segment])
  {
    if segment.IsLeftToInterior then (pair.0 + [segment], pair.1) else (pair.0, pair.1 + [segment])
  }

  /// Extending one pair adds exactly the edge to what the list holds, and
  /// keeps the sides tagged.
  lemma HeldExtend(list: seq<BoundPair>, j: nat, segment: LocalMinimaSegment)
    requires j < |list| && SidesTagged(list)
    ensures Held(list[j := Extend(list[j], segment)]) == Held(list) + multiset{segment}
    ensures SidesTagged(list[j := Extend(list[j], segment)])
  {
    var pair, pair' := list[j], Extend(list[j], segment);
    var list' := list[j := pair'];
    HeldUpdate(list, j, pair');
    assert Parts(pair') == Parts(pair) + multiset{segment} by {
      if segment.IsLeftToInterior {
        assert multiset(pair'.0) == multiset(pair.0) + multiset{segment};
      } else {
        assert multiset(pair'.1) == multiset(pair.1) + multiset{segment};
      }
    }
    var h, h', p := Held(list), Held(list'), Parts(pair);
    assert h' + p == h + p + multiset{segment};
    assert forall x :: h'[x] == (h + multiset{segment})[x] by {
      forall x ensures h'[x] == (h + multiset{segment})[x] {
        assert (h' + p)[x] == (h + p + multiset{segment})[x];
      }
    }
    assert h' == h + multiset{segment};
    forall i | 0 <= i < |list'|
      ensures (forall s :: s in list'[i].0 ==> s.IsLeftToInterior) &&
              (forall s :: s in list'[i].1 ==> !s.IsLeftToInterior)
    {
      if i == j {
        assert forall s :: s in pair.0 ==> s.IsLeftToInterior;
        assert forall s :: s in pair.1 ==> !s.IsLeftToInterior;
      }
    }
  }

  /// The index of the first pair the edge matches, |list| when none does.
  function MatchIndex(list: seq<BoundPair>, segment: LocalMinimaSegment): (r: nat)
    ensures r <= |list| && (r < |list| ==> FirstMatch(list, segment, r))
    ensures r == |list| ==> forall i :: 0 <= i < |list| ==> !Matches(list[i], segment)
  {
    if list == [] then 0
    else if Matches(list[0], segment) then 0
    else 1 + MatchIndex(list[1..], segment)
  }

  /// One event of the grouping loop: the edge joins the first pair it
  /// matches, on its own side, or opens a new pair.
  function Place(list: seq<BoundPair>, segment: LocalMinimaSegment): seq<BoundPair> {
    var j := MatchIndex(list, segment);
    if j < |list| then list[j := Extend(list[j], segment)] else list + [Extend(([], []), segment)]
  }

  /// Placing an edge keeps the sides apart, adds exactly that edge, and
  /// opens a new pair just when no pair matches it.
  lemma PlaceHolds(list: seq<BoundPair>, segment: LocalMinimaSegment)
    requires SidesTagged(list)
    ensures SidesTagged(Place(list, segment))
    ensures Held(Place(list, segment)) == Held(list) + multiset{segment}
    ensures |Place(list, segment)| == |list| + 1 <==> forall i :: 0 <= i < |list| ==> !Matches(list[i], segment)
    ensures |Place(list, segment)| == |list| || |Place(list, segment)| == |list| + 1
  {
    var j := MatchIndex(list, segment);
    if j < |list| {
      HeldExtend(list, j, segment);
    } else {
      var pair := Extend(([], []), segment);
      var list' := list + [pair];
      HeldAppend(list, pair);
      assert Parts(pair) == multiset{segment};
      forall i | 0 <= i < |list'|
        ensures (forall s :: s in list'[i].0 ==> s.IsLeftToInterior) &&
                (forall s :: s in list'[i].1 ==> !s.IsLeftToInterior)
      {
        if i < |list| {
          assert list'[i] == list[i];
        }
      }
    }
  }

  /// The foreach over the pairs and the fallback that opens a new one.
  method PlaceSegment(list: seq<BoundPair>, segment: LocalMinimaSegment) returns (list': seq<BoundPair>)
    ensures list' == Place(list, segment)
  {
    var found, j := FindPair(list, segment);
    if found {
      list' := list[j := Extend(list[j], segment)];
    } else {
      list' := list + [Extend(([], []), segment)];
    }
  }

  /// The pairs after the events in order.
  function Group(events: seq<LocalMinimaSegment>): seq<BoundPair> {
    if events == [] then [] else Place(Group(events[..|events| - 1]), events[|events| - 1])
  }

  /// Every edge ends up in exactly one place on its own side.
  lemma {:induction false} GroupHolds(events: seq<LocalMinimaSegment>)
    ensures SidesTagged(Group(events)) && Held(Group(events)) == multiset(events)
  {
    if events != [] {
      var front, last := events[..|events| - 1], events[|events| - 1];
      assert events == front + [last];
      assert multiset(events) == multiset(front) + multiset{last};
      var g := Group(front);
      assert Group(events) == Place(g, last);
      GroupHolds(front);
      PlaceHolds(g, last);
    }
  }

  /// The priority queue's promise: every enqueued edge comes out once, in
  /// IncreasingYX order of the event points (the edges' P1).
  ghost predicate QueueOrder(segments: seq<LocalMinimaSegment>, dequeued: seq<LocalMinimaSegment>) {
    multiset(dequeued) == multiset(segments) &&
    forall i :: 0 <= i < |dequeued| - 1 ==> ComparePoints(dequeued[i].P1, dequeued[i + 1].P1, IncreasingYX) <= 0
  }

  /// The grouping loop over the start events, in the order the queue hands
  /// them out.
  method GroupBounds(dequeued: seq<LocalMinimaSegment>) returns (list: seq<BoundPair>)
    ensures list == Group(dequeued)
  {
    list := [];
    for k := 0 to |dequeued|
      invariant list == Group(dequeued[..k])
    {
      list := PlaceSegment(list, dequeued[k]);
      assert dequeued[..k + 1][..k] == dequeued[..k];
    }
    assert dequeued[..|dequeued|] == dequeued;
  }

  /// GetLocalMinimaList. A shape without points throws (None), as does the
  /// empty outline, whose points[0] is out of range.
  method GetLocalMinimaList(shape: Shape2D, dequeue: seq<LocalMinimaSegment> -> seq<LocalMinimaSegment>)
    returns (r: Option<seq<BoundPair>>, ghost segments: seq<LocalMinimaSegment>, ghost index: nat)
    requires forall ss :: QueueOrder(ss, dequeue(ss))
    ensures r.None? <==> shape.points.None? || |shape.points.value| == 0
    ensures r.Some? ==> var points := shape.points.value;
      index < |points| && |segments| == |points| &&
      (forall i :: 0 <= i < |points| ==> !Below(points[i], points[index])) &&
      (forall j :: 0 <= j < index ==> points[j] != points[index]) &&
      Built(points, index, segments)
    ensures r.Some? ==> r.value == Group(dequeue(segments))
    ensures r.Some? ==> SidesTagged(r.value) && Held(r.value) == multiset(segments)
  {
    segments, index := [], 0;
    if shape.points.None? || |shape.points.value| == 0 {
      r := None;
      return;
    }
    var points := shape.points.value;
    var min := FindMinimum(points);
    var idx := IndexOf(points, min);
    var segs := BuildSegments(points, idx);
    var list := GroupBounds(dequeue(segs));
    GroupHolds(dequeue(segs));
    segments, index := segs, idx;
    r := Some(list);
  }
}
