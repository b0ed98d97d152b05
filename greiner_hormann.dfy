/// The list helpers of the Greiner-Hormann polygon clipper: the cyclic
/// doubly-linked ring of clip vertices, the splice that inserts an
/// intersection vertex into it, the vertex copy and the left-turn test.
module GreinerHormann {
  import opened UnityMath
  import opened NavMath
  import opened Collections

  class ClipVertex {
    var coordinate: Vector2
    var newlyAdded: bool
    var next: ClipVertex?
    var prev: ClipVertex?
    var isIntersection: bool

    constructor (coordinate: Vector2)
      ensures this.coordinate == coordinate
      ensures !newlyAdded && !isIntersection && next == null && prev == null
    {
      this.coordinate := coordinate;
      newlyAdded := false;
      isIntersection := false;
      next := null;
      prev := null;
    }
  }

  /// a.next is b and b.prev is a.
  ghost predicate Linked(a: ClipVertex, b: ClipVertex)
    reads a, b
  {
    a.next == b && b.prev == a
  }

  /// The distinct vertices of the list are linked in order, the last one
  /// back to the first.
  ghost predicate IsRing(ring: seq<ClipVertex>)
    reads ring
  {
    Distinct(ring) &&
    (|ring| > 0 ==>
      (forall j :: 0 <= j < |ring| - 1 ==> Linked(ring[j], ring[j + 1])) && Linked(ring[|ring| - 1], ring[0]))
  }

  /// The links InitDataStructure sets, with the source's index wrapping.
  ghost predicate ClampLinked(ring: seq<ClipVertex>, k: nat)
    requires k < |ring|
    reads ring[k]
  {
    var n := |ring|;
    ring[k].next == ring[ClampListIndex(k + 1, n)] && ring[k].prev == ring[ClampListIndex(k - 1, n)]
  }

  /// Setting every vertex's links by ClampListIndex makes a ring.
  lemma ClampLinkedRing(ring: seq<ClipVertex>)
    requires Distinct(ring) && forall k :: 0 <= k < |ring| ==> ClampLinked(ring, k)
    ensures IsRing(ring)
  {
    var n := |ring|;
    if n > 0 {
      forall j | 0 <= j < n - 1 ensures Linked(ring[j], ring[j + 1]) {
        assert ClampLinked(ring, j) && ClampLinked(ring, j + 1);
      }
      assert ClampLinked(ring, n - 1) && ClampLinked(ring, 0);
    }
  }

  lemma ReverseDistinct<T>(s: seq<T>)
    requires Distinct(s)
    ensures Distinct(Reverse(s))
  {
    var r := Reverse(s);
    forall a, b | 0 <= a < b < |r| ensures r[a] != r[b] {
      assert r[a] == s[|s| - 1 - a] && r[b] == s[|s| - 1 - b];
    }
  }

  /// InitDataStructure: one fresh vertex per point, optionally in reverse
  /// order, linked into a ring.
  method InitDataStructure(polyVector: seq<Vector2>, reverse: bool) returns (poly: seq<ClipVertex>)
    ensures |poly| == |polyVector|
    ensures forall i :: 0 <= i < |poly| ==> fresh(poly[i])
    ensures IsRing(poly)
    ensures forall i :: 0 <= i < |poly| ==>
      poly[i].coordinate == (if reverse then Reverse(polyVector) else polyVector)[i] &&
      !poly[i].newlyAdded && !poly[i].isIntersection
  {
    poly := [];
    for i := 0 to |polyVector|
      invariant |poly| == i && Distinct(poly)
      invariant forall k :: 0 <= k < i ==> fresh(poly[k])
      invariant forall k :: 0 <= k < i ==>
        poly[k].coordinate == polyVector[k] && !poly[k].newlyAdded && !poly[k].isIntersection
    {
      var v := new ClipVertex(polyVector[i]);
      poly := poly + [v];
    }
    ghost var coords := if reverse then Reverse(polyVector) else polyVector;
    if reverse {
      ReverseDistinct(poly);
      var r := Reverse(poly);
      forall k | 0 <= k < |r| ensures r[k].coordinate == coords[k] && fresh(r[k]) {
        assert r[k] == poly[|poly| - 1 - k];
      }
      poly := r;
    }
    LinkRing(poly, coords);
  }

  /// The second loop of InitDataStructure.
  method LinkRing(poly: seq<ClipVertex>, ghost coords: seq<Vector2>)
    requires Distinct(poly) && |coords| == |poly|
    requires forall k :: 0 <= k < |poly| ==>
      poly[k].coordinate == coords[k] && !poly[k].newlyAdded && !poly[k].isIntersection
    modifies poly
    ensures IsRing(poly)
    ensures forall k :: 0 <= k < |poly| ==>
      poly[k].coordinate == coords[k] && !poly[k].newlyAdded && !poly[k].isIntersection
  {
    var n := |poly|;
    for i := 0 to n
      invariant forall k :: 0 <= k < n ==>
        poly[k].coordinate == coords[k] && !poly[k].newlyAdded && !poly[k].isIntersection
      invariant forall k :: 0 <= k < i ==> ClampLinked(poly, k)
    {
      var iPlusOne := ClampListIndex(i + 1, n);
      var iMinusOne := ClampListIndex(i - 1, n);
      poly[i].next := poly[iPlusOne];
      poly[i].prev := poly[iMinusOne];
      assert ClampLinked(poly, i);
    }
    ClampLinkedRing(poly);
  }

  /// InsertIntersectionVertex: a fresh intersection vertex is spliced in
  /// after currentVertex.
  method InsertIntersectionVertex(intersectionPoint: Vector2, currentVertex: ClipVertex)
    returns (intersectionVertex: ClipVertex)
    requires currentVertex.next != null
    modifies currentVertex, currentVertex.next
    ensures fresh(intersectionVertex)
    ensures intersectionVertex.coordinate == intersectionPoint
    ensures intersectionVertex.newlyAdded && intersectionVertex.isIntersection
    ensures intersectionVertex.next == old(currentVertex.next) && intersectionVertex.prev == currentVertex
    ensures currentVertex.next == intersectionVertex && old(currentVertex.next).prev == intersectionVertex
    ensures old(currentVertex.next) != currentVertex ==>
      currentVertex.prev == old(currentVertex.prev) && old(currentVertex.next).next == old(currentVertex.next.next)
    ensures unchanged(currentVertex`coordinate, currentVertex`newlyAdded, currentVertex`isIntersection)
    ensures unchanged(old(currentVertex.next)`coordinate, old(currentVertex.next)`newlyAdded,
                      old(currentVertex.next)`isIntersection)
  {
    intersectionVertex := new ClipVertex(intersectionPoint);
    intersectionVertex.newlyAdded := true;
    intersectionVertex.isIntersection := true;
    var insertAfterThisVertex := currentVertex;
    intersectionVertex.next := insertAfterThisVertex.next;
    intersectionVertex.prev := insertAfterThisVertex;
    insertAfterThisVertex.next.prev := intersectionVertex;
    insertAfterThisVertex.next := intersectionVertex;
  }

  /// Splicing after the k-th vertex of a ring yields a ring again, with the
  /// new vertex in position k + 1.
  method InsertIntoRing(ring: seq<ClipVertex>, k: nat, intersectionPoint: Vector2)
    returns (v: ClipVertex, ghost ring': seq<ClipVertex>)
    requires IsRing(ring) && k < |ring|
    modifies ring
    ensures fresh(v) && v.isIntersection && v.newlyAdded && v.coordinate == intersectionPoint
    ensures ring' == ring[..k + 1] + [v] + ring[k + 1..]
    ensures IsRing(ring')
    ensures forall j :: 0 <= j < |ring| ==>
      ring[j].coordinate == old(ring[j].coordinate) && ring[j].isIntersection == old(ring[j].isIntersection)
  {
    var n := |ring|;
    ghost var s := if k + 1 < n then k + 1 else 0;
    assert Linked(ring[k], ring[s]);
    v := InsertIntersectionVertex(intersectionPoint, ring[k]);
    ring' := ring[..k + 1] + [v] + ring[k + 1..];
    SpliceDistinct(ring, k, v, ring');
    if n == 1 {
      assert ring' == [ring[0], v];
    } else {
      forall j | 0 <= j < n ensures Linked(ring'[j], ring'[j + 1]) {
        if j < k {
          assert ring'[j] == ring[j] && ring'[j + 1] == ring[j + 1];
          assert old(Linked(ring[j], ring[j + 1]));
        } else if j > k + 1 {
          assert ring'[j] == ring[j - 1] && ring'[j + 1] == ring[j];
          assert old(Linked(ring[j - 1], ring[j]));
        } else if j == k + 1 {
          assert ring'[j + 1] == ring[k + 1];
        }
      }
      if k + 1 < n {
        assert ring'[n] == ring[n - 1];
        assert old(Linked(ring[n - 1], ring[0]));
      }
    }
  }

  lemma SpliceDistinct(ring: seq<ClipVertex>, k: nat, v: ClipVertex, ring': seq<ClipVertex>)
    requires k < |ring| && Distinct(ring) && v !in ring
    requires ring' == ring[..k + 1] + [v] + ring[k + 1..]
    ensures Distinct(ring')
  {
    forall a, b | 0 <= a < b < |ring'| ensures ring'[a] != ring'[b] {
      var a0 := if a <= k then a else a - 1;
      var b0 := if b <= k then b else b - 1;
      if a != k + 1 && b != k + 1 {
        assert ring'[a] == ring[a0] && ring'[b] == ring[b0];
      } else if a == k + 1 {
        assert ring'[b] == ring[b0];
      } else {
        assert ring'[a] == ring[a0];
      }
    }
  }

  /// GetVertexCopy: a fresh, unlinked vertex with the same coordinate and
  /// intersection flag, marked newly added.
  method GetVertexCopy(currentVertex: ClipVertex) returns (copy: ClipVertex)
    ensures fresh(copy)
    ensures copy.coordinate == currentVertex.coordinate && copy.isIntersection == currentVertex.isIntersection
    ensures copy.newlyAdded && copy.next == null && copy.prev == null
  {
    copy := new ClipVertex(currentVertex.coordinate);
    copy.isIntersection := currentVertex.isIntersection;
    copy.newlyAdded := true;
  }

  /// IsChainLeftTurn: whether q lies left of the chain p1 -> p2 -> p3.
  predicate IsChainLeftTurn(p1: Vector2, p2: Vector2, p3: Vector2, q: Vector2) {
    var s1 := GetSignedTriangleArea(q, p1, p2);
    var s2 := GetSignedTriangleArea(q, p2, p3);
    var s3 := GetSignedTriangleArea(p1, p2, p3);
    if s3 > 0.0 then s1 > 0.0 && s2 > 0.0 else s1 > 0.0 || s2 > 0.0
  }

  /// At a convex corner q must be left of both edges; at a reflex or straight
  /// corner left of either one suffices. The convex test implies the other.
  lemma ChainLeftTurnCases(p1: Vector2, p2: Vector2, p3: Vector2, q: Vector2)
    ensures IsChainLeftTurn(p1, p2, p3, q) ==>
      GetSignedTriangleArea(q, p1, p2) > 0.0 || GetSignedTriangleArea(q, p2, p3) > 0.0
    ensures GetSignedTriangleArea(q, p1, p2) > 0.0 && GetSignedTriangleArea(q, p2, p3) > 0.0 ==>
      IsChainLeftTurn(p1, p2, p3, q)
    ensures GetSignedTriangleArea(p1, p2, p3) > 0.0 ==>
      (IsChainLeftTurn(p1, p2, p3, q) <==>
       GetSignedTriangleArea(q, p1, p2) > 0.0 && GetSignedTriangleArea(q, p2, p3) > 0.0)
  {
  }

  /// ClipPolygons: the result list is created empty and never added to, so
  /// whatever the intersection phase finds, the caller receives no polygon.
  method ClipPolygons(polyVector: seq<Vector2>, clipPolyVector: seq<Vector2>, union: bool)
    returns (finalPoly: seq<seq<Vector2>>)
    ensures finalPoly == []
  {
    finalPoly := [];
    var poly := InitDataStructure(polyVector, true);
    var clipPoly := InitDataStructure(clipPolyVector, true);
  }
}
