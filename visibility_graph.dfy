/// The visibility graph over the obstacle polygons: the registered polygons
/// and vertices, the adjacency lists and the rotational sweep that fills
/// them, with the AVL tree of edges ordered by their distance along the
/// sweep ray.
///
/// Each adjacency list is a List<Vertex> object owned by exactly one key of
/// the dictionary and edited in place; the model stores it as the sequence
/// the key maps to, so an edit of the list is an update of that key.
/// Edge.DistanceToReference is written only by the sweep; its values live in
/// the graph's map `distances` (an edge not in the map still holds the 0 its
/// constructor gave it), and the tree's comparer is Edge.CompareTo over them.
module VisibilityGraphs {
  import opened UnityMath
  import opened Options
  import opened Collections
  import opened AvlTree
  import opened GraphElements

  /// The DistanceToReference an edge currently holds.
  function Distance(dist: map<Edge, real>, e: Edge): real {
    if e in dist then dist[e] else 0.0
  }

  /// Comparer<Edge>.Default: Edge.CompareTo over the current distances.
  function EdgeOrder(dist: map<Edge, real>): (Edge, Edge) -> int {
    (a: Edge, b: Edge) => Sign(Distance(dist, a) - Distance(dist, b))
  }

  /// The comparer is Edge.CompareTo whenever the edges hold the distances.
  lemma EdgeOrderIsCompareTo(dist: map<Edge, real>, a: Edge, b: Edge)
    requires a.DistanceToReference == Distance(dist, a) && b.DistanceToReference == Distance(dist, b)
    ensures EdgeOrder(dist)(a, b) == a.CompareTo(b)
  {
  }

  /// Ordering by distance is a comparer the tree can rely on: edges at the
  /// same distance compare equal, and such edges collide in the tree.
  lemma EdgeOrderValid(dist: map<Edge, real>, S: set<Edge>)
    ensures ValidComparer(EdgeOrder(dist), S)
    ensures forall a, b :: EdgeOrder(dist)(a, b) == 0 <==> Distance(dist, a) == Distance(dist, b)
  {
    var cmp := EdgeOrder(dist);
    forall a, b
      ensures cmp(a, b) < 0 <==> cmp(b, a) > 0
    {
      assert cmp(a, b) == Sign(Distance(dist, a) - Distance(dist, b));
      assert cmp(b, a) == Sign(Distance(dist, b) - Distance(dist, a));
    }
    forall a, b, c | cmp(a, b) < 0 && cmp(b, c) < 0
      ensures cmp(a, c) < 0
    {
      assert Distance(dist, a) < Distance(dist, b) < Distance(dist, c);
    }
  }

  /// Every slot of the polygon's edge array holds an edge.
  ghost predicate EdgesPresent(p: Polygon)
    reads p`Edges, p.Edges
  {
    forall i :: 0 <= i < p.Edges.Length ==> p.Edges[i] != null
  }

  /// What IsVisible dereferences of the vertex it looks from: the neighbour
  /// slots, and, when it has an owner, both neighbours and the owner's edges.
  ghost predicate CanLookFrom(u: Vertex)
    reads u.neighbors
    reads (if u.ownerPolygon == null then {} else {u.ownerPolygon})`Edges
    reads if u.ownerPolygon == null then {} else {u.ownerPolygon.Edges}
  {
    u.Valid() && (u.ownerPolygon != null ==> u.HasNeighbors() && EdgesPresent(u.ownerPolygon))
  }

  /// What the sweep dereferences of a registered vertex: both neighbours,
  /// as an event point, and the above, as a pivot.
  ghost predicate VertexReady(u: Vertex)
    reads u.neighbors
    reads (if u.ownerPolygon == null then {} else {u.ownerPolygon})`Edges
    reads if u.ownerPolygon == null then {} else {u.ownerPolygon.Edges}
  {
    u.HasNeighbors() && CanLookFrom(u)
  }

  /// Every vertex some list names is a key: the condition under which no
  /// dictionary lookup of the graph throws.
  ghost predicate Closed(adj: map<Vertex, seq<Vertex>>) {
    forall u, w :: u in adj && w in adj[u] ==> w in adj
  }

  ghost predicate NoSelfLoops(adj: map<Vertex, seq<Vertex>>) {
    forall u :: u in adj ==> u !in adj[u]
  }

  /// The events the sweep keeps, in event order: those that are not the
  /// pivot and that IsVisible accepted.
  function Picked(events: seq<Vertex>, visible: seq<bool>, v: Vertex): seq<Vertex>
    requires |visible| == |events|
  {
    if events == [] then []
    else
      var n := |events| - 1;
      Picked(events[..n], visible[..n], v) + (if events[n] != v && visible[n] then [events[n]] else [])
  }

  /// One more event with its verdict extends the kept events by that event
  /// exactly when it is accepted and is not the pivot.
  lemma PickedExtend(events: seq<Vertex>, visible: seq<bool>, v: Vertex, i: nat, b: bool)
    requires i < |events| && |visible| == i
    ensures Picked(events[..i + 1], visible + [b], v)
         == Picked(events[..i], visible, v) + (if events[i] != v && b then [events[i]] else [])
  {
    assert events[..i + 1][..i] == events[..i];
    assert (visible + [b])[..i] == visible;
  }

  /// The sweep result is a subsequence of the events without the pivot,
  /// keeping every accepted event, and without repeats when the events have none.
  lemma {:induction false} PickedSubsequence(events: seq<Vertex>, visible: seq<bool>, v: Vertex)
    requires |visible| == |events|
    ensures forall w :: w in Picked(events, visible, v) ==> w in events && w != v
    ensures forall i :: 0 <= i < |events| && visible[i] && events[i] != v ==> events[i] in Picked(events, visible, v)
    ensures Distinct(events) ==> Distinct(Picked(events, visible, v))
  {
    if events != [] {
      var n := |events| - 1;
      var pre, pv := events[..n], visible[..n];
      PickedSubsequence(pre, pv, v);
      assert forall i :: 0 <= i < n ==> pre[i] == events[i] && pv[i] == visible[i];
      if Distinct(events) {
        assert Distinct(pre);
        assert events[n] !in pre;
      }
    }
  }

  /// What one sweep from v over the events produced: the kept events, where
  /// every event that is a neighbour of v counts as visible.
  ghost predicate SweepResult(r: seq<Vertex>, events: seq<Vertex>, visible: seq<bool>, v: Vertex)
    requires v.Valid()
    reads v.neighbors
  {
    |visible| == |events| && r == Picked(events, visible, v) &&
    forall i :: 0 <= i < |events| && events[i] != v && v.IsNeighborWith(events[i]) ==> visible[i]
  }

  /// AVLTree.Delete of each edge of one side in turn, skipping empty slots.
  function DeleteSide(t: Tree<Edge>, side: seq<Edge?>, cmp: (Edge, Edge) -> int): (r: Tree<Edge>)
    requires Balanced(t)
    ensures Balanced(r) && |Elements(r)| <= |Elements(t)|
  {
    if side == [] then t
    else
      var n := |side| - 1;
      var s := DeleteSide(t, side[..n], cmp);
      if side[n] != null && s.Node? then Remove(s, side[n], cmp).tree else s
  }

  /// Each edge of one side in turn takes its new distance and is added,
  /// compared by the distances as they stand at that moment.
  function AddSide(t: Tree<Edge>, dist: map<Edge, real>, side: seq<Edge?>, ds: seq<real>): (r: (Tree<Edge>, map<Edge, real>))
    requires Balanced(t) && |ds| == |side|
    ensures Balanced(r.0)
    ensures forall e :: e in r.1 ==> e in dist || e in side
    ensures forall e :: e in dist && e !in side ==> e in r.1 && r.1[e] == dist[e]
  {
    if side == [] then (t, dist)
    else
      var n := |side| - 1;
      var s := AddSide(t, dist, side[..n], ds[..n]);
      assert forall e :: e in side[..n] ==> e in side;
      assert side[n] in side;
      if side[n] == null then s
      else
        var d := s.1[side[n] := ds[n]];
        (Insert(s.0, side[n], EdgeOrder(d)).tree, d)
  }

  /// The distance the sweep gives an edge of a clockwise side.
  function SideDistance(e: Edge?, vX: real, vZ: real, util: Util): real
    reads e
  {
    if e == null then 0.0 else e.DistanceTo(vX, vZ, util)
  }

  /// RemoveEdgesOfVertex's loop: vertex leaves the list of each vertex of
  /// `list` in turn. A listed vertex that is not a key throws
  /// KeyNotFoundException; the lists stay as they are at that point.
  function Detach(adj: map<Vertex, seq<Vertex>>, list: seq<Vertex>, vertex: Vertex): (r: (map<Vertex, seq<Vertex>>, bool))
    ensures r.0.Keys == adj.Keys
  {
    if list == [] then (adj, true)
    else
      var n := |list| - 1;
      var s := Detach(adj, list[..n], vertex);
      if !s.1 then s
      else if list[n] !in s.0 then (s.0, false)
      else (s.0[list[n] := RemoveFirst(s.0[list[n]], vertex)], true)
  }

  /// RemoveEdgesOfVertex succeeds exactly when every listed vertex is a key.
  lemma {:induction false} DetachSucceeds(adj: map<Vertex, seq<Vertex>>, list: seq<Vertex>, vertex: Vertex)
    ensures Detach(adj, list, vertex).1 <==> forall i :: 0 <= i < |list| ==> list[i] in adj
  {
    if list != [] {
      var n := |list| - 1;
      DetachSucceeds(adj, list[..n], vertex);
      assert forall i :: 0 <= i < n ==> list[..n][i] == list[i];
    }
  }

  /// Once a prefix fails, the rest of the list is never looked at.
  lemma {:induction false} DetachStops(adj: map<Vertex, seq<Vertex>>, list: seq<Vertex>, vertex: Vertex, k: nat)
    requires k <= |list| && !Detach(adj, list[..k], vertex).1
    ensures Detach(adj, list, vertex) == Detach(adj, list[..k], vertex)
  {
    if k < |list| {
      var n := |list| - 1;
      assert list[..n][..k] == list[..k];
      DetachStops(adj, list[..n], vertex, k);
    } else {
      assert list[..k] == list;
    }
  }

  /// It leaves the lists of unlisted vertices alone, among them the vertex's
  /// own when it does not list itself, and takes at most one copy of the
  /// vertex from each listed list.
  lemma {:induction false} DetachFrame(adj: map<Vertex, seq<Vertex>>, list: seq<Vertex>, vertex: Vertex, u: Vertex)
    requires u in adj
    ensures u !in list ==> Detach(adj, list, vertex).0[u] == adj[u]
    ensures multiset(Detach(adj, list, vertex).0[u]) <= multiset(adj[u])
  {
    if list != [] {
      var n := |list| - 1;
      DetachFrame(adj, list[..n], vertex, u);
      var s := Detach(adj, list[..n], vertex);
      if s.1 && list[n] in s.0 && list[n] == u {
        RemoveFirstMultiset(s.0[u], vertex);
      } else if u !in list {
        assert u !in list[..n] by {
          assert forall w :: w in list[..n] ==> w in list;
        }
      }
    }
  }

  /// On success the vertex is in no listed list that held it at most once.
  lemma {:induction false} DetachRemoves(adj: map<Vertex, seq<Vertex>>, list: seq<Vertex>, vertex: Vertex, u: Vertex)
    requires forall i :: 0 <= i < |list| ==> list[i] in adj
    requires u in list && multiset(adj[u])[vertex] <= 1
    ensures vertex !in Detach(adj, list, vertex).0[u]
  {
    var n := |list| - 1;
    var pre := list[..n];
    var s := Detach(adj, pre, vertex);
    assert s.1 by {
      assert forall i :: 0 <= i < n ==> pre[i] == list[i];
      DetachSucceeds(adj, pre, vertex);
    }
    var w := list[n];
    if u == w {
      assert multiset(s.0[w])[vertex] <= 1 by {
        DetachFrame(adj, pre, vertex, w);
      }
      RemoveFirstRemoves(s.0[w], vertex);
    } else {
      assert u in pre;
      DetachRemoves(adj, pre, vertex, u);
    }
  }

  /// A later adjacency map has the same keys and lists that only lost entries.
  ghost predicate Shrinks(adj0: map<Vertex, seq<Vertex>>, adj1: map<Vertex, seq<Vertex>>) {
    adj1.Keys == adj0.Keys && forall u :: u in adj1 ==> multiset(adj1[u]) <= multiset(adj0[u])
  }

  /// Shrinking lists keep a graph closed and free of self loops, and
  /// shrinking twice is shrinking.
  lemma ShrinksPreserves(adj0: map<Vertex, seq<Vertex>>, adj1: map<Vertex, seq<Vertex>>)
    requires Shrinks(adj0, adj1)
    ensures Closed(adj0) ==> Closed(adj1)
    ensures NoSelfLoops(adj0) ==> NoSelfLoops(adj1)
    ensures forall adj2 :: Shrinks(adj1, adj2) ==> Shrinks(adj0, adj2)
  {
    forall u, w | u in adj1 && w in adj1[u]
      ensures w in adj0[u]
    {
      assert w in multiset(adj1[u]);
    }
    forall adj2 | Shrinks(adj1, adj2)
      ensures Shrinks(adj0, adj2)
    {
      forall u | u in adj2
        ensures multiset(adj2[u]) <= multiset(adj0[u])
      {
        assert multiset(adj2[u]) <= multiset(adj1[u]) <= multiset(adj0[u]);
      }
    }
  }

  /// RemoveEdgesOfVertex only ever shrinks lists.
  lemma DetachShrinks(adj: map<Vertex, seq<Vertex>>, list: seq<Vertex>, vertex: Vertex)
    ensures Shrinks(adj, Detach(adj, list, vertex).0)
  {
    forall u | u in adj
      ensures multiset(Detach(adj, list, vertex).0[u]) <= multiset(adj[u])
    {
      DetachFrame(adj, list, vertex, u);
    }
  }

  /// Dictionary.Add of an empty list for each vertex in turn.
  function WithEmptyLists(adj: map<Vertex, seq<Vertex>>, vs: seq<Vertex>): map<Vertex, seq<Vertex>> {
    if vs == [] then adj
    else
      var n := |vs| - 1;
      WithEmptyLists(adj, vs[..n])[vs[n] := []]
  }

  /// The new keys are the added vertices, each with an empty list, and the
  /// other lists stay; so a closed graph without self loops stays so.
  lemma {:induction false} WithEmptyListsEffect(adj: map<Vertex, seq<Vertex>>, vs: seq<Vertex>)
    ensures forall u :: u in WithEmptyLists(adj, vs) <==> u in adj || u in vs
    ensures forall u :: u in vs ==> WithEmptyLists(adj, vs)[u] == []
    ensures forall u :: u in adj && u !in vs ==> WithEmptyLists(adj, vs)[u] == adj[u]
    ensures Closed(adj) ==> Closed(WithEmptyLists(adj, vs))
    ensures NoSelfLoops(adj) ==> NoSelfLoops(WithEmptyLists(adj, vs))
  {
    if vs != [] {
      var n := |vs| - 1;
      WithEmptyListsEffect(adj, vs[..n]);
      assert vs == vs[..n] + [vs[n]];
    }
  }

  /// The list r is what one sweep from u over `all` keeps.
  ghost predicate Swept(r: seq<Vertex>, u: Vertex, visible: seq<bool>, util: Util, all: seq<Vertex>)
    reads u, u.neighbors
  {
    u.Valid() && SweepResult(r, util.sortClockwise(u.X(), u.Y(), all), visible, u)
  }

  /// Every list of adj1 is still the list of adj0 or names only vertices of
  /// `all` other than its key: what refilling lists by sweeps over `all` leaves.
  ghost predicate Refilled(adj0: map<Vertex, seq<Vertex>>, adj1: map<Vertex, seq<Vertex>>, all: seq<Vertex>) {
    adj1.Keys == adj0.Keys && forall u :: u in adj1 ==> adj1[u] == adj0[u] || ListedWithin(adj1[u], u, all)
  }

  ghost predicate ListedWithin(r: seq<Vertex>, pivot: Vertex, all: seq<Vertex>) {
    forall w :: w in r ==> w in all && w != pivot
  }

  /// One sweep as the graph keeps it on record: the verdict on each event,
  /// the tree (with its distances) each event met, and the distances the
  /// seeding began from.
  datatype SweepRecord = SweepRecord(visible: seq<bool>, trees: seq<(Tree<Edge>, map<Edge, real>)>, start: map<Edge, real>)

  /// Every vertex of vs has a sweep recorded in m.
  ghost predicate Covers(m: map<Vertex, seq<bool>>, vs: seq<Vertex>) {
    forall k :: 0 <= k < |vs| ==> vs[k] in m
  }

  lemma CoversStep(m: map<Vertex, seq<bool>>, vs: seq<Vertex>, i: nat, visible: seq<bool>)
    requires i < |vs| && Covers(m, vs[..i])
    ensures Covers(m[vs[i] := visible], vs[..i + 1])
  {
    assert forall k :: 0 <= k < i ==> vs[..i + 1][k] == vs[..i][k];
  }

  /// Refilling one more list keeps the relation.
  lemma RefilledStep(adj0: map<Vertex, seq<Vertex>>, adj1: map<Vertex, seq<Vertex>>, all: seq<Vertex>, pivot: Vertex, r: seq<Vertex>)
    requires Refilled(adj0, adj1, all) && pivot in adj1 && ListedWithin(r, pivot, all)
    ensures Refilled(adj0, adj1[pivot := r], all)
  {
  }

  /// Refilled lists keep a graph free of self loops, and closed when every
  /// vertex of `all` is a key.
  lemma RefilledPreserves(adj0: map<Vertex, seq<Vertex>>, adj1: map<Vertex, seq<Vertex>>, all: seq<Vertex>)
    requires Refilled(adj0, adj1, all)
    ensures NoSelfLoops(adj0) ==> NoSelfLoops(adj1)
    ensures (Closed(adj0) && forall i :: 0 <= i < |all| ==> all[i] in adj0) ==> Closed(adj1)
  {
    if Closed(adj0) && forall i :: 0 <= i < |all| ==> all[i] in adj0 {
      forall u, w | u in adj1 && w in adj1[u]
        ensures w in adj1
      {
        if adj1[u] != adj0[u] {
          assert ListedWithin(adj1[u], u, all);
        }
      }
    }
  }

  /// A vertex outside the polygon that some polygon vertex lists: what
  /// GetTouchingVertices collects.
  ghost predicate Touches(adj: map<Vertex, seq<Vertex>>, vs: seq<Vertex>, w: Vertex) {
    w !in vs && exists i :: 0 <= i < |vs| && vs[i] in adj && w in adj[vs[i]]
  }

  /// In a closed graph, every vertex a polygon's vertices touch is a key
  /// and is not one of the polygon's vertices.
  lemma TouchingListed(adj: map<Vertex, seq<Vertex>>, vs: seq<Vertex>, touching: seq<Vertex>)
    requires Closed(adj) && forall w :: w in touching <==> Touches(adj, vs, w)
    ensures forall i :: 0 <= i < |touching| ==> touching[i] in adj && touching[i] !in vs
  {
    forall i | 0 <= i < |touching|
      ensures touching[i] in adj && touching[i] !in vs
    {
      assert Touches(adj, vs, touching[i]);
    }
  }

  /// Every registered vertex is a key once, every key is registered, and no
  /// vertex lists itself.
  ghost predicate Indexed(adj: map<Vertex, seq<Vertex>>, all: seq<Vertex>) {
    Distinct(all) && (forall u :: u in adj ==> u in all) &&
    (forall i :: 0 <= i < |all| ==> all[i] in adj) && NoSelfLoops(adj)
  }

  /// Registering new, distinct vertices with empty lists keeps the index,
  /// and keeps a closed graph closed.
  lemma RegisterIndexed(adj: map<Vertex, seq<Vertex>>, all: seq<Vertex>, vs: seq<Vertex>)
    requires Indexed(adj, all) && Distinct(vs)
    requires forall i :: 0 <= i < |vs| ==> vs[i] !in adj
    ensures Indexed(WithEmptyLists(adj, vs), all + vs)
    ensures forall u :: u in WithEmptyLists(adj, vs) <==> u in adj || u in vs
    ensures Closed(adj) ==> Closed(WithEmptyLists(adj, vs))
  {
    WithEmptyListsEffect(adj, vs);
    DistinctAppend(all, vs);
    var adj1, all1 := WithEmptyLists(adj, vs), all + vs;
    forall i | 0 <= i < |all1|
      ensures all1[i] in adj1
    {
      if i < |all| {
        assert all1[i] == all[i];
      } else {
        assert all1[i] == vs[i - |all|];
      }
    }
  }

  /// Removing some vertices from the vertex list and their keys from the
  /// dictionary, leaving the other lists as they are, keeps the index.
  lemma UnregisterIndexed(adj: map<Vertex, seq<Vertex>>, all: seq<Vertex>, vs: seq<Vertex>, adj1: map<Vertex, seq<Vertex>>)
    requires Indexed(adj, all)
    requires forall u :: u in adj1 <==> u in adj && u !in vs
    requires forall u :: u in adj1 ==> adj1[u] == adj[u]
    ensures Indexed(adj1, RemoveEach(all, vs))
  {
    RemoveEachDistinct(all, vs);
    var all1 := RemoveEach(all, vs);
    forall i | 0 <= i < |all1|
      ensures all1[i] in adj1
    {
      RemoveEachMember(all, vs, all1[i]);
      var j :| 0 <= j < |all| && all[j] == all1[i];
    }
  }

  /// RegisterVertices' loop on the vertex list and the dictionary as
  /// values: each vertex is appended, then added as a key with an empty
  /// list; a vertex that already is a key stops the loop after its append.
  method AppendVertices(all0: seq<Vertex>, adj0: map<Vertex, seq<Vertex>>, vs: seq<Vertex>)
      returns (ok: bool, all: seq<Vertex>, adj: map<Vertex, seq<Vertex>>)
    ensures ok <==> (Distinct(vs) && forall i :: 0 <= i < |vs| ==> vs[i] !in adj0)
    ensures ok ==> all == all0 + vs && adj == WithEmptyLists(adj0, vs)
    ensures !ok ==> exists k :: (0 <= k < |vs| && all == all0 + vs[..k + 1] && adj == WithEmptyLists(adj0, vs[..k]))
    ensures forall u :: u in all ==> u in all0 || u in vs
  {
    all, adj := all0, adj0;
    for i := 0 to |vs|
      invariant all == all0 + vs[..i]
      invariant adj == WithEmptyLists(adj0, vs[..i])
      invariant Distinct(vs[..i]) && forall k :: 0 <= k < i ==> vs[k] !in adj0
    {
      assert vs[..i + 1] == vs[..i] + [vs[i]];
      all := all + [vs[i]];
      WithEmptyListsEffect(adj0, vs[..i]);
      if vs[i] in adj {
        assert vs[i] in adj0 || vs[i] in vs[..i];
        assert forall u :: u in vs[..i + 1] ==> u in vs;
        return false, all, adj;
      }
      assert vs[..i + 1][..i] == vs[..i];
      adj := adj[vs[i] := []];
    }
    assert vs[..|vs|] == vs;
    return true, all, adj;
  }

  /// UnregisterVertices' loop on the vertex list and the dictionary as
  /// values: each vertex leaves the list once and the dictionary's keys.
  method RemoveVertices(all0: seq<Vertex>, adj0: map<Vertex, seq<Vertex>>, vs: seq<Vertex>)
      returns (all: seq<Vertex>, adj: map<Vertex, seq<Vertex>>)
    ensures all == RemoveEach(all0, vs)
    ensures forall u :: u in adj <==> u in adj0 && u !in vs
    ensures forall u :: u in adj ==> adj[u] == adj0[u]
  {
    all, adj := all0, adj0;
    for i := 0 to |vs|
      invariant all == RemoveEach(all0, vs[..i])
      invariant forall u :: u in adj <==> u in adj0 && u !in vs[..i]
      invariant forall u :: u in adj ==> adj[u] == adj0[u]
    {
      assert vs[..i + 1][..i] == vs[..i];
      assert vs[..i + 1] == vs[..i] + [vs[i]];
      all := RemoveFirst(all, vs[i]);
      adj := adj - {vs[i]};
    }
    assert vs[..|vs|] == vs;
  }

  class VisibilityGraph {
    const referencePolygon: Polygon?
    const bst: AVLTree<Edge>
    var polygons: seq<Polygon>
    var allVertices: seq<Vertex>
    var adjList: map<Vertex, seq<Vertex>>
    var distances: map<Edge, real>

    /// The tree is empty between operations, every registered vertex is a
    /// key once, and no vertex lists itself.
    ghost predicate Valid()
      reads this, bst
    {
      bst.Valid() && bst.root == Nil && Indexed(adjList, allVertices)
    }

    constructor (referencePolygon: Polygon?)
      ensures Valid() && Closed(adjList)
      ensures this.referencePolygon == referencePolygon
      ensures polygons == [] && allVertices == [] && adjList == map[] && distances == map[]
    {
      this.referencePolygon := referencePolygon;
      bst := new AVLTree<Edge>();
      polygons, allVertices, adjList, distances := [], [], map[], map[];
    }

    /// Whether the segment from `from` to `to` is unobstructed. A topological
    /// neighbour is always visible; otherwise the segment is rejected when it
    /// runs between the owner's neighbours, when it crosses an edge of the
    /// owner polygon (the start nudged Nudge towards `to`), or when it crosses
    /// the nearest edge of the sweep tree.
    method IsVisible(from: Vertex, to: Vertex, util: Util) returns (r: bool)
      requires CanLookFrom(from)
      ensures from.IsNeighborWith(to) ==> r
      ensures (!from.IsNeighborWith(to) && from.ownerPolygon != null &&
        from.IsGoingBetweenNeighbors(to.X(), to.Y(), util)) ==> !r
      ensures !from.IsNeighborWith(to) && from.ownerPolygon != null && OwnerBlocks(from, to, util) ==> !r
      ensures (!from.IsNeighborWith(to) && bst.root.Node? &&
        Elements(bst.root)[0].IntersectsWith(from.X(), from.Y(), to.X(), to.Y(), util)) ==> !r
      ensures !r ==> (!from.IsNeighborWith(to) &&
        ((from.ownerPolygon != null && from.IsGoingBetweenNeighbors(to.X(), to.Y(), util)) ||
         (from.ownerPolygon != null && OwnerBlocks(from, to, util)) ||
         (bst.root.Node? && Elements(bst.root)[0].IntersectsWith(from.X(), from.Y(), to.X(), to.Y(), util))))
      ensures r == Sees(from, to, bst.root, util)
    {
      if from.IsNeighborWith(to) {
        return true;
      }
      var fromX, fromZ, toX, toZ := from.X(), from.Y(), to.X(), to.Y();
      if from.ownerPolygon != null && from.IsGoingBetweenNeighbors(toX, toZ, util) {
        return false;
      }
      var nudgedX, nudgedZ := NudgedFrom(fromX, toX), NudgedFrom(fromZ, toZ);
      if from.ownerPolygon != null {
        var crosses := from.ownerPolygon.IntersectsWith(nudgedX, nudgedZ, toX, toZ, util);
        if crosses {
          return false;
        }
      }
      var leftMostEdge := bst.GetMin();
      if leftMostEdge.Some? && leftMostEdge.value.IntersectsWith(fromX, fromZ, toX, toZ, util) {
        return false;
      }
      return true;
    }

    /// One event of the sweep: the event point's edges on the
    /// counter-clockwise side leave the tree first, then those on the
    /// clockwise side take their distance from the pivot and enter it.
    method AdvanceSweepline(eventPoint: Vertex, vX: real, vZ: real, util: Util)
      requires bst.Valid() && eventPoint.HasNeighbors()
      modifies bst, this`distances
      ensures bst.Valid()
      ensures (bst.root, distances) == Passed(old(bst.root), old(distances), eventPoint, vX, vZ, util)
    {
      var ccwSide := eventPoint.GetEdgesOnCCwSide(vX, vZ);
      DeleteSideEdges(ccwSide);
      var cwSide := eventPoint.GetEdgesOnCwSide(vX, vZ);
      AddSideEdges(cwSide, vX, vZ, util);
    }

    /// The deleting loop of one event: each edge of the side leaves the tree,
    /// compared by the distances as they stand.
    method DeleteSideEdges(side: seq<Edge?>)
      requires bst.Valid() && |side| == 2
      modifies bst
      ensures bst.Valid() && bst.root == DeleteSide(old(bst.root), side, EdgeOrder(distances))
    {
      for j := 0 to 2
        invariant bst.Valid()
        invariant bst.root == DeleteSide(old(bst.root), side[..j], EdgeOrder(distances))
      {
        assert side[..j + 1][..j] == side[..j];
        if side[j] != null {
          var _ := bst.Delete(side[j], EdgeOrder(distances));
        }
      }
      assert side[..2] == side;
    }

    /// The adding loop of one event: each edge of the side takes its
    /// distance from (vX, vZ) and enters the tree.
    method AddSideEdges(side: seq<Edge?>, vX: real, vZ: real, util: Util)
      requires bst.Valid() && |side| == 2
      modifies bst, this`distances
      ensures bst.Valid()
      ensures (bst.root, distances) == AddSide(old(bst.root), old(distances), side,
        [SideDistance(side[0], vX, vZ, util), SideDistance(side[1], vX, vZ, util)])
    {
      ghost var ds := [SideDistance(side[0], vX, vZ, util), SideDistance(side[1], vX, vZ, util)];
      for j := 0 to 2
        invariant bst.Valid()
        invariant (bst.root, distances) == AddSide(old(bst.root), old(distances), side[..j], ds[..j])
      {
        assert side[..j + 1][..j] == side[..j] && ds[..j + 1][..j] == ds[..j];
        if side[j] != null {
          distances := distances[side[j] := side[j].DistanceTo(vX, vZ, util)];
          var _ := bst.Add(side[j], EdgeOrder(distances));
        }
      }
      assert side[..2] == side && ds[..2] == ds;
    }

    /// The first loop of GetVisibilePoints: the tree receives every edge the
    /// ray from (vX, vZ) along +x crosses, at the distance of the crossing,
    /// skipping the polygons whose bounds keep them off that ray.
    method SeedSweepline(vX: real, vZ: real, util: Util)
      requires bst.Valid() && forall p :: p in polygons ==> EdgesPresent(p)
      modifies bst, this`distances
      ensures bst.Valid()
      ensures (bst.root, distances) == old(Seeded(bst.root, distances, polygons, vX, vZ, util))
    {
      for i := 0 to |polygons|
        invariant bst.Valid()
        invariant (bst.root, distances) == old(Seeded(bst.root, distances, polygons[..i], vX, vZ, util))
      {
        assert polygons[..i + 1][..i] == polygons[..i];
        var polygon := polygons[i];
        if polygon.RightmostX < vX || polygon.TopmostZ < vZ || polygon.BottommostZ > vZ {
          continue;
        }
        SeedPolygon(polygon, vX, vZ, util);
      }
      assert polygons[..|polygons|] == polygons;
    }

    /// The edges of one polygon that the ray from (vX, vZ) along +x
    /// crosses go into the tree, each at the distance of its crossing.
    method SeedPolygon(polygon: Polygon, vX: real, vZ: real, util: Util)
      requires bst.Valid() && EdgesPresent(polygon)
      modifies bst, this`distances
      ensures bst.Valid()
      ensures (bst.root, distances) == old(SeededEdges(bst.root, distances, polygon.Edges[..], vX, vZ, util))
    {
      for j := 0 to polygon.Edges.Length
        invariant bst.Valid()
        invariant (bst.root, distances) == old(SeededEdges(bst.root, distances, polygon.Edges[..j], vX, vZ, util))
      {
        assert polygon.Edges[..j + 1][..j] == polygon.Edges[..j];
        var edge := polygon.Edges[j];
        var (hit, t) := edge.IntersectsRay(vX, vZ, 1.0, 0.0, util);
        if hit {
          distances := distances[edge := t];
          var _ := bst.Add(edge, EdgeOrder(distances));
        }
      }
      assert polygon.Edges[..polygon.Edges.Length] == polygon.Edges[..];
    }

    /// The body of the event loop: the visibility test, then the tree
    /// advanced past the event.
    method VisitEvent(v: Vertex, eventPoint: Vertex, util: Util) returns (seen: bool)
      requires bst.Valid() && CanLookFrom(v) && eventPoint.HasNeighbors()
      modifies bst, this`distances
      ensures bst.Valid()
      ensures v.IsNeighborWith(eventPoint) ==> seen
      ensures seen == old(Sees(v, eventPoint, bst.root, util))
      ensures (bst.root, distances) == Passed(old(bst.root), old(distances), eventPoint, v.X(), v.Y(), util)
    {
      TreeEdgesAllocated(bst.root);
      seen := IsVisible(v, eventPoint, util);
      AdvanceSweepline(eventPoint, v.X(), v.Y(), util);
    }

    /// VisitEvent within the sweep: the trees recorded for the events
    /// before it, which read only vertices and edges, stay as they were.
    method VisitEventPassing(v: Vertex, sortedEvents: seq<Vertex>, i: nat, util: Util,
                             ghost trees0: seq<(Tree<Edge>, map<Edge, real>)>)
        returns (seen: bool)
      requires i < |sortedEvents| && |trees0| == i + 1
      requires bst.Valid() && CanLookFrom(v) && forall k :: 0 <= k <= i ==> sortedEvents[k].HasNeighbors()
      requires forall k :: 0 <= k < i ==> PassedAs(v, sortedEvents[k], trees0[k], trees0[k + 1], util)
      modifies bst, this`distances
      ensures bst.Valid()
      ensures v.IsNeighborWith(sortedEvents[i]) ==> seen
      ensures seen == old(Sees(v, sortedEvents[i], bst.root, util))
      ensures (bst.root, distances) == Passed(old(bst.root), old(distances), sortedEvents[i], v.X(), v.Y(), util)
      ensures forall k :: 0 <= k < i ==> PassedAs(v, sortedEvents[k], trees0[k], trees0[k + 1], util)
    {
      label Before:
      seen := VisitEvent(v, sortedEvents[i], util);
      forall k | 0 <= k < i
        ensures PassedAs(v, sortedEvents[k], trees0[k], trees0[k + 1], util)
      {
        var e := sortedEvents[k];
        assert EventSides(e, v.X(), v.Y(), util) == old@Before(EventSides(e, v.X(), v.Y(), util));
      }
    }

    /// VisitEvent within the sweep: the verdicts recorded for the events
    /// before it, which read only vertices, polygons and edges, stay as they
    /// were, and so do their trees.
    method VisitEventRecorded(v: Vertex, sortedEvents: seq<Vertex>, i: nat, util: Util,
                              ghost visible0: seq<bool>, ghost trees0: seq<(Tree<Edge>, map<Edge, real>)>)
        returns (seen: bool)
      requires i < |sortedEvents| && |visible0| == i && |trees0| == i + 1 && trees0[i] == (bst.root, distances)
      requires sortedEvents[i] != v
      requires bst.Valid() && CanLookFrom(v) && forall k :: 0 <= k <= i ==> sortedEvents[k].HasNeighbors()
      requires forall k :: 0 <= k < i ==> SeenAs(v, sortedEvents[k], visible0[k], trees0[k].0, util)
      requires forall k :: 0 <= k < i ==> PassedAs(v, sortedEvents[k], trees0[k], trees0[k + 1], util)
      modifies bst, this`distances
      ensures bst.Valid()
      ensures v.IsNeighborWith(sortedEvents[i]) ==> seen
      ensures seen == old(Sees(v, sortedEvents[i], bst.root, util))
      ensures (bst.root, distances) == Passed(old(bst.root), old(distances), sortedEvents[i], v.X(), v.Y(), util)
      ensures forall k :: 0 <= k <= i ==> SeenAs(v, sortedEvents[k], (visible0 + [seen])[k], trees0[k].0, util)
      ensures forall k :: 0 <= k < i ==> PassedAs(v, sortedEvents[k], trees0[k], trees0[k + 1], util)
    {
      forall k | 0 <= k <= i {
        TreeEdgesAllocated(trees0[k].0);
      }
      label Before:
      seen := VisitEventPassing(v, sortedEvents, i, util, trees0);
      forall k | 0 <= k <= i
        ensures SeenAs(v, sortedEvents[k], (visible0 + [seen])[k], trees0[k].0, util)
      {
        var e := sortedEvents[k];
        assert Sees(v, e, trees0[k].0, util) == old@Before(Sees(v, e, trees0[k].0, util));
      }
    }

    /// One event of the sweep: the pivot is skipped, unseen, with the tree
    /// left alone; any other event goes to VisitStep.
    method SweepStep(v: Vertex, sortedEvents: seq<Vertex>, i: nat, util: Util,
                     result0: seq<Vertex>, ghost visible0: seq<bool>, ghost trees0: seq<(Tree<Edge>, map<Edge, real>)>)
        returns (result: seq<Vertex>, ghost visible: seq<bool>, ghost trees: seq<(Tree<Edge>, map<Edge, real>)>)
      requires i < |sortedEvents| && |visible0| == i && result0 == Picked(sortedEvents[..i], visible0, v)
      requires |trees0| == i + 1 && trees0[i] == (bst.root, distances)
      requires bst.Valid() && CanLookFrom(v) && forall k :: 0 <= k <= i ==> sortedEvents[k].HasNeighbors()
      requires forall k :: 0 <= k < i ==> SeenAs(v, sortedEvents[k], visible0[k], trees0[k].0, util)
      requires forall k :: 0 <= k < i ==> PassedAs(v, sortedEvents[k], trees0[k], trees0[k + 1], util)
      modifies bst, this`distances
      ensures bst.Valid() && |visible| == i + 1 && visible == visible0 + [visible[i]]
      ensures trees == trees0 + [(bst.root, distances)]
      ensures result == Picked(sortedEvents[..i + 1], visible, v)
      ensures sortedEvents[i] != v && v.IsNeighborWith(sortedEvents[i]) ==> visible[i]
      ensures forall k :: 0 <= k <= i ==> SeenAs(v, sortedEvents[k], visible[k], trees[k].0, util)
      ensures forall k :: 0 <= k <= i ==> PassedAs(v, sortedEvents[k], trees[k], trees[k + 1], util)
    {
      if sortedEvents[i] == v {
        PickedExtend(sortedEvents, visible0, v, i, false);
        result := result0;
        visible := visible0 + [false];
        trees := trees0 + [(bst.root, distances)];
        assert visible[..i] == visible0 && trees[..i + 1] == trees0;
        RecordsExtend(v, sortedEvents, i, visible0, visible, trees0, trees, util);
      } else {
        result, visible, trees := VisitStep(v, sortedEvents, i, util, result0, visible0, trees0);
      }
    }

    /// One event other than v: it is visited and kept when it is visible;
    /// the verdict is recorded either way, and so is the tree with its
    /// distances after the event.
    method VisitStep(v: Vertex, sortedEvents: seq<Vertex>, i: nat, util: Util,
                     result0: seq<Vertex>, ghost visible0: seq<bool>, ghost trees0: seq<(Tree<Edge>, map<Edge, real>)>)
        returns (result: seq<Vertex>, ghost visible: seq<bool>, ghost trees: seq<(Tree<Edge>, map<Edge, real>)>)
      requires i < |sortedEvents| && sortedEvents[i] != v
      requires |visible0| == i && result0 == Picked(sortedEvents[..i], visible0, v)
      requires |trees0| == i + 1 && trees0[i] == (bst.root, distances)
      requires bst.Valid() && CanLookFrom(v) && forall k :: 0 <= k <= i ==> sortedEvents[k].HasNeighbors()
      requires forall k :: 0 <= k < i ==> SeenAs(v, sortedEvents[k], visible0[k], trees0[k].0, util)
      requires forall k :: 0 <= k < i ==> PassedAs(v, sortedEvents[k], trees0[k], trees0[k + 1], util)
      modifies bst, this`distances
      ensures bst.Valid() && |visible| == i + 1 && visible == visible0 + [visible[i]]
      ensures trees == trees0 + [(bst.root, distances)]
      ensures result == Picked(sortedEvents[..i + 1], visible, v)
      ensures v.IsNeighborWith(sortedEvents[i]) ==> visible[i]
      ensures forall k :: 0 <= k <= i ==> SeenAs(v, sortedEvents[k], visible[k], trees[k].0, util)
      ensures forall k :: 0 <= k <= i ==> PassedAs(v, sortedEvents[k], trees[k], trees[k + 1], util)
    {
      var seen := VisitEventRecorded(v, sortedEvents, i, util, visible0, trees0);
      result := result0;
      if seen {
        result := result + [sortedEvents[i]];
      }
      PickedExtend(sortedEvents, visible0, v, i, seen);
      visible := visible0 + [seen];
      trees := trees0 + [(bst.root, distances)];
      assert visible[..i] == visible0 && trees[..i + 1] == trees0;
      RecordsExtend(v, sortedEvents, i, visible0, visible, trees0, trees, util);
    }

    /// The event loop of GetVisibilePoints: each event is judged by
    /// IsVisible and the tree advanced past it. trees[k] is the tree, with
    /// its distances, that event k meets; the first is the tree as it stood.
    method SweepEvents(v: Vertex, sortedEvents: seq<Vertex>, util: Util)
        returns (result: seq<Vertex>, ghost visible: seq<bool>, ghost trees: seq<(Tree<Edge>, map<Edge, real>)>)
      requires bst.Valid() && CanLookFrom(v)
      requires forall k :: 0 <= k < |sortedEvents| ==> sortedEvents[k].HasNeighbors()
      modifies bst, this`distances
      ensures bst.Valid()
      ensures SweepResult(result, sortedEvents, visible, v)
      ensures |trees| == |sortedEvents| + 1 && trees[0] == old((bst.root, distances))
      ensures forall k :: 0 <= k < |sortedEvents| ==> SeenAs(v, sortedEvents[k], visible[k], trees[k].0, util)
      ensures forall k :: 0 <= k < |sortedEvents| ==> PassedAs(v, sortedEvents[k], trees[k], trees[k + 1], util)
    {
      result := [];
      visible := [];
      trees := [(bst.root, distances)];
      for i := 0 to |sortedEvents|
        invariant bst.Valid() && |visible| == i && CanLookFrom(v)
        invariant result == Picked(sortedEvents[..i], visible, v)
        invariant forall k :: 0 <= k < i && sortedEvents[k] != v && v.IsNeighborWith(sortedEvents[k]) ==> visible[k]
        invariant |trees| == i + 1 && trees[0] == old((bst.root, distances)) && trees[i] == (bst.root, distances)
        invariant forall k :: 0 <= k < |sortedEvents| ==> sortedEvents[k].HasNeighbors()
        invariant forall k :: 0 <= k < i ==> SeenAs(v, sortedEvents[k], visible[k], trees[k].0, util)
        invariant forall k :: 0 <= k < i ==> PassedAs(v, sortedEvents[k], trees[k], trees[k + 1], util)
      {
        result, visible, trees := SweepStep(v, sortedEvents, i, util, result, visible, trees);
      }
      assert sortedEvents[..|sortedEvents|] == sortedEvents;
    }

    /// The rotational sweep from v. The tree starts with the edges the ray
    /// from v along +x crosses (of the polygons whose bounds reach that ray);
    /// then each event is judged by IsVisible and the tree advanced past it.
    /// trees[k] is the tree, with its distances, that event k meets.
    method GetVisibilePoints(v: Vertex, allVertices: seq<Vertex>, util: Util)
        returns (result: seq<Vertex>, ghost visible: seq<bool>, ghost trees: seq<(Tree<Edge>, map<Edge, real>)>)
      requires bst.Valid() && CanLookFrom(v)
      requires forall p :: p in polygons ==> EdgesPresent(p)
      requires forall u :: u in allVertices ==> u.HasNeighbors()
      requires forall u :: u in util.sortClockwise(v.X(), v.Y(), allVertices) ==> u in allVertices
      modifies bst, this`distances
      ensures bst.Valid() && bst.root == Nil
      ensures SweepResult(result, util.sortClockwise(v.X(), v.Y(), allVertices), visible, v)
      ensures trees != [] && trees[0] == old(Seeded(bst.root, distances, polygons, v.X(), v.Y(), util))
      ensures var events := util.sortClockwise(v.X(), v.Y(), allVertices);
        |trees| == |events| + 1 &&
        forall k :: 0 <= k < |events| ==>
          events[k].HasNeighbors() && SeenAs(v, events[k], visible[k], trees[k].0, util) &&
          PassedAs(v, events[k], trees[k], trees[k + 1], util)
    {
      var vX, vZ := v.X(), v.Y();
      var sortedEvents := util.sortClockwise(vX, vZ, allVertices);
      SeedSweepline(vX, vZ, util);
      assert forall k :: 0 <= k < |sortedEvents| ==> sortedEvents[k] in allVertices;
      result, visible, trees := SweepEvents(v, sortedEvents, util);
      ClearSweepline(v, sortedEvents, visible, trees, util);
    }

    /// _bst.Clear() at the end of the sweep: the verdicts and trees
    /// recorded for the events, which read only vertices, polygons and
    /// edges, stay as they were.
    method ClearSweepline(v: Vertex, sortedEvents: seq<Vertex>, ghost visible: seq<bool>,
                          ghost trees: seq<(Tree<Edge>, map<Edge, real>)>, util: Util)
      requires bst.Valid() && CanLookFrom(v)
      requires |visible| == |sortedEvents| && |trees| == |sortedEvents| + 1
      requires forall k :: 0 <= k < |sortedEvents| ==> sortedEvents[k].HasNeighbors()
      requires forall k :: 0 <= k < |sortedEvents| ==> SeenAs(v, sortedEvents[k], visible[k], trees[k].0, util)
      requires forall k :: 0 <= k < |sortedEvents| ==> PassedAs(v, sortedEvents[k], trees[k], trees[k + 1], util)
      modifies bst
      ensures bst.Valid() && bst.root == Nil
      ensures forall k :: 0 <= k < |sortedEvents| ==> SeenAs(v, sortedEvents[k], visible[k], trees[k].0, util)
      ensures forall k :: 0 <= k < |sortedEvents| ==> PassedAs(v, sortedEvents[k], trees[k], trees[k + 1], util)
    {
      forall k | 0 <= k < |trees| {
        TreeEdgesAllocated(trees[k].0);
      }
      label Swept:
      bst.Clear();
      forall k | 0 <= k < |sortedEvents|
        ensures SeenAs(v, sortedEvents[k], visible[k], trees[k].0, util)
        ensures PassedAs(v, sortedEvents[k], trees[k], trees[k + 1], util)
      {
        var e := sortedEvents[k];
        assert Sees(v, e, trees[k].0, util) == old@Swept(Sees(v, e, trees[k].0, util));
        assert EventSides(e, v.X(), v.Y(), util) == old@Swept(EventSides(e, v.X(), v.Y(), util));
      }
    }

    /// Takes the vertex out of the list of every vertex it lists, one
    /// List.Remove each; a listed vertex that is no key throws, which the
    /// model reports as failure with the lists as they were at that point.
    /// The vertex's own list is read as it goes, and it stays as it is since
    /// no vertex lists itself.
    method RemoveEdgesOfVertex(vertex: Vertex) returns (ok: bool)
      requires NoSelfLoops(adjList)
      modifies this`adjList
      ensures vertex !in old(adjList) ==> !ok && adjList == old(adjList)
      ensures vertex in old(adjList) ==> (adjList, ok) == Detach(old(adjList), old(adjList)[vertex], vertex)
    {
      if vertex !in adjList {
        return false;
      }
      ghost var adj0 := adjList;
      ghost var list := adjList[vertex];
      for i := 0 to |adjList[vertex]|
        invariant vertex in adjList && adjList[vertex] == list
        invariant (adjList, true) == Detach(adj0, list[..i], vertex)
      {
        assert list[..i + 1][..i] == list[..i];
        var w := adjList[vertex][i];
        assert list[..i + 1][i] == w;
        if w !in adjList {
          assert Detach(adj0, list[..i + 1], vertex) == (adjList, false);
          DetachStops(adj0, list, vertex, i + 1);
          return false;
        }
        assert w != vertex;
        adjList := adjList[w := RemoveFirst(adjList[w], vertex)];
      }
      assert list[..|list|] == list;
      return true;
    }

    /// The vertices outside the polygon that its vertices list, each once, in
    /// the order they are first met. A polygon vertex that is no key throws.
    method GetTouchingVertices(polygon: Polygon) returns (ok: bool, touching: seq<Vertex>)
      ensures ok <==> forall i :: 0 <= i < |polygon.Vertices| ==> polygon.Vertices[i] in adjList
      ensures ok ==> Distinct(touching)
      ensures ok ==> forall w :: w in touching <==> Touches(adjList, polygon.Vertices, w)
    {
      var vs := polygon.Vertices;
      touching := [];
      for i := 0 to |vs|
        invariant forall k :: 0 <= k < i ==> vs[k] in adjList
        invariant Distinct(touching)
        invariant forall w :: w in touching <==> w !in vs && exists k :: 0 <= k < i && w in adjList[vs[k]]
      {
        if vs[i] !in adjList {
          return false, touching;
        }
        var list := adjList[vs[i]];
        for j := 0 to |list|
          invariant Distinct(touching)
          invariant forall w :: w in touching <==>
            w !in vs && ((exists k :: 0 <= k < i && w in adjList[vs[k]]) || w in list[..j])
        {
          assert list[..j + 1] == list[..j] + [list[j]];
          if list[j] !in vs && list[j] !in touching {
            touching := touching + [list[j]];
          }
        }
        assert list[..|list|] == list;
      }
      return true, touching;
    }

    /// Registers the polygon's vertices one by one: each is appended to the
    /// vertex list and gets an empty adjacency list. A vertex that already
    /// is a key throws after it has been appended.
    method RegisterVertices(polygon: Polygon) returns (ok: bool)
      requires forall u :: u in allVertices ==> VertexReady(u)
      requires forall u :: u in polygon.Vertices ==> VertexReady(u)
      modifies this`allVertices, this`adjList
      ensures forall u :: u in allVertices ==> VertexReady(u)
      ensures ok <==> (Distinct(polygon.Vertices) &&
        forall i :: 0 <= i < |polygon.Vertices| ==> polygon.Vertices[i] !in old(adjList))
      ensures ok ==> allVertices == old(allVertices) + polygon.Vertices
      ensures ok ==> adjList == WithEmptyLists(old(adjList), polygon.Vertices)
      ensures !ok ==> exists k :: (0 <= k < |polygon.Vertices| &&
        allVertices == old(allVertices) + polygon.Vertices[..k + 1] &&
        adjList == WithEmptyLists(old(adjList), polygon.Vertices[..k]))
    {
      var all, adj;
      ok, all, adj := AppendVertices(allVertices, adjList, polygon.Vertices);
      assert forall u :: u in all ==> VertexReady(u);
      allVertices, adjList := all, adj;
    }

    /// Removes the polygon's vertices from the vertex list and from the
    /// dictionary; a vertex that is no key is skipped, as Dictionary.Remove does.
    method UnregisterVertices(polygon: Polygon)
      requires Indexed(adjList, allVertices) && forall u :: u in allVertices ==> VertexReady(u)
      modifies this`allVertices, this`adjList
      ensures allVertices == RemoveEach(old(allVertices), polygon.Vertices)
      ensures forall u :: u in adjList <==> u in old(adjList) && u !in polygon.Vertices
      ensures forall u :: u in adjList ==> adjList[u] == old(adjList)[u]
      ensures Indexed(adjList, allVertices) && forall u :: u in allVertices ==> VertexReady(u)
    {
      var all, adj := RemoveVertices(allVertices, adjList, polygon.Vertices);
      UnregisterIndexed(adjList, allVertices, polygon.Vertices, adj);
      RemoveEachDistinct(allVertices, polygon.Vertices);
      allVertices, adjList := all, adj;
    }

    /// RemoveEdgesOfVertex for each vertex in turn, stopping at the first
    /// failure. Lists only shrink, and in a closed graph nothing fails.
    method DetachAll(vs: seq<Vertex>) returns (ok: bool)
      requires NoSelfLoops(adjList)
      modifies this`adjList
      ensures Shrinks(old(adjList), adjList) && NoSelfLoops(adjList)
      ensures Closed(old(adjList)) ==> Closed(adjList)
      ensures Indexed(old(adjList), allVertices) ==> Indexed(adjList, allVertices)
      ensures Closed(old(adjList)) && (forall i :: 0 <= i < |vs| ==> vs[i] in old(adjList)) ==> ok
    {
      ghost var adj0 := adjList;
      ok := true;
      for i := 0 to |vs|
        invariant Shrinks(adj0, adjList) && NoSelfLoops(adjList)
        invariant Closed(adj0) ==> Closed(adjList)
        invariant ok
      {
        ghost var before := adjList;
        if vs[i] in adjList {
          DetachShrinks(adjList, adjList[vs[i]], vs[i]);
          DetachSucceeds(adjList, adjList[vs[i]], vs[i]);
        }
        ok := RemoveEdgesOfVertex(vs[i]);
        ShrinksPreserves(before, adjList);
        ShrinksPreserves(adj0, before);
        if !ok {
          return;
        }
      }
    }

    /// CalculateVisiblityForVertex for each vertex in turn over the graph's
    /// own vertex list, stopping at the first vertex that is no key. Each
    /// vertex reached ends with the list of one sweep from it, and the lists
    /// of the others stay.
    method RecalculateAll(vs: seq<Vertex>, util: Util) returns (ok: bool, ghost sweeps: map<Vertex, seq<bool>>)
      requires bst.Valid() && bst.root == Nil
      requires forall x, z, u :: u in util.sortClockwise(x, z, allVertices) ==> u in allVertices
      requires forall p :: p in polygons ==> EdgesPresent(p)
      requires forall u :: u in allVertices ==> VertexReady(u)
      requires forall u :: u in adjList ==> u in allVertices
      modifies bst, this`distances, this`adjList
      ensures bst.Valid() && bst.root == Nil
      ensures forall p :: p in polygons ==> EdgesPresent(p)
      ensures forall u :: u in allVertices ==> VertexReady(u)
      ensures Refilled(old(adjList), adjList, allVertices)
      ensures (forall i :: 0 <= i < |vs| ==> vs[i] in old(adjList)) ==> ok
      ensures ok ==> forall i :: 0 <= i < |vs| ==> vs[i] in sweeps
      ensures forall u :: u in adjList && u !in sweeps ==> adjList[u] == old(adjList)[u]
      ensures forall u :: u in sweeps ==>
        u in vs && u in adjList && Swept(adjList[u], u, sweeps[u], util, allVertices)
    {
      ghost var adj0 := adjList;
      ok, sweeps := true, map[];
      for i := 0 to |vs|
        invariant bst.Valid() && bst.root == Nil && ok
        invariant forall p :: p in polygons ==> EdgesPresent(p)
        invariant forall u :: u in allVertices ==> VertexReady(u)
        invariant Refilled(adj0, adjList, allVertices) && forall u :: u in adj0 ==> u in allVertices
        invariant Covers(sweeps, vs[..i])
        invariant forall u :: u in adjList && u !in sweeps ==> adjList[u] == adj0[u]
        invariant forall u :: u in sweeps ==>
          u in vs && u in adjList && Swept(adjList[u], u, sweeps[u], util, allVertices)
      {
        var done;
        ghost var record;
        done, sweeps, record := RecalculateNext(vs, i, util, adj0, sweeps);
        if !done {
          return false, sweeps;
        }
      }
      assert vs[..|vs|] == vs;
    }

    /// RecalculateAll as the polygon operations use it: the keys stay, and a
    /// graph free of self loops, or closed with every vertex a key, stays so.
    method Resweep(vs: seq<Vertex>, util: Util) returns (ok: bool)
      requires bst.Valid() && bst.root == Nil
      requires forall x, z, u :: u in util.sortClockwise(x, z, allVertices) ==> u in allVertices
      requires forall p :: p in polygons ==> EdgesPresent(p)
      requires forall u :: u in allVertices ==> VertexReady(u)
      requires forall u :: u in adjList ==> u in allVertices
      modifies bst, this`distances, this`adjList
      ensures bst.Valid() && bst.root == Nil
      ensures forall p :: p in polygons ==> EdgesPresent(p)
      ensures forall u :: u in allVertices ==> VertexReady(u)
      ensures adjList.Keys == old(adjList).Keys
      ensures NoSelfLoops(old(adjList)) ==> NoSelfLoops(adjList)
      ensures (Closed(old(adjList)) && forall i :: 0 <= i < |allVertices| ==> allVertices[i] in old(adjList)) ==> Closed(adjList)
      ensures (forall i :: 0 <= i < |vs| ==> vs[i] in old(adjList)) ==> ok
    {
      ghost var adj0 := adjList;
      ghost var sweeps;
      ok, sweeps := RecalculateAll(vs, util);
      RefilledPreserves(adj0, adjList, allVertices);
    }

    /// One round of RecalculateAll's loop: the sweep from vs[i], recorded in
    /// the sweeps so far.
    method RecalculateNext(vs: seq<Vertex>, i: nat, util: Util, ghost adj0: map<Vertex, seq<Vertex>>,
        ghost sweeps0: map<Vertex, seq<bool>>)
        returns (done: bool, ghost sweeps: map<Vertex, seq<bool>>, ghost record: SweepRecord)
      requires i < |vs|
      requires bst.Valid() && bst.root == Nil
      requires forall x, z, u :: u in util.sortClockwise(x, z, allVertices) ==> u in allVertices
      requires forall p :: p in polygons ==> EdgesPresent(p)
      requires forall u :: u in allVertices ==> VertexReady(u)
      requires Refilled(adj0, adjList, allVertices) && forall u :: u in adj0 ==> u in allVertices
      requires Covers(sweeps0, vs[..i])
      requires forall u :: u in adjList && u !in sweeps0 ==> adjList[u] == adj0[u]
      requires forall u :: u in sweeps0 ==>
        u in vs && u in adjList && Swept(adjList[u], u, sweeps0[u], util, allVertices)
      modifies bst, this`distances, this`adjList
      ensures bst.Valid() && bst.root == Nil
      ensures forall p :: p in polygons ==> EdgesPresent(p)
      ensures forall u :: u in allVertices ==> VertexReady(u)
      ensures done <==> vs[i] in old(adjList)
      ensures Refilled(adj0, adjList, allVertices)
      ensures done ==> Covers(sweeps, vs[..i + 1])
      ensures forall u :: u in adjList && u !in sweeps ==> adjList[u] == adj0[u]
      ensures done ==> sweeps == sweeps0[vs[i] := record.visible] && record.start == old(distances)
      ensures done ==> Recorded(vs[i], record, util, allVertices, polygons)
      ensures forall u :: u in sweeps ==>
        u in vs && u in adjList && Swept(adjList[u], u, sweeps[u], util, allVertices)
    {
      ghost var before, start := adjList, distances;
      ghost var visible, trees;
      done, visible, trees := CalculateRecorded(vs[i], util);
      record := SweepRecord(visible, trees, start);
      if !done {
        return false, sweeps0, record;
      }
      RefilledStep(adj0, before, allVertices, vs[i], adjList[vs[i]]);
      CoversStep(sweeps0, vs, i, visible);
      sweeps := sweeps0[vs[i] := visible];
      forall u | u in sweeps
        ensures u in vs && u in adjList && Swept(adjList[u], u, sweeps[u], util, allVertices)
      {
        if u != vs[i] {
          assert u in before && Swept(before[u], u, sweeps0[u], util, allVertices);
        }
      }
    }

    /// CalculateVisiblityForVertex over the graph's vertices from an empty
    /// tree: the sweep is recorded from the distances it began with.
    method CalculateRecorded(pivot: Vertex, util: Util)
        returns (ok: bool, ghost visible: seq<bool>, ghost trees: seq<(Tree<Edge>, map<Edge, real>)>)
      requires bst.Valid() && bst.root == Nil
      requires forall x, z, u :: u in util.sortClockwise(x, z, allVertices) ==> u in allVertices
      requires pivot in adjList ==> CanLookFrom(pivot)
      requires forall p :: p in polygons ==> EdgesPresent(p)
      requires forall u :: u in allVertices ==> u.HasNeighbors()
      modifies bst, this`distances, this`adjList
      ensures forall p :: p in polygons ==> EdgesPresent(p)
      ensures forall u :: u in allVertices && old(VertexReady(u)) ==> VertexReady(u)
      ensures forall u, vis :: u in old(adjList) && u != pivot && old(Swept(adjList[u], u, vis, util, allVertices)) ==>
        u in adjList && Swept(adjList[u], u, vis, util, allVertices)
      ensures bst.Valid()
      ensures ok <==> pivot in old(adjList)
      ensures !ok ==> adjList == old(adjList) && bst.root == old(bst.root)
      ensures ok ==> bst.root == Nil && pivot in adjList && adjList == old(adjList)[pivot := adjList[pivot]]
      ensures ok ==> Swept(adjList[pivot], pivot, visible, util, allVertices)
      ensures ok ==> ListedWithin(adjList[pivot], pivot, allVertices)
      ensures ok ==> Recorded(pivot, SweepRecord(visible, trees, old(distances)), util, allVertices, polygons)
    {
      ghost var start := distances;
      label Swept:
      ok, visible, trees := CalculateVisiblityForVertex(pivot, allVertices, util);
      if ok {
        assert Seeded(Nil, start, polygons, pivot.X(), pivot.Y(), util) ==
          old@Swept(Seeded(Nil, start, polygons, pivot.X(), pivot.Y(), util));
      }
    }

    /// Adds an obstacle: registers its vertices, sweeps from each of them,
    /// and then clears and sweeps again every outside vertex they see, whose
    /// view the new polygon may block. A polygon already present is ignored.
    method AddPolygon(polygon: Polygon, util: Util) returns (ok: bool)
      requires Valid()
      requires forall x, z, vs, u :: u in util.sortClockwise(x, z, vs) ==> u in vs
      requires forall p :: p in polygons ==> EdgesPresent(p)
      requires forall u :: u in allVertices ==> VertexReady(u)
      requires EdgesPresent(polygon) && forall u :: u in polygon.Vertices ==> VertexReady(u)
      modifies bst, this`polygons, this`allVertices, this`adjList, this`distances
      ensures polygon in old(polygons) ==>
        ok && polygons == old(polygons) && allVertices == old(allVertices) && adjList == old(adjList)
      ensures polygon !in old(polygons) ==> polygons == old(polygons) + [polygon]
      ensures ok && polygon !in old(polygons) ==> allVertices == old(allVertices) + polygon.Vertices
      ensures ok && polygon !in old(polygons) ==> forall u :: u in adjList <==> u in old(adjList) || u in polygon.Vertices
      ensures ok ==> Valid()
      ensures (Closed(old(adjList)) && Distinct(polygon.Vertices) &&
        forall i :: 0 <= i < |polygon.Vertices| ==> polygon.Vertices[i] !in old(adjList)) ==> ok && Closed(adjList)
      ensures forall p :: p in polygons ==> EdgesPresent(p)
      ensures forall u :: u in allVertices ==> VertexReady(u)
    {
      if polygon in polygons {
        return true;
      }
      polygons := polygons + [polygon];
      ok := RegisterAndPlace(polygon, util);
    }

    /// AddPolygon for a polygon it has just appended to the polygon list.
    method RegisterAndPlace(polygon: Polygon, util: Util) returns (ok: bool)
      requires Valid()
      requires forall x, z, vs, u :: u in util.sortClockwise(x, z, vs) ==> u in vs
      requires forall p :: p in polygons ==> EdgesPresent(p)
      requires forall u :: u in allVertices ==> VertexReady(u)
      requires forall u :: u in polygon.Vertices ==> VertexReady(u)
      modifies bst, this`allVertices, this`adjList, this`distances
      ensures ok ==> allVertices == old(allVertices) + polygon.Vertices
      ensures ok ==> forall u :: u in adjList <==> u in old(adjList) || u in polygon.Vertices
      ensures ok ==> Valid()
      ensures (Closed(old(adjList)) && Distinct(polygon.Vertices) &&
        forall i :: 0 <= i < |polygon.Vertices| ==> polygon.Vertices[i] !in old(adjList)) ==> ok && Closed(adjList)
      ensures forall p :: p in polygons ==> EdgesPresent(p)
      ensures forall u :: u in allVertices ==> VertexReady(u)
    {
      ok := Register(polygon);
      if !ok {
        return;
      }
      ok := PlacePolygon(polygon, util);
    }

    /// RegisterVertices as AddPolygon relies on it: the index is kept, the
    /// new vertices are keys, and a closed graph stays closed.
    method Register(polygon: Polygon) returns (ok: bool)
      requires Indexed(adjList, allVertices)
      requires forall u :: u in allVertices ==> VertexReady(u)
      requires forall u :: u in polygon.Vertices ==> VertexReady(u)
      modifies this`allVertices, this`adjList
      ensures forall u :: u in allVertices ==> VertexReady(u)
      ensures ok <==> (Distinct(polygon.Vertices) &&
        forall i :: 0 <= i < |polygon.Vertices| ==> polygon.Vertices[i] !in old(adjList))
      ensures ok ==> allVertices == old(allVertices) + polygon.Vertices
      ensures ok ==> forall u :: u in adjList <==> u in old(adjList) || u in polygon.Vertices
      ensures ok ==> Indexed(adjList, allVertices) && forall i :: 0 <= i < |polygon.Vertices| ==> polygon.Vertices[i] in adjList
      ensures ok && old(Closed(adjList)) ==> Closed(adjList)
    {
      ghost var adj0, all0 := adjList, allVertices;
      ok := RegisterVertices(polygon);
      if ok {
        RegisterIndexed(adj0, all0, polygon.Vertices);
      }
    }

    /// The part of AddPolygon after registration: the sweeps from the new
    /// vertices and the refresh of the outside vertices they see.
    method PlacePolygon(polygon: Polygon, util: Util) returns (ok: bool)
      requires bst.Valid() && bst.root == Nil && Indexed(adjList, allVertices)
      requires forall x, z, u :: u in util.sortClockwise(x, z, allVertices) ==> u in allVertices
      requires forall p :: p in polygons ==> EdgesPresent(p)
      requires forall u :: u in allVertices ==> VertexReady(u)
      requires forall i :: 0 <= i < |polygon.Vertices| ==> polygon.Vertices[i] in adjList
      modifies bst, this`adjList, this`distances
      ensures bst.Valid() && bst.root == Nil && Indexed(adjList, allVertices)
      ensures adjList.Keys == old(adjList).Keys
      ensures Closed(old(adjList)) ==> ok && Closed(adjList)
      ensures forall p :: p in polygons ==> EdgesPresent(p)
      ensures forall u :: u in allVertices ==> VertexReady(u)
    {
      ok := Resweep(polygon.Vertices, util);
      if !ok {
        return;
      }
      ok := RefreshTouching(polygon, util);
    }

    /// Clears the lists of the outside vertices the polygon's vertices see
    /// and sweeps from each of them again. In a closed graph none of this fails.
    method RefreshTouching(polygon: Polygon, util: Util) returns (ok: bool)
      requires bst.Valid() && bst.root == Nil && NoSelfLoops(adjList)
      requires forall x, z, u :: u in util.sortClockwise(x, z, allVertices) ==> u in allVertices
      requires forall p :: p in polygons ==> EdgesPresent(p)
      requires forall u :: u in allVertices ==> VertexReady(u)
      requires forall u :: u in adjList ==> u in allVertices
      requires forall i :: 0 <= i < |allVertices| ==> allVertices[i] in adjList
      modifies bst, this`adjList, this`distances
      ensures bst.Valid() && bst.root == Nil && NoSelfLoops(adjList)
      ensures adjList.Keys == old(adjList).Keys
      ensures (Closed(old(adjList)) && forall i :: 0 <= i < |polygon.Vertices| ==> polygon.Vertices[i] in old(adjList)) ==>
        ok && Closed(adjList)
      ensures forall p :: p in polygons ==> EdgesPresent(p)
      ensures forall u :: u in allVertices ==> VertexReady(u)
    {
      ghost var adj0 := adjList;
      var touching;
      ok, touching := GetTouchingVertices(polygon);
      if !ok {
        return;
      }
      if Closed(adj0) {
        TouchingListed(adj0, polygon.Vertices, touching);
      }
      ok := DetachAndResweep(touching, util);
    }

    /// The vertices' lists are cleared and each sweeps again.
    method DetachAndResweep(touching: seq<Vertex>, util: Util) returns (ok: bool)
      requires bst.Valid() && bst.root == Nil && NoSelfLoops(adjList)
      requires forall x, z, u :: u in util.sortClockwise(x, z, allVertices) ==> u in allVertices
      requires forall p :: p in polygons ==> EdgesPresent(p)
      requires forall u :: u in allVertices ==> VertexReady(u)
      requires forall u :: u in adjList ==> u in allVertices
      requires forall i :: 0 <= i < |allVertices| ==> allVertices[i] in adjList
      modifies bst, this`adjList, this`distances
      ensures bst.Valid() && bst.root == Nil && NoSelfLoops(adjList)
      ensures adjList.Keys == old(adjList).Keys
      ensures (Closed(old(adjList)) && forall i :: 0 <= i < |touching| ==> touching[i] in old(adjList)) ==>
        ok && Closed(adjList)
      ensures forall p :: p in polygons ==> EdgesPresent(p)
      ensures forall u :: u in allVertices ==> VertexReady(u)
    {
      ghost var adj0 := adjList;
      ok := DetachAll(touching);
      if !ok {
        return;
      }
      ghost var closed := Closed(adjList) && forall i :: 0 <= i < |touching| ==> touching[i] in adjList;
      assert Closed(adj0) && (forall i :: 0 <= i < |touching| ==> touching[i] in adj0) ==> closed;
      assert adjList.Keys == adj0.Keys;
      assert forall i :: 0 <= i < |allVertices| ==> allVertices[i] in adjList;
      assert forall u :: u in adjList ==> u in allVertices;
      ok := Resweep(touching, util);
    }

    /// Removes an obstacle: the outside vertices its vertices see are noted,
    /// its vertices leave the lists of the vertices they see, the polygon and
    /// its vertices are unregistered, and the noted vertices sweep again.
    /// A polygon vertex that is no key throws before anything changes.
    method RemovePolygon(polygon: Polygon, util: Util) returns (ok: bool)
      requires Valid()
      requires forall x, z, vs, u :: u in util.sortClockwise(x, z, vs) ==> u in vs
      requires forall p :: p in polygons ==> EdgesPresent(p)
      requires forall u :: u in allVertices ==> VertexReady(u)
      modifies bst, this`polygons, this`allVertices, this`adjList, this`distances
      ensures Valid()
      ensures forall p :: p in polygons ==> EdgesPresent(p)
      ensures forall u :: u in allVertices ==> VertexReady(u)
      ensures !(forall i :: 0 <= i < |polygon.Vertices| ==> polygon.Vertices[i] in old(adjList)) ==>
        !ok && polygons == old(polygons) && allVertices == old(allVertices) && adjList == old(adjList)
      ensures ok ==> polygons == RemoveFirst(old(polygons), polygon)
      ensures ok ==> allVertices == RemoveEach(old(allVertices), polygon.Vertices)
      ensures ok ==> forall u :: u in adjList <==> u in old(adjList) && u !in polygon.Vertices
      ensures (Closed(old(adjList)) && forall i :: 0 <= i < |polygon.Vertices| ==> polygon.Vertices[i] in old(adjList)) ==> ok
    {
      ghost var adj0 := adjList;
      var touching;
      ok, touching := GetTouchingVertices(polygon);
      if !ok {
        return;
      }
      if Closed(adj0) {
        TouchingListed(adj0, polygon.Vertices, touching);
      }
      assert Indexed(adjList, allVertices);
      ok := DetachAll(polygon.Vertices);
      if !ok {
        return;
      }
      assert adjList.Keys == adj0.Keys;
      ok := Unplace(polygon, touching, util);
    }

    /// RemovePolygon after the polygon's vertices have left the lists: the
    /// unregistration and the sweeps from the noted vertices.
    method Unplace(polygon: Polygon, touching: seq<Vertex>, util: Util) returns (ok: bool)
      requires bst.Valid() && bst.root == Nil && Indexed(adjList, allVertices)
      requires forall x, z, u :: u in util.sortClockwise(x, z, RemoveEach(allVertices, polygon.Vertices)) ==>
        u in RemoveEach(allVertices, polygon.Vertices)
      requires forall p :: p in polygons ==> EdgesPresent(p)
      requires forall u :: u in allVertices ==> VertexReady(u)
      modifies bst, this`polygons, this`allVertices, this`adjList, this`distances
      ensures Valid()
      ensures forall p :: p in polygons ==> EdgesPresent(p)
      ensures forall u :: u in allVertices ==> VertexReady(u)
      ensures polygons == RemoveFirst(old(polygons), polygon)
      ensures allVertices == RemoveEach(old(allVertices), polygon.Vertices)
      ensures forall u :: u in adjList <==> u in old(adjList) && u !in polygon.Vertices
      ensures (forall i :: 0 <= i < |touching| ==> touching[i] in old(adjList) && touching[i] !in polygon.Vertices) ==> ok
    {
      assert forall p :: p in RemoveFirst(polygons, polygon) ==> EdgesPresent(p) by {
        RemoveFirstSubset(polygons, polygon);
      }
      polygons := RemoveFirst(polygons, polygon);
      UnregisterVertices(polygon);
      ok := Resweep(touching, util);
    }

    /// Refills the pivot's list with a fresh sweep over the given vertices.
    /// A pivot that is no key throws before anything changes. The sweep's
    /// verdicts and trees are those GetVisibilePoints records.
    method CalculateVisiblityForVertex(pivot: Vertex, allVertices: seq<Vertex>, util: Util)
        returns (ok: bool, ghost visible: seq<bool>, ghost trees: seq<(Tree<Edge>, map<Edge, real>)>)
      requires bst.Valid()
      requires forall x, z, u :: u in util.sortClockwise(x, z, allVertices) ==> u in allVertices
      requires pivot in adjList ==> CanLookFrom(pivot)
      requires forall p :: p in polygons ==> EdgesPresent(p)
      requires forall u :: u in allVertices ==> u.HasNeighbors()
      modifies bst, this`distances, this`adjList
      ensures forall p :: p in polygons ==> EdgesPresent(p)
      ensures forall u :: u in allVertices && old(VertexReady(u)) ==> VertexReady(u)
      ensures forall u, vis :: u in old(adjList) && u != pivot && old(Swept(adjList[u], u, vis, util, allVertices)) ==>
        u in adjList && Swept(adjList[u], u, vis, util, allVertices)
      ensures bst.Valid()
      ensures ok <==> pivot in old(adjList)
      ensures !ok ==> adjList == old(adjList) && bst.root == old(bst.root)
      ensures ok ==> bst.root == Nil && pivot in adjList && adjList == old(adjList)[pivot := adjList[pivot]]
      ensures ok ==> Swept(adjList[pivot], pivot, visible, util, allVertices)
      ensures ok ==> ListedWithin(adjList[pivot], pivot, allVertices)
      ensures ok ==> trees != [] && trees[0] == old(Seeded(bst.root, distances, polygons, pivot.X(), pivot.Y(), util))
      ensures ok ==> EventsRecorded(pivot, util.sortClockwise(pivot.X(), pivot.Y(), allVertices), visible, trees, util)
    {
      if pivot !in adjList {
        return false, [], [];
      }
      var result;
      result, visible, trees := GetVisibilePoints(pivot, allVertices, util);
      var events := util.sortClockwise(pivot.X(), pivot.Y(), allVertices);
      PickedSubsequence(events, visible, pivot);
      StoreList(pivot, result, events, visible, trees, util);
      ok := true;
    }

    /// `_adjList[pivot] = result`: the verdicts and trees recorded for the
    /// sweep, which read only vertices, polygons and edges, stay as they were.
    method StoreList(pivot: Vertex, result: seq<Vertex>, events: seq<Vertex>, ghost visible: seq<bool>,
                     ghost trees: seq<(Tree<Edge>, map<Edge, real>)>, util: Util)
      requires CanLookFrom(pivot) && EventsRecorded(pivot, events, visible, trees, util)
      modifies this`adjList
      ensures adjList == old(adjList)[pivot := result]
      ensures EventsRecorded(pivot, events, visible, trees, util)
    {
      forall k | 0 <= k < |trees| {
        TreeEdgesAllocated(trees[k].0);
      }
      label Stored:
      adjList := adjList[pivot := result];
      forall k | 0 <= k < |events|
        ensures SeenAs(pivot, events[k], visible[k], trees[k].0, util)
        ensures PassedAs(pivot, events[k], trees[k], trees[k + 1], util)
      {
        var e := events[k];
        assert Sees(pivot, e, trees[k].0, util) == old@Stored(Sees(pivot, e, trees[k].0, util));
        assert EventSides(e, pivot.X(), pivot.Y(), util) == old@Stored(EventSides(e, pivot.X(), pivot.Y(), util));
      }
    }
  }

  /// Some edge of the owner polygon crosses the probe from `from`, nudged,
  /// to `to`.
  ghost predicate OwnerBlocks(from: Vertex, to: Vertex, util: Util)
    requires from.ownerPolygon != null && EdgesPresent(from.ownerPolygon)
    reads from, to, from.ownerPolygon, from.ownerPolygon.Edges, from.ownerPolygon.Edges[..]
  {
    var p := from.ownerPolygon;
    exists i :: 0 <= i < p.Edges.Length &&
      p.Edges[i].IntersectsWith(NudgedFrom(from.X(), to.X()), NudgedFrom(from.Y(), to.Y()), to.X(), to.Y(), util)
  }

  /// The start of IsVisible's owner test: moved Nudge towards the target,
  /// axis by axis, with Mathf.Sign's 1 for a zero difference.
  function NudgedFrom(from: real, to: real): real {
    from - MathfSign(from - to) * Nudge
  }
  /// The edges a tree value holds are allocated when the value is.
  lemma {:induction false} TreeEdgesAllocated(t: Tree<Edge>)
    requires allocated(t)
    ensures forall i :: 0 <= i < |Elements(t)| ==> allocated(Elements(t)[i])
  {
    match t
    case Nil =>
    case Node(l, x, _, r) =>
      TreeEdgesAllocated(l);
      TreeEdgesAllocated(r);
  }

  /// What IsVisible answers for the sight line from `from` to `to`, with the
  /// sweep tree holding root: a neighbour is seen; any other vertex is seen
  /// when the line runs neither between the neighbours nor through the
  /// owner polygon, and does not cross the nearest edge of the tree.
  ghost predicate Sees(from: Vertex, to: Vertex, root: Tree<Edge>, util: Util)
    requires CanLookFrom(from)
    reads from, from.neighbors, to
    reads if from.ownerPolygon == null then {} else {from.ownerPolygon, from.neighbors[0], from.neighbors[1]}
    reads if from.ownerPolygon == null then {} else {from.ownerPolygon.Edges}
    reads if from.ownerPolygon == null then [] else from.ownerPolygon.Edges[..]
    reads if root.Node? then {Elements(root)[0]} else {}
  {
    from.IsNeighborWith(to) ||
    ((from.ownerPolygon == null || (!from.IsGoingBetweenNeighbors(to.X(), to.Y(), util) && !OwnerBlocks(from, to, util))) &&
     (root.Nil? || !Elements(root)[0].IntersectsWith(from.X(), from.Y(), to.X(), to.Y(), util)))
  }

  /// The tree and the distances once seeding has gone through these edges
  /// in order: each edge the ray from (vX, vZ) along +x crosses is added at
  /// the distance of the crossing.
  ghost function SeededEdges(t: Tree<Edge>, dist: map<Edge, real>, edges: seq<Edge?>, vX: real, vZ: real, util: Util):
    (r: (Tree<Edge>, map<Edge, real>))
    requires Balanced(t) && forall k :: 0 <= k < |edges| ==> edges[k] != null
    reads edges
    ensures Balanced(r.0)
  {
    if edges == [] then (t, dist)
    else
      var s := SeededEdges(t, dist, edges[..|edges| - 1], vX, vZ, util);
      var e := edges[|edges| - 1];
      var (hit, d) := e.IntersectsRay(vX, vZ, 1.0, 0.0, util);
      if hit then
        var dist' := s.1[e := d];
        (Insert(s.0, e, EdgeOrder(dist')).tree, dist')
      else s
  }

  /// The tree and the distances once seeding has gone through these
  /// polygons in order: a polygon whose bounds leave the ray from (vX, vZ)
  /// along +x is skipped, the edges of any other are seeded.
  ghost function Seeded(t: Tree<Edge>, dist: map<Edge, real>, ps: seq<Polygon>, vX: real, vZ: real, util: Util):
    (r: (Tree<Edge>, map<Edge, real>))
    requires Balanced(t) && forall k :: 0 <= k < |ps| ==> EdgesPresent(ps[k])
    reads ps, set p | p in ps :: p.Edges
    reads set p, k | p in ps && 0 <= k < p.Edges.Length :: p.Edges[k]
    ensures Balanced(r.0)
  {
    if ps == [] then (t, dist)
    else
      var s := Seeded(t, dist, ps[..|ps| - 1], vX, vZ, util);
      var p := ps[|ps| - 1];
      assert EdgesPresent(p);
      if p.RightmostX < vX || p.TopmostZ < vZ || p.BottommostZ > vZ then s
      else SeededEdges(s.0, s.1, p.Edges[..], vX, vZ, util)
  }

  /// The verdict on one event of the sweep from v: the pivot itself is
  /// skipped and unseen; any other event is seen as Sees says for the tree
  /// it meets.
  ghost predicate SeenAs(v: Vertex, e: Vertex, seen: bool, root: Tree<Edge>, util: Util)
    requires CanLookFrom(v)
    reads v, v.neighbors, e
    reads if v.ownerPolygon == null then {} else {v.ownerPolygon, v.neighbors[0], v.neighbors[1]}
    reads if v.ownerPolygon == null then {} else {v.ownerPolygon.Edges}
    reads if v.ownerPolygon == null then [] else v.ownerPolygon.Edges[..]
    reads if root.Node? then {Elements(root)[0]} else {}
  {
    (e != v ==> seen == Sees(v, e, root, util)) && (e == v ==> !seen)
  }

  /// What one sweep from u over `all` leaves on record, as GetVisibilePoints
  /// promises it: the first tree is the seeding of the polygons ps from the
  /// distances the sweep began with, and the events are EventsRecorded.
  ghost predicate Recorded(u: Vertex, s: SweepRecord, util: Util, all: seq<Vertex>, ps: seq<Polygon>)
    reads u, u.neighbors, util.sortClockwise(u.X(), u.Y(), all), ps
    reads if u.ownerPolygon == null then {} else {u.ownerPolygon}
    reads if u.ownerPolygon == null then {} else {u.ownerPolygon.Edges}
    reads set e | e in util.sortClockwise(u.X(), u.Y(), all) :: e.neighbors
    reads set p | p in ps :: p.Edges
    reads RecordFootprint(u, s, util, all, ps)
  {
    CanLookFrom(u) && (forall p :: p in ps ==> EdgesPresent(p)) &&
    s.trees != [] && s.trees[0] == Seeded(Nil, s.start, ps, u.X(), u.Y(), util) &&
    EventsRecorded(u, util.sortClockwise(u.X(), u.Y(), all), s.visible, s.trees, util)
  }

  /// The objects Recorded reads: the pivot with its neighbour slots,
  /// neighbours and owner, the events' footprint, and the polygons with
  /// their edges.
  ghost function RecordFootprint(u: Vertex, s: SweepRecord, util: Util, all: seq<Vertex>, ps: seq<Polygon>): set<object>
    reads u, u.neighbors, util.sortClockwise(u.X(), u.Y(), all), ps
    reads if u.ownerPolygon == null then {} else {u.ownerPolygon}
    reads if u.ownerPolygon == null then {} else {u.ownerPolygon.Edges}
    reads set e | e in util.sortClockwise(u.X(), u.Y(), all) :: e.neighbors
    reads set p | p in ps :: p.Edges
  {
    var pivot: set<object> := {u, u.neighbors} + set j | 0 <= j < u.neighbors.Length && u.neighbors[j] != null :: u.neighbors[j];
    var owner: set<object> := if u.ownerPolygon == null then {} else
      {u.ownerPolygon, u.ownerPolygon.Edges} +
      set k | 0 <= k < u.ownerPolygon.Edges.Length && u.ownerPolygon.Edges[k] != null :: u.ownerPolygon.Edges[k];
    var obstacles: set<object> := set p | p in ps :: p;
    var arrays: set<object> := set p | p in ps :: p.Edges;
    var sides: set<object> := set p, k | p in ps && 0 <= k < p.Edges.Length && p.Edges[k] != null :: p.Edges[k];
    pivot + owner + obstacles + arrays + sides + EventsFootprint(util.sortClockwise(u.X(), u.Y(), all), s.trees)
  }

  /// The records of a sweep from v over these events: each event's verdict
  /// is SeenAs for the tree it meets, and the next tree is PassedAs that
  /// event.
  ghost predicate EventsRecorded(v: Vertex, events: seq<Vertex>, visible: seq<bool>,
                                 trees: seq<(Tree<Edge>, map<Edge, real>)>, util: Util)
    requires CanLookFrom(v)
    reads v, v.neighbors
    reads if v.ownerPolygon == null then {} else {v.ownerPolygon, v.neighbors[0], v.neighbors[1]}
    reads if v.ownerPolygon == null then {} else {v.ownerPolygon.Edges}
    reads if v.ownerPolygon == null then [] else v.ownerPolygon.Edges[..]
    reads events, set e | e in events :: e.neighbors
    reads EventsFootprint(events, trees)
  {
    |visible| == |events| && |trees| == |events| + 1 &&
    forall k :: 0 <= k < |events| ==>
      events[k].HasNeighbors() && SeenAs(v, events[k], visible[k], trees[k].0, util) &&
      PassedAs(v, events[k], trees[k], trees[k + 1], util)
  }

  /// The objects the records of events read besides the pivot's: the event
  /// vertices, their neighbour slots and edges, and each tree's first edge.
  ghost function EventsFootprint(events: seq<Vertex>, trees: seq<(Tree<Edge>, map<Edge, real>)>): set<object>
    reads events, set e | e in events :: e.neighbors
  {
    var points: set<object> := set e | e in events :: e;
    var slots: set<object> := set e | e in events :: e.neighbors;
    var neighbours: set<object> :=
      set e, j | e in events && 0 <= j < e.neighbors.Length && e.neighbors[j] != null :: e.neighbors[j];
    var edges: set<object> :=
      (set e | e in events && e.edge1 != null :: e.edge1) + (set e | e in events && e.edge2 != null :: e.edge2);
    var nearest: set<object> := set k | 0 <= k < |trees| && trees[k].0.Node? :: Elements(trees[k].0)[0];
    points + slots + neighbours + edges + nearest
  }

  /// The tree after one event of the sweep from v: the pivot leaves it
  /// alone; the sweep passes any other event.
  ghost predicate PassedAs(v: Vertex, e: Vertex, before: (Tree<Edge>, map<Edge, real>),
                           after: (Tree<Edge>, map<Edge, real>), util: Util)
    requires e.HasNeighbors()
    reads v, e, e.neighbors, e.neighbors[0], e.neighbors[1], e.GetEdgesOnCwSide(v.X(), v.Y())
  {
    Balanced(before.0) &&
    (e != v ==> after == PassedWith(before.0, before.1, EventSides(e, v.X(), v.Y(), util))) &&
    (e == v ==> after == before)
  }

  /// The records of the events before i, with event i's verdict and tree
  /// appended, are the records of the events up to i.
  lemma RecordsExtend(v: Vertex, events: seq<Vertex>, i: nat, visible0: seq<bool>, visible: seq<bool>,
                      trees0: seq<(Tree<Edge>, map<Edge, real>)>, trees: seq<(Tree<Edge>, map<Edge, real>)>, util: Util)
    requires i < |events| && |visible0| == i && |trees0| == i + 1
    requires |visible| == i + 1 && visible[..i] == visible0 && |trees| == i + 2 && trees[..i + 1] == trees0
    requires CanLookFrom(v) && forall k :: 0 <= k <= i ==> events[k].HasNeighbors()
    requires forall k :: 0 <= k < i ==> SeenAs(v, events[k], visible0[k], trees0[k].0, util)
    requires forall k :: 0 <= k < i ==> PassedAs(v, events[k], trees0[k], trees0[k + 1], util)
    requires SeenAs(v, events[i], visible[i], trees[i].0, util) && PassedAs(v, events[i], trees[i], trees[i + 1], util)
    ensures forall k :: 0 <= k <= i ==> SeenAs(v, events[k], visible[k], trees[k].0, util)
    ensures forall k :: 0 <= k <= i ==> PassedAs(v, events[k], trees[k], trees[k + 1], util)
  {
    forall k | 0 <= k < i
      ensures SeenAs(v, events[k], visible[k], trees[k].0, util)
      ensures PassedAs(v, events[k], trees[k], trees[k + 1], util)
    {
      assert visible[k] == visible0[k] && trees[k] == trees0[k] && trees[k + 1] == trees0[k + 1];
    }
  }

  /// What passing an event from (vX, vZ) does to the tree: the event's
  /// counter-clockwise edges, its clockwise edges and their distances.
  ghost function EventSides(eventPoint: Vertex, vX: real, vZ: real, util: Util): (r: (seq<Edge?>, seq<Edge?>, seq<real>))
    requires eventPoint.HasNeighbors()
    reads eventPoint, eventPoint.neighbors, eventPoint.neighbors[0], eventPoint.neighbors[1]
    reads eventPoint.GetEdgesOnCwSide(vX, vZ)
    ensures |r.1| == |r.2| == 2
  {
    var cw := eventPoint.GetEdgesOnCwSide(vX, vZ);
    (eventPoint.GetEdgesOnCCwSide(vX, vZ), cw, [SideDistance(cw[0], vX, vZ, util), SideDistance(cw[1], vX, vZ, util)])
  }

  /// The tree and the distances once the sweep has passed an event with
  /// these sides: the counter-clockwise edges deleted, then the clockwise
  /// edges added at their distances.
  ghost function PassedWith(root: Tree<Edge>, dist: map<Edge, real>, sides: (seq<Edge?>, seq<Edge?>, seq<real>)):
    (r: (Tree<Edge>, map<Edge, real>))
    requires Balanced(root) && |sides.1| == |sides.2|
    ensures Balanced(r.0)
  {
    AddSide(DeleteSide(root, sides.0, EdgeOrder(dist)), dist, sides.1, sides.2)
  }

  /// The tree and the distances once the sweep from (vX, vZ) has passed the
  /// event.
  ghost function Passed(root: Tree<Edge>, dist: map<Edge, real>, eventPoint: Vertex, vX: real, vZ: real, util: Util):
    (r: (Tree<Edge>, map<Edge, real>))
    requires Balanced(root) && eventPoint.HasNeighbors()
    reads eventPoint, eventPoint.neighbors, eventPoint.neighbors[0], eventPoint.neighbors[1]
    reads eventPoint.GetEdgesOnCwSide(vX, vZ)
    ensures Balanced(r.0)
  {
    PassedWith(root, dist, EventSides(eventPoint, vX, vZ, util))
  }
}
