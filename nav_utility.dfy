/// NavUtility.BuildEdges and BuildManifoldEdges: the unique edges of a
/// triangle mesh, found in two passes over the triangles, and the boundary
/// edges among them (the edges with only one adjacent triangle).
module NavUtility {
  import opened Collections

  /// The mesh Edge: two vertex indices and two face indices. The first pass
  /// sets both faces to the triangle that owns the edge, the second pass
  /// writes the second face when it finds the neighbouring triangle.
  datatype MeshEdge = MeshEdge(v0: int, v1: int, f0: int, f1: int)

  /// One side of a triangle as the passes visit it: from i1 to i2.
  datatype Side = Side(from: int, to: int, face: int)

  /// The sides of triangle a in visiting order: (t2,t0), (t0,t1), (t1,t2).
  function TriangleSides(t: seq<int>, a: nat): seq<Side>
    requires 3 * a + 3 <= |t|
  {
    [Side(t[3 * a + 2], t[3 * a], a), Side(t[3 * a], t[3 * a + 1], a), Side(t[3 * a + 1], t[3 * a + 2], a)]
  }

  /// The sides of the first n triangles, triangle by triangle.
  function Sides(t: seq<int>, n: nat): (r: seq<Side>)
    requires 3 * n <= |t|
    ensures |r| == 3 * n
  {
    if n == 0 then [] else Sides(t, n - 1) + TriangleSides(t, n - 1)
  }

  /// Every side of the first n triangles belongs to one of them and joins two
  /// of its corners.
  lemma {:induction false} SidesOfTriangles(t: seq<int>, n: nat)
    requires 3 * n <= |t|
    ensures forall i :: 0 <= i < |Sides(t, n)| ==>
      var s := Sides(t, n)[i];
      0 <= s.face < n && s.from in t[3 * s.face..3 * s.face + 3] && s.to in t[3 * s.face..3 * s.face + 3]
  {
    if n > 0 {
      SidesOfTriangles(t, n - 1);
      var pre, tri := Sides(t, n - 1), TriangleSides(t, n - 1);
      forall i | 0 <= i < |Sides(t, n)|
        ensures var s := Sides(t, n)[i];
          0 <= s.face < n && s.from in t[3 * s.face..3 * s.face + 3] && s.to in t[3 * s.face..3 * s.face + 3]
      {
        if i >= |pre| {
          var c := t[3 * (n - 1)..3 * (n - 1) + 3];
          assert c[0] == t[3 * (n - 1)] && c[1] == t[3 * (n - 1) + 1] && c[2] == t[3 * (n - 1) + 2];
          assert Sides(t, n)[i] == tri[i - |pre|];
        } else {
          assert Sides(t, n)[i] == pre[i];
        }
      }
    }
  }

  // ---------------------------------------------------------------------
  // The two passes as folds over the sides.
  // ---------------------------------------------------------------------

  /// The first pass on one side: an ascending side becomes a new edge owned
  /// by its triangle.
  function Step1(edges: seq<MeshEdge>, s: Side): seq<MeshEdge> {
    if s.from < s.to then edges + [MeshEdge(s.from, s.to, s.face, s.face)] else edges
  }

  function Pass1(ss: seq<Side>): seq<MeshEdge> {
    if ss == [] then [] else Step1(Pass1(ss[..|ss| - 1]), ss[|ss| - 1])
  }

  lemma Pass1Snoc(ss: seq<Side>, s: Side)
    ensures Pass1(ss + [s]) == Step1(Pass1(ss), s)
  {
    assert (ss + [s])[..|ss|] == ss;
  }

  /// An edge the second pass may complete: from lo to hi and still owned by
  /// one triangle only.
  predicate IsOpen(e: MeshEdge, lo: int, hi: int) {
    e.v0 == lo && e.v1 == hi && e.f0 == e.f1
  }

  /// The first open edge lo -> hi among the first n edges, n when none is.
  function OpenIndex(edges: seq<MeshEdge>, n: nat, lo: int, hi: int, from: nat): (r: nat)
    requires from <= n <= |edges|
    ensures from <= r <= n
    ensures r < n ==> IsOpen(edges[r], lo, hi)
    ensures forall e :: from <= e < r ==> !IsOpen(edges[e], lo, hi)
    decreases n - from
  {
    if from == n then n
    else if IsOpen(edges[from], lo, hi) then from
    else OpenIndex(edges, n, lo, hi, from + 1)
  }

  /// The second pass on one side: a descending side completes the first
  /// open first-pass edge running the other way, or becomes an edge of its
  /// own when there is none.
  function Step2(edges: seq<MeshEdge>, n1: nat, s: Side): (r: seq<MeshEdge>)
    requires n1 <= |edges|
    ensures |edges| <= |r| <= |edges| + (if s.from > s.to then 1 else 0)
    ensures forall e :: 0 <= e < |edges| ==>
      r[e].v0 == edges[e].v0 && r[e].v1 == edges[e].v1 && r[e].f0 == edges[e].f0
  {
    if s.from > s.to then
      var j := OpenIndex(edges, n1, s.to, s.from, 0);
      if j < n1 then edges[j := edges[j].(f1 := s.face)]
      else edges + [MeshEdge(s.from, s.to, s.face, s.face)]
    else edges
  }

  function Pass2(edges: seq<MeshEdge>, n1: nat, ss: seq<Side>): (r: seq<MeshEdge>)
    requires n1 <= |edges|
    ensures |edges| <= |r|
  {
    if ss == [] then edges else Step2(Pass2(edges, n1, ss[..|ss| - 1]), n1, ss[|ss| - 1])
  }

  lemma Pass2Snoc(edges: seq<MeshEdge>, n1: nat, ss: seq<Side>, s: Side)
    requires n1 <= |edges|
    ensures Pass2(edges, n1, ss + [s]) == Step2(Pass2(edges, n1, ss), n1, s)
  {
    assert (ss + [s])[..|ss|] == ss;
  }

  /// The edges BuildEdges returns for a triangle array.
  function UniqueEdges(t: seq<int>): seq<MeshEdge> {
    var ss := Sides(t, |t| / 3);
    var e1 := Pass1(ss);
    Pass2(e1, |e1|, ss)
  }

  // ---------------------------------------------------------------------
  // What the passes promise.
  // ---------------------------------------------------------------------

  function Ascending(ss: seq<Side>): nat {
    if ss == [] then 0 else Ascending(ss[..|ss| - 1]) + (if ss[|ss| - 1].from < ss[|ss| - 1].to then 1 else 0)
  }

  function Descending(ss: seq<Side>): nat {
    if ss == [] then 0 else Descending(ss[..|ss| - 1]) + (if ss[|ss| - 1].from > ss[|ss| - 1].to then 1 else 0)
  }

  /// No side is both ascending and descending.
  lemma {:induction false} CountsBounded(ss: seq<Side>)
    ensures Ascending(ss) + Descending(ss) <= |ss|
  {
    if ss != [] {
      CountsBounded(ss[..|ss| - 1]);
    }
  }

  /// The first pass makes one edge per ascending side, each ascending and
  /// owned by exactly one triangle, and each a side of that triangle.
  lemma {:induction false} Pass1Edges(ss: seq<Side>)
    ensures |Pass1(ss)| == Ascending(ss)
    ensures forall e :: 0 <= e < |Pass1(ss)| ==>
      var x := Pass1(ss)[e];
      x.v0 < x.v1 && x.f0 == x.f1 && Side(x.v0, x.v1, x.f0) in ss
  {
    if ss != [] {
      var pre := ss[..|ss| - 1];
      Pass1Edges(pre);
      forall e | 0 <= e < |Pass1(ss)|
        ensures var x := Pass1(ss)[e];
          x.v0 < x.v1 && x.f0 == x.f1 && Side(x.v0, x.v1, x.f0) in ss
      {
        if e < |Pass1(pre)| {
          assert Pass1(ss)[e] == Pass1(pre)[e];
          var x := Pass1(ss)[e];
          assert Side(x.v0, x.v1, x.f0) in pre;
        } else {
          assert ss[|ss| - 1] in ss;
        }
      }
    }
  }

  /// The second pass adds at most one edge per descending side.
  lemma {:induction false} Pass2Size(edges: seq<MeshEdge>, n1: nat, ss: seq<Side>)
    requires n1 <= |edges|
    ensures |Pass2(edges, n1, ss)| <= |edges| + Descending(ss)
  {
    if ss != [] {
      Pass2Size(edges, n1, ss[..|ss| - 1]);
    }
  }

  /// An edge is a side of its first face, and when its second face differs
  /// the reversed side belongs to that face.
  ghost predicate Sound(edges: seq<MeshEdge>, ss: seq<Side>) {
    forall e :: 0 <= e < |edges| ==>
      Side(edges[e].v0, edges[e].v1, edges[e].f0) in ss &&
      (edges[e].f1 != edges[e].f0 ==> Side(edges[e].v1, edges[e].v0, edges[e].f1) in ss)
  }

  lemma {:induction false} Pass2Sound(edges: seq<MeshEdge>, n1: nat, ss: seq<Side>, all: seq<Side>)
    requires n1 <= |edges| && Sound(edges, all)
    requires forall i :: 0 <= i < |ss| ==> ss[i] in all
    ensures Sound(Pass2(edges, n1, ss), all)
  {
    if ss != [] {
      var pre, s := ss[..|ss| - 1], ss[|ss| - 1];
      Pass2Sound(edges, n1, pre, all);
      var p := Pass2(edges, n1, pre);
      assert s in all;
      forall e | 0 <= e < |Step2(p, n1, s)|
        ensures var x := Step2(p, n1, s)[e];
          Side(x.v0, x.v1, x.f0) in all && (x.f1 != x.f0 ==> Side(x.v1, x.v0, x.f1) in all)
      {
        if e < |p| {
          var x, y := Step2(p, n1, s)[e], p[e];
          if x.f1 != y.f1 {
            assert s.from > s.to && e == OpenIndex(p, n1, s.to, s.from, 0);
            assert x.f1 == s.face && Side(x.v1, x.v0, x.f1) == s;
          }
        }
      }
    }
  }

  /// BuildEdges' result: at most one edge per triangle corner, every edge a
  /// side of its first face, and a shared edge the reversed side of its
  /// second face. The first-pass edges come first and ascend; every edge
  /// after them descends.
  lemma UniqueEdgesProperties(t: seq<int>)
    ensures |UniqueEdges(t)| <= |t|
    ensures Sound(UniqueEdges(t), Sides(t, |t| / 3))
    ensures var n1 := |Pass1(Sides(t, |t| / 3))|;
      n1 <= |UniqueEdges(t)| &&
      (forall e :: 0 <= e < n1 ==> UniqueEdges(t)[e].v0 < UniqueEdges(t)[e].v1) &&
      (forall e :: n1 <= e < |UniqueEdges(t)| ==> UniqueEdges(t)[e].v0 > UniqueEdges(t)[e].v1)
  {
    var ss := Sides(t, |t| / 3);
    var e1 := Pass1(ss);
    Pass1Edges(ss);
    Pass2Size(e1, |e1|, ss);
    CountsBounded(ss);
    assert Sound(e1, ss);
    Pass2Sound(e1, |e1|, ss, ss);
    Pass2Tail(e1, |e1|, ss);
  }

  /// Edges the second pass appends run downwards; earlier ones keep their
  /// vertices.
  lemma {:induction false} Pass2Tail(edges: seq<MeshEdge>, n1: nat, ss: seq<Side>)
    requires n1 <= |edges|
    ensures forall e :: 0 <= e < |edges| ==>
      Pass2(edges, n1, ss)[e].v0 == edges[e].v0 && Pass2(edges, n1, ss)[e].v1 == edges[e].v1
    ensures forall e :: |edges| <= e < |Pass2(edges, n1, ss)| ==> Pass2(edges, n1, ss)[e].v0 > Pass2(edges, n1, ss)[e].v1
  {
    if ss != [] {
      var pre := ss[..|ss| - 1];
      Pass2Tail(edges, n1, pre);
    }
  }

  // ---------------------------------------------------------------------
  // The linked lists kept in firstEdge.
  // ---------------------------------------------------------------------

  /// h starts the rest of the list of edges whose first vertex is v, looking
  /// from position lo on: -1 when there is none.
  ghost predicate LinkFrom(h: int, lo: nat, v: int, ends: seq<int>) {
    (h == -1 && forall e :: lo <= e < |ends| ==> ends[e] != v) ||
    (lo <= h < |ends| && ends[h] == v && forall e :: lo <= e < h ==> ends[e] != v)
  }

  /// firstEdge[v] heads vertex v's list and firstEdge[V + e] follows edge e,
  /// where ends[e] is the first vertex of first-pass edge e.
  ghost predicate Lists(firstEdge: array<int>, V: nat, ends: seq<int>)
    reads firstEdge
  {
    V + |ends| <= firstEdge.Length &&
    (forall v :: 0 <= v < V ==> LinkFrom(firstEdge[v], 0, v, ends)) &&
    (forall e :: 0 <= e < |ends| ==> LinkFrom(firstEdge[V + e], e + 1, ends[e], ends))
  }

  /// Links edge `count` at the tail of vertex v's list: the head when the
  /// list is empty, else after the last edge reached by the walk.
  method LinkEdge(firstEdge: array<int>, V: nat, ghost ends: seq<int>, count: nat, v: int)
    requires Lists(firstEdge, V, ends) && count == |ends| && V + count < firstEdge.Length && 0 <= v < V
    modifies firstEdge
    ensures Lists(firstEdge, V, ends + [v])
  {
    var ends' := ends + [v];
    var edgeIndex := firstEdge[v];
    if edgeIndex == -1 {
      firstEdge[v] := count;
    } else {
      while firstEdge[V + edgeIndex] != -1
        invariant 0 <= edgeIndex < count && ends[edgeIndex] == v
        decreases count - edgeIndex
      {
        edgeIndex := firstEdge[V + edgeIndex];
      }
      firstEdge[V + edgeIndex] := count;
      forall e | 0 <= e < count && e != edgeIndex && ends[e] == v
        ensures firstEdge[V + e] != -1
      {
        assert LinkFrom(old(firstEdge[V + e]), e + 1, v, ends);
        assert LinkFrom(old(firstEdge[V + edgeIndex]), edgeIndex + 1, v, ends);
      }
    }
    firstEdge[V + count] := -1;
    forall u | 0 <= u < V
      ensures LinkFrom(firstEdge[u], 0, u, ends')
    {
      assert old(firstEdge[u]) == firstEdge[u] || u == v;
      assert LinkFrom(old(firstEdge[u]), 0, u, ends);
    }
    forall e | 0 <= e < count + 1
      ensures LinkFrom(firstEdge[V + e], e + 1, ends'[e], ends')
    {
      if e < count {
        assert LinkFrom(old(firstEdge[V + e]), e + 1, ends[e], ends);
      }
    }
  }

  /// The walk of the second pass over vertex lo's list: the first open edge
  /// lo -> hi among the first-pass edges, or their number when none is open.
  method FindOpenEdge(firstEdge: array<int>, V: nat, ghost ends: seq<int>, n: nat, edgeArray: array<MeshEdge>,
                      lo: int, hi: int) returns (j: nat)
    requires Lists(firstEdge, V, ends) && n == |ends| && 0 <= lo < V && n <= edgeArray.Length
    requires forall e :: 0 <= e < |ends| ==> edgeArray[e].v0 == ends[e]
    ensures j == OpenIndex(edgeArray[..], |ends|, lo, hi, 0)
  {
    var edgeIndex := firstEdge[lo];
    while edgeIndex != -1
      invariant edgeIndex == -1 || (0 <= edgeIndex < n && ends[edgeIndex] == lo)
      invariant forall e :: 0 <= e < n && (edgeIndex == -1 || e < edgeIndex) ==> !IsOpen(edgeArray[e], lo, hi)
      decreases if edgeIndex == -1 then 0 else n + 1 - edgeIndex
    {
      var edge := edgeArray[edgeIndex];
      if edge.v1 == hi && edge.f0 == edge.f1 {
        OpenIndexIsFirst(edgeArray[..], n, lo, hi, edgeIndex);
        return edgeIndex;
      }
      var next := firstEdge[V + edgeIndex];
      assert LinkFrom(next, edgeIndex + 1, lo, ends);
      edgeIndex := next;
    }
    OpenIndexIsFirst(edgeArray[..], n, lo, hi, n);
    return n;
  }

  /// OpenIndex is the only position with nothing open before it and an
  /// open edge at it (or n).
  lemma OpenIndexIsFirst(edges: seq<MeshEdge>, n: nat, lo: int, hi: int, j: nat)
    requires n <= |edges| && j <= n
    requires j < n ==> IsOpen(edges[j], lo, hi)
    requires forall e :: 0 <= e < j ==> !IsOpen(edges[e], lo, hi)
    ensures j == OpenIndex(edges, n, lo, hi, 0)
  {

  }

  // ---------------------------------------------------------------------
  // The methods.
  // ---------------------------------------------------------------------

  /// The triangle corners index vertices of the mesh.
  predicate ValidTriangles(vertexCount: nat, t: seq<int>) {
    forall k :: 0 <= k < 3 * (|t| / 3) ==> 0 <= t[k] < vertexCount
  }

  /// The arrays after the first pass over the sides in done: the lists in
  /// firstEdge, and the edges so far at the front of edgeArray.
  ghost predicate FirstPassState(firstEdge: array<int>, V: nat, edgeArray: array<MeshEdge>, edgeCount: nat,
                                 ends: seq<int>, done: seq<Side>)
    reads firstEdge, edgeArray
  {
    Lists(firstEdge, V, ends) && edgeCount == |ends| <= edgeArray.Length &&
    edgeArray[..edgeCount] == Pass1(done) &&
    forall e :: 0 <= e < edgeCount ==> edgeArray[e].v0 == ends[e]
  }

  /// The arrays during the second pass: the lists of the first pass still in
  /// place, and the edges after the sides in done at the front of edgeArray.
  ghost predicate SecondPassState(firstEdge: array<int>, V: nat, ends: seq<int>, edgeArray: array<MeshEdge>,
                                  n1: nat, edgeCount: nat, e1: seq<MeshEdge>, done: seq<Side>)
    reads firstEdge, edgeArray
  {
    Lists(firstEdge, V, ends) && n1 == |ends| == |e1| && n1 <= edgeCount <= edgeArray.Length &&
    (forall e :: 0 <= e < n1 ==> edgeArray[e].v0 == ends[e]) &&
    edgeArray[..edgeCount] == Pass2(e1, n1, done)
  }

  /// The first pass on the side i1 -> i2 of triangle a.
  method FirstPassSide(firstEdge: array<int>, V: nat, edgeArray: array<MeshEdge>, edgeCount: nat,
                       ghost ends: seq<int>, ghost done: seq<Side>, i1: int, i2: int, a: nat)
    returns (edgeCount': nat, ghost ends': seq<int>)
    requires 0 <= i1 < V && FirstPassState(firstEdge, V, edgeArray, edgeCount, ends, done)
    requires edgeCount < edgeArray.Length && V + edgeCount < firstEdge.Length
    modifies firstEdge, edgeArray
    ensures FirstPassState(firstEdge, V, edgeArray, edgeCount', ends', done + [Side(i1, i2, a)])
    ensures edgeCount' <= edgeCount + 1
  {
    Pass1Snoc(done, Side(i1, i2, a));
    edgeCount', ends' := edgeCount, ends;
    if i1 < i2 {
      var newEdge := MeshEdge(i1, i2, a, a);
      edgeArray[edgeCount] := newEdge;
      assert edgeArray[..edgeCount + 1] == Pass1(done) + [newEdge];
      LinkEdge(firstEdge, V, ends, edgeCount, i1);
      ends' := ends + [i1];
      edgeCount' := edgeCount + 1;
    }
  }

  /// Side b of triangle a runs from the corner before b to corner b.
  lemma TriangleSide(t: seq<int>, a: nat, b: nat)
    requires 3 * a + 3 <= |t| && b < 3
    ensures TriangleSides(t, a)[b] == Side(if b == 0 then t[3 * a + 2] else t[3 * a + b - 1], t[3 * a + b], a)
  {
  }

  /// The first pass over one triangle.
  method FirstPassTriangle(t: seq<int>, a: nat, firstEdge: array<int>, V: nat, edgeArray: array<MeshEdge>,
                           edgeCount: nat, ghost ends: seq<int>)
    returns (edgeCount': nat, ghost ends': seq<int>)
    requires a < |t| / 3 && ValidTriangles(V, t) && edgeArray.Length == |t| && firstEdge.Length == V + |t|
    requires FirstPassState(firstEdge, V, edgeArray, edgeCount, ends, Sides(t, a)) && edgeCount <= 3 * a
    modifies firstEdge, edgeArray
    ensures FirstPassState(firstEdge, V, edgeArray, edgeCount', ends', Sides(t, a + 1)) && edgeCount' <= 3 * a + 3
  {
    edgeCount', ends' := edgeCount, ends;
    ghost var tri := TriangleSides(t, a);
    assert 3 * a + 3 <= 3 * (|t| / 3);
    assert 0 <= t[3 * a] < V && 0 <= t[3 * a + 1] < V && 0 <= t[3 * a + 2] < V;
    TriangleSide(t, a, 0);
    ghost var done := Sides(t, a);
    var i1 := t[a * 3 + 2];
    for b := 0 to 3
      invariant FirstPassState(firstEdge, V, edgeArray, edgeCount', ends', done) && edgeCount' <= 3 * a + b
      invariant done == Sides(t, a) + tri[..b]
      invariant b < 3 ==> i1 == tri[b].from
      invariant 0 <= i1 < V
    {
      var i2 := t[a * 3 + b];
      TriangleSide(t, a, b);
      assert tri[b] == Side(i1, i2, a);
      assert 0 <= i2 < V;
      if b < 2 {
        TriangleSide(t, a, b + 1);
      }
      edgeCount', ends' := FirstPassSide(firstEdge, V, edgeArray, edgeCount', ends', done, i1, i2, a);
      assert tri[..b + 1] == tri[..b] + [tri[b]];
      done := done + [tri[b]];
      i1 := i2;
    }
    assert tri[..3] == tri;
  }

  /// The second pass on the side i1 -> i2 of triangle a.
  method SecondPassSide(firstEdge: array<int>, V: nat, ghost ends: seq<int>, edgeArray: array<MeshEdge>,
                        n1: nat, edgeCount: nat, ghost e1: seq<MeshEdge>, ghost done: seq<Side>,
                        i1: int, i2: int, a: nat)
    returns (edgeCount': nat)
    requires 0 <= i2 < V && SecondPassState(firstEdge, V, ends, edgeArray, n1, edgeCount, e1, done)
    requires edgeCount <= n1 + Descending(done) && n1 + Descending(done + [Side(i1, i2, a)]) <= edgeArray.Length
    modifies edgeArray
    ensures SecondPassState(firstEdge, V, ends, edgeArray, n1, edgeCount', e1, done + [Side(i1, i2, a)])
    ensures edgeCount' <= n1 + Descending(done + [Side(i1, i2, a)])
  {
    Pass2Snoc(e1, n1, done, Side(i1, i2, a));
    assert (done + [Side(i1, i2, a)])[..|done|] == done;
    edgeCount' := edgeCount;
    if i1 > i2 {
      ghost var before := edgeArray[..edgeCount];
      var j := FindOpenEdge(firstEdge, V, ends, n1, edgeArray, i2, i1);
      OpenIndexPrefix(edgeArray[..], before, n1, i2, i1, 0);
      if j < n1 {
        edgeArray[j] := edgeArray[j].(f1 := a);
        assert edgeArray[..edgeCount] == before[j := before[j].(f1 := a)];
      } else {
        edgeArray[edgeCount] := MeshEdge(i1, i2, a, a);
        edgeCount' := edgeCount + 1;
        assert edgeArray[..edgeCount'] == before + [MeshEdge(i1, i2, a, a)];
      }
    }
  }

  /// What the second pass needs at side b of triangle a: the side the
  /// variables describe, the sides done after it, and the room left in
  /// edgeArray.
  lemma SecondPassStep(t: seq<int>, a: nat, b: nat, done: seq<Side>, i1: int)
    requires a < |t| / 3 && b < 3
    requires done == Sides(t, a) + TriangleSides(t, a)[..b] && i1 == TriangleSides(t, a)[b].from
    ensures var s := Side(i1, t[3 * a + b], a);
      s == TriangleSides(t, a)[b] &&
      done + [s] == Sides(t, a) + TriangleSides(t, a)[..b + 1] &&
      Descending(done + [s]) <= Descending(Sides(t, |t| / 3)) &&
      (b < 2 ==> TriangleSides(t, a)[b + 1].from == t[3 * a + b]) &&
      (b == 2 ==> done + [s] == Sides(t, a + 1))
  {
    TriangleSide(t, a, b);
    if b < 2 {
      TriangleSide(t, a, b + 1);
    }
    PrefixStep(Sides(t, a), TriangleSides(t, a), b, done);
    DescendingGrows(t, a + 1, |t| / 3);
  }

  /// Extending a prefix of pre + tri by the next element of tri.
  lemma PrefixStep(pre: seq<Side>, tri: seq<Side>, b: nat, done: seq<Side>)
    requires b < |tri| && done == pre + tri[..b]
    ensures done + [tri[b]] == pre + tri[..b + 1]
    ensures Descending(done + [tri[b]]) <= Descending(pre + tri)
    ensures b + 1 == |tri| ==> done + [tri[b]] == pre + tri
  {
    assert tri[..b + 1] == tri[..b] + [tri[b]];
    DescendingAppend(pre, tri[..b + 1]);
    DescendingAppend(pre, tri);
    DescendingPrefix(tri, b + 1);
    if b + 1 == |tri| {
      assert tri[..b + 1] == tri;
    }
  }

  /// The second pass over one triangle.
  method SecondPassTriangle(t: seq<int>, a: nat, firstEdge: array<int>, V: nat, edgeArray: array<MeshEdge>,
                            n1: nat, edgeCount: nat, ghost e1: seq<MeshEdge>, ghost ends: seq<int>)
    returns (edgeCount': nat)
    requires a < |t| / 3 && ValidTriangles(V, t) && edgeArray.Length == |t|
    requires SecondPassState(firstEdge, V, ends, edgeArray, n1, edgeCount, e1, Sides(t, a))
    requires n1 + Descending(Sides(t, |t| / 3)) <= |t|
    requires edgeCount <= n1 + Descending(Sides(t, a))
    modifies edgeArray
    ensures SecondPassState(firstEdge, V, ends, edgeArray, n1, edgeCount', e1, Sides(t, a + 1))
    ensures edgeCount' <= n1 + Descending(Sides(t, a + 1))
  {
    edgeCount' := edgeCount;
    assert 3 * a + 3 <= 3 * (|t| / 3);
    assert 0 <= t[3 * a] < V && 0 <= t[3 * a + 1] < V && 0 <= t[3 * a + 2] < V;
    TriangleSide(t, a, 0);
    ghost var done := Sides(t, a);
    assert done == Sides(t, a) + TriangleSides(t, a)[..0];
    var i1 := t[a * 3 + 2];
    for b := 0 to 3
      invariant SecondPassState(firstEdge, V, ends, edgeArray, n1, edgeCount', e1, done)
      invariant edgeCount' <= n1 + Descending(done)
      invariant b < 3 ==> done == Sides(t, a) + TriangleSides(t, a)[..b] && i1 == TriangleSides(t, a)[b].from
      invariant b == 3 ==> done == Sides(t, a + 1)
    {
      var i2 := t[a * 3 + b];
      SecondPassStep(t, a, b, done, i1);
      edgeCount' := SecondPassSide(firstEdge, V, ends, edgeArray, n1, edgeCount', e1, done, i1, i2, a);
      done := done + [Side(i1, i2, a)];
      i1 := i2;
    }
  }

  lemma DescendingStep(all: seq<Side>, done: seq<Side>, s: Side)
    requires |done| < |all| && all[..|done| + 1] == done + [s]
    ensures Descending(done + [s]) <= Descending(all)
  {
    DescendingPrefix(all, |done| + 1);
  }

  lemma {:induction false} DescendingPrefix(x: seq<Side>, k: nat)
    requires k <= |x|
    ensures Descending(x[..k]) <= Descending(x)
    decreases |x|
  {
    if k < |x| {
      assert x[..|x| - 1][..k] == x[..k];
      DescendingPrefix(x[..|x| - 1], k);
    } else {
      assert x[..k] == x;
    }
  }

  lemma OpenIndexPrefix(s: seq<MeshEdge>, p: seq<MeshEdge>, n: nat, lo: int, hi: int, from: nat)
    requires from <= n <= |p| <= |s| && p == s[..|p|]
    ensures OpenIndex(s, n, lo, hi, from) == OpenIndex(p, n, lo, hi, from)
    decreases n - from
  {
    if from < n {
      assert s[from] == p[from];
      OpenIndexPrefix(s, p, n, lo, hi, from + 1);
    }
  }

  lemma {:induction false} DescendingAppend(x: seq<Side>, y: seq<Side>)
    ensures Descending(x + y) == Descending(x) + Descending(y)
    decreases |y|
  {
    if y == [] {
      assert x + y == x;
    } else {
      var y' := y[..|y| - 1];
      assert (x + y)[..|x + y| - 1] == x + y';
      DescendingAppend(x, y');
    }
  }

  lemma {:induction false} DescendingGrows(t: seq<int>, a: nat, n: nat)
    requires a <= n && 3 * n <= |t|
    ensures Descending(Sides(t, a)) <= Descending(Sides(t, n))
    decreases n - a
  {
    if a < n {
      DescendingGrows(t, a + 1, n);
      DescendingAppend(Sides(t, a), TriangleSides(t, a));
    }
  }

  /// The first pass over all triangles, from heads set to -1.
  method FirstPass(t: seq<int>, firstEdge: array<int>, V: nat, edgeArray: array<MeshEdge>)
    returns (edgeCount: nat, ghost ends: seq<int>)
    requires ValidTriangles(V, t) && edgeArray.Length == |t| && firstEdge.Length == V + |t|
    requires forall u :: 0 <= u < V ==> firstEdge[u] == -1
    modifies firstEdge, edgeArray
    ensures FirstPassState(firstEdge, V, edgeArray, edgeCount, ends, Sides(t, |t| / 3))
  {
    edgeCount, ends := 0, [];
    assert edgeArray[..0] == [];
    for a := 0 to |t| / 3
      invariant FirstPassState(firstEdge, V, edgeArray, edgeCount, ends, Sides(t, a)) && edgeCount <= 3 * a
    {
      edgeCount, ends := FirstPassTriangle(t, a, firstEdge, V, edgeArray, edgeCount, ends);
    }
  }

  /// The first pass leaves room in an array of |ss| edges for every edge
  /// the second pass can add.
  lemma PassesBounded(ss: seq<Side>)
    ensures |Pass1(ss)| + Descending(ss) <= |ss|
  {
    Pass1Edges(ss);
    CountsBounded(ss);
  }

  /// The second pass over all triangles.
  method SecondPass(t: seq<int>, firstEdge: array<int>, V: nat, edgeArray: array<MeshEdge>,
                    n1: nat, ghost ends: seq<int>)
    returns (edgeCount: nat)
    requires ValidTriangles(V, t) && edgeArray.Length == |t|
    requires FirstPassState(firstEdge, V, edgeArray, n1, ends, Sides(t, |t| / 3))
    modifies edgeArray
    ensures edgeCount <= edgeArray.Length
    ensures edgeArray[..edgeCount] == UniqueEdges(t)
  {
    ghost var e1 := edgeArray[..n1];
    PassesBounded(Sides(t, |t| / 3));
    assert Pass2(e1, n1, Sides(t, 0)) == e1;
    edgeCount := n1;
    for a := 0 to |t| / 3
      invariant SecondPassState(firstEdge, V, ends, edgeArray, n1, edgeCount, e1, Sides(t, a))
      invariant edgeCount <= n1 + Descending(Sides(t, a))
    {
      edgeCount := SecondPassTriangle(t, a, firstEdge, V, edgeArray, n1, edgeCount, e1, ends);
    }
  }

  /// BuildEdges: heads set to -1, the first pass linking ascending edges
  /// into their lower vertex's list, the second pass completing or adding
  /// the descending ones, and the copy into an array of the exact size.
  method BuildEdges(vertexCount: nat, triangleArray: seq<int>) returns (compactedEdges: array<MeshEdge>)
    requires ValidTriangles(vertexCount, triangleArray)
    ensures compactedEdges[..] == UniqueEdges(triangleArray)
  {
    var maxEdgeCount := |triangleArray|;
    var firstEdge := new int[vertexCount + maxEdgeCount];
    var nextEdge := vertexCount;
    for a := 0 to vertexCount
      invariant forall u :: 0 <= u < a ==> firstEdge[u] == -1
    {
      firstEdge[a] := -1;
    }
    var edgeArray := new MeshEdge[maxEdgeCount];
    var n1, ends := FirstPass(triangleArray, firstEdge, nextEdge, edgeArray);
    var edgeCount := SecondPass(triangleArray, firstEdge, nextEdge, edgeArray, n1, ends);
    compactedEdges := new MeshEdge[edgeCount];
    for e := 0 to edgeCount
      modifies compactedEdges
      invariant compactedEdges[..e] == edgeArray[..e]
    {
      compactedEdges[e] := edgeArray[e];
    }
    assert compactedEdges[..] == compactedEdges[..edgeCount];
  }

  // ---------------------------------------------------------------------
  // BuildManifoldEdges.
  // ---------------------------------------------------------------------

  /// The edges with a single adjacent triangle, in order.
  function Boundary(edges: seq<MeshEdge>): (r: seq<MeshEdge>)
    ensures forall x :: x in r <==> x in edges && x.f0 == x.f1
    ensures Subsequence(r, edges)
  {
    if edges == [] then []
    else if edges[0].f0 == edges[0].f1 then [edges[0]] + Boundary(edges[1..])
    else Boundary(edges[1..])
  }

  /// BuildManifoldEdges over the mesh's vertex count and triangle array.
  method BuildManifoldEdges(vertexCount: nat, triangles: seq<int>) returns (r: array<MeshEdge>)
    requires ValidTriangles(vertexCount, triangles)
    ensures r[..] == Boundary(UniqueEdges(triangles))
  {
    var edges := BuildEdges(vertexCount, triangles);
    var culled: seq<MeshEdge> := [];
    for k := 0 to edges.Length
      invariant culled + Boundary(edges[k..]) == Boundary(edges[..])
    {
      assert edges[k..][1..] == edges[k + 1..];
      if edges[k].f0 == edges[k].f1 {
        culled := culled + [edges[k]];
      }
    }
    r := new MeshEdge[|culled|](i requires 0 <= i < |culled| => culled[i]);
  }
}
