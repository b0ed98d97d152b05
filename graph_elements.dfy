/// The obstacle polygons of the visibility graph: their vertices, with the two
/// neighbour slots each vertex keeps, and their edges, with the distance field
/// the sweep orders them by.
module GraphElements {
  import opened UnityMath
  import opened NavMath

  /// The helpers of the Util class, which is not part of this model, passed
  /// in as functions.
  datatype Util = Util(
    left: (real, real, real, real, real, real) -> bool,
    rayLineIntersection: (real, real, real, real, real, real, real, real) -> (bool, real),
    pointLineSegmentDistance: (real, real, real, real, real, real) -> real,
    sortClockwise: (real, real, seq<Vertex>) -> seq<Vertex>)

  /// float.MinValue and float.MaxValue.
  const FloatMinValue: real := -340282346638528859811704183484516925440.0
  const FloatMaxValue: real := 340282346638528859811704183484516925440.0

  /// The distance Edge.IntersectsWith moves the probe's ends by.
  const Nudge: real := 0.0001

  /// Mathf.Sign: 1 for zero and above, -1 below.
  function MathfSign(f: real): (s: real)
    ensures s == 1.0 <==> f >= 0.0
    ensures s == -1.0 <==> f < 0.0
  {
    if f >= 0.0 then 1.0 else -1.0
  }

  class Vertex {
    var Position: Vector2
    var posX: real
    var posY: real
    var NormalX: real
    var NormalY: real
    var edge1: Edge?
    var edge2: Edge?
    const neighbors: array<Vertex?>
    const ownerPolygon: Polygon?
    var isConvex: bool

    /// The neighbour buffer has its two slots.
    predicate Valid() {
      neighbors.Length == 2
    }

    function X(): real reads this { posX }
    function Y(): real reads this { posY }

    /// The cached coordinates agree with Position.
    ghost predicate Cached() reads this {
      posX == Position.x && posY == Position.y
    }

    constructor (pos: Vector2)
      ensures Valid() && Cached() && Position == pos && ownerPolygon == null
      ensures edge1 == null && edge2 == null && neighbors[0] == null && neighbors[1] == null
      ensures fresh(neighbors)
    {
      Position := pos;
      posX := pos.x;
      posY := pos.y;
      NormalX, NormalY, isConvex := 0.0, 0.0, false;
      edge1, edge2 := null, null;
      neighbors := new Vertex?[2](_ => null);
      ownerPolygon := null;
    }

    /// A vertex at pos, with its buffer and its cached coordinates, owned by owner.
    ghost predicate Placed(pos: Vector2, owner: Polygon?)
      reads this
    {
      Valid() && Cached() && Position == pos && ownerPolygon == owner
    }

    constructor WithOwner(pos: Vector2, owner: Polygon)
      ensures Placed(pos, owner)
      ensures edge1 == null && edge2 == null && neighbors[0] == null && neighbors[1] == null
      ensures fresh(neighbors)
    {
      Position := pos;
      posX := pos.x;
      posY := pos.y;
      NormalX, NormalY, isConvex := 0.0, 0.0, false;
      edge1, edge2 := null, null;
      neighbors := new Vertex?[2](_ => null);
      ownerPolygon := owner;
    }

    /// The Edge1 setter: the first neighbour slot becomes the edge's other end.
    method SetEdge1(value: Edge)
      requires Valid()
      modifies this, neighbors
      ensures edge1 == value && neighbors[0] == value.GetOther(this)
      ensures neighbors[1] == old(neighbors[1]) && edge2 == old(edge2)
      ensures Position == old(Position) && posX == old(posX) && posY == old(posY)
      ensures NormalX == old(NormalX) && NormalY == old(NormalY) && isConvex == old(isConvex)
    {
      edge1 := value;
      neighbors[0] := value.GetOther(this);
    }

    /// The Edge2 setter: the second neighbour slot becomes the edge's other end.
    method SetEdge2(value: Edge)
      requires Valid()
      modifies this, neighbors
      ensures edge2 == value && neighbors[1] == value.GetOther(this)
      ensures neighbors[0] == old(neighbors[0]) && edge1 == old(edge1)
      ensures Position == old(Position) && posX == old(posX) && posY == old(posY)
      ensures NormalX == old(NormalX) && NormalY == old(NormalY) && isConvex == old(isConvex)
    {
      edge2 := value;
      neighbors[1] := value.GetOther(this);
    }

    predicate IsNeighborWith(v: Vertex?)
      requires Valid()
      reads neighbors
    {
      neighbors[0] == v || neighbors[1] == v
    }

    /// Both neighbour slots are filled, as they are once the polygon is built.
    predicate HasNeighbors()
      reads neighbors
    {
      Valid() && neighbors[0] != null && neighbors[1] != null
    }

    /// Whether the segment from this vertex towards (oX, oZ) passes between
    /// its two neighbours, on the side its normal points away from.
    predicate IsGoingBetweenNeighbors(oX: real, oZ: real, util: Util)
      requires HasNeighbors()
      reads this, neighbors, neighbors[0], neighbors[1]
    {
      var n0, n1 := neighbors[0], neighbors[1];
      var btwn := util.left(X(), Y(), n0.X(), n0.Y(), oX, oZ) != util.left(X(), Y(), n1.X(), n1.Y(), oX, oZ);
      var dot := (oX - X()) * NormalX + (oZ - Y()) * NormalY;
      if isConvex then btwn && dot < 0.0 else !(btwn && dot > 0.0)
    }

    /// The turn from the reference point through this vertex to neighbour k:
    /// the cross product GetEdgesOnCwSide and GetEdgesOnCCwSide compute.
    function Turn(refX: real, refZ: real, k: nat): real
      requires HasNeighbors() && k < 2
      reads this, neighbors, neighbors[0], neighbors[1]
    {
      var x1, z1 := X() - refX, Y() - refZ;
      var x2, z2 := neighbors[k].X() - refX, neighbors[k].Y() - refZ;
      x1 * z2 - x2 * z1
    }

    /// The edges whose far end lies clockwise of this vertex as seen from the
    /// reference point: slot 0 for Edge1, slot 1 for Edge2, null otherwise.
    function GetEdgesOnCwSide(refX: real, refZ: real): (r: seq<Edge?>)
      requires HasNeighbors()
      reads this, neighbors, neighbors[0], neighbors[1]
      ensures |r| == 2
      ensures r[0] == (if Turn(refX, refZ, 0) < 0.0 then edge1 else null)
      ensures r[1] == (if Turn(refX, refZ, 1) < 0.0 then edge2 else null)
    {
      [if Turn(refX, refZ, 0) < 0.0 then edge1 else null,
       if Turn(refX, refZ, 1) < 0.0 then edge2 else null]
    }

    function GetEdgesOnCCwSide(refX: real, refZ: real): (r: seq<Edge?>)
      requires HasNeighbors()
      reads this, neighbors, neighbors[0], neighbors[1]
      ensures |r| == 2
      ensures r[0] == (if Turn(refX, refZ, 0) > 0.0 then edge1 else null)
      ensures r[1] == (if Turn(refX, refZ, 1) > 0.0 then edge2 else null)
    {
      [if Turn(refX, refZ, 0) > 0.0 then edge1 else null,
       if Turn(refX, refZ, 1) > 0.0 then edge2 else null]
    }
  }

  /// The turn the two side functions test is the signed area of the
  /// triangle (reference point, vertex, neighbour).
  lemma TurnIsSignedArea(v: Vertex, refX: real, refZ: real, k: nat)
    requires v.HasNeighbors() && k < 2
    ensures v.Turn(refX, refZ, k) ==
      GetSignedTriangleArea(Vector2(refX, refZ), Vector2(v.X(), v.Y()), Vector2(v.neighbors[k].X(), v.neighbors[k].Y()))
  {
  }

  /// No slot holds an edge on both sides, and a neighbour in line with the
  /// reference point puts its edge on neither side.
  lemma SidesExclusive(v: Vertex, refX: real, refZ: real, k: nat)
    requires v.HasNeighbors() && k < 2
    ensures v.GetEdgesOnCwSide(refX, refZ)[k] == null || v.GetEdgesOnCCwSide(refX, refZ)[k] == null
    ensures v.Turn(refX, refZ, k) == 0.0 ==>
      v.GetEdgesOnCwSide(refX, refZ)[k] == null && v.GetEdgesOnCCwSide(refX, refZ)[k] == null
    ensures v.Turn(refX, refZ, k) != 0.0 ==>
      v.GetEdgesOnCwSide(refX, refZ)[k] != null || v.GetEdgesOnCCwSide(refX, refZ)[k] != null ||
      (if k == 0 then v.edge1 else v.edge2) == null
  {
  }

  /// A convex vertex blocks only segments that run between its neighbours;
  /// a reflex vertex blocks every segment that does not.
  lemma GoingBetweenByConvexity(v: Vertex, oX: real, oZ: real, util: Util)
    requires v.HasNeighbors()
    ensures var n0, n1 := v.neighbors[0], v.neighbors[1];
      var btwn := util.left(v.X(), v.Y(), n0.X(), n0.Y(), oX, oZ) != util.left(v.X(), v.Y(), n1.X(), n1.Y(), oX, oZ);
      (v.isConvex && v.IsGoingBetweenNeighbors(oX, oZ, util) ==> btwn) &&
      (!v.isConvex && !btwn ==> v.IsGoingBetweenNeighbors(oX, oZ, util))
  {
  }

  class Edge {
    var DistanceToReference: real
    const vertex1: Vertex
    const vertex2: Vertex
    var v1: Vector2
    var v2: Vector2

    /// The cached positions agree with the end vertices' coordinates.
    ghost predicate Cached()
      reads this, vertex1, vertex2
    {
      v1 == Vector2(vertex1.X(), vertex1.Y()) && v2 == Vector2(vertex2.X(), vertex2.Y())
    }

    constructor (vertex1: Vertex, vertex2: Vertex)
      ensures this.vertex1 == vertex1 && this.vertex2 == vertex2 && Cached()
      ensures DistanceToReference == 0.0
    {
      this.vertex1 := vertex1;
      this.vertex2 := vertex2;
      DistanceToReference := 0.0;
      v1 := Vector2(vertex1.X(), vertex1.Y());
      v2 := Vector2(vertex2.X(), vertex2.Y());
    }

    method RecacheVertexPositions()
      modifies this
      ensures Cached() && DistanceToReference == old(DistanceToReference)
    {
      v1 := Vector2(vertex1.X(), vertex1.Y());
      v2 := Vector2(vertex2.X(), vertex2.Y());
    }

    /// The end of this edge that v is not, matched by Unity's vector
    /// equality against the cached positions; null when v matches neither.
    function GetOther(v: Vertex): (r: Vertex?)
      reads this, v
      ensures ApproxEqual(v.Position, v1) ==> r == vertex2
      ensures !ApproxEqual(v.Position, v1) && ApproxEqual(v.Position, v2) ==> r == vertex1
      ensures r == null <==> !ApproxEqual(v.Position, v1) && !ApproxEqual(v.Position, v2)
    {
      if ApproxEqual(v.Position, v1) then vertex2
      else if ApproxEqual(v.Position, v2) then vertex1
      else null
    }

    function DistanceTo(pX: real, pZ: real, util: Util): real
      reads this
    {
      util.pointLineSegmentDistance(v1.x, v1.y, v2.x, v2.y, pX, pZ)
    }

    /// The ray form of IntersectsWith: whether the ray hits, and where.
    function IntersectsRay(oX: real, oZ: real, dirX: real, dirZ: real, util: Util): (bool, real)
      reads this
    {
      util.rayLineIntersection(oX, oZ, dirX, dirZ, v1.x, v1.y, v2.x, v2.y)
    }

    /// The segment form of IntersectsWith: the probe, nudged as Nudged says,
    /// and this edge each have their ends on different sides of the other.
    predicate IntersectsWith(o1X: real, o1Z: real, o2X: real, o2Z: real, util: Util)
      reads this
    {
      var (a1X, a1Z, a2X, a2Z) := Nudged(o1X, o1Z, o2X, o2Z);
      Straddles(util, v1.x, v1.y, v2.x, v2.y, a1X, a1Z, a2X, a2Z) &&
      Straddles(util, a1X, a1Z, a2X, a2Z, v1.x, v1.y, v2.x, v2.y)
    }

    /// IComparable<Edge>: by DistanceToReference, with null below every edge.
    function CompareTo(other: Edge?): (r: int)
      reads this, other
      ensures -1 <= r <= 1
      ensures other == null ==> r == 1
      ensures other != null ==> (r == 0 <==> DistanceToReference == other.DistanceToReference)
      ensures other != null ==> (r < 0 <==> DistanceToReference < other.DistanceToReference)
    {
      if other == null then 1
      else Sign(DistanceToReference - other.DistanceToReference)
    }
  }

  /// The points (cX, cZ) and (dX, dZ) lie on different sides of the line
  /// from (aX, aZ) to (bX, bZ), as Util.Left tells them apart.
  predicate Straddles(util: Util, aX: real, aZ: real, bX: real, bZ: real, cX: real, cZ: real, dX: real, dZ: real) {
    util.left(aX, aZ, bX, bZ, cX, cZ) != util.left(aX, aZ, bX, bZ, dX, dZ)
  }

  /// The probe's ends moved Nudge towards each other, axis by axis; the
  /// second end's direction is taken from the already-moved first end.
  function Nudged(o1X: real, o1Z: real, o2X: real, o2Z: real): (real, real, real, real) {
    var a1X := o1X + MathfSign(o2X - o1X) * Nudge;
    var a1Z := o1Z + MathfSign(o2Z - o1Z) * Nudge;
    var a2X := o2X - MathfSign(o2X - a1X) * Nudge;
    var a2Z := o2Z - MathfSign(o2Z - a1Z) * Nudge;
    (a1X, a1Z, a2X, a2Z)
  }

  /// Ends at least 2 * Nudge apart on an axis move towards each other.
  lemma NudgedTowards(o1X: real, o1Z: real, o2X: real, o2Z: real)
    requires o2X - o1X >= 2.0 * Nudge
    ensures Nudged(o1X, o1Z, o2X, o2Z).0 == o1X + Nudge && Nudged(o1X, o1Z, o2X, o2Z).2 == o2X - Nudge
  {
  }

  /// Ends closer than Nudge on an axis: the first end passes the second, and
  /// the second, reading the moved first end, is pushed further on.
  lemma NudgedOvershoots(o1X: real, o1Z: real, o2X: real, o2Z: real)
    requires 0.0 < o2X - o1X < Nudge
    ensures Nudged(o1X, o1Z, o2X, o2Z).0 > o2X && Nudged(o1X, o1Z, o2X, o2Z).2 == o2X + Nudge
  {
  }

  /// Equal distances compare equal, whichever edges carry them.
  lemma CompareToCollides(a: Edge, b: Edge)
    requires a.DistanceToReference == b.DistanceToReference
    ensures a.CompareTo(b) == 0 && b.CompareTo(a) == 0
  {
  }

  lemma CompareToAntisymmetric(a: Edge, b: Edge)
    ensures a.CompareTo(b) == -b.CompareTo(a)
  {
  }

  /// The greatest x of the first n points, starting from float.MinValue and
  /// keeping the first of equal values, as BuildPolygon's scan does.
  function MaxX(vs: seq<Vector2>, n: nat): real
    requires n <= |vs|
  {
    if n == 0 then FloatMinValue
    else if vs[n - 1].x > MaxX(vs, n - 1) then vs[n - 1].x
    else MaxX(vs, n - 1)
  }

  /// The greatest y of the first n points, starting from float.MinValue.
  function MaxY(vs: seq<Vector2>, n: nat): real
    requires n <= |vs|
  {
    if n == 0 then FloatMinValue
    else if vs[n - 1].y > MaxY(vs, n - 1) then vs[n - 1].y
    else MaxY(vs, n - 1)
  }

  /// The least y of the first n points, starting from float.MaxValue.
  function MinY(vs: seq<Vector2>, n: nat): real
    requires n <= |vs|
  {
    if n == 0 then FloatMaxValue
    else if vs[n - 1].y < MinY(vs, n - 1) then vs[n - 1].y
    else MinY(vs, n - 1)
  }

  /// RightmostX bounds every x from above and is float.MinValue or one of
  /// them; likewise TopmostZ for y.
  lemma {:induction false} MaxXBounds(vs: seq<Vector2>, n: nat)
    requires n <= |vs|
    ensures MaxX(vs, n) >= FloatMinValue && forall k :: 0 <= k < n ==> vs[k].x <= MaxX(vs, n)
    ensures MaxX(vs, n) == FloatMinValue || exists k :: 0 <= k < n && vs[k].x == MaxX(vs, n)
  {
    if n > 0 {
      MaxXBounds(vs, n - 1);
    }
  }

  lemma {:induction false} MaxYBounds(vs: seq<Vector2>, n: nat)
    requires n <= |vs|
    ensures MaxY(vs, n) >= FloatMinValue && forall k :: 0 <= k < n ==> vs[k].y <= MaxY(vs, n)
    ensures MaxY(vs, n) == FloatMinValue || exists k :: 0 <= k < n && vs[k].y == MaxY(vs, n)
  {
    if n > 0 {
      MaxYBounds(vs, n - 1);
    }
  }

  /// BottommostZ bounds every y from below and is float.MaxValue or one of them.
  lemma {:induction false} MinYBounds(vs: seq<Vector2>, n: nat)
    requires n <= |vs|
    ensures MinY(vs, n) <= FloatMaxValue && forall k :: 0 <= k < n ==> MinY(vs, n) <= vs[k].y
    ensures MinY(vs, n) == FloatMaxValue || exists k :: 0 <= k < n && vs[k].y == MinY(vs, n)
  {
    if n > 0 {
      MinYBounds(vs, n - 1);
    }
  }

  /// The index after i in a ring of n, and the one before it.
  function Succ(i: nat, n: nat): (r: nat)
    requires i < n
    ensures r < n
  {
    if i + 1 < n then i + 1 else 0
  }

  function Pred(i: nat, n: nat): (r: nat)
    requires i < n
    ensures r < n
  {
    if i > 0 then i - 1 else n - 1
  }

  /// Edge e runs from a to b, holds their positions in its cache, and is
  /// a's Edge1 and b's Edge2, with the neighbour slots its setters filled:
  /// b in a's first slot, and in b's second slot a, or b itself when the two
  /// positions are equal as vectors.
  ghost predicate Joins(e: Edge?, a: Vertex, b: Vertex)
    reads e, a, b, a.neighbors, b.neighbors
  {
    e != null && e.vertex1 == a && e.vertex2 == b && e.v1 == a.Position && e.v2 == b.Position &&
    a.Valid() && b.Valid() && a.edge1 == e && b.edge2 == e && a.neighbors[0] == b &&
    b.neighbors[1] == (if ApproxEqual(b.Position, a.Position) then b else a)
  }

  /// One pass of BuildPolygon's edge loops: the edge from a to b, set as
  /// a's Edge1 and b's Edge2.
  method Attach(a: Vertex, b: Vertex) returns (e: Edge)
    requires a.Valid() && b.Valid() && a.Cached() && b.Cached()
    requires a != b ==> a.neighbors != b.neighbors
    modifies a, a.neighbors, b, b.neighbors
    ensures fresh(e) && Joins(e, a, b)
    ensures a.Position == old(a.Position) && b.Position == old(b.Position) && a.Cached() && b.Cached()
    ensures a != b ==> a.edge2 == old(a.edge2) && a.neighbors[1] == old(a.neighbors[1])
    ensures a != b ==> b.edge1 == old(b.edge1) && b.neighbors[0] == old(b.neighbors[0])
  {
    e := new Edge(a, b);
    a.SetEdge1(e);
    b.SetEdge2(e);
  }

  /// The first edge loop of BuildPolygon: edge j from vertex j to vertex j + 1.
  method LinkChain(vs: seq<Vertex>, edges: array<Edge?>, ghost vertices: seq<Vector2>, ghost F: set<object>)
    requires |vs| == |vertices| && edges.Length == |vertices|
    requires forall k :: 0 <= k < |vs| ==> vs[k].Valid() && vs[k].Cached() && vs[k].Position == vertices[k]
    requires forall k, l :: 0 <= k < l < |vs| ==> vs[k] != vs[l] && vs[k].neighbors != vs[l].neighbors
    requires forall k :: 0 <= k < |vs| ==> vs[k] in F && vs[k].neighbors in F
    modifies edges, F
    ensures forall k :: 0 <= k < |vs| ==>
      vs[k].Valid() && vs[k].Cached() && vs[k].Position == vertices[k]
    ensures forall j :: 0 <= j < |vs| - 1 ==> fresh(edges[j]) && Joins(edges[j], vs[j], vs[j + 1])
  {
    var n := |vs|;
    if n == 0 {
      return;
    }
    for i := 1 to n
      invariant forall k :: 0 <= k < n ==>
        vs[k].Valid() && vs[k].Cached() && vs[k].Position == vertices[k]
      invariant forall j :: 0 <= j < i - 1 ==> fresh(edges[j]) && Joins(edges[j], vs[j], vs[j + 1])
    {
      var e := Attach(vs[i - 1], vs[i]);
      edges[i - 1] := e;
    }
  }

  /// Both edge loops of BuildPolygon: the chain, then the edge closing it
  /// from the last vertex back to the first. ok is false where there is no
  /// last vertex and Last throws.
  method LinkEdges(vs: seq<Vertex>, edges: array<Edge?>, ghost vertices: seq<Vector2>, ghost F: set<object>)
    returns (ok: bool)
    requires |vs| == |vertices| && edges.Length == |vertices|
    requires forall k :: 0 <= k < |vs| ==> vs[k].Valid() && vs[k].Cached() && vs[k].Position == vertices[k]
    requires forall k, l :: 0 <= k < l < |vs| ==> vs[k] != vs[l] && vs[k].neighbors != vs[l].neighbors
    requires forall k :: 0 <= k < |vs| ==> vs[k] in F && vs[k].neighbors in F
    modifies edges, F
    ensures forall k :: 0 <= k < |vs| ==>
      vs[k].Valid() && vs[k].Cached() && vs[k].Position == vertices[k]
    ensures ok <==> |vs| > 0
    ensures forall j :: 0 <= j < |vs| ==> fresh(edges[j]) && Joins(edges[j], vs[j], vs[Succ(j, |vs|)])
  {
    var n := |vs|;
    LinkChain(vs, edges, vertices, F);
    if n == 0 {
      return false;
    }
    var eLast := Attach(vs[n - 1], vs[0]);
    edges[n - 1] := eLast;
    ok := true;
  }

  class Polygon {
    var Vertices: seq<Vertex>
    var Edges: array<Edge?>
    var RightmostX: real
    var TopmostZ: real
    var BottommostZ: real

    /// The vertex objects with their neighbour buffers, and the edges.
    ghost function VertexSet(): set<object>
      reads this
    {
      (set k | 0 <= k < |Vertices| :: Vertices[k]) + (set k | 0 <= k < |Vertices| :: Vertices[k].neighbors)
    }

    ghost function EdgeSet(): set<object?>
      reads this, Edges
    {
      set k | 0 <= k < Edges.Length :: Edges[k]
    }

    /// The ring BuildPolygon leaves: distinct vertices owned by this polygon,
    /// and edge i joining vertex i to the next, the last closing the ring.
    ghost predicate Linked()
      reads this, Edges, VertexSet(), EdgeSet()
    {
      var n := |Vertices|;
      n > 0 && Edges.Length == n &&
      (forall i, j :: 0 <= i < j < n ==> Vertices[i] != Vertices[j]) &&
      (forall i :: 0 <= i < n ==>
        Vertices[i].ownerPolygon == this && Vertices[i].Cached() && Joins(Edges[i], Vertices[i], Vertices[Succ(i, n)]))
    }

    /// A constructor cannot report the throw of BuildPolygon on no points:
    /// the polygon is then left as the throw leaves it, not Linked.
    constructor (vertices: seq<Vector2>)
      ensures Linked() <==> |vertices| > 0
      ensures |Vertices| == |vertices| && Edges.Length == |vertices|
      ensures forall i :: 0 <= i < |vertices| ==> Vertices[i].Position == vertices[i]
      ensures RightmostX == MaxX(vertices, |vertices|) && TopmostZ == MaxY(vertices, |vertices|) &&
        BottommostZ == MinY(vertices, |vertices|)
    {
      Vertices := [];
      Edges := new Edge?[0];
      new;
      var _ := BuildPolygon(vertices);
    }

    /// ok is false where the points are none and Vertices.Last() throws;
    /// the new vertex list and edge array are then empty.
    method BuildPolygon(vertices: seq<Vector2>) returns (ok: bool)
      modifies this
      ensures ok <==> |vertices| > 0
      ensures ok ==> Linked()
      ensures |Vertices| == |vertices| && fresh(Edges) && Edges.Length == |vertices|
      ensures forall i :: 0 <= i < |vertices| ==>
        Vertices[i].Position == vertices[i] && fresh(Vertices[i]) && fresh(Edges[i])
      ensures RightmostX == MaxX(vertices, |vertices|) && TopmostZ == MaxY(vertices, |vertices|) &&
        BottommostZ == MinY(vertices, |vertices|)
    {
      if |vertices| == 0 {
        RightmostX, TopmostZ, BottommostZ := FloatMinValue, FloatMinValue, FloatMaxValue;
        Vertices := [];
        Edges := new Edge?[0];
        return false;
      }
      BuildRing(vertices);
      ok := true;
    }

    /// BuildPolygon on at least one point: the vertices, the edges of the
    /// ring they make, and the bounds.
    method BuildRing(vertices: seq<Vector2>)
      requires |vertices| > 0
      modifies this
      ensures Linked() && |Vertices| == |vertices| && fresh(Edges)
      ensures forall i :: 0 <= i < |vertices| ==>
        Vertices[i].Position == vertices[i] && fresh(Vertices[i]) && fresh(Edges[i])
      ensures RightmostX == MaxX(vertices, |vertices|) && TopmostZ == MaxY(vertices, |vertices|) &&
        BottommostZ == MinY(vertices, |vertices|)
    {
      var vs, right, top, bottom, F := CreateVertices(vertices);
      RightmostX, TopmostZ, BottommostZ := right, top, bottom;
      Vertices := vs;
      Edges := new Edge?[|vertices|];
      assert forall i :: 0 <= i < |vs| ==> vs[i].ownerPolygon == this;
      var _ := LinkEdges(vs, Edges, vertices, F);
      assert Vertices == vs;
    }

    /// The first loop of BuildPolygon: one vertex per point, owned by this
    /// polygon, and the bounds of the points.
    method CreateVertices(vertices: seq<Vector2>)
        returns (vs: seq<Vertex>, right: real, top: real, bottom: real, ghost F: set<object>)
      ensures |vs| == |vertices|
      ensures forall o :: o in F ==> fresh(o)
      ensures forall k :: 0 <= k < |vs| ==> vs[k] in F && vs[k].neighbors in F
      ensures forall k :: 0 <= k < |vs| ==>
        fresh(vs[k]) && fresh(vs[k].neighbors) && vs[k].Placed(vertices[k], this)
      ensures forall k, l :: 0 <= k < l < |vs| ==> vs[k] != vs[l] && vs[k].neighbors != vs[l].neighbors
      ensures right == MaxX(vertices, |vertices|) && top == MaxY(vertices, |vertices|) &&
        bottom == MinY(vertices, |vertices|)
    {
      right, top, bottom := FloatMinValue, FloatMinValue, FloatMaxValue;
      vs, F := [], {};
      for i := 0 to |vertices|
        invariant |vs| == i
        invariant forall o :: o in F ==> fresh(o)
        invariant forall k :: 0 <= k < i ==> vs[k] in F && vs[k].neighbors in F
        invariant forall k :: 0 <= k < i ==>
          fresh(vs[k]) && fresh(vs[k].neighbors) && vs[k].Placed(vertices[k], this)
        invariant forall k, l :: 0 <= k < l < i ==> vs[k] != vs[l] && vs[k].neighbors != vs[l].neighbors
        invariant right == MaxX(vertices, i) && top == MaxY(vertices, i) && bottom == MinY(vertices, i)
      {
        var v := vertices[i];
        if v.x > right {
          right := v.x;
        }
        if v.y > top {
          top := v.y;
        }
        if v.y < bottom {
          bottom := v.y;
        }
        var vertex := new Vertex.WithOwner(v, this);
        vs := vs + [vertex];
        F := F + {vertex, vertex.neighbors};
      }
    }

    /// Whether some edge crosses the segment, stopping at the first that does.
    method IntersectsWith(v1X: real, v1Z: real, v2X: real, v2Z: real, util: Util) returns (r: bool)
      requires forall i :: 0 <= i < Edges.Length ==> Edges[i] != null
      ensures r <==> exists i :: 0 <= i < Edges.Length && Edges[i].IntersectsWith(v1X, v1Z, v2X, v2Z, util)
    {
      for i := 0 to Edges.Length
        invariant forall k :: 0 <= k < i ==> !Edges[k].IntersectsWith(v1X, v1Z, v2X, v2Z, util)
      {
        if Edges[i].IntersectsWith(v1X, v1Z, v2X, v2Z, util) {
          return true;
        }
      }
      return false;
    }
  }

  /// In a built polygon vertex i starts edge i and ends the edge before it;
  /// it neighbours its successor, and its predecessor too unless their
  /// positions are equal as vectors.
  lemma BuiltNeighbours(p: Polygon, i: nat)
    requires p.Linked() && i < |p.Vertices|
    ensures var n := |p.Vertices|;
      var v, next, prev := p.Vertices[i], p.Vertices[Succ(i, n)], p.Vertices[Pred(i, n)];
      v.Valid() && v.edge1 == p.Edges[i] && v.edge2 == p.Edges[Pred(i, n)] &&
      v.neighbors[0] == next && v.IsNeighborWith(next) &&
      (!ApproxEqual(v.Position, prev.Position) ==> v.neighbors[1] == prev && v.IsNeighborWith(prev))
  {
    var n := |p.Vertices|;
    assert Succ(Pred(i, n), n) == i;
    assert Joins(p.Edges[Pred(i, n)], p.Vertices[Pred(i, n)], p.Vertices[i]);
  }
}
