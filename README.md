# A verified model of the Navigation2D maths and the DialogUtility core

This project models two parts of a Unity repository in Dafny and proves properties about them.

**Navigation2D** is the maths behind a 2-D navigation system. The model covers:
- the point orderings, index wrapping, signed areas and determinants of `NavMath`;
- the `LineSegment2D` and `Line2D` primitives;
- the start and end sweep events;
- the self-intersection sweep of `PolygonSelfIntersectionCheck`;
- the segment classification and point-in-polygon test of `Intersections`;
- `Shape2D`;
- the key and value lists of `SerializableDictionary`;
- the generic `AVLTree`;
- the obstacle polygons, vertices and edges of the visibility graph;
- the visibility graph with its rotational sweep;
- the linked-ring helpers of the Greiner–Hormann clipper;
- the local-minima bound builder;
- the unique, and boundary, edges of a triangle mesh (`NavUtility`).

**DialogUtility** is a branching dialog system. The model covers:
- its runtime data: localisation resources, character records, node and graph containers;
- the runtime node factory;
- the `DialogReader` state machine, which loads a graph of nodes and options and walks it one message at a time;
- the editor pieces that keep the project consistent:
  - the language-list clean-up;
  - the character list;
  - the character controller;
  - the registry of graph containers and their character usages.

Coordinates are exact reals. Each epsilon of the source is a named constant. Code that mutates objects becomes Dafny classes with fields:
- `AVLTree`;
- `Polygon`, `Vertex`, `Edge`;
- `VisibilityGraph`;
- `ClipVertex`;
- `SerializableDictionary`;
- `LocalisationResource`, `CharacterData`;
- the two container classes;
- `DialogReader`;
- `CharacterList`, `CharacterController`;
- the usages handler.

Those classes have `modifies` clauses and loop invariants. A method that loops is proved against a function that specifies it. Pure computations are functions, with lemmas that relate them to a partner: an inverse, an invariant they keep, or an independent definition.

A dereference of null, a missing dictionary key and a thrown exception are modelled as an explicit failure, `Option.None` or a `false` flag. Where a precondition stands instead, it states what the callers guarantee, such as a built polygon having all its edges set. The polygon constructor cannot report a failure; it is listed under "## Left out".

Each module follows one source file, and the module name says which. `unity_math.dfy` stands in for the engine's `Vector2` and `Mathf`. `collections.dfy` holds the `List<T>` operations on sequences. `options.dfy` holds the optional values.

## Model

| member | source | states |
|---|---|---|
| Events.Point | Assets/Navigation2D/NavMath/Event.cs:28-42 | a start event sits at the segment's P1 and an end event at its P2 |
| Events.CompareTo | Assets/Navigation2D/NavMath/Event.cs:56-59 | the result is -1, 0 or 1, and under a sorting mode it is 0 exactly when the two events' points are equal |
| Events.StartNotAfterEnd | Assets/Navigation2D/NavMath/Event.cs:49-59 | for a segment whose ends are ordered by the events' mode, the start event never compares after the end event, and the two compare equal when the ends coincide |
| Lines.HorizonNotFinite | Assets/Navigation2D/NavMath/PolygonSelfIntersectionCheck/Line2D.cs:13-27 | the line at the horizon (a = b = 0) is not finite |
| Lines.TryJoin | Assets/Navigation2D/NavMath/PolygonSelfIntersectionCheck/Line2D.cs:29-35 | the joined line passes through both points; success is exactly the line being finite, so two equal points never join |
| Lines.TryMeet | Assets/Navigation2D/NavMath/PolygonSelfIntersectionCheck/Line2D.cs:37-50 | succeeds exactly when the determinant is non-zero; then the point lies on both lines, otherwise it is the zero vector |
| Lines.MeetUnique | Assets/Navigation2D/NavMath/PolygonSelfIntersectionCheck/Line2D.cs:37-50 | any point on two non-parallel lines is the point TryMeet reports |
| Lines.ContainsPointsOn | Assets/Navigation2D/NavMath/PolygonSelfIntersectionCheck/Line2D.cs:57-61 | a point satisfying the line's equation is contained exactly when the line is finite |
| Lines.Project | Assets/Navigation2D/NavMath/PolygonSelfIntersectionCheck/Line2D.cs:69-76 | the projection satisfies the line's equation |
| Lines.ProjectFixesPointsOnLine | Assets/Navigation2D/NavMath/PolygonSelfIntersectionCheck/Line2D.cs:69-76 | a point on the line is its own projection |
| Lines.ProjectIdempotent | Assets/Navigation2D/NavMath/PolygonSelfIntersectionCheck/Line2D.cs:69-76 | projecting twice gives the same point as projecting once |
| Lines.ProjectLandsOnLine | Assets/Navigation2D/NavMath/PolygonSelfIntersectionCheck/Line2D.cs:57-76 | on a finite line the projection is contained in the line |
| PolygonSegments.TryIntersectEnds | Assets/Navigation2D/NavMath/PolygonSelfIntersectionCheck/PolygonLineSegment2D.cs:27-50 | segments that share an endpoint never intersect; a segment whose line is not finite never intersects; a reported point lies on both lines and within both segments |
| PolygonSegments.TryIntersect | Assets/Navigation2D/NavMath/PolygonSelfIntersectionCheck/PolygonLineSegment2D.cs:27-50 | touching segments do not intersect, and a reported point is contained in both segments under the requested inclusiveness |
| Shapes.Translate | Assets/Navigation2D/NavMath/Shape2D.cs:16 | one point per input point, each moved by the offset |
| Shapes.NewShape | Assets/Navigation2D/NavMath/Shape2D.cs:12-17 | the shape keeps the centre and the local points, and its global points are the local points moved by the centre |
| Shapes.EmptyShape | Assets/Navigation2D/NavMath/Shape2D.cs:18-21 | a zero centre and no point lists |
| Shapes.GlobalPointsRoundTrip | Assets/Navigation2D/NavMath/Shape2D.cs:12-17 | moving the global points back by the centre gives the local points again |
| SerializableDictionaries.KeysOf | Assets/Navigation2D/NavMath/Utility/SerializableDictionary.cs:19-23 | one key per entry, in entry order |
| SerializableDictionaries.ValuesOf | Assets/Navigation2D/NavMath/Utility/SerializableDictionary.cs:19-23 | one value per entry, in entry order |
| SerializableDictionaries.Zip | Assets/Navigation2D/NavMath/Utility/SerializableDictionary.cs:35-36 | entry i pairs key i with value i |
| SerializableDictionaries.ZipOfParts | Assets/Navigation2D/NavMath/Utility/SerializableDictionary.cs:15-37 | splitting the entries into keys and values and zipping them again gives the entries back |
| SerializableDictionaries.AsMapLookup | Assets/Navigation2D/NavMath/Utility/SerializableDictionary.cs:27-37 | with distinct keys, the dictionary maps each key to the value stored beside it |
| SerializableDictionaries.ZipLookup | Assets/Navigation2D/NavMath/Utility/SerializableDictionary.cs:27-37 | deserializing equal-length lists with distinct keys maps keys[i] to values[i] |
| SerializableDictionaries.AddEntry | Assets/Navigation2D/NavMath/Utility/SerializableDictionary.cs:36 | Dictionary.Add fails exactly when the key is present and otherwise appends the entry; keys stay distinct |
| SerializableDictionaries.SerializableDictionary.Add | Assets/Navigation2D/NavMath/Utility/SerializableDictionary.cs:36 | fails exactly when the key is present, leaving the entries unchanged; otherwise appends the entry and keeps the dictionary valid |
| SerializableDictionaries.SerializableDictionary.OnBeforeSerialize | Assets/Navigation2D/NavMath/Utility/SerializableDictionary.cs:15-24 | the lists become the dictionary's keys and values, pair i being entry i |
| SerializableDictionaries.SerializableDictionary.OnAfterDeserialize | Assets/Navigation2D/NavMath/Utility/SerializableDictionary.cs:27-37 | succeeds exactly when the lists have equal lengths and distinct keys, and then the entries are the zipped lists; unequal lengths leave the dictionary empty |
| SerializableDictionaries.SerializableDictionary.RoundTrip | Assets/Navigation2D/NavMath/Utility/SerializableDictionary.cs:15-37 | serializing and then deserializing a valid dictionary succeeds and restores its entries |
| SelfIntersection.BinarySearch | Assets/Navigation2D/NavMath/PolygonSelfIntersectionCheck/PolygonSelfIntersectionCheck.cs:37-38 | a non-negative answer is an index holding the key; a negative one encodes an insertion point within the list |
| SelfIntersection.IndexOfValue | Assets/Navigation2D/NavMath/PolygonSelfIntersectionCheck/PolygonSelfIntersectionCheck.cs:38 | the first index holding the segment, and -1 exactly when the sweep line does not hold it |
| SelfIntersection.InsertKeepsInvariant | Assets/Navigation2D/NavMath/PolygonSelfIntersectionCheck/PolygonSelfIntersectionCheck.cs:37 | adding a started side at any position keeps every sweep-line entry a distinct side that has started |
| SelfIntersection.RemoveKeepsInvariant | Assets/Navigation2D/NavMath/PolygonSelfIntersectionCheck/PolygonSelfIntersectionCheck.cs:54 | removing an entry keeps the sweep-line invariant |
| SelfIntersection.NeighboursCross | Assets/Navigation2D/NavMath/PolygonSelfIntersectionCheck/PolygonSelfIntersectionCheck.cs:39-50 | two sweep-line entries that TryIntersect reports crossing are two different sides of the polygon that cross |
| SelfIntersection.HandleStart | Assets/Navigation2D/NavMath/PolygonSelfIntersectionCheck/PolygonSelfIntersectionCheck.cs:36-47 | the side joins the sweep line (one entry more, invariant kept), and a reported hit is a real crossing of two sides |
| SelfIntersection.HandleEnd | Assets/Navigation2D/NavMath/PolygonSelfIntersectionCheck/PolygonSelfIntersectionCheck.cs:48-55 | without a hit the side leaves the sweep line when it was there and the invariant is kept; a reported hit is a real crossing of two sides |
| SelfIntersection.HasIntersections | Assets/Navigation2D/NavMath/PolygonSelfIntersectionCheck/PolygonSelfIntersectionCheck.cs:11-59 | an empty point list throws (None); true only when two different sides of the polygon cross |
| NavMath.ComparePoints | Assets/Navigation2D/NavMath/NavMath.cs:55-72 | the result is -1, 0 or 1, and 0 for every pair when the mode is NoSorting |
| NavMath.ComparePointsLexicographic | Assets/Navigation2D/NavMath/NavMath.cs:55-72 | the increasing modes order points lexicographically, x then y or y then x, in both directions |
| NavMath.ComparePointsZero | Assets/Navigation2D/NavMath/NavMath.cs:55-72 | under a sorting mode two points compare equal exactly when they are equal |
| NavMath.ComparePointsAntisymmetric | Assets/Navigation2D/NavMath/NavMath.cs:55-72 | swapping the points negates the comparison |
| NavMath.DescendingNegatesIncreasing | Assets/Navigation2D/NavMath/NavMath.cs:55-72 | each descending mode is the reverse of the matching increasing mode |
| NavMath.ComparePointsTransitive | Assets/Navigation2D/NavMath/NavMath.cs:55-72 | the comparison is transitive under every mode |
| NavMath.SortedPair | Assets/Navigation2D/NavMath/NavMath.cs:20-53 | the pair as SortPoints would order it: the same two points, in non-decreasing order, untouched when NoSorting or already in order |
| NavMath.SortedPairSymmetric | Assets/Navigation2D/NavMath/NavMath.cs:20-53 | under a sorting mode the ordered pair does not depend on the order of the arguments |
| NavMath.SortPoints | Assets/Navigation2D/NavMath/NavMath.cs:20-53 | as written the caller's points come back unchanged, because the swaps act on by-value copies |
| NavMath.SortPointsDoesNotSort | Assets/Navigation2D/NavMath/NavMath.cs:20-53 | on (1, 0) and (0, 0) under IncreasingXY the caller's pair stays out of order while SortedPair orders it |
| NavMath.ClampListIndex | Assets/Navigation2D/NavMath/NavMath.cs:116-123 | an index within one list length either side of the range is moved into it, equal to index mod size; an index in range is unchanged |
| NavMath.SignedAreaSwap | Assets/Navigation2D/NavMath/NavMath.cs:109-112 | swapping two corners negates the signed area, and rotating the corners keeps it |
| NavMath.SignedAreaDegenerate | Assets/Navigation2D/NavMath/NavMath.cs:109-112 | a triangle with a repeated corner has zero area |
| NavMath.Det2Antisymmetric | Assets/Navigation2D/NavMath/NavMath.cs:136-144 | the vector determinant is the scalar one on the coordinates, swapping the vectors negates it, and a vector against itself gives 0 |
| NavMath.SignedAreaIsDet2 | Assets/Navigation2D/NavMath/NavMath.cs:109-144 | the signed area is the determinant of the two edge vectors from the first corner |
| NavMath.AreFloatsEqualMeaning | Assets/Navigation2D/NavMath/NavMath.cs:78-97 | equality within EPSILON: symmetric, reflexive, and no value is equal to two values 2 EPSILON apart |
| NavMathSegments.PointsToSegmentList | Assets/Navigation2D/NavMath/NavMath.cs:9-19 | an empty list throws (None); otherwise one new segment per point, in order, from each point to the next and from the last back to the first, all sorted IncreasingXY whatever mode is asked for |
| Intersections.OverlapType | Assets/Navigation2D/NavMath/Intersections.cs:26-59 | the colinear case: V overlap exactly when both projections are within epsilon, and each overlap kind reports the points the source adds |
| Intersections.CrossingKind | Assets/Navigation2D/NavMath/Intersections.cs:72-83 | a crossing is X, T-left, T-right or V, and V exactly when both parameters are within epsilon |
| Intersections.CrossingType | Assets/Navigation2D/NavMath/Intersections.cs:61-96 | a point is reported exactly when both parameters are in [0, 1], and it is the point at u along q1 q2; it is typed None exactly when the segments share an endpoint in one of the three ways the code compares |
| Intersections.GetIntersectionType | Assets/Navigation2D/NavMath/Intersections.cs:9-97 | colinear segments get an overlap outcome; otherwise at most one point, reported exactly when both parameters lie in [0, 1], never an overlap kind, and None exactly for the three shared endpoints the code compares; no point means None |
| Intersections.CrossingPointOnBoth | Assets/Navigation2D/NavMath/Intersections.cs:61-71 | a reported crossing point lies on the line through p1 and p2 and on the segment from q1 to q2 |
| Intersections.MiddleCrossing | Assets/Navigation2D/NavMath/Intersections.cs:61-92 | segments crossing at both midpoints give an X intersection at that point |
| Intersections.SharedStartOverlap | Assets/Navigation2D/NavMath/Intersections.cs:26-37 | two non-degenerate segments from the same start give a V overlap reporting that start twice |
| Intersections.DotProductTestSymmetric | Assets/Navigation2D/NavMath/Intersections.cs:101-111 | the dot-product test does not depend on which segment comes first |
| Intersections.PlanarSideTest | Assets/Navigation2D/NavMath/Intersections.cs:114-135 | for points of the z = 0 plane the side test only compares heights against the horizontal through p1 |
| Intersections.Rightmost | Assets/Navigation2D/NavMath/Intersections.cs:154-162 | a vertex of the polygon with x at least that of every vertex |
| Intersections.RightmostIsFirst | Assets/Navigation2D/NavMath/Intersections.cs:154-162 | of several vertices at the greatest x the first is taken |
| Intersections.MaxXPosVertex | Assets/Navigation2D/NavMath/Intersections.cs:154-162 | the loop finds the vertex Rightmost names |
| Intersections.IsPointInPolygon | Assets/Navigation2D/NavMath/Intersections.cs:150-196 | the method computes PointInPolygon: None for an empty polygon, else the parity of the sides the probe to 10 beyond the rightmost vertex crosses |
| Intersections.PointInPolygon | Assets/Navigation2D/NavMath/Intersections.cs:150-196 | throws (None) exactly on an empty polygon |
| Intersections.LevelProbeCrossesNothing | Assets/Navigation2D/NavMath/Intersections.cs:114-135 | as written, a horizontal probe segment crosses no side |
| Intersections.LevelPointIsOutside | Assets/Navigation2D/NavMath/Intersections.cs:150-196 | as written, a point level with the rightmost vertex is never reported inside |
| Intersections.PlanarCrossingIsOrientation | Assets/Navigation2D/NavMath/Intersections.cs:101-135 | the corrected planar test holds exactly when each segment's endpoints lie on opposite sides of the other by signed area, and it is symmetric |
| Intersections.LevelProbeCrossesPlanar | Assets/Navigation2D/NavMath/Intersections.cs:101-135 | under the corrected test a horizontal probe does cross a vertical side that spans its height |
| Intersections.PointInPolygonPlanar | Assets/Navigation2D/NavMath/Intersections.cs:150-196 | IsPointInPolygon as intended, with the planar side test: it throws (None) exactly on an empty polygon |
| Intersections.RectangleRightmost | Assets/Navigation2D/NavMath/Intersections.cs:154-162 | the vertex the scan picks in a rectangle is its lower right corner |
| Intersections.RectangleInsideAsWritten | Assets/Navigation2D/NavMath/Intersections.cs:150-196 | as written, no point strictly inside an axis-aligned rectangle is reported inside |
| Intersections.LowerSideNotCrossed | Assets/Navigation2D/NavMath/Intersections.cs:101-135 | under the planar test the probe does not cross the rectangle's lower side, on whose line it ends |
| Intersections.RightSideCrossed | Assets/Navigation2D/NavMath/Intersections.cs:101-135 | under the planar test the probe from a point inside crosses the rectangle's right side |
| Intersections.UpperSideNotCrossed | Assets/Navigation2D/NavMath/Intersections.cs:101-135 | under the planar test the probe stays below the rectangle's upper side |
| Intersections.LeftSideNotCrossed | Assets/Navigation2D/NavMath/Intersections.cs:101-135 | under the planar test the probe stays right of the rectangle's left side |
| Intersections.RectangleInsidePlanar | Assets/Navigation2D/NavMath/Intersections.cs:150-196 | with the planar test every point strictly inside an axis-aligned rectangle is reported inside |
| LineSegments.GetOrientation | Assets/Navigation2D/NavMath/LineSegment2D.cs:58-66 | colinear exactly when the orientation value is 0, clockwise exactly when it is positive |
| LineSegments.OrientationSwap | Assets/Navigation2D/NavMath/LineSegment2D.cs:58-66 | swapping the last two points keeps colinear and exchanges clockwise with counterclockwise |
| LineSegments.OrientationIsSignedArea | Assets/Navigation2D/NavMath/LineSegment2D.cs:58-66 | the orientation value is the negated signed triangle area |
| LineSegments.Parameter | Assets/Navigation2D/NavMath/LineSegment2D.cs:93-106 | the position of a point along the segment is defined exactly when the segment is longer than Unity's vector epsilon |
| LineSegments.ParameterOfPointAt | Assets/Navigation2D/NavMath/LineSegment2D.cs:93-106 | the parameter of the point at s along the segment is s |
| LineSegments.PointAtOnLine | Assets/Navigation2D/NavMath/LineSegment2D.cs:68-91 | every point along the segment lies on the joined line |
| LineSegments.ContainsPointAt | Assets/Navigation2D/NavMath/LineSegment2D.cs:93-106 | the point at s is contained inclusively exactly when s is in [0, 1], and exclusively exactly when s is strictly inside the margins |
| LineSegments.TryIntersectWith | Assets/Navigation2D/NavMath/LineSegment2D.cs:68-91 | segments that touch, that do not join into a line, or whose lines are parallel report nothing; a reported point lies on both lines and in both segments |
| LineSegments.CrossingFound | Assets/Navigation2D/NavMath/LineSegment2D.cs:68-91 | when the two segments share a point inside both ranges and do not touch, TryIntersect reports exactly that point |
| LineSegments.LineSegment2D.constructor | Assets/Navigation2D/NavMath/LineSegment2D.cs:11-56 | the endpoints are stored in the order the sorting mode asks for |
| LineSegments.LineSegment2D.CompareTo | Assets/Navigation2D/NavMath/LineSegment2D.cs:108-154 | the result is -1, 0 or 1, and 0 exactly for the segment itself |
| LineSegments.LineSegment2D.CompareNotLeft | Assets/Navigation2D/NavMath/LineSegment2D.cs:108-154 | against a segment that starts no further right the comparison is never 0 |
| LineSegments.LineSegment2D.TryIntersect | Assets/Navigation2D/NavMath/LineSegment2D.cs:68-91 | touching segments do not intersect, and a reported point is contained in both segments |
| LineSegments.CompareToAntisymmetric | Assets/Navigation2D/NavMath/LineSegment2D.cs:108-154 | segments with different endpoints compare in opposite ways from either side |
| LineSegments.CompareToSameEnds | Assets/Navigation2D/NavMath/LineSegment2D.cs:108-154 | two distinct segments with the same endpoints each compare below the other |
| GraphElements.MathfSign | Assets/Navigation2D/NavMath/VisibilityGraph/Edge.cs:62-65 | Mathf.Sign: 1 for zero and above, -1 below |
| GraphElements.Vertex.constructor | Assets/Navigation2D/NavMath/VisibilityGraph/Vertex.cs:61-67 | the position is stored and its coordinates cached; no owner, edges or neighbours yet |
| GraphElements.Vertex.WithOwner | Assets/Navigation2D/NavMath/VisibilityGraph/Vertex.cs:69-72 | as the plain constructor, with the owner polygon recorded |
| GraphElements.Vertex.SetEdge1 | Assets/Navigation2D/NavMath/VisibilityGraph/Vertex.cs:33-44 | the edge is stored and the first neighbour becomes the edge's other vertex; nothing else about the vertex changes |
| GraphElements.Vertex.SetEdge2 | Assets/Navigation2D/NavMath/VisibilityGraph/Vertex.cs:46-57 | the edge is stored and the second neighbour becomes the edge's other vertex; nothing else about the vertex changes |
| GraphElements.Vertex.GetEdgesOnCwSide | Assets/Navigation2D/NavMath/VisibilityGraph/Vertex.cs:116-143 | two slots; slot k holds edge k exactly when the neighbour across it turns clockwise as seen from the reference point, else null |
| GraphElements.Vertex.GetEdgesOnCCwSide | Assets/Navigation2D/NavMath/VisibilityGraph/Vertex.cs:145-172 | two slots; slot k holds edge k exactly when the neighbour across it turns counterclockwise as seen from the reference point, else null |
| GraphElements.TurnIsSignedArea | Assets/Navigation2D/NavMath/VisibilityGraph/Vertex.cs:116-172 | the turn both side tests use is the signed area of the reference point, the vertex and the neighbour |
| GraphElements.SidesExclusive | Assets/Navigation2D/NavMath/VisibilityGraph/Vertex.cs:116-172 | no edge is on both sides; an edge colinear with the reference point is on neither; any other edge is on one side |
| GraphElements.GoingBetweenByConvexity | Assets/Navigation2D/NavMath/VisibilityGraph/Vertex.cs:96-114 | at a convex vertex, a direction that goes between the neighbours has the two neighbours on opposite sides of it |
| GraphElements.Edge.constructor | Assets/Navigation2D/NavMath/VisibilityGraph/Edge.cs:22-28 | the two vertices are stored and their positions cached, with distance 0 |
| GraphElements.Edge.RecacheVertexPositions | Assets/Navigation2D/NavMath/VisibilityGraph/Edge.cs:30-36 | the cached positions are the vertices' current coordinates, the distance untouched |
| GraphElements.Edge.GetOther | Assets/Navigation2D/NavMath/VisibilityGraph/Edge.cs:38-50 | the second vertex for a vertex at the first cached position, else the first vertex for one at the second, else null |
| GraphElements.Edge.CompareTo | Assets/Navigation2D/NavMath/VisibilityGraph/Edge.cs:80-88 | 1 against null; otherwise the sign of the difference of the distances to the reference point |
| GraphElements.NudgedTowards | Assets/Navigation2D/NavMath/VisibilityGraph/Edge.cs:57-66 | with the probe's ends at least two nudges apart, each end moves one nudge towards the other |
| GraphElements.NudgedOvershoots | Assets/Navigation2D/NavMath/VisibilityGraph/Edge.cs:57-66 | with the ends closer than one nudge, the first end passes the second and the second then moves away from it, since the sign is recomputed after the first end moved |
| GraphElements.CompareToCollides | Assets/Navigation2D/NavMath/VisibilityGraph/Edge.cs:80-88 | edges at the same distance compare equal both ways |
| GraphElements.CompareToAntisymmetric | Assets/Navigation2D/NavMath/VisibilityGraph/Edge.cs:80-88 | comparing two edges either way gives opposite results |
| GraphElements.MaxXBounds | Assets/Navigation2D/NavMath/VisibilityGraph/Polygon.cs:26-36 | the rightmost x is at least every vertex x, and is float.MinValue or some vertex x |
| GraphElements.MaxYBounds | Assets/Navigation2D/NavMath/VisibilityGraph/Polygon.cs:27-42 | the topmost z is at least every vertex y, and is float.MinValue or some vertex y |
| GraphElements.MinYBounds | Assets/Navigation2D/NavMath/VisibilityGraph/Polygon.cs:28-46 | the bottommost z is at most every vertex y, and is float.MaxValue or some vertex y |
| GraphElements.Attach | Assets/Navigation2D/NavMath/VisibilityGraph/Polygon.cs:53-55 | a new edge from a to b that is a's first edge and b's second; the positions and the other slot of each vertex are unchanged |
| GraphElements.LinkChain | Assets/Navigation2D/NavMath/VisibilityGraph/Polygon.cs:51-57 | edge j is new and joins vertex j to vertex j+1, for every consecutive pair |
| GraphElements.LinkEdges | Assets/Navigation2D/NavMath/VisibilityGraph/Polygon.cs:51-69 | edge j is new and joins vertex j to the next vertex cyclically, the last back to the first; it fails exactly when there are no vertices, where `Last` throws |
| GraphElements.Polygon.constructor | Assets/Navigation2D/NavMath/VisibilityGraph/Polygon.cs:19-22 | as BuildPolygon: the vertices in order, with the bounds of the points, linked in a cycle exactly when there is at least one point |
| GraphElements.Polygon.BuildPolygon | Assets/Navigation2D/NavMath/VisibilityGraph/Polygon.cs:24-70 | one new vertex and one new edge per point, in order, cyclically linked, and the rightmost, topmost and bottommost bounds of the points; it fails exactly when there are no points, leaving no vertices, no edges and the initial bounds |
| GraphElements.Polygon.BuildRing | Assets/Navigation2D/NavMath/VisibilityGraph/Polygon.cs:24-69 | on at least one point: one new vertex and one new edge per point, in order, cyclically linked, with the bounds of the points |
| GraphElements.Polygon.CreateVertices | Assets/Navigation2D/NavMath/VisibilityGraph/Polygon.cs:26-49 | one new distinct vertex per point, owned by the polygon, and the bounds of the points |
| GraphElements.Polygon.IntersectsWith | Assets/Navigation2D/NavMath/VisibilityGraph/Polygon.cs:72-83 | true exactly when some edge of the polygon intersects the segment |
| GraphElements.BuiltNeighbours | Assets/Navigation2D/NavMath/VisibilityGraph/Polygon.cs:24-70 | after building, vertex i's first edge leads to the next vertex and its second edge to the previous one, and both are its neighbours |
| VisibilityGraphPoints.IsLeftIsPositiveArea | Assets/Navigation2D/NavMath/VisibilityGraph/VisibilityGraphPoint.cs:22-24 | _isLeft is a positive signed area, false when two of the points coincide |
| VisibilityGraphPoints.OtherEnd | Assets/Navigation2D/NavMath/VisibilityGraph/VisibilityGraphPoint.cs:12-20 | the end of the segment that is not the point |
| VisibilityGraphPoints.ClockwiseFilter | Assets/Navigation2D/NavMath/VisibilityGraph/VisibilityGraphPoint.cs:12-15 | only adjacent segments that do not turn counterclockwise |
| VisibilityGraphPoints.CounterClockwiseFilter | Assets/Navigation2D/NavMath/VisibilityGraph/VisibilityGraphPoint.cs:17-20 | only adjacent segments that turn counterclockwise |
| VisibilityGraphPoints.FiltersPartition | Assets/Navigation2D/NavMath/VisibilityGraph/VisibilityGraphPoint.cs:12-20 | the clockwise and counterclockwise lists together hold every adjacent segment exactly as often as the point does |
| VisibilityGraphPoints.FilterMembership | Assets/Navigation2D/NavMath/VisibilityGraph/VisibilityGraphPoint.cs:12-20 | a segment is in each list exactly when it is adjacent and turns the right way |
| VisibilityGraphPoints.FiltersKeepOrder | Assets/Navigation2D/NavMath/VisibilityGraph/VisibilityGraphPoint.cs:12-20 | both lists keep the order of the adjacent segments |
| VisibilityGraphPoints.ClockwiseSegments | Assets/Navigation2D/NavMath/VisibilityGraph/VisibilityGraphPoint.cs:12-24 | a segment is clockwise exactly when the signed area of origin, point and its other end is at most 0, and counterclockwise exactly when it is positive |
| VisibilityGraphs.EdgeOrderIsCompareTo | Assets/Navigation2D/NavMath/VisibilityGraph/VisibilityGraph.cs:142-143 | the tree's order on edges is Edge.CompareTo on their distances to the reference point |
| VisibilityGraphs.EdgeOrderValid | Assets/Navigation2D/NavMath/VisibilityGraph/VisibilityGraph.cs:10 | that order is a valid comparer for the tree, and two edges compare equal exactly when their distances are equal |
| VisibilityGraphs.PickedExtend | Assets/Navigation2D/NavMath/VisibilityGraph/VisibilityGraph.cs:149-160 | one more event adds that event to the result exactly when it is visible and is not the pivot |
| VisibilityGraphs.PickedSubsequence | Assets/Navigation2D/NavMath/VisibilityGraph/VisibilityGraph.cs:149-160 | the result holds only events other than the pivot, every visible one of them, and no repeats when the events have none |
| VisibilityGraphs.DeleteSide | Assets/Navigation2D/NavMath/VisibilityGraph/VisibilityGraph.cs:166-173 | deleting a side's edges keeps the tree balanced and never grows it |
| VisibilityGraphs.AddSide | Assets/Navigation2D/NavMath/VisibilityGraph/VisibilityGraph.cs:174-182 | adding a side's edges keeps the tree balanced; distances change only for the side's edges |
| VisibilityGraphs.EventSides | Assets/Navigation2D/NavMath/VisibilityGraph/VisibilityGraph.cs:162-182 | an event has two edges on each side and a distance for each clockwise one |
| VisibilityGraphs.PassedWith | Assets/Navigation2D/NavMath/VisibilityGraph/VisibilityGraph.cs:162-182 | deleting an event's counterclockwise edges and then adding its clockwise ones keeps the tree balanced |
| VisibilityGraphs.Passed | Assets/Navigation2D/NavMath/VisibilityGraph/VisibilityGraph.cs:162-182 | passing an event from the pivot keeps the tree balanced |
| VisibilityGraphs.Detach | Assets/Navigation2D/NavMath/VisibilityGraph/VisibilityGraph.cs:82-90 | the adjacency map keeps its keys |
| VisibilityGraphs.DetachSucceeds | Assets/Navigation2D/NavMath/VisibilityGraph/VisibilityGraph.cs:82-90 | removing the vertex from its neighbours' lists succeeds exactly when every neighbour is a key (otherwise the lookup throws) |
| VisibilityGraphs.DetachStops | Assets/Navigation2D/NavMath/VisibilityGraph/VisibilityGraph.cs:82-90 | after the first neighbour that is not a key nothing further happens |
| VisibilityGraphs.DetachFrame | Assets/Navigation2D/NavMath/VisibilityGraph/VisibilityGraph.cs:82-90 | only the neighbours' lists change, and every list only loses entries |
| VisibilityGraphs.DetachRemoves | Assets/Navigation2D/NavMath/VisibilityGraph/VisibilityGraph.cs:82-90 | a neighbour that listed the vertex at most once no longer lists it |
| VisibilityGraphs.ShrinksPreserves | Assets/Navigation2D/NavMath/VisibilityGraph/VisibilityGraph.cs:82-90 | a graph whose lists only lose entries stays closed and free of self-loops, and shrinking is transitive |
| VisibilityGraphs.DetachShrinks | Assets/Navigation2D/NavMath/VisibilityGraph/VisibilityGraph.cs:82-90 | RemoveEdgesOfVertex only removes entries |
| VisibilityGraphs.WithEmptyListsEffect | Assets/Navigation2D/NavMath/VisibilityGraph/VisibilityGraph.cs:31-36 | registering vertices gives each an empty list, keeps every other list, and keeps the graph closed and free of self-loops |
| VisibilityGraphs.CoversStep | Assets/Navigation2D/NavMath/VisibilityGraph/VisibilityGraph.cs:39-42 | recording one more vertex's sweep covers one more prefix of the list |
| VisibilityGraphs.RefilledStep | Assets/Navigation2D/NavMath/VisibilityGraph/VisibilityGraph.cs:111-112 | refilling one vertex's list with vertices of the graph other than itself keeps the refill relation |
| VisibilityGraphs.RefilledPreserves | Assets/Navigation2D/NavMath/VisibilityGraph/VisibilityGraph.cs:109-113 | refilled lists keep the graph free of self-loops, and closed when every vertex is a key |
| VisibilityGraphs.TouchingListed | Assets/Navigation2D/NavMath/VisibilityGraph/VisibilityGraph.cs:92-107 | every touching vertex is a key of the graph and not a vertex of the polygon |
| VisibilityGraphs.RegisterIndexed | Assets/Navigation2D/NavMath/VisibilityGraph/VisibilityGraph.cs:31-36 | registering distinct new vertices keeps the vertex list and the map's keys in step |
| VisibilityGraphs.UnregisterIndexed | Assets/Navigation2D/NavMath/VisibilityGraph/VisibilityGraph.cs:69-73 | removing the polygon's vertices from both keeps them in step |
| VisibilityGraphs.AppendVertices | Assets/Navigation2D/NavMath/VisibilityGraph/VisibilityGraph.cs:31-36 | succeeds exactly when the vertices are distinct and new; then they are appended with empty lists, otherwise the loop stops after appending the duplicate that Dictionary.Add rejects |
| VisibilityGraphs.RemoveVertices | Assets/Navigation2D/NavMath/VisibilityGraph/VisibilityGraph.cs:69-73 | each vertex's first occurrence leaves the list, and its key leaves the map; other lists are kept |
| VisibilityGraphs.VisibilityGraph.constructor | Assets/Navigation2D/NavMath/VisibilityGraph/VisibilityGraph.cs:15-21 | an empty graph holding the reference polygon |
| VisibilityGraphs.VisibilityGraph.IsVisible | Assets/Navigation2D/NavMath/VisibilityGraph/VisibilityGraph.cs:188-228 | neighbours see each other; otherwise a direction between the neighbours, a crossing of the owner polygon or a crossing of the nearest tree edge blocks sight, and nothing else does: the verdict is Sees for the tree as it stands |
| VisibilityGraphs.Sees | Assets/Navigation2D/NavMath/VisibilityGraph/VisibilityGraph.cs:188-228 | the reference condition for sight: a neighbour is seen; any other vertex is seen when the line runs neither between the neighbours nor through the owner polygon, and does not cross the nearest edge of the tree |
| VisibilityGraphs.OwnerBlocks | Assets/Navigation2D/NavMath/VisibilityGraph/VisibilityGraph.cs:208-216 | the owner polygon blocks sight when one of its edges crosses the segment to the target from the pivot nudged 0.0001 towards the target on each axis |
| VisibilityGraphs.VisibilityGraph.AdvanceSweepline | Assets/Navigation2D/NavMath/VisibilityGraph/VisibilityGraph.cs:162-182 | the tree and the distances become Passed of the event: its counterclockwise edges deleted, then its clockwise edges added at their new distances; the tree stays valid |
| VisibilityGraphs.VisibilityGraph.DeleteSideEdges | Assets/Navigation2D/NavMath/VisibilityGraph/VisibilityGraph.cs:166-173 | the tree becomes DeleteSide of the side's edges |
| VisibilityGraphs.VisibilityGraph.AddSideEdges | Assets/Navigation2D/NavMath/VisibilityGraph/VisibilityGraph.cs:174-182 | the tree and the distances become AddSide of the side's edges at their distances |
| VisibilityGraphs.VisibilityGraph.SeedSweepline | Assets/Navigation2D/NavMath/VisibilityGraph/VisibilityGraph.cs:123-146 | the tree and the distances become Seeded of the registered polygons: every polygon whose bounds reach the ray to the right adds the edges that ray crosses, at the crossing distance, in array order |
| VisibilityGraphs.VisibilityGraph.SeedPolygon | Assets/Navigation2D/NavMath/VisibilityGraph/VisibilityGraph.cs:135-145 | the tree and the distances become SeededEdges of the polygon's edges: each one the ray to the right crosses is added at the crossing distance |
| VisibilityGraphs.SeededEdges | Assets/Navigation2D/NavMath/VisibilityGraph/VisibilityGraph.cs:135-145 | seeding a run of edges keeps the tree balanced |
| VisibilityGraphs.Seeded | Assets/Navigation2D/NavMath/VisibilityGraph/VisibilityGraph.cs:123-146 | seeding the polygons keeps the tree balanced |
| VisibilityGraphs.VisibilityGraph.VisitEvent | Assets/Navigation2D/NavMath/VisibilityGraph/VisibilityGraph.cs:157-182 | the verdict is Sees for the tree the event meets (so a neighbour of the pivot is always seen), and the tree and the distances become Passed of the event |
| VisibilityGraphs.VisibilityGraph.VisitEventPassing | Assets/Navigation2D/NavMath/VisibilityGraph/VisibilityGraph.cs:157-182 | as VisitEvent, and the trees on record for the earlier events still follow from one another |
| VisibilityGraphs.VisibilityGraph.VisitEventRecorded | Assets/Navigation2D/NavMath/VisibilityGraph/VisibilityGraph.cs:157-182 | as VisitEvent, and the verdicts and trees on record for the earlier events still hold, with this event's verdict added as SeenAs |
| VisibilityGraphs.VisibilityGraph.SweepStep | Assets/Navigation2D/NavMath/VisibilityGraph/VisibilityGraph.cs:149-183 | the pivot is skipped, unseen, with the tree unchanged; any other event is visited; the result grows by the event exactly when it is seen, and every event so far keeps its verdict (SeenAs) and its tree (PassedAs) on record |
| VisibilityGraphs.VisibilityGraph.VisitStep | Assets/Navigation2D/NavMath/VisibilityGraph/VisibilityGraph.cs:155-183 | an event other than the pivot is visited; the result grows by it exactly when it is seen, and its verdict and tree join the record |
| VisibilityGraphs.RecordsExtend | Assets/Navigation2D/NavMath/VisibilityGraph/VisibilityGraph.cs:149-183 | the records of the events before one, with that event's record appended, are the records up to it |
| VisibilityGraphs.VisibilityGraph.SweepEvents | Assets/Navigation2D/NavMath/VisibilityGraph/VisibilityGraph.cs:148-183 | the result is the visible events other than the pivot, in order; event k's verdict is Sees for trees[k] and trees[k + 1] is trees[k] passed by event k (unchanged for the pivot); trees[0] is the tree the loop starts with |
| VisibilityGraphs.VisibilityGraph.GetVisibilePoints | Assets/Navigation2D/NavMath/VisibilityGraph/VisibilityGraph.cs:115-186 | the result is the visible events other than the pivot, in clockwise order; the first tree is the seeded one, each event's verdict is Sees for the tree it meets, each next tree is the last one passed by the event (the pivot leaves it alone), and the tree is empty again |
| VisibilityGraphs.SeenAs | Assets/Navigation2D/NavMath/VisibilityGraph/VisibilityGraph.cs:152-160 | the verdict on one event: the pivot is skipped and unseen; any other event is seen exactly when Sees holds for the tree it meets |
| VisibilityGraphs.PassedAs | Assets/Navigation2D/NavMath/VisibilityGraph/VisibilityGraph.cs:152-182 | the tree after one event: the pivot leaves it alone; any other event deletes its counter-clockwise edges and then adds its clockwise edges at their distances |
| VisibilityGraphs.EventsRecorded | Assets/Navigation2D/NavMath/VisibilityGraph/VisibilityGraph.cs:148-183 | one verdict per event and one more tree than events; every event's verdict is SeenAs for the tree it meets and the next tree is PassedAs that event |
| VisibilityGraphs.Recorded | Assets/Navigation2D/NavMath/VisibilityGraph/VisibilityGraph.cs:115-186 | a whole sweep on record: the first tree is the seeding of the polygons from the distances the sweep began with, and the clockwise events are EventsRecorded |
| VisibilityGraphs.VisibilityGraph.ClearSweepline | Assets/Navigation2D/NavMath/VisibilityGraph/VisibilityGraph.cs:185 | the tree is emptied, and the sweep's verdicts and trees stay on record |
| VisibilityGraphs.VisibilityGraph.RemoveEdgesOfVertex | Assets/Navigation2D/NavMath/VisibilityGraph/VisibilityGraph.cs:82-90 | throws (false) for a vertex that is not a key, changing nothing; otherwise the map becomes Detach of its neighbours |
| VisibilityGraphs.VisibilityGraph.GetTouchingVertices | Assets/Navigation2D/NavMath/VisibilityGraph/VisibilityGraph.cs:92-107 | throws (false) unless every polygon vertex is a key; then the distinct vertices outside the polygon that some polygon vertex lists |
| VisibilityGraphs.VisibilityGraph.RegisterVertices | Assets/Navigation2D/NavMath/VisibilityGraph/VisibilityGraph.cs:31-36 | as AppendVertices on the graph's fields |
| VisibilityGraphs.VisibilityGraph.UnregisterVertices | Assets/Navigation2D/NavMath/VisibilityGraph/VisibilityGraph.cs:69-73 | as RemoveVertices on the graph's fields, keeping them in step |
| VisibilityGraphs.VisibilityGraph.DetachAll | Assets/Navigation2D/NavMath/VisibilityGraph/VisibilityGraph.cs:47-50 | the lists only lose entries, so the graph stays closed and free of self-loops, and nothing throws when every vertex is a key |
| VisibilityGraphs.VisibilityGraph.RecalculateAll | Assets/Navigation2D/NavMath/VisibilityGraph/VisibilityGraph.cs:52-55 | each listed vertex that is a key has been swept (its list is the visible events of its sweep, in order), other lists are unchanged, and nothing throws when all are keys |
| VisibilityGraphs.VisibilityGraph.Resweep | Assets/Navigation2D/NavMath/VisibilityGraph/VisibilityGraph.cs:52-55 | the keys are unchanged and the graph stays closed and free of self-loops |
| VisibilityGraphs.VisibilityGraph.RecalculateNext | Assets/Navigation2D/NavMath/VisibilityGraph/VisibilityGraph.cs:52-55 | one more vertex is swept exactly when it is a key, and that sweep is Recorded: its first tree is the seeding of the registered polygons from the distances it began with, and every event's verdict and next tree are SeenAs and PassedAs |
| VisibilityGraphs.VisibilityGraph.AddPolygon | Assets/Navigation2D/NavMath/VisibilityGraph/VisibilityGraph.cs:23-56 | a polygon already held changes nothing; otherwise it is appended, its vertices are appended and become keys, and a closed graph stays closed when they are new and distinct |
| VisibilityGraphs.VisibilityGraph.RegisterAndPlace | Assets/Navigation2D/NavMath/VisibilityGraph/VisibilityGraph.cs:30-42 | the vertices are registered and swept, keeping the graph's invariant |
| VisibilityGraphs.VisibilityGraph.Register | Assets/Navigation2D/NavMath/VisibilityGraph/VisibilityGraph.cs:30-36 | the vertices are appended and become keys exactly when they are new and distinct |
| VisibilityGraphs.VisibilityGraph.PlacePolygon | Assets/Navigation2D/NavMath/VisibilityGraph/VisibilityGraph.cs:38-42 | sweeping the polygon's vertices keeps the keys and keeps a closed graph closed |
| VisibilityGraphs.VisibilityGraph.RefreshTouching | Assets/Navigation2D/NavMath/VisibilityGraph/VisibilityGraph.cs:44-55 | detaching and re-sweeping the touching vertices keeps the keys and keeps a closed graph closed |
| VisibilityGraphs.VisibilityGraph.DetachAndResweep | Assets/Navigation2D/NavMath/VisibilityGraph/VisibilityGraph.cs:47-55 | the same, for a given list of touching vertices |
| VisibilityGraphs.VisibilityGraph.RemovePolygon | Assets/Navigation2D/NavMath/VisibilityGraph/VisibilityGraph.cs:58-80 | throws unless every vertex is a key, changing nothing; otherwise the polygon and its vertices leave the lists and the map, and the graph stays valid |
| VisibilityGraphs.VisibilityGraph.Unplace | Assets/Navigation2D/NavMath/VisibilityGraph/VisibilityGraph.cs:63-79 | the polygon, its vertices and their keys are removed and the touching vertices swept again |
| VisibilityGraphs.VisibilityGraph.CalculateVisiblityForVertex | Assets/Navigation2D/NavMath/VisibilityGraph/VisibilityGraph.cs:109-113 | throws (false) for a pivot that is not a key, changing nothing; otherwise only the pivot's list changes, refilled by the sweep with vertices of the graph other than itself, the tree is empty again, and the sweep's verdicts and trees are returned as GetVisibilePoints records them: the first tree is the seeding of the tree the sweep met, and EventsRecorded holds for the clockwise events |
| VisibilityGraphs.VisibilityGraph.StoreList | Assets/Navigation2D/NavMath/VisibilityGraph/VisibilityGraph.cs:111-112 | the pivot's list becomes the sweep's result and nothing else in the graph changes, so the sweep's records (EventsRecorded) still hold |
| VisibilityGraphs.VisibilityGraph.CalculateRecorded | Assets/Navigation2D/NavMath/VisibilityGraph/VisibilityGraph.cs:109-113 | as CalculateVisiblityForVertex from an empty tree, and the sweep is Recorded from the distances it began with |
| AvlTree.HeightLogN | Assets/Navigation2D/NavMath/VisibilityGraph/AvlTree.cs:247-263 | on a balanced tree (every stored balance is right height minus left height, in -1..1) following the heavier side gives the true height |
| AvlTree.RotateLeft | Assets/Navigation2D/NavMath/VisibilityGraph/AvlTree.cs:892-940 | the rotated tree keeps the in-order sequence of elements |
| AvlTree.RotateRight | Assets/Navigation2D/NavMath/VisibilityGraph/AvlTree.cs:947-994 | the rotated tree keeps the in-order sequence of elements |
| AvlTree.FixLeftHeavy | Assets/Navigation2D/NavMath/VisibilityGraph/AvlTree.cs:485-515 | a node two levels left-heavy becomes balanced with the same elements, one level lower unless the left child was even |
| AvlTree.DoubleRight | Assets/Navigation2D/NavMath/VisibilityGraph/AvlTree.cs:490-500 | the left-right double rotation balances the node, keeps the elements and lowers the height by one |
| AvlTree.SingleRight | Assets/Navigation2D/NavMath/VisibilityGraph/AvlTree.cs:501-506 | the single right rotation of a left-left heavy node balances it, keeps the elements and lowers the height by one |
| AvlTree.SingleRightEven | Assets/Navigation2D/NavMath/VisibilityGraph/AvlTree.cs:507-514 | the right rotation for an even left child balances the node with balances 1 and -1, keeping the height |
| AvlTree.FixRightHeavy | Assets/Navigation2D/NavMath/VisibilityGraph/AvlTree.cs:516-546 | a node two levels right-heavy becomes balanced with the same elements, one level lower unless the right child was even |
| AvlTree.DoubleLeft | Assets/Navigation2D/NavMath/VisibilityGraph/AvlTree.cs:521-531 | the right-left double rotation balances the node, keeps the elements and lowers the height by one |
| AvlTree.SingleLeft | Assets/Navigation2D/NavMath/VisibilityGraph/AvlTree.cs:532-537 | the single left rotation of a right-right heavy node balances it, keeps the elements and lowers the height by one |
| AvlTree.SingleLeftEven | Assets/Navigation2D/NavMath/VisibilityGraph/AvlTree.cs:538-545 | the left rotation for an even right child balances the node with balances -1 and 1, keeping the height |
| AvlTree.GrowLeft | Assets/Navigation2D/NavMath/VisibilityGraph/AvlTree.cs:299-330 | after the left subtree grew the node is balanced again, with the elements in order, and reports growth only when its own height rose |
| AvlTree.GrowRight | Assets/Navigation2D/NavMath/VisibilityGraph/AvlTree.cs:343-374 | after the right subtree grew the node is balanced again, with the elements in order, and reports growth only when its own height rose |
| AvlTree.InsertPos | Assets/Navigation2D/NavMath/VisibilityGraph/AvlTree.cs:286-332 | the position the comparisons lead to is within the element sequence |
| AvlTree.Insert | Assets/Navigation2D/NavMath/VisibilityGraph/AvlTree.cs:271-385 | the result is balanced and non-empty, grows by at most one level and reports it, and a failed insert leaves the tree as it was |
| AvlTree.InsertElements | Assets/Navigation2D/NavMath/VisibilityGraph/AvlTree.cs:271-385 | a successful insert puts the element into the in-order sequence at the position the comparisons lead to and changes nothing else |
| AvlTree.InsertPosSeparates | Assets/Navigation2D/NavMath/VisibilityGraph/AvlTree.cs:271-385 | on an ordered tree the insert succeeds exactly when no stored element compares equal, and then everything before the position is smaller and everything after it larger |
| AvlTree.InsertKeepsOrder | Assets/Navigation2D/NavMath/VisibilityGraph/AvlTree.cs:271-385 | inserting into an ordered tree keeps it ordered |
| AvlTree.ShrinkLeft | Assets/Navigation2D/NavMath/VisibilityGraph/AvlTree.cs:398-413 | after a removal on the left the node is balanced again with the elements in order, and reports a height loss exactly as it happens |
| AvlTree.ShrinkRight | Assets/Navigation2D/NavMath/VisibilityGraph/AvlTree.cs:462-477 | after a removal on the right the node is balanced again with the elements in order, and reports a height loss exactly as it happens |
| AvlTree.Rebalance | Assets/Navigation2D/NavMath/VisibilityGraph/AvlTree.cs:479-553 | a node off by two is rebalanced with its elements kept, and one within bounds is left as it is |
| AvlTree.ReplaceMin | Assets/Navigation2D/NavMath/VisibilityGraph/AvlTree.cs:419-422 | the swap with the right subtree's minimum puts the node's element first in that subtree, keeping its shape and balance |
| AvlTree.Remove | Assets/Navigation2D/NavMath/VisibilityGraph/AvlTree.cs:393-556 | the result is balanced, loses at most one level and reports it, and holds one element fewer exactly when the removal succeeded |
| AvlTree.RemoveMin | Assets/Navigation2D/NavMath/VisibilityGraph/AvlTree.cs:623-720 | removing the minimum of a non-empty balanced tree drops the first element |
| AvlTree.RemoveMax | Assets/Navigation2D/NavMath/VisibilityGraph/AvlTree.cs:728-825 | removing the maximum of a non-empty balanced tree drops the last element |
| AvlTree.Search | Assets/Navigation2D/NavMath/VisibilityGraph/AvlTree.cs:594-615 | a found node holds an element of the tree that compares equal to the argument |
| AvlTree.MemberLeft | Assets/Navigation2D/NavMath/VisibilityGraph/AvlTree.cs:594-615 | in an ordered tree, an argument smaller than the node is a member exactly when it is one of the left subtree |
| AvlTree.MemberRight | Assets/Navigation2D/NavMath/VisibilityGraph/AvlTree.cs:594-615 | in an ordered tree, an argument larger than the node is a member exactly when it is one of the right subtree |
| AvlTree.SearchFindsMember | Assets/Navigation2D/NavMath/VisibilityGraph/AvlTree.cs:594-615 | on an ordered tree Search finds a node exactly when some stored element compares equal |
| AvlTree.RemoveFromOrdered | Assets/Navigation2D/NavMath/VisibilityGraph/AvlTree.cs:393-556 | on an ordered tree the removal succeeds exactly when an element compares equal; it then drops exactly that element from the in-order sequence, and otherwise the tree is unchanged |
| AvlTree.RemoveRightNil | Assets/Navigation2D/NavMath/VisibilityGraph/AvlTree.cs:398-413 | a removal that goes left past a missing subtree changes nothing |
| AvlTree.RemoveLeftStep | Assets/Navigation2D/NavMath/VisibilityGraph/AvlTree.cs:398-413 | a removal that goes left succeeds as the left subtree's does and changes only that subtree |
| AvlTree.RemoveRightStep | Assets/Navigation2D/NavMath/VisibilityGraph/AvlTree.cs:462-477 | a removal that goes right succeeds as the right subtree's does and changes only that subtree |
| AvlTree.RemoveAtNode | Assets/Navigation2D/NavMath/VisibilityGraph/AvlTree.cs:414-461 | a node with a missing child is replaced by its other child |
| AvlTree.RemoveTwoChildren | Assets/Navigation2D/NavMath/VisibilityGraph/AvlTree.cs:417-436 | the successor swap removes exactly the node's own element from the in-order sequence |
| AvlTree.RemoveTwoChildrenStep | Assets/Navigation2D/NavMath/VisibilityGraph/AvlTree.cs:417-436 | after the swap the removal continues in the right subtree, whose first element moves up |
| AvlTree.RemoveReplacedMin | Assets/Navigation2D/NavMath/VisibilityGraph/AvlTree.cs:417-436 | removing the swapped element from the right subtree succeeds and drops its first element |
| AvlTree.RemoveKeepsOrder | Assets/Navigation2D/NavMath/VisibilityGraph/AvlTree.cs:393-556 | removing from an ordered tree keeps it ordered |
| AvlTree.AddedNext | Assets/Navigation2D/NavMath/VisibilityGraph/AvlTree.cs:42-53 | adding the next element of the list keeps the tree within the list's values and, for a valid comparer, ordered and holding every element added so far |
| AvlTree.AddedMembers | Assets/Navigation2D/NavMath/VisibilityGraph/AvlTree.cs:42-53 | elements already in the tree stay members when another is inserted, and the new one is a member |
| AvlTree.FindMin | Assets/Navigation2D/NavMath/VisibilityGraph/AvlTree.cs:563-571 | the leftmost node, holding the first element, and none exactly for an empty tree |
| AvlTree.FindMax | Assets/Navigation2D/NavMath/VisibilityGraph/AvlTree.cs:578-586 | the rightmost node, holding the last element, and none exactly for an empty tree |
| AvlTree.AVLTree.constructor | Assets/Navigation2D/NavMath/VisibilityGraph/AvlTree.cs:33-36 | an empty tree |
| AvlTree.AVLTree.FromElements | Assets/Navigation2D/NavMath/VisibilityGraph/AvlTree.cs:42-53 | the tree holds only the list's elements and, for a valid comparer, is ordered and holds a member equal to each of them |
| AvlTree.AVLTree.AddNext | Assets/Navigation2D/NavMath/VisibilityGraph/AvlTree.cs:47-52 | one more element of the list added, keeping those facts for the prefix |
| AvlTree.AVLTree.Add | Assets/Navigation2D/NavMath/VisibilityGraph/AvlTree.cs:87-95 | the tree becomes Insert's result; on an ordered tree it stays ordered and the add succeeds exactly when no element compares equal, inserting the element at its place, and otherwise changes nothing |
| AvlTree.AVLTree.Delete | Assets/Navigation2D/NavMath/VisibilityGraph/AvlTree.cs:102-113 | false and no change on an empty tree; otherwise Remove's result, one element fewer exactly when deleted, and on an ordered tree deletion happens exactly when an element compares equal |
| AvlTree.AVLTree.GetMin | Assets/Navigation2D/NavMath/VisibilityGraph/AvlTree.cs:121-135 | nothing on an empty tree, otherwise the first element in order |
| AvlTree.AVLTree.GetMax | Assets/Navigation2D/NavMath/VisibilityGraph/AvlTree.cs:143-157 | nothing on an empty tree, otherwise the last element in order |
| AvlTree.AVLTree.Contains | Assets/Navigation2D/NavMath/VisibilityGraph/AvlTree.cs:167-170 | on an ordered tree, true exactly when some element compares equal |
| AvlTree.AVLTree.DeleteMin | Assets/Navigation2D/NavMath/VisibilityGraph/AvlTree.cs:176-187 | false and no change on an empty tree, otherwise the first element in order is removed |
| AvlTree.AVLTree.DeleteMax | Assets/Navigation2D/NavMath/VisibilityGraph/AvlTree.cs:193-204 | false and no change on an empty tree, otherwise the last element in order is removed |
| AvlTree.AVLTree.GetHeightLogN | Assets/Navigation2D/NavMath/VisibilityGraph/AvlTree.cs:212-215 | the height of the tree |
| AvlTree.AVLTree.Clear | Assets/Navigation2D/NavMath/VisibilityGraph/AvlTree.cs:221-224 | an empty tree |
| GreinerHormann.ClipVertex.constructor | Assets/Navigation2D/NavMath/PolygonClipping/ClipVertex.cs:28-31 | a vertex at the coordinate, not yet linked and flagged neither new nor an intersection |
| GreinerHormann.ClampLinkedRing | Assets/Navigation2D/NavMath/PolygonClipping/GreinerHormann.cs:376-381 | linking each vertex to the one ClampListIndex gives after it, and back, makes the list a ring |
| GreinerHormann.ReverseDistinct | Assets/Navigation2D/NavMath/PolygonClipping/GreinerHormann.cs:371-372 | reversing a list without repeats gives one without repeats |
| GreinerHormann.InitDataStructure | Assets/Navigation2D/NavMath/PolygonClipping/GreinerHormann.cs:363-384 | one new vertex per point, in the given or the reversed order, flagged neither new nor an intersection, linked into a ring |
| GreinerHormann.LinkRing | Assets/Navigation2D/NavMath/PolygonClipping/GreinerHormann.cs:376-381 | the vertices become a ring and keep their coordinates and flags |
| GreinerHormann.InsertIntersectionVertex | Assets/Navigation2D/NavMath/PolygonClipping/GreinerHormann.cs:387-404 | a new intersection vertex at the point, flagged new, spliced between the vertex and its old successor; the coordinates and flags of both are unchanged |
| GreinerHormann.InsertIntoRing | Assets/Navigation2D/NavMath/PolygonClipping/GreinerHormann.cs:387-404 | in a ring, the new vertex follows position k and the result is still a ring, the old vertices keeping their coordinates and flags |
| GreinerHormann.SpliceDistinct | Assets/Navigation2D/NavMath/PolygonClipping/GreinerHormann.cs:387-404 | splicing in a vertex not in the ring keeps the ring free of repeats |
| GreinerHormann.GetVertexCopy | Assets/Navigation2D/NavMath/PolygonClipping/GreinerHormann.cs:406-413 | a new unlinked vertex with the same coordinate and intersection flag, flagged new |
| GreinerHormann.ChainLeftTurnCases | Assets/Navigation2D/NavMath/PolygonClipping/GreinerHormann.cs:633-640 | the test implies that one of the turns towards q is left and holds when both are; on a chain that itself turns left it holds exactly when both are |
| GreinerHormann.ClipPolygons | Assets/Navigation2D/NavMath/PolygonClipping/GreinerHormann.cs:17-246 | the result list is never added to, so it is always empty |
| LocalMinima.NewSegment | Assets/Navigation2D/NavMath/LocalMinima/LocalMinimaList.cs:34-39 | the segment's ends are ordered by the sorting mode and it carries the interior flag |
| LocalMinima.FindMinimum | Assets/Navigation2D/NavMath/LocalMinima/LocalMinimaList.cs:14-21 | a point of the shape that no point lies below (lower y, or equal y and smaller x) |
| LocalMinima.MinimumUnique | Assets/Navigation2D/NavMath/LocalMinima/LocalMinimaList.cs:14-21 | there is only one such lowest point |
| LocalMinima.IndexOf | Assets/Navigation2D/NavMath/LocalMinima/LocalMinimaList.cs:23 | the first index holding the point |
| LocalMinima.Wrap | Assets/Navigation2D/NavMath/LocalMinima/LocalMinimaList.cs:28 | the index after the last one wraps to 0 |
| LocalMinima.TagIsLastDirection | Assets/Navigation2D/NavMath/LocalMinima/LocalMinimaList.cs:29-32 | a segment is tagged right of the interior exactly when the walk last went down, with no rise since, by the time it reaches the segment's end |
| LocalMinima.BuiltStep | Assets/Navigation2D/NavMath/LocalMinima/LocalMinimaList.cs:26-48 | one more turn of the walk adds the segment from the current point to the next, sorted IncreasingYX and tagged |
| LocalMinima.BuildSegments | Assets/Navigation2D/NavMath/LocalMinima/LocalMinimaList.cs:22-48 | one segment per point, starting at the lowest point and going round the shape once, each tagged by the walk |
| LocalMinima.FindPair | Assets/Navigation2D/NavMath/LocalMinima/LocalMinimaList.cs:64-87 | the first bound pair the segment continues on its own side, or a report that no pair does |
| LocalMinima.HeldAppend | Assets/Navigation2D/NavMath/LocalMinima/LocalMinimaList.cs:89-101 | appending a pair adds its segments to those the list holds |
| LocalMinima.HeldUpdate | Assets/Navigation2D/NavMath/LocalMinima/LocalMinimaList.cs:65-86 | replacing one pair changes the held segments by the difference of the two pairs |
| LocalMinima.Extend | Assets/Navigation2D/NavMath/LocalMinima/LocalMinimaList.cs:72-82 | a left segment joins the pair's left bound, a right one its right bound |
| LocalMinima.HeldExtend | Assets/Navigation2D/NavMath/LocalMinima/LocalMinimaList.cs:65-86 | extending a pair adds exactly that segment and keeps each bound on its own side |
| LocalMinima.MatchIndex | Assets/Navigation2D/NavMath/LocalMinima/LocalMinimaList.cs:64-87 | the index of the first matching pair, or the list length when none matches |
| LocalMinima.PlaceHolds | Assets/Navigation2D/NavMath/LocalMinima/LocalMinimaList.cs:62-101 | placing a segment adds exactly it to the held segments and keeps sides apart; a new pair is made exactly when no pair matches |
| LocalMinima.PlaceSegment | Assets/Navigation2D/NavMath/LocalMinima/LocalMinimaList.cs:62-101 | the loop places the segment as Place does |
| LocalMinima.GroupHolds | Assets/Navigation2D/NavMath/LocalMinima/LocalMinimaList.cs:60-102 | the bound pairs together hold every dequeued segment exactly once, each on its tagged side |
| LocalMinima.GroupBounds | Assets/Navigation2D/NavMath/LocalMinima/LocalMinimaList.cs:58-104 | the grouping loop computes Group of the dequeued segments |
| LocalMinima.GetLocalMinimaList | Assets/Navigation2D/NavMath/LocalMinima/LocalMinimaList.cs:10-105 | throws (None) exactly for a shape without points; otherwise the walk starts at the first occurrence of the lowest point, builds one segment per point, and groups the dequeued segments into bound pairs that hold each exactly once on its side |
| NavUtility.Sides | Assets/Navigation2D/Editor/Utility/NavUtility.cs:166-171 | three sides per triangle, each from the previous corner to this one, the first from the last corner |
| NavUtility.SidesOfTriangles | Assets/Navigation2D/Editor/Utility/NavUtility.cs:166-171 | every side belongs to one of the triangles and joins two of its corners |
| NavUtility.Pass1Snoc | Assets/Navigation2D/Editor/Utility/NavUtility.cs:166-207 | the first pass handles the sides one after another |
| NavUtility.OpenIndex | Assets/Navigation2D/Editor/Utility/NavUtility.cs:230-239 | the first edge in the list that runs from lo to hi and has no second face yet, or the end |
| NavUtility.Step2 | Assets/Navigation2D/Editor/Utility/NavUtility.cs:227-250 | a downward side either fills in the second face of the open edge it reverses or appends an edge; nothing else about existing edges changes |
| NavUtility.Pass2Snoc | Assets/Navigation2D/Editor/Utility/NavUtility.cs:221-255 | the second pass handles the sides one after another |
| NavUtility.CountsBounded | Assets/Navigation2D/Editor/Utility/NavUtility.cs:172-227 | no side is counted both upward and downward |
| NavUtility.Pass1Edges | Assets/Navigation2D/Editor/Utility/NavUtility.cs:166-207 | the first pass makes one edge per upward side, each running upward within one face and being that side |
| NavUtility.Pass2Size | Assets/Navigation2D/Editor/Utility/NavUtility.cs:221-255 | the second pass adds at most one edge per downward side |
| NavUtility.Pass2Sound | Assets/Navigation2D/Editor/Utility/NavUtility.cs:227-250 | the second pass keeps every edge a side of its first face and, when shared, the reversed side of its second face |
| NavUtility.UniqueEdgesProperties | Assets/Navigation2D/Editor/Utility/NavUtility.cs:146-262 | BuildEdges' result has at most one edge per corner; every edge is a side of its first face and, when shared, the reversed side of its second; the first-pass edges come first and ascend, the rest descend |
| NavUtility.Pass2Tail | Assets/Navigation2D/Editor/Utility/NavUtility.cs:221-255 | the edges the second pass appends run downward, and earlier edges keep their vertices |
| NavUtility.LinkEdge | Assets/Navigation2D/Editor/Utility/NavUtility.cs:181-201 | appending edge count to the linked list of the vertex keeps the firstEdge array a correct set of per-vertex lists |
| NavUtility.FindOpenEdge | Assets/Navigation2D/Editor/Utility/NavUtility.cs:229-239 | the list walk finds the index OpenIndex names |
| NavUtility.OpenIndexIsFirst | Assets/Navigation2D/Editor/Utility/NavUtility.cs:230-239 | an open edge with none before it is the one OpenIndex names |
| NavUtility.FirstPassSide | Assets/Navigation2D/Editor/Utility/NavUtility.cs:172-205 | one side of the first pass keeps the arrays in the first-pass state |
| NavUtility.FirstPassTriangle | Assets/Navigation2D/Editor/Utility/NavUtility.cs:166-207 | one triangle of the first pass keeps the arrays in the first-pass state |
| NavUtility.SecondPassSide | Assets/Navigation2D/Editor/Utility/NavUtility.cs:227-253 | one side of the second pass keeps the arrays in the second-pass state |
| NavUtility.SecondPassTriangle | Assets/Navigation2D/Editor/Utility/NavUtility.cs:221-255 | one triangle of the second pass keeps the arrays in the second-pass state |
| NavUtility.FirstPass | Assets/Navigation2D/Editor/Utility/NavUtility.cs:153-207 | after the first pass the front of the edge array is Pass1 of all sides and the lists index it |
| NavUtility.PassesBounded | Assets/Navigation2D/Editor/Utility/NavUtility.cs:148 | the two passes never need more than one slot per corner |
| NavUtility.SecondPass | Assets/Navigation2D/Editor/Utility/NavUtility.cs:209-255 | after the second pass the front of the edge array is the edge list UniqueEdges describes |
| NavUtility.BuildEdges | Assets/Navigation2D/Editor/Utility/NavUtility.cs:146-262 | the compacted array is exactly UniqueEdges of the triangles |
| NavUtility.Boundary | Assets/Navigation2D/Editor/Utility/NavUtility.cs:127-137 | the edges with a single face, in order |
| NavUtility.BuildManifoldEdges | Assets/Navigation2D/Editor/Utility/NavUtility.cs:122-138 | the boundary edges of BuildEdges' result, in order |
| DialogData.LocalisationResource.constructor | Assets/DialogUtility/Scripts/Scriptables/LocalisationResource.cs:9 | a new resource holds no texts |
| DialogData.LocalisationResource.GetText | Assets/DialogUtility/Scripts/Scriptables/LocalisationResource.cs:11-19 | the text stored under the guid when there is one, and the empty string when the guid has no entry |
| DialogData.LocalisationResource.Copy | Assets/DialogUtility/Scripts/Scriptables/LocalisationResource.cs:21-28 | the destination ends up with exactly the origin's entries and the origin is left as it was; copying a resource onto itself clears it, because the fresh dictionary replaces the one being enumerated |
| DialogData.CharacterData.constructor | Assets/DialogUtility/Scripts/Data/CharacterData.cs:10-20 | a new record has the given id and icon, no usages and no localisation resource |
| DialogData.CharacterData.Name | Assets/DialogUtility/Scripts/Data/CharacterData.cs:14-18 | the name is the resource's text under the character's id; reading it fails (None) exactly when there is no resource or the id has no entry |
| DialogContainers.DialogNodeDataContainer.constructor | Assets/DialogUtility/Scripts/Scriptables/DialogNodeDataContainer.cs:11-14 | the container holds the given node data |
| DialogContainers.DialogNodeDataContainer.GetDataCopy | Assets/DialogUtility/Scripts/Scriptables/DialogNodeDataContainer.cs:20-33 | without a resource the copy equals the stored data; with one, a missing entry for the node id is first added as the empty string and the copy's text is the resource's text for that id; the id, ports and character id are the stored ones and the stored data is not changed |
| DialogContainers.DialogNodeDataContainer.GetData | Assets/DialogUtility/Scripts/Scriptables/DialogNodeDataContainer.cs:35-38 | the stored data itself |
| DialogContainers.DialogNodeDataContainer.SetData | Assets/DialogUtility/Scripts/Scriptables/DialogNodeDataContainer.cs:40-43 | the given data is stored and the container's id becomes that data's id |
| DialogContainers.DialogGraphContainer.constructor | Assets/DialogUtility/Scripts/Scriptables/DialogGraphContainer.cs:9-17 | a new container has the given id, an empty start node id, no links, nodes or characters, no localisation resource and an empty name |
| DialogContainers.DialogGraphContainer.Copy | Assets/DialogUtility/Scripts/Scriptables/DialogGraphContainer.cs:19-28 | every field of the destination (id, start node, links, nodes, resource, characters, name) equals the origin's, and a distinct origin is unchanged |
| DialogNodes.NewCharacter | Assets/DialogUtility/API/Character.cs:7-11 | a character is built exactly when the record is present and its name can be read, and it carries that name and the record's icon |
| DialogNodes.ChoiceOptionsOf | Assets/DialogUtility/API/DialogChoiceOption.cs:9-13 | one choice option per port, the i-th holding the i-th port's data and the index i |
| DialogNodes.BuildChoiceOptions | Assets/DialogUtility/API/DialogNode.cs:14-18 | the loop yields exactly the choice options of the node data's ports, in port order |
| DialogNodes.NewDialogNodeAsWritten | Assets/DialogUtility/API/DialogNode.cs:10-19 | as written the constructor reads the name of the character record even when none was given, so a node is built only when the record is present and named (a null record throws) |
| DialogNodes.NewDialogNode | Assets/DialogUtility/API/DialogNode.cs:10-19 | a node without a character is always built, with no character; with a record it is built exactly when the record's name can be read; the node holds the data, that character and the choice options of its ports |
| DialogNodes.FindIndex | Assets/DialogUtility/API/DialogNode.cs:46 | the position of the first record with the id, or the length of the list when none has it |
| DialogNodes.CharacterFor | Assets/DialogUtility/API/DialogNode.cs:43-55 | a record is found only for a set character id, and it is in the list and has that id; no record is found exactly when the id is empty or no record has it |
| DialogNodes.NodeFor | Assets/DialogUtility/API/DialogNode.cs:41-64 | with the corrected constructor: a built node holds the given data and the choice options of its ports; building fails exactly when the node names an existing character whose name the reader's character localisation does not hold, so a node for which no record is found builds |
| DialogNodes.NodeForAsWritten | Assets/DialogUtility/API/DialogNode.cs:41-64 | as written: a built node holds the given data, the choice options of its ports and a character; building fails exactly when no record is found for the node (its character id unset or naming no character of the graph) or the record's name is not in the character localisation |
| DialogNodes.NodeForAgree | Assets/DialogUtility/API/DialogNode.cs:41-64 | the factory as written and the corrected one build the same node whenever a record is found; when none is, the one as written throws and the corrected one builds the node without a character |
| DialogNodes.FindCharacter | Assets/DialogUtility/API/DialogNode.cs:43-57 | the record found is the first of the graph's characters with the node's character id, none when the id is unset or no character has it; a found record is pointed at the character localisation and keeps its usages |
| DialogNodes.GetDialogNodeAsWritten | Assets/DialogUtility/API/DialogNode.cs:41-64 | as written: the found record's resource becomes the reader's character localisation and its usages are untouched; a node is built exactly when a record was found and its name can be read, and the result is the node NodeForAsWritten describes |
| DialogNodes.GetDialogNode | Assets/DialogUtility/API/DialogNode.cs:41-64 | with the corrected constructor: the found record's resource becomes the reader's character localisation and its usages are untouched, and the result is the node NodeFor describes, built without a character when no record was found |
| DialogReaders.Get | Assets/DialogUtility/API/DialogReader.cs:121 | a dictionary lookup finds a value exactly when the key is one of the entries' keys |
| DialogReaders.Assign | Assets/DialogUtility/API/DialogReader.cs:121 | the indexer set keeps the keys in place when the key is present and appends it last otherwise |
| DialogReaders.AssignGet | Assets/DialogUtility/API/DialogReader.cs:121 | after an assignment the key reads back the new value and every other key reads back its old one |
| DialogReaders.AssignDistinct | Assets/DialogUtility/API/DialogReader.cs:121 | assigning keeps the keys of a dictionary distinct |
| DialogReaders.FilledTexts | Assets/DialogUtility/API/DialogReader.cs:104-108 | GetDataCopy over the first n node data adds exactly their missing ids to the resource's table, and never changes the text any id reads |
| DialogReaders.CopyFor | Assets/DialogUtility/API/DialogReader.cs:106 | the copy keeps the data's id, character id and ports; with a resource its text is the resource's text for the id ("" if missing); without one it is the data itself |
| DialogReaders.Lookup | Assets/DialogUtility/API/DialogReader.cs:121 | the dictionary lookup by target id finds a node that is in the dictionary and has that id, and finds nothing exactly when no node has it |
| DialogReaders.BuildNodes | Assets/DialogUtility/API/DialogReader.cs:104-108 | one node per node data, in order, the k-th numbered ref0 + k and holding the copy GetDataCopy makes of the k-th data |
| DialogReaders.BuildNodesDistinct | Assets/DialogUtility/API/DialogReader.cs:107 | the nodes' ids are pairwise distinct, as the keys of the node dictionary must be |
| DialogReaders.OptionsDiffer | Assets/DialogUtility/API/DialogReader.cs:117-121 | the options a node's constructor builds for two different ports are different options |
| DialogReaders.AssignOwn | Assets/DialogUtility/API/DialogReader.cs:121 | assigning one of the node's own options keeps its options dictionary made of its own options, each once |
| DialogReaders.LinkPortsThrows | Assets/DialogUtility/API/DialogReader.cs:117-123 | the port loop for one link throws exactly when the link starts from one of the remaining ports and its target is not in the node dictionary |
| DialogReaders.LinkPortsOwn | Assets/DialogUtility/API/DialogReader.cs:117-123 | after the port loop the options dictionary still holds only the node's own options, each once |
| DialogReaders.LinkPortsGet | Assets/DialogUtility/API/DialogReader.cs:117-123 | after the port loop, each remaining port the link starts from maps its option to the link's target, and every other option reads what it read before |
| DialogReaders.LastLink | Assets/DialogUtility/API/DialogReader.cs:115-124 | the link found starts from the port and is one of the links, and none is found exactly when no link starts from that port |
| DialogReaders.NodeOptionsThrows | Assets/DialogUtility/API/DialogReader.cs:115-124 | the link loop of a node throws exactly when some link starts from one of its ports and its target is not in the node dictionary |
| DialogReaders.NodeOptionsOwn | Assets/DialogUtility/API/DialogReader.cs:115-124 | a node's options dictionary holds only its own options, each once |
| DialogReaders.NodeOptionsGet | Assets/DialogUtility/API/DialogReader.cs:115-124 | the option of port j leads to the target of the last link from that port, and it is missing when no link starts from that port |
| DialogReaders.NodeOptionsTargets | Assets/DialogUtility/API/DialogReader.cs:121 | every option of a node leads to a node of the node dictionary |
| DialogReaders.GraphOf | Assets/DialogUtility/API/DialogReader.cs:109-111 | the graph's keys are exactly the nodes of the node dictionary |
| DialogReaders.GraphClosed | Assets/DialogUtility/API/DialogReader.cs:109-125 | in the loaded graph each node's options are its own, each once, and every option leads to a node of the graph |
| DialogReaders.LookupFinds | Assets/DialogUtility/API/DialogReader.cs:107 | the Add of the k-th node finds its id already a key exactly when an earlier node data has the same id |
| DialogReaders.NodesUpToBuilds | Assets/DialogUtility/API/DialogReader.cs:104-108 | the first loop gets through the first n data exactly when each of them builds a node (with the factory the load context chooses: as written, a node for which no character record is found does not build) and no two of them share an id |
| DialogReaders.NodesUpToValue | Assets/DialogUtility/API/DialogReader.cs:104-108 | when the first loop finishes, the node dictionary it leaves holds exactly the nodes BuildNodes describes |
| DialogReaders.NodesUpToNext | Assets/DialogUtility/API/DialogReader.cs:104-108 | one more iteration throws when the next node does not build (with the factory the load context chooses: as written, a node for which no character record is found does not build) or its id is already a key, and otherwise appends that node |
| DialogReaders.NodesUpToThrows | Assets/DialogUtility/API/DialogReader.cs:104-108 | once an iteration throws, the whole loop has thrown |
| DialogReaders.LinkNode | Assets/DialogUtility/API/DialogReader.cs:115-124 | the link loop for one node computes the options dictionary NodeOptions describes, or reports the throw |
| DialogReaders.LoadOne | Assets/DialogUtility/API/DialogReader.cs:106-107 | one iteration builds the node NodeAt describes, with GetDialogNodeAsWritten or GetDialogNode as the load context chooses, adds "" under its id to the graph resource's table when missing, points the node's character record at the character localisation, and leaves the other records alone |
| DialogReaders.LoadStep | Assets/DialogUtility/API/DialogReader.cs:104-108 | one iteration of the first loop succeeds exactly when the loop gets one data further (as written, not past a node for which no character record is found), leaves the node dictionary, resource table and character records that the first i + 1 data give, and on failure the whole loop throws |
| DialogReaders.LoadedGraph | Assets/DialogUtility/API/DialogReader.cs:100-126 | the graph a successful load builds is closed, each node's options are its own, and every node's identity is new (from ref0 on) |
| DialogReaders.FirstViable | Assets/DialogUtility/API/DialogReader.cs:65 | the position of the first option with no condition or a true one; all earlier options have a false condition |
| DialogReaders.CountViable | Assets/DialogUtility/API/DialogReader.cs:77-78 | the number of viable options is at most the number of options |
| DialogReaders.CountFirst | Assets/DialogUtility/API/DialogReader.cs:65-83 | at least one option is viable exactly when First finds one, so NextMessage ends the dialog exactly where a later First would throw |
| DialogReaders.NextNodeFollows | Assets/DialogUtility/API/DialogReader.cs:65-66 | from a node of the graph, a given choice leads where the node's dictionary maps it, and no choice leads along the first viable option (and throws when there is none) |
| DialogReaders.ContinuesMoves | Assets/DialogUtility/API/DialogReader.cs:71-83 | where the dialog goes on, the next call without a choice moves without throwing |
| DialogReaders.ReferencedMeans | Assets/DialogUtility/API/DialogReader.cs:106-107 | the character records the first loop points at the character localisation are exactly the characters of the data it has gone through |
| DialogReaders.ClosedMoves | Assets/DialogUtility/API/DialogReader.cs:65-66 | in a closed graph, moving from one of its nodes lands on a node of the graph |
| DialogReaders.LoadedNodes | Assets/DialogUtility/API/DialogReader.cs:104-108 | a finished first loop has built the nodes BuildNodes describes, with distinct ids, their constructors' options and identities from ref0 on |
| DialogReaders.LinkedGraph | Assets/DialogUtility/API/DialogReader.cs:109-125 | a graph whose entries are the nodes' options dictionaries has each node's options its own and every target in the node dictionary |
| DialogReaders.BuildAll | Assets/DialogUtility/API/DialogReader.cs:104-108 | the first loop succeeds exactly when every data builds (with the factory the load context chooses: as written, a node for which no character record is found does not build) and the ids are distinct; it then returns the nodes BuildNodes describes, fills the graph resource's table, and points exactly the referenced character records at the character localisation |
| DialogReaders.LinkStep | Assets/DialogUtility/API/DialogReader.cs:109-125 | one iteration of the second loop either adds the node with its options dictionary and the start node it finds, or shows that some node's links do not resolve |
| DialogReaders.LinkNodes | Assets/DialogUtility/API/DialogReader.cs:109-125 | the second loop succeeds exactly when every node's links resolve; it then yields the graph GraphOf describes and the start node is the node with the start id when there is one, and the earlier start node otherwise |
| DialogReaders.LinkedAll | Assets/DialogUtility/API/DialogReader.cs:109-125 | a second loop that has gone through every node has built the graph GraphOf describes and found the start node |
| DialogReaders.GraphFrom | Assets/DialogUtility/API/DialogReader.cs:109-125 | a graph with every node as a key and each node's options dictionary as its entry is the graph GraphOf describes |
| DialogReaders.Advance | Assets/DialogUtility/API/DialogReader.cs:59-67 | the move to the start node on the first call, or along the choice or the first viable option, as Moved describes; a move from a node lands on one of its options' targets |
| DialogReaders.LoadedBoth | Assets/DialogUtility/API/DialogReader.cs:100-126 | both loops succeed exactly when the data build (with the factory the load context chooses: as written, a node for which no character record is found does not build) and the links resolve; the graph is then closed and the start node is found as the source does, and the reader's nodes are all built before the next identity either way |
| DialogReaders.LoadsNeedCharacterAsWritten | Assets/DialogUtility/API/DialogReader.cs:104-108 | as written, one node for which no character record is found makes the whole load fail; with the corrected factory that node is built without a character |
| DialogReaders.CharacterlessNodeLoads | Assets/DialogUtility/API/DialogReader.cs:100-126 | a graph of one node with an unset character id and no links fails to load as written and loads with the corrected factory |
| DialogReaders.LoadGraph | Assets/DialogUtility/API/DialogReader.cs:100-126 | the load succeeds exactly when the data build (with the factory the load context chooses: as written, a node for which no character record is found does not build) and the links resolve, and then yields the closed graph of the node data, the start node, the filled resource table and the repointed character records |
| DialogReaders.DialogReader.constructor | Assets/DialogUtility/API/DialogReader.cs:11-20 | a new reader is inactive, with an empty graph, no container, no current or start node and no events |
| DialogReaders.DialogReader.EndDialog | Assets/DialogUtility/API/DialogReader.cs:89-98 | an active dialog becomes inactive and fires OnDialogEnded; an inactive reader is left unchanged; nothing else changes |
| DialogReaders.DialogReader.Load | Assets/DialogUtility/API/DialogReader.cs:100-126 | on the reader, the load with the chosen factory sets the graph and start node LoadGraph describes, keeps the reader's nodes below the next identity, fills the resource table and repoints the referenced character records |
| DialogReaders.DialogReader.BeginDialogAsWritten | Assets/DialogUtility/API/DialogReader.cs:27-44 | as written: an active dialog is left alone; otherwise the container takes the resource and the graph is loaded with the factory as written, which fails on any node for which no character record is found; the dialog starts with OnDialogStarted exactly when the load succeeds; the current node of an earlier dialog is kept, and it is not a node of the new graph |
| DialogReaders.DialogReader.BeginDialog | Assets/DialogUtility/API/DialogReader.cs:27-44 | an active dialog is left alone; otherwise the container takes the resource and the load, with the corrected factory, succeeds exactly when the data build and the links resolve, the dialog then being active with the closed graph and OnDialogStarted fired, and the current node reset so that the first message is the start node |
| DialogReaders.DialogReader.NextMessage | Assets/DialogUtility/API/DialogReader.cs:51-84 | an inactive reader does nothing; otherwise it moves (to the start node first, then along the choice or the first viable option), fires OnNextMessage, throws when the node is missing or not in the graph, and ends the dialog when the node has no options or none is viable |
| LanguageSettings.Dedup | Assets/DialogUtility/Editor/Data/DialogUtilityLanguageSettings.cs:21 | Distinct keeps every language once: the result has no repeats, no more entries than the list, and exactly the list's languages |
| LanguageSettings.NatToString | Assets/DialogUtility/Editor/Data/DialogUtilityLanguageSettings.cs:30 | the decimal form of the counter is a non-empty string of digits |
| LanguageSettings.NatToStringRoundTrip | Assets/DialogUtility/Editor/Data/DialogUtilityLanguageSettings.cs:30 | reading the decimal form back gives the counter |
| LanguageSettings.Renamed | Assets/DialogUtility/Editor/Data/DialogUtilityLanguageSettings.cs:26-31 | renaming throws exactly on an empty name; a name ending in a digit keeps its length and all but the last character, whose code goes up by one; any other name gets a space and the counter appended; the new name always differs from the old one |
| LanguageSettings.RenameAll | Assets/DialogUtility/Editor/Data/DialogUtilityLanguageSettings.cs:23-33 | the loop throws exactly when one of the duplicates is empty, and otherwise renames the i-th duplicate with counter i + 1 |
| LanguageSettings.Validated | Assets/DialogUtility/Editor/Data/DialogUtilityLanguageSettings.cs:17-43 | OnValidate throws exactly when the empty name is among the duplicates; an empty list becomes the default language alone; otherwise the list keeps its length and starts with its distinct languages |
| LanguageSettings.SumCountsAppend | Assets/DialogUtility/Editor/Data/DialogUtilityLanguageSettings.cs:19 | the occurrence counts of two groups of keys add up |
| LanguageSettings.SumCountsSnoc | Assets/DialogUtility/Editor/Data/DialogUtilityLanguageSettings.cs:19 | adding one entry to the list raises the total count of a distinct group of keys by one exactly when the entry is one of the keys |
| LanguageSettings.SumCountsDedup | Assets/DialogUtility/Editor/Data/DialogUtilityLanguageSettings.cs:19-21 | the occurrences of the distinct languages add up to the length of the list |
| LanguageSettings.RepeatsOfLength | Assets/DialogUtility/Editor/Data/DialogUtilityLanguageSettings.cs:19 | the group-by keeps all but the first of each key's occurrences, so the skipped entries and the keys together number the keys' occurrences |
| LanguageSettings.DedupRepeatsLength | Assets/DialogUtility/Editor/Data/DialogUtilityLanguageSettings.cs:19-21 | the distinct languages and the duplicates together number the list's entries, so no entry is lost |
| LanguageSettings.DedupDistinct | Assets/DialogUtility/Editor/Data/DialogUtilityLanguageSettings.cs:21 | Distinct leaves a list without repeats as it is |
| LanguageSettings.DedupFirstOrder | Assets/DialogUtility/Editor/Data/DialogUtilityLanguageSettings.cs:21 | Distinct keeps the languages in the order of their first occurrences in the list |
| LanguageSettings.RepeatsOfSingles | Assets/DialogUtility/Editor/Data/DialogUtilityLanguageSettings.cs:19 | keys that occur once have no duplicates |
| LanguageSettings.ValidatedUnchanged | Assets/DialogUtility/Editor/Data/DialogUtilityLanguageSettings.cs:17-43 | a non-empty list without repeats is left unchanged by OnValidate |
| LanguageSettings.ValidatedTail | Assets/DialogUtility/Editor/Data/DialogUtilityLanguageSettings.cs:23-35 | after the distinct languages, the i-th entry is the i-th duplicate renamed with counter i + 1 |
| LanguageSettings.ValidatedIs | Assets/DialogUtility/Editor/Data/DialogUtilityLanguageSettings.cs:19-40 | a non-empty list becomes its distinct languages followed by its renamed duplicates |
| LanguageSettings.DialogUtilityLanguageSettings.constructor | Assets/DialogUtility/Editor/Data/DialogUtilityLanguageSettings.cs:11-15 | new settings list only the default language, English, and select index 0 |
| LanguageSettings.DialogUtilityLanguageSettings.OnValidate | Assets/DialogUtility/Editor/Data/DialogUtilityLanguageSettings.cs:17-43 | OnValidate succeeds exactly when Validated does, and then stores the validated list and resets the index to 0; when it throws the list is left deduplicated and the index unchanged |
| UsagesHandlers.Registered | Assets/DialogUtility/Editor/DialogUtilityUsagesHandler.cs:62 | the usages whose ids are registry keys, in their order, each as often as in the usages; nothing else |
| UsagesHandlers.RegisteredIdempotent | Assets/DialogUtility/Editor/DialogUtilityUsagesHandler.cs:62 | pruning the usages a second time changes nothing |
| UsagesHandlers.ContainerNames | Assets/DialogUtility/Editor/DialogUtilityUsagesHandler.cs:118-129 | the names are found exactly when every registered usage's container is still live |
| UsagesHandlers.ContainerNamesRegistered | Assets/DialogUtility/Editor/DialogUtilityUsagesHandler.cs:118-129 | one name per registered usage, in order, each the name of the live container the registry maps it to |
| UsagesHandlers.Pruned | Assets/DialogUtility/Editor/DialogUtilityUsagesHandler.cs:104-111 | the clean-up keeps exactly the entries whose container is live and is an asset, with their containers |
| UsagesHandlers.DialogUtilityUsagesHandler.constructor | Assets/DialogUtility/Editor/DialogUtilityUsagesHandler.cs:29-31 | a new handler has no current container and an empty registry |
| UsagesHandlers.DialogUtilityUsagesHandler.UpdateCharacterUsages | Assets/DialogUtility/Editor/DialogUtilityUsagesHandler.cs:60-63 | the result is a subsequence of the usages holding exactly the registered ones, each registered id as often as in the usages |
| UsagesHandlers.DialogUtilityUsagesHandler.GetUsagesNames | Assets/DialogUtility/Editor/DialogUtilityUsagesHandler.cs:118-129 | the loop collects the names ContainerNames describes, and fails where reading a gone container's name throws |
| UsagesHandlers.DialogUtilityUsagesHandler.ProcessIfCopy | Assets/DialogUtility/Editor/DialogUtilityUsagesHandler.cs:65-81 | a container is a copy exactly when its id is registered to another container; a copy takes the new id and is registered under it, the stale entry of a gone original is dropped, and every character record gains the new id; otherwise nothing changes |
| UsagesHandlers.DialogUtilityUsagesHandler.ProcessCopy | Assets/DialogUtility/Editor/DialogUtilityUsagesHandler.cs:83-91 | the copy takes the new id and is registered under it, and each character record gains the new id once for each time the list holds it |
| UsagesHandlers.DialogUtilityUsagesHandler.UpdateDictionaryOfIdsAndContainers | Assets/DialogUtility/Editor/DialogUtilityUsagesHandler.cs:102-116 | the registry becomes its live asset entries, plus the live current container under its id when that id is missing; afterwards every entry is live and an asset or the current container, and a live current container is registered |
| CharacterLists.CharacterModel.constructor | Assets/DialogUtility/Editor/Character/CharacterModel.cs:9-11 | the model wraps the given record |
| CharacterLists.CharacterModel.Name | Assets/DialogUtility/Editor/Character/CharacterModel.cs:35-43 | the model's name is its record's name, and reading it throws where the record's does |
| CharacterLists.DataOf | Assets/DialogUtility/Editor/CharacterList/CharacterList.cs:118-119 | the records behind the models, one for each model, in order |
| CharacterLists.CharacterNames | Assets/DialogUtility/Editor/CharacterList/CharacterList.cs:100-103 | the names are read exactly when every record's name can be read, and then there is one name per record, in order |
| CharacterLists.FindById | Assets/DialogUtility/Editor/CharacterList/CharacterList.cs:62-65 | the position of the first model with the id, or the length of the list when none has it |
| CharacterLists.FindByName | Assets/DialogUtility/Editor/CharacterList/CharacterList.cs:67-70 | when it does not throw, the position of the first model with the name (or the length), every earlier model's name being readable and different |
| CharacterLists.FindByNameThrows | Assets/DialogUtility/Editor/CharacterList/CharacterList.cs:67-70 | the search by name throws only at a model whose name cannot be read, with no match before it |
| CharacterLists.ModelsWithIds | Assets/DialogUtility/Editor/CharacterList/CharacterList.cs:90-93 | the models with one of the ids, as a subsequence of the list: every model with such an id and no other |
| CharacterLists.ModelsWithIdsDistinct | Assets/DialogUtility/Editor/CharacterList/CharacterList.cs:90-93 | filtering a list without repeats gives a list without repeats |
| CharacterLists.DataOfAppend | Assets/DialogUtility/Editor/CharacterList/CharacterList.cs:118-119 | the records of two lists of models are the records of each, one after the other |
| CharacterLists.RemoveFirstDataOf | Assets/DialogUtility/Editor/CharacterList/CharacterList.cs:145-150 | where only the model wraps its record, removing the model and removing its record keep the two lists in step |
| CharacterLists.RemoveFirstData | Assets/DialogUtility/Editor/CharacterList/CharacterList.cs:145-150 | removing a model of a list in step with distinct records keeps the lists in step and the records distinct, and both the model and its record are gone |
| CharacterLists.DistinctData | Assets/DialogUtility/Editor/CharacterList/CharacterList.cs:21-22 | models of distinct records are distinct |
| CharacterLists.CharacterList.constructor | Assets/DialogUtility/Editor/CharacterList/CharacterList.cs:35-39 | a new list has no records, no models and no local characters |
| CharacterLists.CharacterList.FindCharacterById | Assets/DialogUtility/Editor/CharacterList/CharacterList.cs:62-65 | null exactly when no model has the id; otherwise the first model with the id |
| CharacterLists.CharacterList.FindCharacterByName | Assets/DialogUtility/Editor/CharacterList/CharacterList.cs:67-70 | null exactly when every model's name is readable and none is the name; a model found is in the list and has the name; None where reading a name throws first |
| CharacterLists.CharacterList.GetLocalCharacterNames | Assets/DialogUtility/Editor/CharacterList/CharacterList.cs:95-98 | the local models' names in order, one each; None exactly when one of them cannot be read |
| CharacterLists.CharacterList.GetGlobalCharacterNames | Assets/DialogUtility/Editor/CharacterList/CharacterList.cs:100-103 | the records' names in order, one each; None exactly when one of them cannot be read |
| CharacterLists.CharacterList.NamesAgreeWithFind | Assets/DialogUtility/Editor/CharacterList/CharacterList.cs:67-70 | where the global names can be read, finding by name does not throw and finds a model exactly when the name is one of them |
| CharacterLists.CharacterList.AddCharacterToLocal | Assets/DialogUtility/Editor/CharacterList/CharacterList.cs:72-79 | the model is appended only when absent, so the local list keeps no repeats and holds the old models and the new one; the change is announced |
| CharacterLists.CharacterList.RemoveCharacterFromLocal | Assets/DialogUtility/Editor/CharacterList/CharacterList.cs:81-88 | the first occurrence of the model is removed and an absent model changes nothing; without repeats the list then holds every old model but that one; the change is announced |
| CharacterLists.CharacterList.UpdateLocalList | Assets/DialogUtility/Editor/CharacterList/CharacterList.cs:90-93 | the local list becomes the global models whose id is among the given records, in global order, without repeats |
| CharacterLists.CharacterList.CreateCharacter | Assets/DialogUtility/Editor/CharacterList/CharacterList.cs:115-121 | one new model with a new record (the given id, no icon, no usages, the character localisation, a placeholder name when it had none) is appended to both global lists in step, the local list is unchanged and the change is announced |
| CharacterLists.CharacterList.DeleteCharacter | Assets/DialogUtility/Editor/CharacterList/CharacterList.cs:123-156 | a character with no usages is deleted; with usages the deletion throws where a container name cannot be read, and otherwise goes ahead when no name is found or the user confirms; a deleted model and record leave all three lists and the deletion is announced; a refused one changes nothing |
| CharacterControllers.CharacterController.constructor | Assets/DialogUtility/Editor/Character/CharacterController.cs:7-10 | the controller drives the given model |
| CharacterControllers.CharacterController.IncludeInCurrentDialog | Assets/DialogUtility/Editor/Character/CharacterController.cs:19-31 | including adds the model to the local list and the open container's id to its usages; excluding removes the model and the first usage found (the default guid when none matches); it fails exactly when there is no open container and the container's id is read: always when including, and when excluding only if the model has a usage for the search to test; the list change is announced even where that read throws |
| CharacterControllers.CharacterController.SetText | Assets/DialogUtility/Editor/Character/CharacterController.cs:39-50 | blank text is refused; a text that is none of the global names becomes the character's name and the change is announced; a taken name, including the character's own current name, is refused and nothing changes; None where reading the names or storing the name throws |

## Left out

- Single-precision floats: coordinates are exact reals. A rounding-dependent outcome (NaN from normalising a near-zero vector, the order of float operations) is modelled as an explicit case, or not at all where the exact result is defined.
- `Util.Left`, `Util.RayLineIntersection`, `Util.PointLineSegmentDistance` and `Util.SortClockwise` are not part of this model. The visibility graph takes them as function parameters, and so do `Vertex.IsGoingBetweenNeighbors` and `Edge.IntersectsWith`.
- `PriorityQueue` is not part of this model. The self-intersection sweep and the local-minima grouping take the dequeue order as a parameter, constrained only by what the queue's ordering guarantees.
- `VisibilityGraph.GetPath` and `GetAdjacencyMatrix` are called elsewhere but not defined in `VisibilityGraph.cs`, so they are not modelled.
- `Vertex.CalculateNormal` and the angle helpers of `NavMath` (`AngleFromToCCW`, `AngleBetween`, `Remap`, `AddValueToAverage`, `RoundValue`, `GetLineLineIntersectionPoint`) are trigonometric or float-rounding numerics.
- `PolygonOutline` is trigonometric numerics too.
- `GreinerHormann.MarkEntryExit`, `GetNewClippedPolygon`, `FindFirstEntryVertex` and `IsPolygonInsidePolygon`: the clipping phase draws on `UnityEngine.Random` and safety counters. Only the fact that `ClipPolygons` returns an empty list is modelled.
- The Vatti merge (`VattiMerge`, `VattiEdge`, `LMLNode`) is unfinished code: an empty infinite loop followed by `NotImplementedException`.
- `AVLTree` serialization (`OnBeforeSerialize`, `OnAfterDeserialize`, `_rebuildTree`) and the code under `#if TREE_WITH_CONCAT_AND_SPLIT_OPERATIONS` / `TREE_WITH_PARENT_POINTERS`: Unity serialization, and code that is not compiled.
- `AVLTree` nodes: the linked nodes are a tree value replaced in place by the tree object. Node identity and sharing between trees are not modelled.
- `NavUtility.ConvertToPolygonShapes` works on Unity colliders, meshes and tilemaps.
- `NavUtility`'s mesh `Edge` type is modelled by its `vertexIndex` and `faceIndex` pairs only.
- Debug logging and `Debug.DrawLine` are left out. Editor windows, views, save utilities and asset I/O are left out too: `AssetDatabase`, `EditorUtility`, `Resources.Load`.
- Events (`OnDialogStarted`, `OnNextMessage`, `OnDialogEnded`, the character list's callbacks) are kept as a log of what was fired. The handlers are not modelled.
- State after a thrown exception: where the source throws partway through a loop, the model reports failure. The state left behind is stated only where the model gives it.
- `SerializableGuid` is a natural number, with 0 as the empty guid. `Guid.NewGuid` is a parameter, required to be new where the source relies on that.
- Sprites and `Condition` assets are opaque identities. What `Condition.IsTrue` answers is a parameter (`ConditionAnswers`).
- Which Unity objects are destroyed, and which containers are assets, is engine state. It is passed in as sets.
- `DialogReaderSettings` and the `DialogLanguageHandler` singleton are not part of this model. The resources they supply (the character localisation, the language handler's resource) are parameters.
- `CreateLocalisationResourceCopy` is asset creation and is not modelled.
- `CharacterModel`'s language-change handler is not modelled.
- `CharacterModel`'s full editor constructor is modelled only through `CreateCharacter`, with its `Guid.NewGuid` placeholder name as a parameter.
- `DeleteCharacter`'s confirmation dialog (`EditorUtility.DisplayDialog`) is the `confirmed` parameter.
- Not modelled:
  - `CharacterList`'s `CreateCharacterList` and the handler factories;
  - the `Instance` setters;
  - `GetCharacter` and `GetLocalCharactersListCopy`;
  - `CharacterModel.DeleteSelf`, `SetSprite` and `Delete`;
  - `CharacterController.IsIncludedInCurrentDialog`.
  These are UI wiring, list copies given out to the UI, or asset deletion.
- The three `SerializableDictionary` classes differ only in how Unity stores the lists, so one class models all three.
- Value copies: `GetDataCopy`, `DialogGraphContainer.Copy` and the runtime node's data are values in the model. A fresh list object, and the absence of aliasing after a copy, are shown only in the sense that destination and origin hold equal values.
- The `Text` and `Sprite` accessors of the runtime node and the plain data (`DialogNodeData`, `NodeLinkData`, `DialogChoiceOption`) are plain field reads. They have no rows beyond the records that hold them.
- `UnityMath` is a stand-in for the engine's `Vector2` and `Mathf` and has no rows of its own.
- LanguageSettings.Validated: the renamed duplicates are not proved distinct from each other or from the kept languages. The source does not ensure that either ('9' + 1 becomes ':', and a name ending in a digit can collide).
- SelfIntersection.HasIntersections: only soundness is proved, that true means two different sides cross strictly. The converse, that false means no two sides cross, rests on a sweep-line completeness argument that is not part of this model.
- VisibilityGraphs.VisibilityGraph.GetVisibilePoints: the events come from the `sortClockwise` parameter. That they really are in clockwise order is that parameter's promise, not something proved here.
- VisibilityGraphs.VisibilityGraph.RecalculateAll: each vertex's list is proved to be the visible events of its sweep, but the fuller record of each sweep (the trees it met, SeenAs and PassedAs) is proved only where that sweep ends, by RecalculateNext. It is not carried through the later sweeps, because framing the heap-reading records across every later sweep exceeds the solver's resource budget. Nothing a later sweep does could change those records: a sweep writes only the tree, the distances and the adjacency lists.
- GraphElements.Polygon.constructor: a constructor cannot report a failure. For an empty array, where the source's constructor throws, it yields the polygon the throw leaves (no vertices, no edges, the initial bounds), which is not Linked; BuildPolygon reports the failure.
- DialogReaders.CountViable: only bounded by the number of options; its use in `NextMessage` is stated through `CountFirst`.

## Findings

| source | as written | input that shows it | evidently intended | confidence | as-written member | corrected member |
|---|---|---|---|---|---|---|
| Assets/Navigation2D/NavMath/NavMath.cs:20-53 | `SortPoints` swaps its by-value `Vector2` parameters, so the caller's points never change | (1, 0) and (0, 0) under `IncreasingXY` stay out of order | the pair returned in the mode's order | not executed | NavMath.SortPointsDoesNotSort | NavMath.SortedPair |
| Assets/Navigation2D/NavMath/Intersections.cs:114-135 | `IsPointsOnDifferentSides` builds its normal in the x–z plane, so for points of the z = 0 plane the horizontal probe of `IsPointInPolygon` crosses no side | the point (0.5, 0.5) inside the unit square is reported outside | the 2-D side test by signed area, under which every point strictly inside an axis-aligned rectangle is inside | not executed | Intersections.RectangleInsideAsWritten | Intersections.RectangleInsidePlanar |
| Assets/DialogUtility/API/DialogNode.cs:10-19 | the node's constructor builds a `Character` from the character record even when `GetDialogNode` found none, and that constructor dereferences it | a node whose character id is unset or names no record of the graph's character list, for which the whole load then fails (CharacterlessNodeLoads) | a node without a character | not executed | DialogNodes.NewDialogNodeAsWritten | DialogNodes.NewDialogNode |
| Assets/DialogUtility/API/DialogReader.cs:27-44 | `BeginDialog` never resets `_currentNode`, so a reader that has run one dialog does not start the next at its start node | begin a dialog, take one message, end it, then begin a second one | the first message of every dialog is its start node | not executed | DialogReaders.DialogReader.BeginDialogAsWritten | DialogReaders.DialogReader.BeginDialog |
