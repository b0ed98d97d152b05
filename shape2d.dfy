/// Shape2D: a polygon given by points relative to a centre, with the points
/// translated to global coordinates.
module Shapes {
  import opened UnityMath
  import opened Options

  /// A constructed shape has both lists; the parameterless constructor
  /// leaves them null (None).
  datatype Shape2D = Shape2D(center: Vector2, points: Option<seq<Vector2>>, globalPoints: Option<seq<Vector2>>)

  /// `points.Select(x => x + center)`.
  function Translate(points: seq<Vector2>, offset: Vector2): (r: seq<Vector2>)
    ensures |r| == |points|
    ensures forall i :: 0 <= i < |points| ==> r[i] == Add(points[i], offset)
  {
    if points == [] then [] else [Add(points[0], offset)] + Translate(points[1..], offset)
  }

  /// The constructor from a centre and local points.
  function NewShape(center: Vector2, points: seq<Vector2>): (s: Shape2D)
    ensures s.center == center && s.points == Some(points)
    ensures s.globalPoints.Some? && |s.globalPoints.value| == |points|
    ensures forall i :: 0 <= i < |points| ==> s.globalPoints.value[i] == Add(points[i], center)
  {
    Shape2D(center, Some(points), Some(Translate(points, center)))
  }

  /// The parameterless constructor: a zero centre and no lists.
  function EmptyShape(): (s: Shape2D)
    ensures s.center == Zero && s.points.None? && s.globalPoints.None?
  {
    Shape2D(Zero, None, None)
  }

  /// The global points determine the local ones: translating back by the
  /// centre recovers the stored points.
  lemma GlobalPointsRoundTrip(center: Vector2, points: seq<Vector2>)
    ensures Translate(NewShape(center, points).globalPoints.value, Scale(-1.0, center)) == points
  {
    var g := NewShape(center, points).globalPoints.value;
    var back := Translate(g, Scale(-1.0, center));
    forall i | 0 <= i < |points| ensures back[i] == points[i] {
      assert g[i] == Add(points[i], center);
    }
  }
}
