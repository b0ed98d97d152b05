/// Line2D: a line in homogeneous coefficients, a*x + b*y + c = 0, with the
/// join of two points, the meet of two lines, containment and projection.
module Lines {
  import opened UnityMath

  datatype Line2D = Line2D(a: real, b: real, c: real)

  /// The line at the horizon.
  const Horizon: Line2D := Line2D(0.0, 0.0, 1.0)

  /// IsFinite: the length of the normal (a, b) exceeds float.Epsilon. Both
  /// sides are non-negative, so the square root is compared squared.
  predicate IsFinite(l: Line2D) {
    l.a * l.a + l.b * l.b > FloatEpsilon * FloatEpsilon
  }

  lemma HorizonNotFinite()
    ensures !IsFinite(Horizon)
  {
  }

  /// The value of the line's equation at a point; zero exactly on the line.
  function Residual(l: Line2D, p: Vector2): real {
    l.a * p.x + l.b * p.y + l.c
  }

  /// TryJoin: the line through a and b; succeeds when that line is finite.
  function TryJoin(a: Vector2, b: Vector2): (r: (bool, Line2D))
    ensures r.0 == IsFinite(r.1)
    ensures a == b ==> !r.0
    ensures Residual(r.1, a) == 0.0 && Residual(r.1, b) == 0.0
  {
    var dx, dy := b.x - a.x, b.y - a.y;
    var m := a.x * b.y - a.y * b.x;
    var line := Line2D(-dy, dx, m);
    JoinPassesThrough(a, b);
    (IsFinite(line), line)
  }

  lemma JoinPassesThrough(a: Vector2, b: Vector2)
    ensures Residual(Line2D(-(b.y - a.y), b.x - a.x, a.x * b.y - a.y * b.x), a) == 0.0
    ensures Residual(Line2D(-(b.y - a.y), b.x - a.x, a.x * b.y - a.y * b.x), b) == 0.0
  {
  }

  /// The determinant that decides whether two lines meet.
  function MeetDet(l: Line2D, m: Line2D): real {
    l.a * m.b - m.a * l.b
  }

  /// TryMeet: the common point of two non-parallel lines; zero otherwise.
  function TryMeet(l: Line2D, m: Line2D): (r: (bool, Vector2))
    ensures r.0 <==> MeetDet(l, m) != 0.0
    ensures !r.0 ==> r.1 == Zero
    ensures r.0 ==> Residual(l, r.1) == 0.0 && Residual(m, r.1) == 0.0
  {
    var d := MeetDet(l, m);
    if d != 0.0 then
      var p := Vector2((l.b * m.c - m.b * l.c) / d, (m.a * l.c - l.a * m.c) / d);
      MeetOnBoth(l, m);
      (true, p)
    else
      (false, Zero)
  }

  lemma MeetOnBoth(l: Line2D, m: Line2D)
    requires MeetDet(l, m) != 0.0
    ensures var d := MeetDet(l, m);
      var p := Vector2((l.b * m.c - m.b * l.c) / d, (m.a * l.c - l.a * m.c) / d);
      Residual(l, p) == 0.0 && Residual(m, p) == 0.0
  {
    var d := MeetDet(l, m);
    var px, py := l.b * m.c - m.b * l.c, m.a * l.c - l.a * m.c;
    assert l.a * px + l.b * py == -l.c * d;
    assert m.a * px + m.b * py == -m.c * d;
    Cancel(l.a, l.b, l.c, px, py, d);
    Cancel(m.a, m.b, m.c, px, py, d);
  }

  /// a*(px/d) + b*(py/d) + c is zero when a*px + b*py = -c*d.
  lemma Cancel(a: real, b: real, c: real, px: real, py: real, d: real)
    requires d != 0.0 && a * px + b * py == -c * d
    ensures a * (px / d) + b * (py / d) + c == 0.0
  {
    assert a * (px / d) + b * (py / d) == (a * px + b * py) / d;
  }

  /// Two lines that are not parallel share exactly one point: the one TryMeet reports.
  lemma MeetUnique(l: Line2D, m: Line2D, p: Vector2)
    requires MeetDet(l, m) != 0.0
    requires Residual(l, p) == 0.0 && Residual(m, p) == 0.0
    ensures TryMeet(l, m) == (true, p)
  {
    var d := MeetDet(l, m);
    assert d * p.x == l.b * m.c - m.b * l.c by {
      assert d * p.x == m.b * (l.a * p.x) - l.b * (m.a * p.x);
      assert l.a * p.x == -l.c - l.b * p.y;
      assert m.a * p.x == -m.c - m.b * p.y;
    }
    assert d * p.y == m.a * l.c - l.a * m.c by {
      assert d * p.y == l.a * (m.b * p.y) - m.a * (l.b * p.y);
      assert l.b * p.y == -l.c - l.a * p.x;
      assert m.b * p.y == -m.c - m.a * p.x;
    }
    assert p.x == (l.b * m.c - m.b * l.c) / d;
    assert p.y == (m.a * l.c - l.a * m.c) / d;
    assert p == Vector2((l.b * m.c - m.b * l.c) / d, (m.a * l.c - l.a * m.c) / d);
    assert TryMeet(l, m).0;
    assert TryMeet(l, m).1 == Vector2((l.b * m.c - m.b * l.c) / d, (m.a * l.c - l.a * m.c) / d);
  }

  /// Contains: a finite line whose equation is within float.Epsilon of zero.
  predicate Contains(l: Line2D, p: Vector2) {
    IsFinite(l) && Abs(Residual(l, p)) <= FloatEpsilon
  }

  lemma ContainsPointsOn(l: Line2D, p: Vector2)
    requires Residual(l, p) == 0.0
    ensures Contains(l, p) <==> IsFinite(l)
  {
  }

  /// The numerators of Project satisfy the line's equation scaled by a² + b².
  lemma FootOnLine(a: real, b: real, c: real, x: real, y: real)
    ensures a * (b * (b * x - a * y) - a * c) + b * (a * (a * y - b * x) - b * c) == -c * (a * a + b * b)
  {
    var k := b * x - a * y;
    assert a * (b * k - a * c) == a * b * k - a * a * c;
    assert b * (a * (-k) - b * c) == -(a * b * k) - b * b * c;
    assert a * y - b * x == -k;
  }

  /// Project: the foot of the perpendicular from target onto the line. The
  /// normal must not vanish: there the division has no real value.
  function Project(l: Line2D, target: Vector2): (r: Vector2)
    requires l.a * l.a + l.b * l.b != 0.0
    ensures Residual(l, r) == 0.0
  {
    var m2 := l.a * l.a + l.b * l.b;
    var px := l.b * (l.b * target.x - l.a * target.y) - l.a * l.c;
    var py := l.a * (l.a * target.y - l.b * target.x) - l.b * l.c;
    FootOnLine(l.a, l.b, l.c, target.x, target.y);
    Cancel(l.a, l.b, l.c, px, py, m2);
    Vector2(px / m2, py / m2)
  }

  /// A point already on the line is its own projection.
  lemma ProjectFixesPointsOnLine(l: Line2D, p: Vector2)
    requires l.a * l.a + l.b * l.b != 0.0
    requires Residual(l, p) == 0.0
    ensures Project(l, p) == p
  {
    var m2 := l.a * l.a + l.b * l.b;
    var px := l.b * (l.b * p.x - l.a * p.y) - l.a * l.c;
    var py := l.a * (l.a * p.y - l.b * p.x) - l.b * l.c;
    assert l.c == -(l.a * p.x + l.b * p.y);
    assert px == m2 * p.x;
    assert py == m2 * p.y;
  }

  lemma ProjectIdempotent(l: Line2D, t: Vector2)
    requires l.a * l.a + l.b * l.b != 0.0
    ensures Project(l, Project(l, t)) == Project(l, t)
  {
    ProjectFixesPointsOnLine(l, Project(l, t));
  }

  /// On a finite line the projection is contained in it.
  lemma ProjectLandsOnLine(l: Line2D, t: Vector2)
    requires IsFinite(l)
    ensures Contains(l, Project(l, t))
  {
  }
}
